/** The store-key scanner: discovers a dataset's partitions, and which table
    holds a file for each, from the raw key listing of the store. A key
    `{uuid}/{table}/{col=val}/.../{name}.parquet` with one `col=val` segment
    per partition column of the table gives the partition label
    `{col=val}/.../{name}`; every other key is garbage and is ignored. */
module Scanner {
  import opened Bytes
  import opened Wrappers
  import Utf8
  import opened UrlEncode
  import opened Naming

  type Key = seq<byte>
  type Table = seq<byte>
  type Label = seq<byte>
  type Column = Utf8.Utf8

  /** The keys present in the store. */
  type Store = set<Key>

  /** The partition columns of each table of the dataset, in key order. */
  type Layout = map<Table, seq<Column>>

  /** One partition's `{"files": {table: key}}`. */
  datatype Partition = Partition(files: map<Table, Key>)

  /** Partition label to partition. */
  type Partitions = map<Label, Partition>

  /** The store's listing of the keys that start with `prefix`. */
  function ListKeys(store: Store, prefix: seq<byte>): (keys: set<Key>)
    ensures forall k :: k in keys <==> k in store && prefix <= k
  {
    set k | k in store && prefix <= k
  }

  /** `{uuid}/{table}/`: the directory of one table of one dataset. */
  function TablePrefix(uuid: seq<byte>, table: Table): seq<byte> {
    uuid + [Slash] + table + [Slash]
  }

  predicate IsParquetFile(name: seq<byte>) {
    |name| >= |ParquetSuffix| && name[|name| - |ParquetSuffix|..] == ParquetSuffix
  }

  /** The data file key a table holds for a partition label. */
  function FileKey(uuid: seq<byte>, table: Table, lbl: Label): Key {
    TablePrefix(uuid, table) + lbl + ParquetSuffix
  }

  /** The segments are `col=val` strings that unquote, and their columns are
      the table's partition columns in order. */
  predicate SegmentsMatch(segments: seq<seq<byte>>, columns: seq<Column>) {
    var decoded := UnquoteIndices(segments);
    |segments| == |columns| && decoded.Ok?
    && forall i :: 0 <= i < |columns| ==> decoded.value[i].0 == columns[i]
  }

  /** A label of a table with these partition columns: one matching
      `col=val` segment per column, then the file's base name. */
  predicate ValidLabel(lbl: Label, columns: seq<Column>) {
    var segments := Split(lbl, Slash);
    |segments| == |columns| + 1 && SegmentsMatch(segments[..|columns|], columns)
  }

  /** The label a key names as a file of the table, or None for garbage. */
  function ParseKey(uuid: seq<byte>, table: Table, columns: seq<Column>, key: Key): (r: Option<Label>)
    ensures r.Some? ==> key == FileKey(uuid, table, r.value) && ValidLabel(r.value, columns)
  {
    var prefix := TablePrefix(uuid, table);
    if !(prefix <= key) then None
    else
      var rest := key[|prefix|..];
      var r := ParseRest(rest, columns);
      assert key == prefix + rest;
      if r.Some? then ConcatAssoc(prefix, r.value, ParquetSuffix); r else r
  }

  /** The label the part of a key after the table prefix names, or None
      unless it is one matching `col=val` segment per column and a data
      file name. */
  function ParseRest(rest: seq<byte>, columns: seq<Column>): (r: Option<Label>)
    ensures r.Some? ==> rest == r.value + ParquetSuffix && ValidLabel(r.value, columns)
  {
    var segments := Split(rest, Slash);
    var n := |columns|;
    if |segments| != n + 1 || !IsParquetFile(segments[n]) || !SegmentsMatch(segments[..n], columns) then None
    else Some(RestLabel(rest, columns))
  }

  /** The label a key's rest spells once its segments are known to match. */
  function RestLabel(rest: seq<byte>, columns: seq<Column>): (lbl: Label)
    requires var segments := Split(rest, Slash);
      |segments| == |columns| + 1 && IsParquetFile(segments[|columns|]) && SegmentsMatch(segments[..|columns|], columns)
    ensures rest == lbl + ParquetSuffix && ValidLabel(lbl, columns)
  {
    var segments := Split(rest, Slash);
    var name := segments[|columns|];
    SegmentsLabel(rest, columns);
    Join(Slash, segments[..|columns|] + [name[..|name| - |ParquetSuffix|]])
  }

  /** A key's rest after the table prefix whose segments match the columns
      and end in a data file is the label they form plus the suffix. */
  lemma SegmentsLabel(rest: seq<byte>, columns: seq<Column>)
    requires var segments := Split(rest, Slash);
      |segments| == |columns| + 1 && IsParquetFile(segments[|columns|]) && SegmentsMatch(segments[..|columns|], columns)
    ensures var segments := Split(rest, Slash);
      var name := segments[|columns|];
      var lbl := Join(Slash, segments[..|columns|] + [name[..|name| - |ParquetSuffix|]]);
      rest == lbl + ParquetSuffix && ValidLabel(lbl, columns)
  {
    var segments := Split(rest, Slash);
    var n := |columns|;
    var name := segments[n];
    var base := name[..|name| - |ParquetSuffix|];
    var parts := segments[..n] + [base];
    DataFileBase(name);
    RejoinLastSegment(segments, base, ParquetSuffix);
    JoinSplit(rest, Slash);
    assert forall i :: 0 <= i < n ==> parts[i] == segments[i];
    SplitJoin(parts, Slash);
    assert parts[..n] == segments[..n];
  }

  /** A slash-free data file name is its slash-free base name plus the
      suffix. */
  lemma DataFileBase(name: seq<byte>)
    requires Free(name, Slash) && IsParquetFile(name)
    ensures var base := name[..|name| - |ParquetSuffix|];
      name == base + ParquetSuffix && Free(base, Slash)
  {
    var base := name[..|name| - |ParquetSuffix|];
    assert forall i :: 0 <= i < |base| ==> base[i] == name[i];
  }

  /** Joining segments whose last one ends in `t` is joining them with that
      ending cut off, then appending `t`. */
  lemma RejoinLastSegment(segments: seq<seq<byte>>, base: seq<byte>, t: seq<byte>)
    requires |segments| >= 1 && segments[|segments| - 1] == base + t
    ensures Join(Slash, segments) == Join(Slash, segments[..|segments| - 1] + [base]) + t
  {
    var parts := segments[..|segments| - 1] + [base];
    assert parts[..|parts| - 1] == segments[..|segments| - 1] && parts[|parts| - 1] == base;
    assert segments == parts[..|parts| - 1] + [parts[|parts| - 1] + t];
    JoinExtendLast(parts, t, Slash);
  }

  /** Conversely, the data file key of a valid label parses to that label. */
  lemma ParseFileKey(uuid: seq<byte>, table: Table, columns: seq<Column>, lbl: Label)
    ensures ValidLabel(lbl, columns) ==> ParseKey(uuid, table, columns, FileKey(uuid, table, lbl)) == Some(lbl)
  {
    if ValidLabel(lbl, columns) {
      ParseValidFileKey(uuid, table, columns, lbl);
    }
  }

  lemma ParseValidFileKey(uuid: seq<byte>, table: Table, columns: seq<Column>, lbl: Label)
    requires ValidLabel(lbl, columns)
    ensures ParseKey(uuid, table, columns, FileKey(uuid, table, lbl)) == Some(lbl)
  {
    var prefix := TablePrefix(uuid, table);
    var key := FileKey(uuid, table, lbl);
    ConcatAssoc(prefix, lbl, ParquetSuffix);
    assert prefix <= key && key[|prefix|..] == lbl + ParquetSuffix;
    ParseValidRest(lbl, columns);
  }

  lemma ParseValidRest(lbl: Label, columns: seq<Column>)
    requires ValidLabel(lbl, columns)
    ensures ParseRest(lbl + ParquetSuffix, columns) == Some(lbl)
  {
    var n := |columns|;
    var rest := lbl + ParquetSuffix;
    var parts := Split(lbl, Slash);
    ParquetSuffixFree();
    SplitFreeSuffix(lbl, ParquetSuffix, Slash);
    var segments := Split(rest, Slash);
    assert segments == parts[..n] + [parts[n] + ParquetSuffix];
    assert segments[..n] == parts[..n];
    var name := segments[n];
    assert name[|name| - |ParquetSuffix|..] == ParquetSuffix;
    assert name[..|name| - |ParquetSuffix|] == parts[n];
    assert parts[..n] + [parts[n]] == parts;
    JoinSplit(lbl, Slash);
  }

  /** Different labels give different file keys. */
  lemma FileKeyInjective(uuid: seq<byte>, table: Table, l1: Label, l2: Label)
    requires FileKey(uuid, table, l1) == FileKey(uuid, table, l2)
    ensures l1 == l2
  {
    var p := TablePrefix(uuid, table);
    var k := FileKey(uuid, table, l1);
    assert l1 == k[|p|..|p| + |l1|];
    assert l2 == k[|p|..|p| + |l2|];
  }

  /** Table `table` holds a data file for partition `lbl`. */
  predicate Discovered(uuid: seq<byte>, layout: Layout, store: Store, table: Table, lbl: Label) {
    table in layout && FileKey(uuid, table, lbl) in store && ValidLabel(lbl, layout[table])
  }

  /** The labels some table's key in the store names. */
  function LabelsOf(uuid: seq<byte>, layout: Layout, store: Store): set<Label> {
    set t, k | t in layout && k in store && ParseKey(uuid, t, layout[t], k).Some? :: ParseKey(uuid, t, layout[t], k).value
  }

  /** The files of one partition label, one per table holding it. */
  function FilesOf(uuid: seq<byte>, layout: Layout, store: Store, lbl: Label): map<Table, Key> {
    map t | t in layout && FileKey(uuid, t, lbl) in store && ValidLabel(lbl, layout[t]) :: FileKey(uuid, t, lbl)
  }

  /** The partitions map the scan yields, stated directly from the key set:
      the reference the scanning loop is proved against. */
  function PartitionsOf(uuid: seq<byte>, layout: Layout, store: Store): Partitions {
    map l | l in LabelsOf(uuid, layout, store) :: Partition(FilesOf(uuid, layout, store, l))
  }

  /** `parts` holds exactly the (table, label) files in `found`, each under its
      own data file key, and no partition without a file. */
  ghost predicate Describes(parts: Partitions, uuid: seq<byte>, found: set<(Table, Label)>) {
    && (forall l, t :: l in parts && t in parts[l].files ==> (t, l) in found && parts[l].files[t] == FileKey(uuid, t, l))
    && (forall t, l :: (t, l) in found ==> l in parts && t in parts[l].files)
    && (forall l :: l in parts ==> parts[l].files != map[])
  }

  lemma DescribesUnique(p1: Partitions, p2: Partitions, uuid: seq<byte>, found: set<(Table, Label)>)
    requires Describes(p1, uuid, found) && Describes(p2, uuid, found)
    ensures p1 == p2
  {
    forall l | l in p1
      ensures l in p2 && p1[l] == p2[l]
    {
      var t :| t in p1[l].files;
      assert (t, l) in found;
      assert p1[l].files == p2[l].files;
    }
    forall l | l in p2
      ensures l in p1
    {
      var t :| t in p2[l].files;
      assert (t, l) in found;
    }
  }

  lemma PartitionsOfDescribes(uuid: seq<byte>, layout: Layout, store: Store, found: set<(Table, Label)>)
    requires forall t, l :: (t, l) in found <==> Discovered(uuid, layout, store, t, l)
    ensures Describes(PartitionsOf(uuid, layout, store), uuid, found)
  {
    var parts := PartitionsOf(uuid, layout, store);
    forall t, l | (t, l) in found
      ensures l in parts && t in parts[l].files
    {
      ParseFileKey(uuid, t, layout[t], l);
      assert l in LabelsOf(uuid, layout, store);
    }
    forall l | l in parts
      ensures parts[l].files != map[]
    {
      var t, k :| t in layout && k in store && ParseKey(uuid, t, layout[t], k) == Some(l);
      assert t in parts[l].files;
    }
  }

  /** What the scan discovers: a table's file appears under a label exactly
      when that table holds the label's data file, under that file's key;
      files of several tables with the same label merge into one partition,
      and no partition is empty. */
  lemma PartitionsOfCharacterized(uuid: seq<byte>, layout: Layout, store: Store)
    ensures var parts := PartitionsOf(uuid, layout, store);
      && (forall l, t :: l in parts && t in parts[l].files <==> Discovered(uuid, layout, store, t, l))
      && (forall l, t :: l in parts && t in parts[l].files ==> parts[l].files[t] == FileKey(uuid, t, l))
      && (forall l :: l in parts ==> parts[l].files != map[])
  {
    var found := set t, k | t in layout && k in store && ParseKey(uuid, t, layout[t], k).Some? :: (t, ParseKey(uuid, t, layout[t], k).value);
    forall t, l
      ensures (t, l) in found <==> Discovered(uuid, layout, store, t, l)
    {
      if t in layout {
        ParseFileKey(uuid, t, layout[t], l);
      }
    }
    PartitionsOfDescribes(uuid, layout, store, found);
  }

  /** Adds `table`'s file `key` to the partition `lbl`. */
  function AddFile(parts: Partitions, lbl: Label, table: Table, key: Key): (r: Partitions)
    ensures r.Keys == parts.Keys + {lbl}
    ensures r[lbl].files == (if lbl in parts then parts[lbl].files else map[])[table := key]
    ensures forall l :: l in parts && l != lbl ==> r[l] == parts[l]
  {
    var files := if lbl in parts then parts[lbl].files else map[];
    parts[lbl := Partition(files[table := key])]
  }

  lemma AddFileDescribes(parts: Partitions, uuid: seq<byte>, found: set<(Table, Label)>, table: Table, lbl: Label)
    requires Describes(parts, uuid, found)
    ensures Describes(AddFile(parts, lbl, table, FileKey(uuid, table, lbl)), uuid, found + {(table, lbl)})
  {
    AddFileSound(parts, uuid, found, table, lbl);
    AddFileComplete(parts, uuid, found, table, lbl);
    AddFileNonEmpty(parts, uuid, found, table, lbl);
  }

  /** Every file of the extended partitions was found, under its own key. */
  lemma AddFileSound(parts: Partitions, uuid: seq<byte>, found: set<(Table, Label)>, table: Table, lbl: Label)
    requires Describes(parts, uuid, found)
    ensures var r := AddFile(parts, lbl, table, FileKey(uuid, table, lbl));
      forall l, t :: l in r && t in r[l].files ==> (t, l) in found + {(table, lbl)} && r[l].files[t] == FileKey(uuid, t, l)
  {
    var r := AddFile(parts, lbl, table, FileKey(uuid, table, lbl));
    forall l, t | l in r && t in r[l].files
      ensures (t, l) in found + {(table, lbl)} && r[l].files[t] == FileKey(uuid, t, l)
    {
      if l != lbl {
        assert r[l] == parts[l];
      } else if t != table {
        assert t in parts[lbl].files;
      }
    }
  }

  /** Every file found, the added one included, is in the extended partitions. */
  lemma AddFileComplete(parts: Partitions, uuid: seq<byte>, found: set<(Table, Label)>, table: Table, lbl: Label)
    requires Describes(parts, uuid, found)
    ensures var r := AddFile(parts, lbl, table, FileKey(uuid, table, lbl));
      forall t, l :: (t, l) in found + {(table, lbl)} ==> l in r && t in r[l].files
  {
    var r := AddFile(parts, lbl, table, FileKey(uuid, table, lbl));
    forall t, l | (t, l) in found + {(table, lbl)}
      ensures l in r && t in r[l].files
    {
      if (t, l) != (table, lbl) {
        assert (t, l) in found;
      }
    }
  }

  /** No partition of the extended partitions is empty. */
  lemma AddFileNonEmpty(parts: Partitions, uuid: seq<byte>, found: set<(Table, Label)>, table: Table, lbl: Label)
    requires Describes(parts, uuid, found)
    ensures var r := AddFile(parts, lbl, table, FileKey(uuid, table, lbl));
      forall l :: l in r ==> r[l].files != map[]
  {
    var r := AddFile(parts, lbl, table, FileKey(uuid, table, lbl));
    forall l | l in r
      ensures r[l].files != map[]
    {
      if l == lbl {
        assert table in r[l].files;
      } else {
        assert r[l] == parts[l];
      }
    }
  }

  /** The keys listed under one table's directory, each parsed and added. */
  method ScanTable(uuid: seq<byte>, layout: Layout, store: Store, table: Table, parts0: Partitions,
                   ghost found0: set<(Table, Label)>, ghost done: set<Table>)
    returns (parts: Partitions, ghost found: set<(Table, Label)>)
    requires table in layout && table !in done
    requires Describes(parts0, uuid, found0)
    requires forall t, l :: (t, l) in found0 <==> t in done && Discovered(uuid, layout, store, t, l)
    ensures Describes(parts, uuid, found)
    ensures forall t, l :: (t, l) in found <==> (t in done || t == table) && Discovered(uuid, layout, store, t, l)
    ensures forall l, t :: l in parts && t in parts[l].files <==> (t in done || t == table) && Discovered(uuid, layout, store, t, l)
  {
    parts, found := parts0, found0;
    var columns := layout[table];
    var listed := ListKeys(store, TablePrefix(uuid, table));
    var keys := listed;
    while keys != {}
      invariant keys <= listed
      invariant Describes(parts, uuid, found)
      invariant forall t, l :: (t, l) in found <==>
        (t in done && Discovered(uuid, layout, store, t, l))
        || (t == table && Discovered(uuid, layout, store, t, l) && FileKey(uuid, t, l) !in keys)
      decreases keys
    {
      var key :| key in keys;
      var parsed := ParseKey(uuid, table, columns, key);
      if parsed.Some? {
        var lbl := parsed.value;
        forall l | FileKey(uuid, table, l) == key
          ensures l == lbl
        {
          FileKeyInjective(uuid, table, l, lbl);
        }
        AddFileDescribes(parts, uuid, found, table, lbl);
        parts := AddFile(parts, lbl, table, key);
        found := found + {(table, lbl)};
      } else {
        forall l | FileKey(uuid, table, l) == key
          ensures !ValidLabel(l, columns)
        {
          ParseFileKey(uuid, table, columns, l);
        }
      }
      keys := keys - {key};
    }
  }

  /** The scan as the store is read: for each table, every key listed under
      the table's directory, adding each key that parses to its label. The
      result does not depend on the order in which either is enumerated. */
  method DiscoverPartitions(uuid: seq<byte>, layout: Layout, store: Store) returns (parts: Partitions)
    ensures parts == PartitionsOf(uuid, layout, store)
  {
    parts := map[];
    ghost var found: set<(Table, Label)> := {};
    var todo := layout.Keys;
    while todo != {}
      invariant todo <= layout.Keys
      invariant Describes(parts, uuid, found)
      invariant forall t, l :: (t, l) in found <==> t in layout.Keys - todo && Discovered(uuid, layout, store, t, l)
      decreases todo
    {
      var table :| table in todo;
      parts, found := ScanTable(uuid, layout, store, table, parts, found, layout.Keys - todo);
      todo := todo - {table};
    }
    PartitionsOfDescribes(uuid, layout, store, found);
    DescribesUnique(parts, PartitionsOf(uuid, layout, store), uuid, found);
  }

  /** No table of the layout reads the key as one of its data files. */
  predicate IsGarbage(uuid: seq<byte>, layout: Layout, key: Key) {
    forall t :: t in layout ==> ParseKey(uuid, t, layout[t], key).None?
  }

  /** Garbage immunity: keys no table reads leave the partitions unchanged. */
  lemma GarbageIgnored(uuid: seq<byte>, layout: Layout, store: Store, garbage: set<Key>)
    requires forall k :: k in garbage ==> IsGarbage(uuid, layout, k)
    ensures PartitionsOf(uuid, layout, store + garbage) == PartitionsOf(uuid, layout, store)
  {
    var big := store + garbage;
    var found := set t, k | t in layout && k in store && ParseKey(uuid, t, layout[t], k).Some? :: (t, ParseKey(uuid, t, layout[t], k).value);
    forall t, l
      ensures (t, l) in found <==> Discovered(uuid, layout, big, t, l)
      ensures (t, l) in found <==> Discovered(uuid, layout, store, t, l)
    {
      if t in layout {
        ParseFileKey(uuid, t, layout[t], l);
        var k := FileKey(uuid, t, l);
        if k in store && ValidLabel(l, layout[t]) {
          assert ParseKey(uuid, t, layout[t], k).value == l;
        }
      }
    }
    PartitionsOfDescribes(uuid, layout, store, found);
    PartitionsOfDescribes(uuid, layout, big, found);
    DescribesUnique(PartitionsOf(uuid, layout, big), PartitionsOf(uuid, layout, store), uuid, found);
  }

  /** A table directory starts with the dataset directory. */
  lemma TablePrefixInDataset(uuid: seq<byte>, table: Table, key: Key)
    ensures TablePrefix(uuid, table) <= key ==> uuid + [Slash] <= key
  {
    assert (uuid + [Slash] + table + [Slash])[..|uuid| + 1] == uuid + [Slash];
  }

  /** Keys outside `{uuid}/` are garbage. */
  lemma OutsideDatasetIsGarbage(uuid: seq<byte>, layout: Layout, key: Key)
    requires !(uuid + [Slash] <= key)
    ensures IsGarbage(uuid, layout, key)
  {
    forall t | t in layout
      ensures ParseKey(uuid, t, layout[t], key).None?
    {
      TablePrefixInDataset(uuid, t, key);
    }
  }

  /** Keys directly under `{uuid}/`, in no table directory, are garbage. */
  lemma DirectlyUnderDatasetIsGarbage(uuid: seq<byte>, layout: Layout, name: seq<byte>)
    requires Free(name, Slash)
    ensures IsGarbage(uuid, layout, uuid + [Slash] + name)
  {
    var key := uuid + [Slash] + name;
    forall t | t in layout
      ensures ParseKey(uuid, t, layout[t], key).None?
    {
      var p := TablePrefix(uuid, t);
      if |p| <= |key| {
        assert key[|p| - 1] == name[|t|];
        assert p[|p| - 1] == Slash;
      }
    }
  }

  /** In a key under two table directories, the slash-free table names align. */
  lemma TablesAlign(uuid: seq<byte>, t1: Table, t2: Table, key: Key)
    requires Free(t2, Slash)
    ensures TablePrefix(uuid, t1) <= key && uuid + [Slash] + t2 <= key ==> |t2| <= |t1|
  {
    var o := |uuid| + 1;
    if |t1| < |t2| && o + |t2| <= |key| {
      assert TablePrefix(uuid, t1) <= key ==> key[o + |t1|] == Slash;
      assert uuid + [Slash] + t2 <= key ==> key[o + |t1|] == t2[|t1|];
    }
  }

  lemma SameTable(uuid: seq<byte>, t1: Table, t2: Table, key: Key)
    ensures uuid + [Slash] + t1 <= key && uuid + [Slash] + t2 <= key && |t1| == |t2| ==> t1 == t2
  {
    var o := |uuid| + 1;
    if o + |t1| <= |key| {
      assert uuid + [Slash] + t1 <= key ==> t1 == key[o..o + |t1|];
      assert uuid + [Slash] + t2 <= key && |t1| == |t2| ==> t2 == key[o..o + |t1|];
    }
  }

  lemma TableDirectoryPrefix(uuid: seq<byte>, table: Table, key: Key)
    ensures TablePrefix(uuid, table) <= key ==> uuid + [Slash] + table <= key
  {
    assert TablePrefix(uuid, table)[..|uuid| + 1 + |table|] == uuid + [Slash] + table;
  }

  /** Directories of different slash-free tables hold no common key. */
  lemma TableDirectoriesDisjoint(uuid: seq<byte>, t1: Table, t2: Table, key: Key)
    requires Free(t1, Slash) && Free(t2, Slash) && t1 != t2
    ensures !(TablePrefix(uuid, t1) <= key && TablePrefix(uuid, t2) <= key)
  {
    TableDirectoryPrefix(uuid, t1, key);
    TableDirectoryPrefix(uuid, t2, key);
    TablesAlign(uuid, t1, t2, key);
    TablesAlign(uuid, t2, t1, key);
    SameTable(uuid, t1, t2, key);
  }

  predicate TableNamesFree(layout: Layout) {
    forall t :: t in layout ==> Free(t, Slash)
  }

  /** A key in the directory of `table` is garbage for every other table. */
  lemma OtherTablesIgnore(uuid: seq<byte>, layout: Layout, table: Table, rest: seq<byte>, t: Table)
    requires TableNamesFree(layout) && Free(table, Slash) && t in layout && t != table
    ensures ParseKey(uuid, t, layout[t], TablePrefix(uuid, table) + rest).None?
  {
    TableDirectoriesDisjoint(uuid, t, table, TablePrefix(uuid, table) + rest);
  }

  /** Keys in a table directory with fewer `col=val` directories than the
      table has partition columns are garbage; with no directories at all this
      is a key directly under the table. */
  lemma TooFewSegmentsIsGarbage(uuid: seq<byte>, layout: Layout, table: Table,
                                segments: seq<seq<byte>>, name: seq<byte>)
    requires TableNamesFree(layout) && table in layout
    requires forall i :: 0 <= i < |segments| ==> Free(segments[i], Slash)
    requires Free(name, Slash)
    requires |segments| < |layout[table]|
    ensures IsGarbage(uuid, layout, TablePrefix(uuid, table) + Join(Slash, segments + [name]))
  {
    var rest := Join(Slash, segments + [name]);
    var key := TablePrefix(uuid, table) + rest;
    forall t | t in layout
      ensures ParseKey(uuid, t, layout[t], key).None?
    {
      if t == table {
        TooFewSegmentsNone(uuid, table, layout[t], segments, name);
      } else {
        OtherTablesIgnore(uuid, layout, table, rest, t);
      }
    }
  }

  lemma TooFewSegmentsNone(uuid: seq<byte>, table: Table, columns: seq<Column>,
                           segments: seq<seq<byte>>, name: seq<byte>)
    requires forall i :: 0 <= i < |segments| ==> Free(segments[i], Slash)
    requires Free(name, Slash)
    requires |segments| < |columns|
    ensures ParseKey(uuid, table, columns, TablePrefix(uuid, table) + Join(Slash, segments + [name])).None?
  {
    var rest := Join(Slash, segments + [name]);
    var prefix := TablePrefix(uuid, table);
    var key := prefix + rest;
    assert prefix <= key && key[|prefix|..] == rest;
    SplitJoin(segments + [name], Slash);
    assert ParseRest(rest, columns).None?;
  }

  /** A table's schema object is not a partition file. */
  lemma CommonMetadataIsGarbage(uuid: seq<byte>, layout: Layout, table: Table)
    requires TableNamesFree(layout) && Free(table, Slash)
    ensures IsGarbage(uuid, layout, CommonMetadataKey(uuid, table))
  {
    var key := CommonMetadataKey(uuid, table);
    assert key == TablePrefix(uuid, table) + TableMetadataFile;
    forall t | t in layout
      ensures ParseKey(uuid, t, layout[t], key).None?
    {
      if t == table {
        assert key[|TablePrefix(uuid, table)|..] == TableMetadataFile;
        SplitFree(TableMetadataFile, Slash);
        assert !IsParquetFile(TableMetadataFile);
      } else {
        OtherTablesIgnore(uuid, layout, table, TableMetadataFile, t);
      }
    }
  }

  /** Namespace isolation of the scan: keys owned by another slash-free
      dataset, even one whose identifier extends this one, change nothing. */
  lemma OtherDatasetIgnored(u1: seq<byte>, u2: seq<byte>, layout: Layout, store: Store, other: set<Key>)
    requires Free(u1, Slash) && Free(u2, Slash) && u1 != u2
    requires forall k :: k in other ==> OwnedBy(u2, k)
    ensures PartitionsOf(u1, layout, store + other) == PartitionsOf(u1, layout, store)
  {
    forall k | k in other
      ensures IsGarbage(u1, layout, k)
    {
      OwnershipDisjoint(u1, u2, k);
      OutsideDatasetIsGarbage(u1, layout, k);
    }
    GarbageIgnored(u1, layout, store, other);
  }

  /** Every discovered file is a key of the store that the dataset owns. */
  lemma PartitionFilesOwned(uuid: seq<byte>, layout: Layout, store: Store)
    ensures forall l, t :: l in PartitionsOf(uuid, layout, store) && t in PartitionsOf(uuid, layout, store)[l].files ==>
      var key := PartitionsOf(uuid, layout, store)[l].files[t];
      key in store && OwnedBy(uuid, key)
  {
    PartitionsOfCharacterized(uuid, layout, store);
    forall l, t | l in PartitionsOf(uuid, layout, store) && t in PartitionsOf(uuid, layout, store)[l].files
      ensures OwnedBy(uuid, FileKey(uuid, t, l))
    {
      TablePrefixInDataset(uuid, t, FileKey(uuid, t, l));
    }
  }

  /** The columns of a sequence of text pairs. */
  function Columns(pairs: seq<TextPair>): (columns: seq<Column>)
    ensures |columns| == |pairs|
    ensures forall i :: 0 <= i < |pairs| ==> columns[i] == pairs[i].0
  {
    seq(|pairs|, i requires 0 <= i < |pairs| => pairs[i].0)
  }

  /** The unquoted `(column, value)` pairs a label carries. */
  function LabelPairs(lbl: Label): seq<TextPair> {
    var segments := Split(lbl, Slash);
    match UnquoteIndices(segments[..|segments| - 1])
    case Ok(pairs) => pairs
    case Err(_) => []
  }

  /** A valid label carries one pair per partition column, in column order. */
  lemma ValidLabelPairs(lbl: Label, columns: seq<Column>)
    requires ValidLabel(lbl, columns)
    ensures Columns(LabelPairs(lbl)) == columns
  {
  }

  /** A created key lies in the table's directory, the rest joined at `/`. */
  lemma CreatedKeyShape(uuid: seq<byte>, table: Table, pairs: seq<Pair>, filename: seq<byte>)
    requires CreatePartitionKey(uuid, table, pairs, filename).Ok?
    ensures CreatePartitionKey(uuid, table, pairs, filename).value
      == TablePrefix(uuid, table) + Join(Slash, QuoteIndices(pairs).value + [filename])
  {
    JoinPrefixTwo(Slash, uuid, table, QuoteIndices(pairs).value + [filename]);
  }

  /** The scanner reads exactly what `create_partition_key` writes: a key
      created with a `.parquet` filename is the data file of the label made
      of its quoted segments and the filename's base, that label is valid for
      a table partitioned on the pairs' columns, and it carries the pairs. */
  lemma CreatedKeyParses(uuid: seq<byte>, table: Table, pairs: seq<Pair>, base: seq<byte>)
    requires CreatePartitionKey(uuid, table, pairs, base + ParquetSuffix).Ok?
    requires Free(base, Slash)
    ensures var segments := QuoteIndices(pairs).value;
      var lbl := Join(Slash, segments + [base]);
      var text := EnsureUnicodePairs(pairs).value;
      && CreatePartitionKey(uuid, table, pairs, base + ParquetSuffix).value == FileKey(uuid, table, lbl)
      && ValidLabel(lbl, Columns(text))
      && LabelPairs(lbl) == text
  {
    var segments := QuoteIndices(pairs).value;
    var parts := segments + [base];
    var lbl := Join(Slash, parts);
    var text := EnsureUnicodePairs(pairs).value;
    CreatedKeyShape(uuid, table, pairs, base + ParquetSuffix);
    assert parts[..|parts| - 1] + [parts[|parts| - 1] + ParquetSuffix] == segments + [base + ParquetSuffix];
    JoinExtendLast(parts, ParquetSuffix, Slash);
    SplitJoin(parts, Slash);
    assert Split(lbl, Slash)[..|segments|] == segments;
    UnquoteQuoteIndices(pairs);
  }
}
