/** Two datasets whose identifiers overlap as prefixes, `u` and `u_ext`,
    side by side in one store, each with one table holding one partition of
    one `col=val` directory: each dataset lists, loads and indexes only its
    own keys. */
module Overlap {
  import opened Bytes
  import opened Wrappers
  import Utf8
  import opened SerializationUtil
  import opened UrlEncode
  import opened Naming
  import opened Scanner
  import opened IndexBuilder
  import opened Dataset

  /** The three keys one dataset writes: its metadata document, the table's
      schema object and the partition's data file. */
  function DatasetKeys(uuid: seq<byte>, table: Table, lbl: Label): (keys: set<Key>)
    ensures forall k :: k in keys ==> OwnedBy(uuid, k)
  {
    TablePrefixInDataset(uuid, table, FileKey(uuid, table, lbl));
    assert CommonMetadataKey(uuid, table)[..|uuid| + 1] == uuid + [Slash];
    {MetadataKey(uuid), CommonMetadataKey(uuid, table), FileKey(uuid, table, lbl)}
  }

  /** In byte order the metadata document comes first (`.` sorts before `/`),
      then the schema object, then the data file of a label that sorts after
      `_common_metadata` at its first byte, as every label starting with a
      lower-case letter does. */
  lemma DatasetKeysSorted(uuid: seq<byte>, table: Table, lbl: Label)
    requires |lbl| > 0 && lbl[0] > TableMetadataFile[0]
    ensures StrictlySorted([MetadataKey(uuid), CommonMetadataKey(uuid, table), FileKey(uuid, table, lbl)])
  {
    var m := MetadataKey(uuid);
    var c := CommonMetadataKey(uuid, table);
    var f := FileKey(uuid, table, lbl);
    var dir := [Slash] + table + [Slash] + TableMetadataFile;
    assert c == uuid + dir;
    assert Below(MetadataKeySuffix(), dir);
    BelowCommonPrefix(uuid, MetadataKeySuffix(), dir);
    var p := TablePrefix(uuid, table);
    assert c == p + TableMetadataFile && f == p + (lbl + ParquetSuffix);
    assert Below(TableMetadataFile, lbl + ParquetSuffix);
    BelowCommonPrefix(p, TableMetadataFile, lbl + ParquetSuffix);
    BelowTransitive(m, c, f);
  }

  /** `storage_keys` of the first dataset in the shared store is its own
      three keys in order; none of the second dataset's keys appears. */
  lemma OverlapStorageKeys(u1: seq<byte>, u2: seq<byte>, table: Table, lbl: Label, keys: seq<Key>)
    requires Free(u1, Slash) && Free(u2, Slash) && u1 != u2
    requires |lbl| > 0 && lbl[0] > TableMetadataFile[0]
    requires StrictlySorted(keys)
    requires forall k :: k in keys <==> k in DatasetKeys(u1, table, lbl) + DatasetKeys(u2, table, lbl) && OwnedBy(u1, k)
    ensures keys == [MetadataKey(u1), CommonMetadataKey(u1, table), FileKey(u1, table, lbl)]
  {
    var expected := [MetadataKey(u1), CommonMetadataKey(u1, table), FileKey(u1, table, lbl)];
    DatasetKeysSorted(u1, table, lbl);
    forall k
      ensures k in keys <==> k in expected
    {
      if k in DatasetKeys(u2, table, lbl) {
        OwnershipDisjoint(u1, u2, k);
      }
    }
    SortedUnique(keys, expected);
  }

  /** A store holding one data file of a valid label discovers exactly that
      partition. */
  lemma SingleFilePartitions(uuid: seq<byte>, table: Table, columns: seq<Column>, lbl: Label)
    requires ValidLabel(lbl, columns)
    ensures PartitionsOf(uuid, map[table := columns], {FileKey(uuid, table, lbl)})
      == map[lbl := Partition(map[table := FileKey(uuid, table, lbl)])]
  {
    var layout := map[table := columns];
    var store := {FileKey(uuid, table, lbl)};
    var found := {(table, lbl)};
    forall t, l
      ensures (t, l) in found <==> Discovered(uuid, layout, store, t, l)
    {
      SingleFileDiscovered(uuid, table, columns, lbl, t, l);
    }
    PartitionsOfDescribes(uuid, layout, store, found);
    SingleFileDescribes(uuid, table, lbl);
    DescribesUnique(PartitionsOf(uuid, layout, store), map[lbl := Partition(map[table := FileKey(uuid, table, lbl)])], uuid, found);
  }

  lemma SingleFileDiscovered(uuid: seq<byte>, table: Table, columns: seq<Column>, lbl: Label, t: Table, l: Label)
    requires ValidLabel(lbl, columns)
    ensures (t, l) in {(table, lbl)} <==> Discovered(uuid, map[table := columns], {FileKey(uuid, table, lbl)}, t, l)
  {
    if Discovered(uuid, map[table := columns], {FileKey(uuid, table, lbl)}, t, l) {
      FileKeyInjective(uuid, table, l, lbl);
    }
  }

  lemma SingleFileDescribes(uuid: seq<byte>, table: Table, lbl: Label)
    ensures Describes(map[lbl := Partition(map[table := FileKey(uuid, table, lbl)])], uuid, {(table, lbl)})
  {
    var single := map[lbl := Partition(map[table := FileKey(uuid, table, lbl)])];
    assert table in single[lbl].files;
  }

  /** The indices of a single partition carrying one pair list that label
      under that pair's value and nothing else. */
  lemma SingleLabelIndex(parts: Partitions, lbl: Label, c: Column, v: IndexBuilder.Value)
    requires parts.Keys == {lbl} && LabelPairs(lbl) == [(c, v)]
    ensures IndexOf(parts) == map[c := map[v := {lbl}]]
  {
    SingleLabelEntries(parts, lbl, c, v);
    IndexOfSingleEntry(parts, lbl, c, v);
    SingleEntryIndex(IndexOf(parts), lbl, c, v);
  }

  lemma IndexOfSingleEntry(parts: Partitions, lbl: Label, c: Column, v: IndexBuilder.Value)
    requires EntriesOfLabels(parts.Keys) == {(c, v, lbl)}
    ensures Inverts(IndexOf(parts), {(c, v, lbl)})
  {
    IndexOfEntriesInverts(EntriesOfLabels(parts.Keys));
  }

  /** The one index recording a single entry. */
  lemma SingleEntryIndex(idx: Indices, lbl: Label, c: Column, v: IndexBuilder.Value)
    requires Inverts(idx, {(c, v, lbl)})
    ensures idx == map[c := map[v := {lbl}]]
  {
    SingleEntryInverts(c, v, lbl);
    InvertsUnique(idx, map[c := map[v := {lbl}]], {(c, v, lbl)});
  }

  lemma SingleLabelEntries(parts: Partitions, lbl: Label, c: Column, v: IndexBuilder.Value)
    requires parts.Keys == {lbl} && LabelPairs(lbl) == [(c, v)]
    ensures EntriesOfLabels(parts.Keys) == {(c, v, lbl)}
  {
    var entries := EntriesOfLabels(parts.Keys);
    forall e | e in entries
      ensures e == (c, v, lbl)
    {
      assert (e.0, e.1) in LabelPairs(e.2);
    }
    assert (c, v) in LabelPairs(lbl);
  }

  lemma SingleEntryInverts(c: Column, v: IndexBuilder.Value, lbl: Label)
    ensures Inverts(map[c := map[v := {lbl}]], {(c, v, lbl)})
  {
    var single: Indices := map[c := map[v := {lbl}]];
    assert v in single[c] && lbl in single[c][v];
  }

  /** The first dataset's partitions in the shared store: the one partition
      its table's data file gives. */
  lemma OverlapPartitions(u1: seq<byte>, u2: seq<byte>, table: Table, c: Column, lbl: Label)
    requires Free(u1, Slash) && Free(u2, Slash) && u1 != u2 && Free(table, Slash)
    requires ValidLabel(lbl, [c])
    ensures PartitionsOf(u1, map[table := [c]], DatasetKeys(u1, table, lbl) + DatasetKeys(u2, table, lbl))
      == map[lbl := Partition(map[table := FileKey(u1, table, lbl)])]
  {
    OtherDatasetIgnored(u1, u2, map[table := [c]], DatasetKeys(u1, table, lbl), DatasetKeys(u2, table, lbl));
    OwnPartitions(u1, table, c, lbl);
  }

  /** The metadata document and the schema object are garbage, leaving the
      data file alone. */
  lemma OwnPartitions(uuid: seq<byte>, table: Table, c: Column, lbl: Label)
    requires Free(uuid, Slash) && Free(table, Slash)
    requires ValidLabel(lbl, [c])
    ensures PartitionsOf(uuid, map[table := [c]], DatasetKeys(uuid, table, lbl))
      == map[lbl := Partition(map[table := FileKey(uuid, table, lbl)])]
  {
    var layout := map[table := [c]];
    var file := FileKey(uuid, table, lbl);
    var garbage := {MetadataKey(uuid), CommonMetadataKey(uuid, table)};
    MetadataGarbage(uuid, table, c, garbage);
    assert DatasetKeys(uuid, table, lbl) == {file} + garbage;
    GarbageIgnored(uuid, layout, {file}, garbage);
    SingleFilePartitions(uuid, table, [c], lbl);
  }

  lemma MetadataGarbage(uuid: seq<byte>, table: Table, c: Column, garbage: set<Key>)
    requires Free(uuid, Slash) && Free(table, Slash)
    requires garbage == {MetadataKey(uuid), CommonMetadataKey(uuid, table)}
    ensures forall k :: k in garbage ==> IsGarbage(uuid, map[table := [c]], k)
  {
    var layout := map[table := [c]];
    DocumentOutsideDirectories(uuid, uuid);
    OutsideDatasetIsGarbage(uuid, layout, MetadataKey(uuid));
    CommonMetadataIsGarbage(uuid, layout, table);
  }

  /** Loading the first dataset from the shared store and loading its
      indices yields its one partition, holding the table's data file, and
      the index listing that partition under its value. */
  lemma OverlapLoad(doc: Document, u2: seq<byte>, table: Table, c: Column, v: IndexBuilder.Value, lbl: Label,
                    layout: Layout, store: Store)
    requires Free(doc.uuid, Slash) && Free(u2, Slash) && doc.uuid != u2 && Free(table, Slash)
    requires ValidLabel(lbl, [c]) && LabelPairs(lbl) == [(c, v)]
    requires layout == map[table := [c]]
    requires store == DatasetKeys(doc.uuid, table, lbl) + DatasetKeys(u2, table, lbl)
    ensures LoadFromStore(doc.uuid, doc, layout, store).Ok?
    ensures LoadPartitionIndices(LoadFromStore(doc.uuid, doc, layout, store).value)
      == DatasetMetadata(doc.uuid, doc.version,
           map[lbl := Partition(map[table := FileKey(doc.uuid, table, lbl)])],
           map[c := map[v := {lbl}]])
  {
    var parts := map[lbl := Partition(map[table := FileKey(doc.uuid, table, lbl)])];
    assert MetadataKey(doc.uuid) in store;
    OverlapPartitions(doc.uuid, u2, table, c, lbl);
    SingleLabelIndex(parts, lbl, c, v);
    LoadKnown(doc, layout, store, parts, map[c := map[v := {lbl}]]);
  }

  /** Loading from a store whose partitions and indices are known. */
  lemma LoadKnown(doc: Document, layout: Layout, store: Store, parts: Partitions, idx: Indices)
    requires MetadataKey(doc.uuid) in store
    requires PartitionsOf(doc.uuid, layout, store) == parts && IndexOf(parts) == idx
    ensures LoadFromStore(doc.uuid, doc, layout, store).Ok?
    ensures LoadPartitionIndices(LoadFromStore(doc.uuid, doc, layout, store).value)
      == DatasetMetadata(doc.uuid, doc.version, parts, idx)
  {
  }

  /** The label `c=v/data` that `create_partition_key` writes for one pair of
      unreserved names is valid for a table partitioned on `c` and carries
      exactly that pair. */
  lemma UnreservedLabel(uuid: seq<byte>, table: Table, c: Utf8.Utf8, v: Utf8.Utf8)
    requires forall i :: 0 <= i < |c| ==> Unreserved(c[i])
    requires forall i :: 0 <= i < |v| ==> Unreserved(v[i])
    ensures var lbl := c + [EqualsSign] + v + [Slash] + DefaultFilename;
      && ValidLabel(lbl, [c]) && LabelPairs(lbl) == [(c, v)]
      && CreatePartitionKey(uuid, table, [(Text(c), Text(v))], DefaultFilename + ParquetSuffix) == Ok(FileKey(uuid, table, lbl))
  {
    var pairs := [(Text(c), Text(v))];
    PercentEncodeUnreserved(c);
    PercentEncodeUnreserved(v);
    QuoteText(c);
    QuoteText(v);
    var segment := c + [EqualsSign] + v;
    assert QuotePair(pairs[0]) == Ok(segment);
    var q := QuoteIndices(pairs).value;
    assert q == [segment];
    EnsureSinglePair(pairs, c, v);
    DefaultFilenameFree();
    CreatedKeyParses(uuid, table, pairs, DefaultFilename);
    assert [segment] + [DefaultFilename] == [segment, DefaultFilename];
    assert [segment, DefaultFilename][1..] == [DefaultFilename];
    assert Join(Slash, [segment, DefaultFilename]) == segment + [Slash] + DefaultFilename;
  }

  lemma EnsureSinglePair(pairs: seq<Pair>, c: Utf8.Utf8, v: Utf8.Utf8)
    requires pairs == [(Text(c), Text(v))]
    ensures EnsureUnicodePairs(pairs) == Ok([(c, v)])
    ensures Columns([(c, v)]) == [c]
  {
    EnsureUnicodePairsPointwise(pairs, [(c, v)]);
  }

  lemma DefaultFilenameFree()
    ensures Free(DefaultFilename, Slash)
  {
  }

  /** What one dataset of the shared store sees: the file key is the one
      `create_partition_key` writes, `storage_keys` lists the dataset's own
      three keys in order, and loading it with its indices gives the one
      partition and the index of its one pair. */
  predicate OverlapOutcome(u: seq<byte>, table: Table, c: Utf8.Utf8, v: Utf8.Utf8,
                           lbl: Label, store: Store, keys: seq<Key>, doc: Document)
  {
    && CreatePartitionKey(u, table, [(Text(c), Text(v))], DefaultFilename + ParquetSuffix) == Ok(FileKey(u, table, lbl))
    && keys == [MetadataKey(u), CommonMetadataKey(u, table), FileKey(u, table, lbl)]
    && LoadFromStore(u, doc, map[table := [c]], store).Ok?
    && LoadPartitionIndices(LoadFromStore(u, doc, map[table := [c]], store).value)
      == DatasetMetadata(u, doc.version,
           map[lbl := Partition(map[table := FileKey(u, table, lbl)])],
           map[c := map[v := {lbl}]])
  }

  /** Both halves of the shared store: for a dataset with one table
      partitioned on one unreserved column, `storage_keys` lists exactly its
      own three keys in order, the file key is the one `create_partition_key`
      writes, and loading the dataset with its indices gives that one
      partition and the index of its one pair. */
  lemma OverlapKeyspace(u: seq<byte>, other: seq<byte>, table: Table, c: Utf8.Utf8, v: Utf8.Utf8,
                        lbl: Label, store: Store, keys: seq<Key>, doc: Document)
    requires Free(u, Slash) && Free(other, Slash) && u != other && Free(table, Slash)
    requires forall i :: 0 <= i < |c| ==> Unreserved(c[i])
    requires forall i :: 0 <= i < |v| ==> Unreserved(v[i])
    requires |c| > 0 && c[0] > TableMetadataFile[0]
    requires lbl == c + [EqualsSign] + v + [Slash] + DefaultFilename
    requires store == DatasetKeys(u, table, lbl) + DatasetKeys(other, table, lbl)
    requires StrictlySorted(keys) && forall k :: k in keys <==> k in store && OwnedBy(u, k)
    requires doc.uuid == u
    ensures OverlapOutcome(u, table, c, v, lbl, store, keys, doc)
  {
    UnreservedLabel(u, table, c, v);
    assert lbl[0] == c[0];
    OverlapStorageKeys(u, other, table, lbl, keys);
    OverlapLoad(doc, other, table, c, v, lbl, map[table := [c]], store);
  }
}
