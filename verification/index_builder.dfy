/** The secondary-index builder: inverts the discovered partitions into
    `indices[column][value]`, the set of partition labels whose `col=val`
    segments carry that pair. Column and value are unquoted text; the labels
    keep their quoted form. The order of a label list is unspecified, so the
    lists are sets here. */
module IndexBuilder {
  import opened Bytes
  import Utf8
  import opened UrlEncode
  import opened Scanner

  type Value = Utf8.Utf8

  /** Value to the labels carrying it, for one column. */
  type Index = map<Value, set<Label>>

  /** Column to its index. */
  type Indices = map<Column, Index>

  /** One `(column, value, label)` fact an index records. */
  type Entry = (Column, Value, Label)

  /** `idx` records exactly the entries in `entries`, and holds no empty
      label set. */
  ghost predicate Inverts(idx: Indices, entries: set<Entry>) {
    && (forall c, v, l :: c in idx && v in idx[c] && l in idx[c][v] <==> (c, v, l) in entries)
    && (forall c, v :: c in idx && v in idx[c] ==> idx[c][v] != {})
    && (forall c :: c in idx ==> idx[c] != map[])
  }

  /** At most one index records a given set of entries. */
  lemma InvertsUnique(i1: Indices, i2: Indices, entries: set<Entry>)
    requires Inverts(i1, entries) && Inverts(i2, entries)
    ensures i1 == i2
  {
    forall c | c in i1
      ensures c in i2 && i1[c] == i2[c]
    {
      InvertsSameColumn(i1, i2, entries, c);
    }
    forall c | c in i2
      ensures c in i1
    {
      InvertsSameColumn(i2, i1, entries, c);
    }
  }

  lemma InvertsSameColumn(i1: Indices, i2: Indices, entries: set<Entry>, c: Column)
    requires Inverts(i1, entries) && Inverts(i2, entries) && c in i1
    ensures c in i2 && i1[c] == i2[c]
  {
    var v :| v in i1[c];
    InvertsSameValue(i1, i2, entries, c, v);
    forall v | v in i1[c]
      ensures v in i2[c] && i1[c][v] == i2[c][v]
    {
      InvertsSameValue(i1, i2, entries, c, v);
    }
    forall v | v in i2[c]
      ensures v in i1[c]
    {
      InvertsSameValue(i2, i1, entries, c, v);
    }
  }

  lemma InvertsSameValue(i1: Indices, i2: Indices, entries: set<Entry>, c: Column, v: Value)
    requires Inverts(i1, entries) && Inverts(i2, entries) && c in i1 && v in i1[c]
    ensures c in i2 && v in i2[c] && i1[c][v] == i2[c][v]
  {
    var l :| l in i1[c][v];
    assert (c, v, l) in entries;
    forall l | l in i1[c][v]
      ensures l in i2[c][v]
    {
      assert (c, v, l) in entries;
    }
    forall l | l in i2[c][v]
      ensures l in i1[c][v]
    {
      assert (c, v, l) in entries;
    }
  }

  /** The entries a set of labels gives: each label with each of its pairs;
      those of the partitions are `EntriesOfLabels(parts.Keys)`. */
  function EntriesOfLabels(labels: set<Label>): (entries: set<Entry>)
    ensures forall c, v, l :: (c, v, l) in entries <==> l in labels && (c, v) in LabelPairs(l)
  {
    set l, p | l in labels && p in LabelPairs(l) :: (p.0, p.1, l)
  }

  /** The index a set of entries gives, stated directly: the reference the
      building loop is proved against. */
  function IndexOfEntries(entries: set<Entry>): Indices {
    var columns := set e | e in entries :: e.0;
    map c | c in columns ::
      var values := set e | e in entries && e.0 == c :: e.1;
      map v | v in values :: set e | e in entries && e.0 == c && e.1 == v :: e.2
  }

  lemma IndexOfEntriesInverts(entries: set<Entry>)
    ensures Inverts(IndexOfEntries(entries), entries)
  {
    var idx := IndexOfEntries(entries);
    forall c, v, l | (c, v, l) in entries
      ensures c in idx && v in idx[c] && l in idx[c][v]
    {
      var e := (c, v, l);
      assert e.0 == c && e.1 == v && e.2 == l;
    }
    forall c, v | c in idx && v in idx[c]
      ensures idx[c][v] != {}
    {
      var e :| e in entries && e.0 == c && e.1 == v;
      assert e.2 in idx[c][v];
    }
    forall c | c in idx
      ensures idx[c] != map[]
    {
      var e :| e in entries && e.0 == c;
      assert e.1 in idx[c];
    }
  }

  /** The indices `load_partition_indices` derives from the partitions. */
  function IndexOf(parts: Partitions): Indices {
    IndexOfEntries(EntriesOfLabels(parts.Keys))
  }

  /** Index soundness and completeness: a label is listed under a column's
      value exactly when it is a partition label carrying that pair; no column
      and no value is listed without a label. */
  lemma IndexOfCharacterized(parts: Partitions)
    ensures var idx := IndexOf(parts);
      && (forall c, v, l :: c in idx && v in idx[c] && l in idx[c][v] <==> l in parts && (c, v) in LabelPairs(l))
      && (forall c, v :: c in idx && v in idx[c] ==> idx[c][v] != {})
      && (forall c :: c in idx ==> idx[c] != map[])
  {
    var entries := EntriesOfLabels(parts.Keys);
    var idx := IndexOf(parts);
    IndexOfEntriesInverts(entries);
    forall c, v, l
      ensures c in idx && v in idx[c] && l in idx[c][v] <==> l in parts && (c, v) in LabelPairs(l)
    {
      assert (c, v, l) in entries <==> l in parts && (c, v) in LabelPairs(l);
    }
  }

  /** Records label `lbl` under value `v` of column `c`. */
  function Insert(idx: Indices, c: Column, v: Value, lbl: Label): (r: Indices)
    ensures r.Keys == idx.Keys + {c}
    ensures r[c].Keys == (if c in idx then idx[c].Keys else {}) + {v}
    ensures r[c][v] == (if c in idx && v in idx[c] then idx[c][v] else {}) + {lbl}
    ensures forall v' :: c in idx && v' in idx[c] && v' != v ==> r[c][v'] == idx[c][v']
    ensures forall c' :: c' in idx && c' != c ==> r[c'] == idx[c']
  {
    var index: Index := if c in idx then idx[c] else map[];
    var labels := if v in index then index[v] else {};
    idx[c := index[v := labels + {lbl}]]
  }

  lemma InsertInverts(idx: Indices, entries: set<Entry>, c: Column, v: Value, lbl: Label)
    requires Inverts(idx, entries)
    ensures Inverts(Insert(idx, c, v, lbl), entries + {(c, v, lbl)})
  {
    var r := Insert(idx, c, v, lbl);
    var more := entries + {(c, v, lbl)};
    forall c', v', l'
      ensures c' in r && v' in r[c'] && l' in r[c'][v'] <==> (c', v', l') in more
    {
      InsertEntry(idx, entries, c, v, lbl, c', v', l');
    }
    InsertNonEmpty(idx, entries, c, v, lbl);
  }

  /** One entry is recorded by the extended index exactly when it is the
      inserted one or was recorded before. */
  lemma InsertEntry(idx: Indices, entries: set<Entry>, c: Column, v: Value, lbl: Label, c': Column, v': Value, l': Label)
    requires Inverts(idx, entries)
    ensures var r := Insert(idx, c, v, lbl);
      c' in r && v' in r[c'] && l' in r[c'][v'] <==> (c', v', l') in entries + {(c, v, lbl)}
  {
    var r := Insert(idx, c, v, lbl);
    if c' == c && v' == v {
    } else if c' == c {
    } else {
      assert c' in r <==> c' in idx;
    }
  }

  /** Inserting keeps every index and every label set of the indices
      non-empty. */
  lemma InsertNonEmpty(idx: Indices, entries: set<Entry>, c: Column, v: Value, lbl: Label)
    requires Inverts(idx, entries)
    ensures var r := Insert(idx, c, v, lbl);
      && (forall c', v' :: c' in r && v' in r[c'] ==> r[c'][v'] != {})
      && (forall c' :: c' in r ==> r[c'] != map[])
  {
    var r := Insert(idx, c, v, lbl);
    assert v in r[c];
  }

  /** The entries of the first `j` pairs of a pair list, all with label
      `lbl`. */
  function PairEntries(pairs: seq<(Column, Value)>, lbl: Label, j: nat): (entries: set<Entry>)
    requires j <= |pairs|
    ensures forall c, v, l :: (c, v, l) in entries <==> l == lbl && (c, v) in pairs[..j]
  {
    set p | p in pairs[..j] :: (p.0, p.1, lbl)
  }

  lemma PairEntriesStep(pairs: seq<(Column, Value)>, lbl: Label, j: nat)
    requires j < |pairs|
    ensures PairEntries(pairs, lbl, j + 1) == PairEntries(pairs, lbl, j) + {(pairs[j].0, pairs[j].1, lbl)}
  {
    assert pairs[..j + 1] == pairs[..j] + [pairs[j]];
  }

  /** Records every pair of one label. */
  method IndexLabel(idx0: Indices, lbl: Label, ghost entries: set<Entry>) returns (idx: Indices)
    requires Inverts(idx0, entries)
    ensures Inverts(idx, entries + PairEntries(LabelPairs(lbl), lbl, |LabelPairs(lbl)|))
  {
    idx := idx0;
    var pairs := LabelPairs(lbl);
    var j := 0;
    assert PairEntries(pairs, lbl, 0) == {};
    while j < |pairs|
      invariant j <= |pairs|
      invariant Inverts(idx, entries + PairEntries(pairs, lbl, j))
    {
      InsertInverts(idx, entries + PairEntries(pairs, lbl, j), pairs[j].0, pairs[j].1, lbl);
      idx := Insert(idx, pairs[j].0, pairs[j].1, lbl);
      PairEntriesStep(pairs, lbl, j);
      j := j + 1;
    }
  }

  lemma EntriesOfLabelsAdd(done: set<Label>, lbl: Label)
    ensures EntriesOfLabels(done + {lbl}) == EntriesOfLabels(done) + PairEntries(LabelPairs(lbl), lbl, |LabelPairs(lbl)|)
  {
    var pairs := LabelPairs(lbl);
    assert pairs[..|pairs|] == pairs;
    var lhs := EntriesOfLabels(done + {lbl});
    var rhs := EntriesOfLabels(done) + PairEntries(pairs, lbl, |pairs|);
    forall e | e in lhs
      ensures e in rhs
    {
      assert e == (e.0, e.1, e.2);
    }
    forall e | e in rhs
      ensures e in lhs
    {
      assert e == (e.0, e.1, e.2);
    }
  }

  /** Builds the indices label by label and pair by pair. */
  method BuildIndices(parts: Partitions) returns (idx: Indices)
    ensures idx == IndexOf(parts)
  {
    idx := map[];
    var todo := parts.Keys;
    ghost var done: set<Label> := {};
    while todo != {}
      invariant todo !! done && todo + done == parts.Keys
      invariant Inverts(idx, EntriesOfLabels(done))
      decreases |todo|
    {
      var lbl :| lbl in todo;
      idx := IndexLabel(idx, lbl, EntriesOfLabels(done));
      EntriesOfLabelsAdd(done, lbl);
      todo := todo - {lbl};
      done := done + {lbl};
    }
    assert done == parts.Keys;
    IndexOfEntriesInverts(EntriesOfLabels(parts.Keys));
    InvertsUnique(idx, IndexOf(parts), EntriesOfLabels(parts.Keys));
  }

  /** The indices of a discovered dataset: a label is listed under a value of
      a column exactly when some table holds that label's data file and the
      label carries the pair; its columns are then that table's partition
      columns. */
  lemma DiscoveredIndices(uuid: seq<byte>, layout: Layout, store: Store)
    ensures var idx := IndexOf(PartitionsOf(uuid, layout, store));
      forall c, v, l :: c in idx && v in idx[c] && l in idx[c][v] <==>
        (exists t :: Discovered(uuid, layout, store, t, l)) && (c, v) in LabelPairs(l)
    ensures forall t, l, i :: Discovered(uuid, layout, store, t, l) && 0 <= i < |LabelPairs(l)| ==>
      LabelPairs(l)[i].0 == layout[t][i]
  {
    DiscoveredIndexEntries(uuid, layout, store);
    DiscoveredLabelColumns(uuid, layout, store);
  }

  lemma DiscoveredIndexEntries(uuid: seq<byte>, layout: Layout, store: Store)
    ensures var idx := IndexOf(PartitionsOf(uuid, layout, store));
      forall c, v, l :: c in idx && v in idx[c] && l in idx[c][v] <==>
        (exists t :: Discovered(uuid, layout, store, t, l)) && (c, v) in LabelPairs(l)
  {
    var parts := PartitionsOf(uuid, layout, store);
    IndexOfCharacterized(parts);
    PartitionsOfCharacterized(uuid, layout, store);
    forall l | l in parts
      ensures exists t :: Discovered(uuid, layout, store, t, l)
    {
      var t :| t in parts[l].files;
    }
  }

  lemma DiscoveredLabelColumns(uuid: seq<byte>, layout: Layout, store: Store)
    ensures forall t, l, i :: Discovered(uuid, layout, store, t, l) && 0 <= i < |LabelPairs(l)| ==>
      LabelPairs(l)[i].0 == layout[t][i]
  {
    forall t, l | Discovered(uuid, layout, store, t, l)
      ensures Columns(LabelPairs(l)) == layout[t]
    {
      ValidLabelPairs(l, layout[t]);
    }
  }
}
