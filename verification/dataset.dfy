/** The dataset metadata model: loading a dataset from its metadata document
    and the store's keys, resolving its indices, and `storage_keys`, the
    sorted listing of every key the dataset owns. */
module Dataset {
  import opened Bytes
  import opened Wrappers
  import opened Naming
  import opened Scanner
  import opened IndexBuilder

  /** The fields of the metadata document the model reads. */
  datatype Document = Document(uuid: seq<byte>, version: int)

  /** A loaded dataset: what `to_dict()` reports under `partitions` and
      `indices`, besides identifier and metadata version. */
  datatype DatasetMetadata = DatasetMetadata(uuid: seq<byte>, version: int, partitions: Partitions, indices: Indices)

  datatype LoadError = NotFound(key: Key)

  /** `load_from_dict`: the dataset of a metadata document listing no
      partitions. Its partitions are discovered from the store's keys; its
      indices stay empty until they are loaded. */
  function LoadFromDict(doc: Document, layout: Layout, store: Store): (dmd: DatasetMetadata)
    ensures dmd.uuid == doc.uuid && dmd.version == doc.version && dmd.indices == map[]
    ensures forall l, t :: l in dmd.partitions && t in dmd.partitions[l].files <==> Discovered(doc.uuid, layout, store, t, l)
    ensures forall l, t :: l in dmd.partitions && t in dmd.partitions[l].files ==> dmd.partitions[l].files[t] == FileKey(doc.uuid, t, l)
    ensures forall l :: l in dmd.partitions ==> dmd.partitions[l].files != map[]
  {
    PartitionsOfCharacterized(doc.uuid, layout, store);
    DatasetMetadata(doc.uuid, doc.version, PartitionsOf(doc.uuid, layout, store), map[])
  }

  /** `load_from_store`: `doc` is the content of the dataset's metadata
      document; when that key is missing from the store the dataset cannot be
      loaded. */
  function LoadFromStore(uuid: seq<byte>, doc: Document, layout: Layout, store: Store): (r: Result<DatasetMetadata, LoadError>)
    ensures r.Err? <==> MetadataKey(uuid) !in store
    ensures r.Err? ==> r.error == NotFound(MetadataKey(uuid))
    ensures r.Ok? ==> r.value == LoadFromDict(doc, layout, store)
  {
    if MetadataKey(uuid) !in store then Err(NotFound(MetadataKey(uuid)))
    else Ok(LoadFromDict(doc, layout, store))
  }

  /** `load_partition_indices`: fills the indices from the partitions and
      changes nothing else. */
  function LoadPartitionIndices(dmd: DatasetMetadata): (r: DatasetMetadata)
    ensures r.uuid == dmd.uuid && r.version == dmd.version && r.partitions == dmd.partitions
    ensures forall c, v, l :: c in r.indices && v in r.indices[c] && l in r.indices[c][v] <==>
      l in dmd.partitions && (c, v) in LabelPairs(l)
    ensures forall c, v :: c in r.indices && v in r.indices[c] ==> r.indices[c][v] != {}
    ensures forall c :: c in r.indices ==> r.indices[c] != map[]
  {
    IndexOfCharacterized(dmd.partitions);
    dmd.(indices := IndexOf(dmd.partitions))
  }

  /** Loading the indices again changes nothing. */
  lemma LoadPartitionIndicesIdempotent(dmd: DatasetMetadata)
    ensures LoadPartitionIndices(LoadPartitionIndices(dmd)) == LoadPartitionIndices(dmd)
  {
  }

  /** The loop that builds the indices computes what `LoadPartitionIndices`
      states. */
  method ResolveIndices(dmd: DatasetMetadata) returns (r: DatasetMetadata)
    ensures r == LoadPartitionIndices(dmd)
  {
    var idx := BuildIndices(dmd.partitions);
    r := dmd.(indices := idx);
  }

  /** Garbage immunity of a loaded dataset: keys no table reads change
      neither its partitions nor its indices. */
  lemma LoadIgnoresGarbage(doc: Document, layout: Layout, store: Store, garbage: set<Key>)
    requires forall k :: k in garbage ==> IsGarbage(doc.uuid, layout, k)
    ensures LoadPartitionIndices(LoadFromDict(doc, layout, store + garbage))
         == LoadPartitionIndices(LoadFromDict(doc, layout, store))
  {
    GarbageIgnored(doc.uuid, layout, store, garbage);
  }

  /** Namespace isolation of a loaded dataset: another dataset's keys in the
      same store change neither its partitions nor its indices. */
  lemma LoadIgnoresOtherDataset(doc: Document, u2: seq<byte>, layout: Layout, store: Store, other: set<Key>)
    requires Free(doc.uuid, Slash) && Free(u2, Slash) && doc.uuid != u2
    requires forall k :: k in other ==> OwnedBy(u2, k)
    ensures LoadPartitionIndices(LoadFromDict(doc, layout, store + other))
         == LoadPartitionIndices(LoadFromDict(doc, layout, store))
  {
    OtherDatasetIgnored(doc.uuid, u2, layout, store, other);
  }

  /** The keys of the store the dataset owns. */
  function StorageKeySet(uuid: seq<byte>, store: Store): (keys: set<Key>)
    ensures forall k :: k in keys <==> k in store && OwnedBy(uuid, k)
  {
    set k | k in store && OwnedBy(uuid, k)
  }

  /** Strictly increasing in byte order (the code-point order of the text). */
  predicate StrictlySorted(s: seq<Key>) {
    forall i, j :: 0 <= i < j < |s| ==> Below(s[i], s[j])
  }

  /** Two strictly sorted sequences with the same elements are equal, so the
      contract of `StorageKeys` fixes its result. */
  lemma {:induction false} SortedUnique(a: seq<Key>, b: seq<Key>)
    requires StrictlySorted(a) && StrictlySorted(b)
    requires forall k :: k in a <==> k in b
    ensures a == b
    decreases |a|
  {
    if |a| > 0 {
      assert a[0] in a;
    }
    if |b| > 0 {
      assert b[0] in b;
    }
    if |a| > 0 && |b| > 0 {
      assert a[0] in b && b[0] in a;
      var i :| 0 <= i < |b| && b[i] == a[0];
      var j :| 0 <= j < |a| && a[j] == b[0];
      if i > 0 && j > 0 {
        BelowTransitive(b[0], b[i], a[j]);
        BelowIrreflexive(b[0]);
      }
      if i > 0 && j == 0 {
        BelowIrreflexive(b[0]);
      }
      if i == 0 && j > 0 {
        BelowIrreflexive(a[0]);
      }
      assert a[0] == b[0];
      forall k
        ensures k in a[1..] <==> k in b[1..]
      {
        if k in a[1..] {
          var p :| 1 <= p < |a| && a[p] == k;
          BelowIrreflexive(a[0]);
          assert k in a && k in b;
          var q :| 0 <= q < |b| && b[q] == k;
          assert q != 0;
          assert b[1..][q - 1] == k;
        }
        if k in b[1..] {
          var p :| 1 <= p < |b| && b[p] == k;
          BelowIrreflexive(b[0]);
          assert k in b && k in a;
          var q :| 0 <= q < |a| && a[q] == k;
          assert q != 0;
          assert a[1..][q - 1] == k;
        }
      }
      SortedUnique(a[1..], b[1..]);
      assert a == [a[0]] + a[1..] && b == [b[0]] + b[1..];
    }
  }

  /** The least key of a non-empty set. */
  method Smallest(keys: set<Key>) returns (m: Key)
    requires keys != {}
    ensures m in keys && forall k :: k in keys && k != m ==> Below(m, k)
  {
    m :| m in keys;
    var rest := keys - {m};
    while rest != {}
      invariant m in keys && rest <= keys && m !in rest
      invariant forall k :: k in keys - rest && k != m ==> Below(m, k)
      decreases |rest|
    {
      var k :| k in rest;
      BelowTotal(k, m);
      if Below(k, m) {
        forall k' | k' in keys - rest && k' != m
          ensures Below(k, k')
        {
          BelowTransitive(k, m, k');
        }
        m := k;
      }
      rest := rest - {k};
    }
  }

  /** `storage_keys`: every key of the store the dataset owns — its metadata
      document and everything under `{uuid}/` — each once, in sorted order. */
  method StorageKeys(uuid: seq<byte>, store: Store) returns (keys: seq<Key>)
    ensures StrictlySorted(keys)
    ensures forall k :: k in keys <==> k in store && OwnedBy(uuid, k)
  {
    var owned := StorageKeySet(uuid, store);
    var rest := owned;
    keys := [];
    while rest != {}
      invariant rest <= owned
      invariant forall k :: k in keys <==> k in owned && k !in rest
      invariant StrictlySorted(keys)
      invariant forall i, k :: 0 <= i < |keys| && k in rest ==> Below(keys[i], k)
      decreases |rest|
    {
      var m := Smallest(rest);
      keys := keys + [m];
      rest := rest - {m};
    }
  }

  /** Namespace isolation of `storage_keys`: datasets with different
      slash-free identifiers list disjoint keys, even when one identifier is a
      prefix of the other. */
  lemma StorageKeysDisjoint(u1: seq<byte>, u2: seq<byte>, store: Store)
    requires Free(u1, Slash) && Free(u2, Slash) && u1 != u2
    ensures StorageKeySet(u1, store) !! StorageKeySet(u2, store)
  {
    forall k | k in store
      ensures !(OwnedBy(u1, k) && OwnedBy(u2, k))
    {
      OwnershipDisjoint(u1, u2, k);
    }
  }

  /** `storage_keys` lists the metadata document, every table's schema object
      and every data file the dataset's partitions name, when they exist. */
  lemma StorageKeysCoverDataset(uuid: seq<byte>, layout: Layout, store: Store)
    ensures MetadataKey(uuid) in store ==> MetadataKey(uuid) in StorageKeySet(uuid, store)
    ensures forall t :: CommonMetadataKey(uuid, t) in store ==> CommonMetadataKey(uuid, t) in StorageKeySet(uuid, store)
    ensures var parts := PartitionsOf(uuid, layout, store);
      forall l, t :: l in parts && t in parts[l].files ==> parts[l].files[t] in StorageKeySet(uuid, store)
  {
    PartitionFilesOwned(uuid, layout, store);
    forall t
      ensures uuid + [Slash] <= CommonMetadataKey(uuid, t)
    {
      assert CommonMetadataKey(uuid, t)[..|uuid| + 1] == uuid + [Slash];
    }
  }
}
