/** Store key layout: the fixed names of a dataset's metadata objects and
    `create_partition_key`, the single producer of partition file keys. */
module Naming {
  import opened Bytes
  import opened Wrappers
  import Utf8
  import opened UrlEncode

  /** File-type suffix of a partition's columnar data file: `.parquet`. */
  const ParquetSuffix: seq<byte> := [0x2E, 0x70, 0x61, 0x72, 0x71, 0x75, 0x65, 0x74]
  /** `.by-dataset-metadata` */
  const MetadataBaseSuffix: seq<byte> :=
    [0x2E, 0x62, 0x79, 0x2D, 0x64, 0x61, 0x74, 0x61, 0x73, 0x65, 0x74,
     0x2D, 0x6D, 0x65, 0x74, 0x61, 0x64, 0x61, 0x74, 0x61]
  /** `.json` */
  const JsonFormat: seq<byte> := [0x2E, 0x6A, 0x73, 0x6F, 0x6E]
  /** Name of a table's schema object inside the table directory: `_common_metadata`. */
  const TableMetadataFile: seq<byte> :=
    [0x5F, 0x63, 0x6F, 0x6D, 0x6D, 0x6F, 0x6E, 0x5F, 0x6D, 0x65, 0x74, 0x61, 0x64, 0x61, 0x74, 0x61]
  /** Filename `create_partition_key` uses when the caller gives none: `data`. */
  const DefaultFilename: seq<byte> := [0x64, 0x61, 0x74, 0x61]

  lemma ParquetSuffixFree()
    ensures |ParquetSuffix| == 8 && Free(ParquetSuffix, Slash)
  {
  }

  /** The byte constants are the UTF-8 encodings of the names they stand for. */
  lemma ParquetSuffixIsName(s: string)
    requires s == ".parquet"
    ensures Utf8.Encode(s) == ParquetSuffix
  {
    Utf8.EncodeAsciiBytes(s, ParquetSuffix);
  }

  lemma DefaultFilenameIsName(s: string)
    requires s == "data"
    ensures Utf8.Encode(s) == DefaultFilename
  {
    Utf8.EncodeAsciiBytes(s, DefaultFilename);
  }

  /** The suffix after the identifier in a metadata document key. */
  function MetadataKeySuffix(): (s: seq<byte>)
    ensures |s| > 0 && s[0] == Dot && Free(s, Slash)
  {
    MetadataBaseSuffix + JsonFormat
  }

  /** Key of the dataset's metadata document, `{uuid}.by-dataset-metadata.json`. */
  function MetadataKey(uuid: seq<byte>): seq<byte> {
    uuid + MetadataKeySuffix()
  }

  /** Key of a table's schema object, `{uuid}/{table}/_common_metadata`. */
  function CommonMetadataKey(uuid: seq<byte>, table: seq<byte>): seq<byte> {
    uuid + [Slash] + table + [Slash] + TableMetadataFile
  }

  /** `create_partition_key`: the identifier, the table, one quoted `col=val`
      segment per pair and the filename, joined by `/`. */
  function CreatePartitionKey(uuid: seq<byte>, table: seq<byte>, pairs: seq<Pair>, filename: seq<byte>)
    : (r: Result<seq<byte>, DecodeError>)
    ensures r.Ok? <==> EnsureUnicodePairs(pairs).Ok?
    ensures r.Ok? ==> uuid + [Slash] + table + [Slash] <= r.value
  {
    var segments :- QuoteIndices(pairs);
    var rest := segments + [filename];
    var key := Join(Slash, [uuid, table] + rest);
    JoinPrefixTwo(Slash, uuid, table, rest);
    assert (uuid + [Slash] + table + [Slash] + Join(Slash, rest))[..|uuid| + |table| + 2] == uuid + [Slash] + table + [Slash];
    Ok(key)
  }

  /** The layout of a created key: when neither identifier, table nor
      filename holds `/`, the key splits at `/` into exactly those parts and
      the quoted segments, and the segments unquote to the pairs as text. */
  lemma PartitionKeyLayout(uuid: seq<byte>, table: seq<byte>, pairs: seq<Pair>, filename: seq<byte>)
    requires CreatePartitionKey(uuid, table, pairs, filename).Ok?
    requires Free(uuid, Slash) && Free(table, Slash) && Free(filename, Slash)
    ensures var parts := Split(CreatePartitionKey(uuid, table, pairs, filename).value, Slash);
      && |parts| == |pairs| + 3
      && parts[0] == uuid && parts[1] == table && parts[|parts| - 1] == filename
      && UnquoteIndices(parts[2..|parts| - 1]) == EnsureUnicodePairs(pairs)
  {
    var segments := QuoteIndices(pairs).value;
    var all := [uuid, table] + (segments + [filename]);
    SplitJoin(all, Slash);
    assert all[2..|all| - 1] == segments;
    UnquoteQuoteIndices(pairs);
  }

  /** The key belongs to the dataset: it is the dataset's metadata document
      or lies in the dataset's directory `{uuid}/`. */
  predicate OwnedBy(uuid: seq<byte>, key: seq<byte>) {
    key == MetadataKey(uuid) || uuid + [Slash] <= key
  }

  /** Namespace isolation of keys: two different identifiers without `/`
      never own the same key, even when one is a prefix of the other. */
  lemma OwnershipDisjoint(u1: seq<byte>, u2: seq<byte>, key: seq<byte>)
    requires Free(u1, Slash) && Free(u2, Slash) && u1 != u2
    ensures !(OwnedBy(u1, key) && OwnedBy(u2, key))
  {
    OwnerIsPrefix(u1, key);
    OwnerIsPrefix(u2, key);
    DirectoriesAlign(u1, u2, key);
    DirectoriesAlign(u2, u1, key);
    DocumentOutsideDirectories(u1, u2);
    DocumentOutsideDirectories(u2, u1);
    SamePrefix(u1, u2, key);
  }

  lemma OwnerIsPrefix(uuid: seq<byte>, key: seq<byte>)
    ensures OwnedBy(uuid, key) ==> uuid <= key
  {
    var m := MetadataKeySuffix();
    assert key == uuid + m ==> key[..|uuid|] == uuid;
    assert uuid + [Slash] <= key ==> key[..|uuid|] == (uuid + [Slash])[..|uuid|] == uuid;
  }

  lemma SamePrefix(u1: seq<byte>, u2: seq<byte>, key: seq<byte>)
    ensures u1 <= key && u2 <= key && |u1| == |u2| ==> u1 == u2
  {
  }

  /** If `key` lies in directory `u1/` and starts with the slash-free `u2`,
      then `u2` is no longer than `u1`. */
  lemma DirectoriesAlign(u1: seq<byte>, u2: seq<byte>, key: seq<byte>)
    requires Free(u2, Slash)
    ensures u1 + [Slash] <= key && u2 <= key ==> |u2| <= |u1|
  {
    if |u1| < |u2| <= |key| {
      assert u1 + [Slash] <= key ==> key[|u1|] == Slash;
      assert u2 <= key ==> key[|u1|] == u2[|u1|];
    }
  }

  /** The metadata document of a slash-free identifier lies in no dataset directory. */
  lemma DocumentOutsideDirectories(u1: seq<byte>, u2: seq<byte>)
    requires Free(u1, Slash)
    ensures !(u2 + [Slash] <= MetadataKey(u1))
  {
    var key := MetadataKey(u1);
    assert Free(key, Slash);
    if |u2| < |key| {
      assert key[|u2|] != Slash;
    }
  }
}
