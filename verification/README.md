# kartothek partition keys, discovery and indices — a Dafny model

kartothek stores a dataset as objects of a key-value store. Its metadata
document sits at `{uuid}.by-dataset-metadata.json`. Each table has a schema
object at `{uuid}/{table}/_common_metadata`. Each partition's data file sits at
`{uuid}/{table}/{col=val}/.../{name}.parquet`, where each `col=val` segment is
percent-encoded (section 2.1 and 2.3 of RFC 3986) over the UTF-8 bytes of the
column and value.

This project models the pieces that write and read that layout:

- the value coercions of the serialization layer (`_check_contains_null`,
  `ensure_unicode_string_type`);
- the key codec (`quote_indices`, `unquote_indices`, `create_partition_key`);
- the scan that discovers a dataset's partitions from the raw key listing of
  the store, ignoring every key no table reads;
- the inversion of the discovered partitions into the secondary indices
  `indices[column][value] = labels`;
- `storage_keys`, the sorted listing of every key a dataset owns.

Text is modelled as its UTF-8 bytes (section 3 of RFC 3629). Integers are
unbounded. The store is the finite set of its keys.

Module layout (one file each):

| file | module | what it holds |
|---|---|---|
| `wrappers.dfy` | `Wrappers` | `Option`, `Result` |
| `bytes.dfy` | `Bytes` | bytes, `Split`/`Join` at a separator, byte order of keys |
| `utf8.dfy` | `Utf8` | well-formed UTF-8, the encoder of scalar values |
| `decimal.dfy` | `Decimal` | decimal rendering of integers (`str(int)`) |
| `serialization_util.dfy` | `SerializationUtil` | the two helpers of `_util.py` |
| `urlencode.dfy` | `UrlEncode` | percent-encoding, `quote`/`unquote`, `quote_indices`/`unquote_indices` |
| `naming.dfy` | `Naming` | fixed names, `create_partition_key`, key ownership |
| `scanner.dfy` | `Scanner` | parsing keys into labels, partition discovery, garbage immunity |
| `index_builder.dfy` | `IndexBuilder` | building the indices from the partitions |
| `dataset.dfy` | `Dataset` | loading, `load_partition_indices`, `storage_keys` |
| `overlap.dfy` | `Overlap` | two datasets whose identifiers are prefixes of each other |
| `scenarios.dfy` | `Scenarios` | the concrete cases, with the names as byte constants |

Every loop over a collection the source enumerates (`ScanTable`,
`DiscoverPartitions`, `IndexLabel`, `BuildIndices`, `StorageKeys`) is proved
against a reference definition. That definition is a comprehension (`PartitionsOf`, `IndexOf`, `StorageKeySet`). A
characterisation predicate (`Describes`, `Inverts`, `StrictlySorted`) comes
with a uniqueness lemma. Together they show that the result does not depend on
the order in which the sets are enumerated. `Smallest`, the selection step of
`StorageKeys`, is proved against its own contract: the least key in byte order.

## Model

| member | source | states |
|---|---|---|
| SerializationUtil.ScanForNull | kartothek/serialization/_util.py:6-9 | the byte loop with early return reports true exactly when some byte is zero |
| SerializationUtil.ContainsNull | kartothek/serialization/_util.py:4-10 | true exactly for a bytes value holding a zero byte; text (even text holding U+0000), integers and empty bytes give false |
| SerializationUtil.ContainsNullConcat | kartothek/serialization/_util.py:6-9 | the scan of `a + b` finds a zero byte exactly when the scan of `a` or of `b` does |
| SerializationUtil.EnsureUnicodeStringType | kartothek/serialization/_util.py:13-17 | text comes back unchanged; bytes come back as the same text when they are well-formed UTF-8 and fail otherwise; an integer becomes ASCII digits that parse back to it |
| SerializationUtil.EnsureUnicodeIdempotent | kartothek/serialization/_util.py:17 | coercing the result again gives the same result |
| SerializationUtil.EnsureUnicodeOfEncoded | kartothek/serialization/_util.py:17 | the UTF-8 encoding of any string decodes to that string, the same as passing the string itself |
| Decimal.RenderParses | kartothek/serialization/_util.py:17 | parsing the decimal rendering of an integer gives the integer back |
| Decimal.ParseRender | kartothek/serialization/_util.py:17 | a string parses to an integer exactly when it is that integer's decimal rendering |
| Utf8.Encode | kartothek/serialization/_util.py:17 | the encoding of every string of scalar values is well-formed UTF-8, so `decode("utf8")` accepts it, and takes one to four bytes per character |
| Utf8.EncodeConcat | kartothek/serialization/_util.py:17 | encoding is a homomorphism: the encoding of `s + t` is the encoding of `s` followed by that of `t` |
| Utf8.Decode | kartothek/serialization/_util.py:17 | every well-formed UTF-8 byte string is the encoding of a string of scalar values, so the strings `decode("utf8")` accepts are exactly the encodings of text |
| UrlEncode.EncodedBytes | tests/core/test_dataset_dyn_part.py:299-308 | the quoted form holds only unreserved bytes and `%`, so never `/` or `=` |
| UrlEncode.PercentEncodeConcat | tests/core/test_dataset_dyn_part.py:43-49 | percent-encoding distributes over concatenation |
| UrlEncode.PercentEncodeUnreserved | tests/core/test_dataset_dyn_part.py:20-24 | a string of unreserved bytes is its own quoted form |
| UrlEncode.DecodeEncode | tests/core/test_dataset_dyn_part.py:27-40 | decoding the encoding of any bytes gives the bytes back |
| UrlEncode.EncodeIsCanonical | tests/core/test_dataset_dyn_part.py:299-308 | every quoted form is canonical: unreserved bytes as they are, every other byte as `%XX` in upper case |
| UrlEncode.EncodeDecode | tests/core/test_dataset_dyn_part.py:43-49 | a canonical string decodes, and encoding the result gives the string back |
| UrlEncode.Quote | tests/core/test_dataset_dyn_part.py:43-46 | `quote` succeeds exactly when the value coerces to text; its result is canonical, free of `/` and `=`, and decodes to that text |
| UrlEncode.Unquote | tests/core/test_dataset_dyn_part.py:43-49 | `unquote` succeeds exactly when the string percent-decodes to well-formed UTF-8, and returns those bytes |
| UrlEncode.QuoteUnquote | tests/core/test_dataset_dyn_part.py:43-49 | a canonical string that unquotes is the quoted form of its own text |
| UrlEncode.UnquoteQuote | tests/core/test_dataset_dyn_part.py:27-40 | unquoting a quoted value gives the value coerced to text |
| UrlEncode.EnsureUnicodePairs | tests/core/test_dataset_dyn_part.py:34-39 | coerces every column and value of a pair list to text, failing exactly when one of them fails, and keeps the length |
| UrlEncode.QuotePair | tests/core/test_dataset_dyn_part.py:45-46 | `col=val` fails exactly when a half does not coerce to text; otherwise it holds no `/` and splits at `=` into exactly two halves |
| UrlEncode.QuoteIndices | tests/core/test_dataset_dyn_part.py:27-40 | `quote_indices` gives one `col=val` string per pair, each free of `/`, and fails exactly when some pair does not coerce |
| UrlEncode.UnquotePair | tests/core/test_dataset_dyn_part.py:43-49 | succeeds exactly when the string splits at `=` into two halves that both unquote; a string that does not split into exactly two halves is malformed; on success the halves unquote to the column and the value |
| UrlEncode.UnquoteIndices | tests/core/test_dataset_dyn_part.py:43-49 | `unquote_indices` succeeds exactly when every string unquotes as a pair, and then gives those pairs in order |
| UrlEncode.UnquoteQuoteIndices | tests/core/test_dataset_dyn_part.py:27-40 | `unquote_indices(quote_indices(pairs))` is the pairs with column and value coerced to text |
| Naming.CreatePartitionKey | tests/core/test_dataset_dyn_part.py:20-24 | `create_partition_key` succeeds exactly when every pair coerces to text, and the key starts with `{uuid}/{table}/` |
| Naming.PartitionKeyLayout | tests/core/test_dataset_dyn_part.py:58-63 | with slash-free identifier, table and filename, the key splits at `/` into the identifier, the table, one segment per pair and the filename, and the segments unquote to the pairs as text |
| Naming.ParquetSuffixIsName | tests/core/test_dataset_dyn_part.py:62 | the data file suffix constant is the encoding of `.parquet` |
| Naming.DefaultFilenameIsName | tests/core/test_dataset_dyn_part.py:24 | the default filename constant is the encoding of `data` |
| Naming.MetadataKeySuffix | tests/core/test_dataset_dyn_part.py:100 | the metadata document key's suffix starts with `.` and holds no `/` |
| Naming.OwnershipDisjoint | tests/core/test_dataset_dyn_part.py:388-389 | no key is owned by two different slash-free identifiers, even when one is a prefix of the other |
| Scanner.ParseKey | tests/core/test_dataset_dyn_part.py:83-90 | a key the table reads is the data file key of a label valid for the table's columns |
| Scanner.ParseRest | tests/core/test_dataset_dyn_part.py:299-302 | what follows the table directory parses only if it is the label of matching `col=val` segments and a base name, followed by `.parquet` |
| Scanner.ParseFileKey | tests/core/test_dataset_dyn_part.py:83-90 | the data file key of every valid label parses back to that label |
| Scanner.FileKeyInjective | tests/core/test_dataset_dyn_part.py:83-90 | different labels of one table give different data file keys |
| Scanner.PartitionsOfCharacterized | tests/core/test_dataset_dyn_part.py:83-90 | a table's file appears under a label exactly when the table holds that label's data file, under that key; files of several tables with one label merge into one partition; no partition is empty |
| Scanner.DescribesUnique | tests/core/test_dataset_dyn_part.py:145-146 | two partition maps describing the same discovered files are equal |
| Scanner.AddFile | tests/core/test_dataset_dyn_part.py:84-89 | adding a table's file to a label keeps every other partition and the label's other files |
| Scanner.ScanTable | tests/core/test_dataset_dyn_part.py:140-146 | after scanning one more table directory the partitions describe exactly the files of the tables scanned so far |
| Scanner.DiscoverPartitions | tests/core/test_dataset_dyn_part.py:140-146 | the scan over all tables, in any order, computes the partitions the key set determines |
| Scanner.GarbageIgnored | tests/core/test_dataset_dyn_part.py:261-274 | adding keys no table reads leaves the partitions unchanged |
| Scanner.OutsideDatasetIsGarbage | tests/core/test_dataset_dyn_part.py:263 | a key outside `{uuid}/` is garbage |
| Scanner.DirectlyUnderDatasetIsGarbage | tests/core/test_dataset_dyn_part.py:264 | a key directly under `{uuid}/` is garbage |
| Scanner.TooFewSegmentsIsGarbage | tests/core/test_dataset_dyn_part.py:265-269 | a key in a table directory with fewer directories than the table has partition columns is garbage, including a key directly under the table |
| Scanner.CommonMetadataIsGarbage | tests/core/test_dataset_dyn_part.py:107-115 | a table's schema object is not read as a data file |
| Scanner.OtherDatasetIgnored | tests/core/test_dataset_dyn_part.py:387-427 | keys owned by another slash-free dataset, even one whose identifier extends this one, leave the partitions unchanged |
| Scanner.PartitionFilesOwned | tests/core/test_dataset_dyn_part.py:418-422 | every discovered file is a key of the store that the dataset owns |
| Scanner.ValidLabelPairs | tests/core/test_dataset_dyn_part.py:177-187 | a label valid for a table carries one pair per partition column, in column order |
| Scanner.CreatedKeyShape | tests/core/test_dataset_dyn_part.py:20-24 | a created key is the table directory followed by the segments and the filename joined at `/` |
| Scanner.CreatedKeyParses | tests/core/test_dataset_dyn_part.py:299-305 | a key created with a `.parquet` filename is the data file of the label made of its quoted segments and the base name; that label is valid for the pairs' columns and carries the pairs as text |
| IndexBuilder.InvertsUnique | tests/core/test_dataset_dyn_part.py:203-209 | at most one index records a given set of entries, so the label lists' order is immaterial |
| IndexBuilder.IndexOfCharacterized | tests/core/test_dataset_dyn_part.py:177-188 | a label is listed under a column's value exactly when it is a partition label carrying that pair; no value and no column is listed without a label |
| IndexBuilder.Insert | tests/core/test_dataset_dyn_part.py:182-187 | recording a label under a value adds it to that value's labels and changes no other column or value |
| IndexBuilder.InsertInverts | tests/core/test_dataset_dyn_part.py:182-187 | recording an entry keeps the index an exact record of the entries |
| IndexBuilder.IndexLabel | tests/core/test_dataset_dyn_part.py:177-188 | recording a label's pairs one by one adds exactly its entries |
| IndexBuilder.BuildIndices | tests/core/test_dataset_dyn_part.py:199-209 | the loop over labels and pairs computes the indices the partitions determine |
| IndexBuilder.DiscoveredIndices | tests/core/test_dataset_dyn_part.py:91-96 | a label is listed under a column's value exactly when some table holds its data file and the label carries the pair; the label's columns are then that table's partition columns |
| Dataset.LoadFromDict | tests/core/test_dataset_dyn_part.py:199-202 | `load_from_dict` keeps identifier and version, discovers the partitions from the store and leaves the indices empty |
| Dataset.LoadFromStore | tests/core/test_dataset_dyn_part.py:140-142 | `load_from_store` fails with not-found exactly when the metadata document is missing, and otherwise gives the dataset `load_from_dict` gives: identifier, version, partitions and indices |
| Dataset.LoadPartitionIndices | tests/core/test_dataset_dyn_part.py:143-147 | fills the indices from the partitions and changes nothing else: a label is listed under a column's value exactly when it is a partition label carrying that pair, and no column or value is listed without labels |
| Dataset.LoadPartitionIndicesIdempotent | tests/core/test_dataset_dyn_part.py:140-143 | loading the indices a second time changes nothing |
| Dataset.ResolveIndices | tests/core/test_dataset_dyn_part.py:200-209 | the index-building loop computes what `load_partition_indices` states |
| Dataset.LoadIgnoresGarbage | tests/core/test_dataset_dyn_part.py:261-281 | garbage keys change neither the partitions nor the indices of a loaded dataset |
| Dataset.LoadIgnoresOtherDataset | tests/core/test_dataset_dyn_part.py:423-427 | another dataset's keys change neither the partitions nor the indices of a loaded dataset |
| Dataset.SortedUnique | tests/core/test_dataset_dyn_part.py:418-422 | two strictly sorted key lists with the same elements are equal, so the listing is fixed by its contents |
| Dataset.Smallest | tests/core/test_dataset_dyn_part.py:418-422 | the least key of a non-empty set in byte order |
| Dataset.StorageKeys | tests/core/test_dataset_dyn_part.py:418-422 | `storage_keys` lists every owned key of the store once, in strictly increasing byte order, and nothing else |
| Dataset.StorageKeysDisjoint | tests/core/test_dataset_dyn_part.py:387-422 | two different slash-free identifiers list disjoint keys |
| Dataset.StorageKeysCoverDataset | tests/core/test_dataset_dyn_part.py:418-422 | the listing holds the metadata document, every schema object and every discovered data file that exist |
| Overlap.DatasetKeys | tests/core/test_dataset_dyn_part.py:393-411 | the three keys one dataset writes, all owned by it |
| Overlap.DatasetKeysSorted | tests/core/test_dataset_dyn_part.py:418-422 | the metadata document sorts before the schema object, which sorts before a data file whose label sorts after `_` |
| Overlap.OverlapStorageKeys | tests/core/test_dataset_dyn_part.py:418-422 | in the shared store, `storage_keys` of one dataset is its metadata document, its schema object and its data file, in that order |
| Overlap.SingleFilePartitions | tests/core/test_dataset_dyn_part.py:413-416 | a store holding one data file of a valid label discovers exactly that one partition |
| Overlap.SingleLabelIndex | tests/core/test_dataset_dyn_part.py:417 | the indices of one partition carrying one pair list that label under that pair's value and nothing else |
| Overlap.OverlapPartitions | tests/core/test_dataset_dyn_part.py:423-426 | in the shared store, one dataset discovers only its own partition |
| Overlap.OverlapLoad | tests/core/test_dataset_dyn_part.py:423-427 | loading one dataset of the shared store with its indices gives its one partition and the index of its one pair |
| Overlap.UnreservedLabel | tests/core/test_dataset_dyn_part.py:392-394 | for unreserved names, the label `c=v/data` is valid, carries `(c, v)`, and its data file is the key `create_partition_key` writes |
| Overlap.OverlapKeyspace | tests/core/test_dataset_dyn_part.py:387-427 | for either of two datasets in one store: the created key is its data file, `storage_keys` is its own three keys in order, and loading gives its one partition and index |
| Scenarios.MuenchenIsText | tests/core/test_dataset_dyn_part.py:31 | the byte constant for `München` is the UTF-8 encoding of that text |
| Scenarios.SpecialIsText | tests/core/test_dataset_dyn_part.py:32 | the byte constant for `å\ øß` is the UTF-8 encoding of that text |
| Scenarios.CreatePartitionKeyUnreserved | tests/core/test_dataset_dyn_part.py:20-24 | with two pairs of unreserved names and no filename, the key is `uuid/table/c1=v1/c2=v2/data` with the names unescaped |
| Scenarios.CreatePartitionKeyExample | tests/core/test_dataset_dyn_part.py:20-24 | the key of `my-uuid`, `testtable` and the pairs `index1=value1`, `index2=value2` is `my-uuid/testtable/index1=value1/index2=value2/data` |
| Scenarios.QuoteMuenchen | tests/core/test_dataset_dyn_part.py:299-300 | `München` quotes to `M%C3%BCnchen` |
| Scenarios.QuoteSpecial | tests/core/test_dataset_dyn_part.py:299-301 | `å\ øß` quotes to `%C3%A5%5C%20%C3%B8%C3%9F` |
| Scenarios.QuoteUnreserved | tests/core/test_dataset_dyn_part.py:45-46 | text of unreserved bytes quotes to itself |
| Scenarios.UnquoteTwoTextPairs | tests/core/test_dataset_dyn_part.py:43-49 | two text pairs come back from `unquote_indices` of their quoted `col=val` strings |
| Scenarios.UnquoteIndicesExample | tests/core/test_dataset_dyn_part.py:43-49 | `unquote_indices` of `location=M%C3%BCnchen` and `product=%C3%A5%5C%20%C3%B8%C3%9F` gives `(location, München)` and `(product, å\ øß)` |
| Scenarios.RenderOne | tests/core/test_dataset_dyn_part.py:29-35 | the integer `1` coerces to the text `1` |
| Scenarios.RoundTripPairs | tests/core/test_dataset_dyn_part.py:27-40 | an integer with bytes, text with bytes and two text pairs round-trip through `quote_indices` and `unquote_indices` as text |
| Scenarios.RoundTripExample | tests/core/test_dataset_dyn_part.py:27-40 | the four pairs of the round-trip case come back as `(1, Muenchen)`, `(location, Muenchen)`, `(location, München)`, `(product, å\ øß)` |
| Scenarios.OverlapKeyspaceExample | tests/core/test_dataset_dyn_part.py:387-427 | for `uuid+namespace-attribute12_underscored` and the same identifier with `_ext`, each dataset lists exactly its own three keys in order and loads the one partition `location=L-0/data` with index `location -> L-0 -> {location=L-0/data}` |

## Left out

- The implementation modules behind the codec and the loader (`kartothek/core/urlencode.py`, `kartothek/core/dataset.py`, `kartothek/core/naming.py`, `kartothek/core/common_metadata.py`) are not part of this model. Their behaviour is taken from what `tests/core/test_dataset_dyn_part.py` asserts about them.
- `kartothek/core/_zmsgpack.py`: a thin wrapper over msgpack and zstandard, foreign libraries with no logic of their own.
- `tests/test_docs.py` and `tests/io/eager/test_delete.py`: a file-system scan of documentation, and fixture plumbing around a live store.
- Store backends and `store.put`: the store is the finite set of its keys. Object contents are not modelled.
- JSON parsing of the metadata document, and the schema objects written by `make_meta`/`store_schema_metadata` (pandas, pyarrow). The document's identifier and version (`Dataset.Document`) and each table's partition columns (`Scanner.Layout`) are parameters.
- The dask scenario (tests/core/test_dataset_dyn_part.py:327-384): the files are produced by an external library. Its key shape `location=L-0/part.0.parquet` is an instance of `Scanner.CreatedKeyParses`.
- SerializationUtil.EnsureUnicodeStringType: converting an integer always succeeds. CPython's limit on the number of digits `str()` will produce for an integer (4300 by default in recent releases, raising `ValueError`) is an interpreter setting and is not modelled.
- The Python 2 branch comparing a byte with `chr(0)` (kartothek/serialization/_util.py:7): bytes are integers here.
- Full Unicode semantics: text is its UTF-8 bytes. There is no normalisation and no case folding. `Utf8.Encode` covers the scalar values only.
- UrlEncode.Unquote: it is strict. A `%` without two hex digits, or bytes that are not UTF-8, give an error. Python's `urllib.parse.unquote` instead keeps a malformed escape and replaces undecodable bytes. The two agree on every string `quote` produces, which is all the scan ever sees from `create_partition_key`.
- UrlEncode.UnquotePair: a segment must hold exactly one `=`. A segment with several `=` is an error here and garbage to the scan.
- IndexBuilder.IndexOf: the label lists of an index are sets. Their order is unspecified in the source (tests/core/test_dataset_dyn_part.py:203-204), so the order is not modelled.
- Dataset.LoadFromStore: the document's content is a parameter, because reading and parsing the JSON object is left out. Only the presence of its key is checked.
- Dataset.LoadFromDict: partitions are discovered when the dataset is loaded, because the dask case reads them right after `load_from_store`. The indices are filled by `LoadPartitionIndices`.
- Dataset.StorageKeys: only the JSON metadata document key is modelled. Metadata keys of other formats or versions are not.
- Dataset.StorageKeys: the listing is every key of the store the dataset owns, in byte order. Stray keys under `{uuid}/`, such as those of the garbage case (tests/core/test_dataset_dyn_part.py:212-281), are listed too. The grouped order "metadata document, then every schema object, then every data file" is stated only where byte order gives it: for one table whose labels sort after `_` (`Overlap.OverlapStorageKeys`, the case tests/core/test_dataset_dyn_part.py:418-422 pins). With several tables, a data file of one table can sort before the schema object of a later table. The implementation of `storage_keys` is not part of this model, and the only listing pinned down agrees with byte order, so no other order is promised.
- Naming.CommonMetadataKey: the name of a table's schema object, `_common_metadata`, is a modelling choice, because `_get_common_metadata_key` is not part of this model.
- Overlap.OverlapStorageKeys: it needs the partition label to start with a byte above `_`, so that the data file sorts after `_common_metadata`. `location=L-0/data` meets this. The order of other labels is not stated.
