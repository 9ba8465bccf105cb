/** The concrete cases the behaviour of the key codec and of partition
    discovery is pinned down by. Names are UTF-8 byte constants whose text is
    given beside them. Each concrete case is stated once over any names with
    the properties that case relies on, then instantiated; the instance takes
    its values as parameters equal to the constants, which keeps the solver
    from unfolding every definition on the literal bytes. */
module Scenarios {
  import opened Bytes
  import opened Wrappers
  import Utf8
  import opened SerializationUtil
  import opened UrlEncode
  import opened Naming
  import opened Scanner
  import opened IndexBuilder
  import opened Dataset
  import opened Overlap

  /** `my-uuid` */
  const MyUuid: seq<byte> := [0x6D, 0x79, 0x2D, 0x75, 0x75, 0x69, 0x64]
  /** `testtable` */
  const TestTable: seq<byte> := [0x74, 0x65, 0x73, 0x74, 0x74, 0x61, 0x62, 0x6C, 0x65]
  /** `index1` */
  const Index1: seq<byte> := [0x69, 0x6E, 0x64, 0x65, 0x78, 0x31]
  /** `value1` */
  const Value1: seq<byte> := [0x76, 0x61, 0x6C, 0x75, 0x65, 0x31]
  /** `index2` */
  const Index2: seq<byte> := [0x69, 0x6E, 0x64, 0x65, 0x78, 0x32]
  /** `value2` */
  const Value2: seq<byte> := [0x76, 0x61, 0x6C, 0x75, 0x65, 0x32]
  /** `location` */
  const Location: seq<byte> := [0x6C, 0x6F, 0x63, 0x61, 0x74, 0x69, 0x6F, 0x6E]
  /** `product` */
  const Product: seq<byte> := [0x70, 0x72, 0x6F, 0x64, 0x75, 0x63, 0x74]
  /** `Muenchen` */
  const MuenchenAscii: seq<byte> := [0x4D, 0x75, 0x65, 0x6E, 0x63, 0x68, 0x65, 0x6E]
  /** `München` */
  const Muenchen: seq<byte> := [0x4D, 0xC3, 0xBC, 0x6E, 0x63, 0x68, 0x65, 0x6E]
  /** `nchen` */
  const Nchen: seq<byte> := [0x6E, 0x63, 0x68, 0x65, 0x6E]
  /** `M%C3%BCnchen` */
  const MuenchenQuoted: seq<byte> := [0x4D, 0x25, 0x43, 0x33, 0x25, 0x42, 0x43, 0x6E, 0x63, 0x68, 0x65, 0x6E]
  /** `å\ øß`: a-ring, backslash, space, o-slash, sharp s */
  const Special: seq<byte> := [0xC3, 0xA5, 0x5C, 0x20, 0xC3, 0xB8, 0xC3, 0x9F]
  /** `%C3%A5%5C%20%C3%B8%C3%9F` */
  const SpecialQuoted: seq<byte> :=
    [0x25, 0x43, 0x33, 0x25, 0x41, 0x35, 0x25, 0x35, 0x43, 0x25, 0x32, 0x30,
     0x25, 0x43, 0x33, 0x25, 0x42, 0x38, 0x25, 0x43, 0x33, 0x25, 0x39, 0x46]
  /** `1` */
  const One: seq<byte> := [0x31]
  /** `uuid+namespace-attribute12_underscored` */
  const OverlapUuid: seq<byte> :=
    [0x75, 0x75, 0x69, 0x64, 0x2B, 0x6E, 0x61, 0x6D, 0x65, 0x73, 0x70, 0x61, 0x63, 0x65, 0x2D, 0x61,
     0x74, 0x74, 0x72, 0x69, 0x62, 0x75, 0x74, 0x65, 0x31, 0x32, 0x5F, 0x75, 0x6E, 0x64, 0x65, 0x72,
     0x73, 0x63, 0x6F, 0x72, 0x65, 0x64]
  /** `uuid+namespace-attribute12_underscored_ext` */
  const OverlapUuidExt: seq<byte> := OverlapUuid + [0x5F, 0x65, 0x78, 0x74]
  /** `core` */
  const Core: seq<byte> := [0x63, 0x6F, 0x72, 0x65]
  /** `L-0` */
  const L0: seq<byte> := [0x4C, 0x2D, 0x30]

  /** The non-ASCII constants are the UTF-8 encodings of their texts. Each
      step below states one fact about the literals, so that no proof has to
      unfold the encoders on a whole literal at once. */
  lemma MuenchenIsText(s: string)
    requires s == "München"
    ensures Utf8.Encode(s) == Muenchen
  {
    MuenchenChars(s);
    Utf8.EncodeCons('M', ['ü'] + "nchen");
    Utf8.EncodeCons('ü', "nchen");
    EncodeUmlautU('ü');
    EncodeNchen("nchen");
    MuenchenBytes(Muenchen);
  }

  lemma MuenchenChars(s: string)
    requires s == "München"
    ensures s == ['M'] + (['ü'] + "nchen")
  {
  }

  lemma EncodeUmlautU(c: char)
    requires c == 'ü'
    ensures Utf8.EncodeChar(c) == [0xC3, 0xBC]
  {
  }

  lemma EncodeNchen(s: string)
    requires s == "nchen"
    ensures Utf8.Encode(s) == Nchen
  {
    Utf8.EncodeAsciiBytes(s, Nchen);
  }

  lemma MuenchenBytes(m: seq<byte>)
    requires m == Muenchen
    ensures m == [0x4D] + ([0xC3, 0xBC] + Nchen)
  {
  }

  lemma SpecialIsText(s: string)
    requires s == "å\\ øß"
    ensures Utf8.Encode(s) == Special
  {
    SpecialChars(s);
    EncodeFive('å', '\\', ' ', 'ø', 'ß', [0xC3, 0xA5], [0x5C], [0x20], [0xC3, 0xB8], [0xC3, 0x9F]);
    SpecialBytes(Special);
  }

  lemma SpecialChars(s: string)
    requires s == "å\\ øß"
    ensures s == ['å'] + (['\\'] + ([' '] + (['ø'] + (['ß'] + []))))
  {
  }

  lemma EncodeFive(a: char, b: char, c: char, d: char, e: char,
                   ea: seq<byte>, eb: seq<byte>, ec: seq<byte>, ed: seq<byte>, ee: seq<byte>)
    requires Utf8.EncodeChar(a) == ea && Utf8.EncodeChar(b) == eb && Utf8.EncodeChar(c) == ec
    requires Utf8.EncodeChar(d) == ed && Utf8.EncodeChar(e) == ee
    ensures Utf8.Encode([a] + ([b] + ([c] + ([d] + ([e] + []))))) == ea + (eb + (ec + (ed + (ee + []))))
  {
    Utf8.EncodeCons(e, []);
    Utf8.EncodeCons(d, [e] + []);
    Utf8.EncodeCons(c, [d] + ([e] + []));
    Utf8.EncodeCons(b, [c] + ([d] + ([e] + [])));
    Utf8.EncodeCons(a, [b] + ([c] + ([d] + ([e] + []))));
  }

  lemma SpecialBytes(t: seq<byte>)
    requires t == Special
    ensures t == [0xC3, 0xA5] + ([0x5C] + ([0x20] + ([0xC3, 0xB8] + ([0xC3, 0x9F] + []))))
  {
  }

  predicate AllUnreserved(t: seq<byte>) {
    forall i :: 0 <= i < |t| ==> Unreserved(t[i])
  }

  lemma NamesUnreserved()
    ensures AllUnreserved(Index1) && AllUnreserved(Value1) && AllUnreserved(Index2) && AllUnreserved(Value2)
  {
  }

  lemma ColumnsUnreserved()
    ensures AllUnreserved(Location) && AllUnreserved(Product)
  {
  }

  lemma AsciiValid(t: seq<byte>)
    requires AllUnreserved(t)
    ensures Utf8.Valid(t)
  {
    Utf8.AsciiIsValid(t);
  }

  lemma MuenchenValid()
    ensures Utf8.Valid(Muenchen)
  {
  }

  lemma SpecialValid()
    ensures Utf8.Valid(Special)
  {
  }

  /** `col=val` of two texts is their encodings around `=`. */
  lemma QuotePairText(c: Utf8.Utf8, v: Utf8.Utf8)
    ensures QuotePair((Text(c), Text(v))) == Ok(PercentEncode(c) + [EqualsSign] + PercentEncode(v))
  {
    QuoteText(c);
    QuoteText(v);
  }

  /** `quote_indices` of two pairs is their two `col=val` strings. */
  lemma QuoteTwoPairs(p1: Pair, p2: Pair, s1: seq<byte>, s2: seq<byte>)
    requires QuotePair(p1) == Ok(s1) && QuotePair(p2) == Ok(s2)
    ensures QuoteIndices([p1, p2]) == Ok([s1, s2])
  {
    var pairs := [p1, p2];
    assert EnsureUnicodePairs(pairs).Ok?;
    var q := QuoteIndices(pairs).value;
    assert QuotePair(pairs[0]) == Ok(s1) && QuotePair(pairs[1]) == Ok(s2);
    assert q == [q[0], q[1]];
  }

  lemma Join5(a: seq<byte>, b: seq<byte>, c: seq<byte>, d: seq<byte>, e: seq<byte>, sep: byte)
    ensures Join(sep, [a, b, c, d, e]) == a + [sep] + b + [sep] + c + [sep] + d + [sep] + e
  {
    assert [a, b] + [c, d, e] == [a, b, c, d, e];
    JoinPrefixTwo(sep, a, b, [c, d, e]);
    assert [c, d] + [e] == [c, d, e];
    JoinPrefixTwo(sep, c, d, [e]);
    assert Join(sep, [e]) == e;
    AppendNested(a + [sep] + b + [sep], c, [sep], d, [sep], e);
  }

  /** Appending a left-nested concatenation is appending its parts one by one. */
  lemma AppendNested(x: seq<byte>, p1: seq<byte>, p2: seq<byte>, p3: seq<byte>, p4: seq<byte>, p5: seq<byte>)
    ensures x + (p1 + p2 + p3 + p4 + p5) == x + p1 + p2 + p3 + p4 + p5
  {
    ConcatAssoc(x, p1 + p2 + p3 + p4, p5);
    ConcatAssoc(x, p1 + p2 + p3, p4);
    ConcatAssoc(x, p1 + p2, p3);
    ConcatAssoc(x, p1, p2);
  }

  /** `create_partition_key` with two pairs of unreserved names and no
      filename: the names appear unescaped and the filename is `data`. */
  lemma CreatePartitionKeyUnreserved(uuid: seq<byte>, table: seq<byte>,
                                     c1: Utf8.Utf8, v1: Utf8.Utf8, c2: Utf8.Utf8, v2: Utf8.Utf8)
    requires AllUnreserved(c1) && AllUnreserved(v1) && AllUnreserved(c2) && AllUnreserved(v2)
    ensures CreatePartitionKey(uuid, table, [(Text(c1), Text(v1)), (Text(c2), Text(v2))], DefaultFilename)
      == Ok(uuid + [Slash] + table + [Slash] + (c1 + [EqualsSign] + v1) + [Slash] + (c2 + [EqualsSign] + v2)
            + [Slash] + DefaultFilename)
  {
    PercentEncodeUnreserved(c1);
    PercentEncodeUnreserved(v1);
    PercentEncodeUnreserved(c2);
    PercentEncodeUnreserved(v2);
    QuotePairText(c1, v1);
    QuotePairText(c2, v2);
    QuoteTwoPairs((Text(c1), Text(v1)), (Text(c2), Text(v2)), c1 + [EqualsSign] + v1, c2 + [EqualsSign] + v2);
    var p1 := c1 + [EqualsSign] + v1;
    var p2 := c2 + [EqualsSign] + v2;
    assert [uuid, table] + ([p1, p2] + [DefaultFilename]) == [uuid, table, p1, p2, DefaultFilename];
    Join5(uuid, table, p1, p2, DefaultFilename, Slash);
  }

  /** The key of `my-uuid`, `testtable`, `index1=value1`, `index2=value2`
      is `my-uuid/testtable/index1=value1/index2=value2/data`. */
  lemma CreatePartitionKeyExample(uuid: seq<byte>, table: seq<byte>,
                                  c1: Utf8.Utf8, v1: Utf8.Utf8, c2: Utf8.Utf8, v2: Utf8.Utf8)
    requires uuid == MyUuid && table == TestTable
    requires c1 == Index1 && v1 == Value1 && c2 == Index2 && v2 == Value2
    ensures CreatePartitionKey(uuid, table, [(Text(c1), Text(v1)), (Text(c2), Text(v2))], DefaultFilename)
      == Ok(uuid + [Slash] + table + [Slash] + (c1 + [EqualsSign] + v1) + [Slash] + (c2 + [EqualsSign] + v2)
            + [Slash] + DefaultFilename)
  {
    NamesUnreserved();
    CreatePartitionKeyUnreserved(uuid, table, c1, v1, c2, v2);
  }

  /** Quoting escapes the bytes of non-ASCII letters, backslash and space:
      `München` becomes `M%C3%BCnchen`, ... */
  lemma QuoteMuenchen(t: Utf8.Utf8)
    requires t == Muenchen
    ensures Quote(Text(t)) == Ok(MuenchenQuoted)
  {
    PercentEncodeMuenchen(t);
    QuoteText(t);
  }

  lemma PercentEncodeMuenchen(t: seq<byte>)
    requires t == Muenchen
    ensures PercentEncode(t) == MuenchenQuoted
  {
    MuenchenSplit(t);
    NchenUnreserved(Nchen);
    PercentEncodeUnreserved(Nchen);
    PercentEncodeCons(0xBC, Nchen, [0x25, 0x42, 0x43]);
    PercentEncodeCons(0xC3, [0xBC] + Nchen, [0x25, 0x43, 0x33]);
    PercentEncodeCons(0x4D, [0xC3] + ([0xBC] + Nchen), [0x4D]);
    MuenchenQuotedSplit(MuenchenQuoted);
  }

  lemma MuenchenSplit(t: seq<byte>)
    requires t == Muenchen
    ensures t == [0x4D] + ([0xC3] + ([0xBC] + Nchen))
  {
  }

  lemma NchenUnreserved(n: seq<byte>)
    requires n == Nchen
    ensures AllUnreserved(n)
  {
  }

  lemma MuenchenQuotedSplit(q: seq<byte>)
    requires q == MuenchenQuoted
    ensures q == [0x4D] + ([0x25, 0x43, 0x33] + ([0x25, 0x42, 0x43] + Nchen))
  {
  }

  /** ... and `å\ øß` becomes `%C3%A5%5C%20%C3%B8%C3%9F`. */
  lemma QuoteSpecial(t: Utf8.Utf8)
    requires t == Special
    ensures Quote(Text(t)) == Ok(SpecialQuoted)
  {
    PercentEncodeSpecial(t);
    QuoteText(t);
  }

  lemma PercentEncodeSpecial(t: seq<byte>)
    requires t == Special
    ensures PercentEncode(t) == SpecialQuoted
  {
    SpecialSplit(t);
    var tail: seq<byte> := [0xC3] + ([0xB8] + ([0xC3] + ([0x9F] + [])));
    PercentEncodeFour(0xC3, 0xB8, 0xC3, 0x9F, [0x25, 0x43, 0x33], [0x25, 0x42, 0x38], [0x25, 0x43, 0x33], [0x25, 0x39, 0x46], []);
    PercentEncodeFour(0xC3, 0xA5, 0x5C, 0x20, [0x25, 0x43, 0x33], [0x25, 0x41, 0x35], [0x25, 0x35, 0x43], [0x25, 0x32, 0x30], tail);
    SpecialQuotedSplit(SpecialQuoted);
  }

  lemma PercentEncodeFour(a: byte, b: byte, c: byte, d: byte,
                          ea: seq<byte>, eb: seq<byte>, ec: seq<byte>, ed: seq<byte>, rest: seq<byte>)
    requires EscapeByte(a) == ea && EscapeByte(b) == eb && EscapeByte(c) == ec && EscapeByte(d) == ed
    ensures PercentEncode([a] + ([b] + ([c] + ([d] + rest)))) == ea + (eb + (ec + (ed + PercentEncode(rest))))
  {
    PercentEncodeCons(d, rest, ed);
    PercentEncodeCons(c, [d] + rest, ec);
    PercentEncodeCons(b, [c] + ([d] + rest), eb);
    PercentEncodeCons(a, [b] + ([c] + ([d] + rest)), ea);
  }

  lemma SpecialSplit(t: seq<byte>)
    requires t == Special
    ensures t == [0xC3] + ([0xA5] + ([0x5C] + ([0x20] + ([0xC3] + ([0xB8] + ([0xC3] + ([0x9F] + [])))))))
  {
  }

  lemma SpecialQuotedSplit(q: seq<byte>)
    requires q == SpecialQuoted
    ensures q == [0x25, 0x43, 0x33] + ([0x25, 0x41, 0x35] + ([0x25, 0x35, 0x43] + ([0x25, 0x32, 0x30]
      + ([0x25, 0x43, 0x33] + ([0x25, 0x42, 0x38] + ([0x25, 0x43, 0x33] + ([0x25, 0x39, 0x46] + [])))))))
  {
  }

  /** Two text pairs whose halves quote to `q1`, `e1`, `q2`, `e2` come back
      from `unquote_indices(["q1=e1", "q2=e2"])` unchanged. */
  lemma UnquoteTwoTextPairs(c1: Utf8.Utf8, v1: Utf8.Utf8, c2: Utf8.Utf8, v2: Utf8.Utf8,
                            q1: seq<byte>, e1: seq<byte>, q2: seq<byte>, e2: seq<byte>)
    requires Quote(Text(c1)) == Ok(q1) && Quote(Text(v1)) == Ok(e1)
    requires Quote(Text(c2)) == Ok(q2) && Quote(Text(v2)) == Ok(e2)
    ensures UnquoteIndices([q1 + [EqualsSign] + e1, q2 + [EqualsSign] + e2]) == Ok([(c1, v1), (c2, v2)])
  {
    var pairs := [(Text(c1), Text(v1)), (Text(c2), Text(v2))];
    QuoteTwoPairs(pairs[0], pairs[1], q1 + [EqualsSign] + e1, q2 + [EqualsSign] + e2);
    assert pairs == [pairs[0], pairs[1]];
    UnquoteQuoteIndices(pairs);
    EnsureUnicodePairsPointwise(pairs, [(c1, v1), (c2, v2)]);
  }

  /** `unquote_indices` of `location=M%C3%BCnchen` and
      `product=%C3%A5%5C%20%C3%B8%C3%9F` gives the decoded text pairs. */
  lemma UnquoteIndicesExample(c1: Utf8.Utf8, v1: Utf8.Utf8, c2: Utf8.Utf8, v2: Utf8.Utf8)
    requires c1 == Location && v1 == Muenchen && c2 == Product && v2 == Special
    ensures UnquoteIndices([c1 + [EqualsSign] + MuenchenQuoted, c2 + [EqualsSign] + SpecialQuoted])
      == Ok([(c1, v1), (c2, v2)])
  {
    ColumnsUnreserved();
    QuoteMuenchen(v1);
    QuoteSpecial(v2);
    QuoteUnreserved(c1);
    QuoteUnreserved(c2);
    UnquoteTwoTextPairs(c1, v1, c2, v2, c1, MuenchenQuoted, c2, SpecialQuoted);
  }

  /** Unreserved text quotes to itself. */
  lemma QuoteUnreserved(t: Utf8.Utf8)
    requires AllUnreserved(t)
    ensures Quote(Text(t)) == Ok(t)
  {
    PercentEncodeUnreserved(t);
    QuoteText(t);
  }

  lemma MuenchenAsciiValid(t: seq<byte>)
    requires t == MuenchenAscii
    ensures Utf8.Valid(t)
  {
    MuenchenAsciiUnreserved(t);
    AsciiValid(t);
  }

  lemma MuenchenAsciiUnreserved(t: seq<byte>)
    requires t == MuenchenAscii
    ensures AllUnreserved(t)
  {
  }

  /** The integer `1` is rendered as the text `1`. */
  lemma RenderOne(n: int)
    requires n == 1
    ensures EnsureUnicodeStringType(Int(n)) == Ok(One)
  {
    assert Decimal.Render(1) == One;
  }

  /** The round trip of `test_index_quote_roundtrip`: the integer column `1`
      becomes the text `1`, the bytes `Muenchen` the text `Muenchen`, and
      text stays as it is. */
  lemma RoundTripExample(number: int, raw: seq<byte>, c1: Utf8.Utf8, v1: Utf8.Utf8, c2: Utf8.Utf8, v2: Utf8.Utf8)
    requires number == 1 && raw == MuenchenAscii
    requires c1 == Location && v1 == Muenchen && c2 == Product && v2 == Special
    ensures var pairs := [(Int(number), Raw(raw)), (Text(c1), Raw(raw)), (Text(c1), Text(v1)), (Text(c2), Text(v2))];
      && QuoteIndices(pairs).Ok?
      && UnquoteIndices(QuoteIndices(pairs).value) == Ok([(One, raw), (c1, raw), (c1, v1), (c2, v2)])
  {
    var pairs := [(Int(number), Raw(raw)), (Text(c1), Raw(raw)), (Text(c1), Text(v1)), (Text(c2), Text(v2))];
    MuenchenAsciiValid(raw);
    RenderOne(number);
    RoundTripPairs(pairs, number, raw, c1, v1, c2, v2);
  }

  /** The round trip of four pairs: an integer and raw bytes, text and raw
      bytes, and two text pairs. */
  lemma RoundTripPairs(pairs: seq<Pair>, number: int, raw: Utf8.Utf8, c1: Utf8.Utf8, v1: Utf8.Utf8, c2: Utf8.Utf8, v2: Utf8.Utf8)
    requires pairs == [(Int(number), Raw(raw)), (Text(c1), Raw(raw)), (Text(c1), Text(v1)), (Text(c2), Text(v2))]
    ensures QuoteIndices(pairs).Ok?
    ensures var n := EnsureUnicodeStringType(Int(number)).value;
      UnquoteIndices(QuoteIndices(pairs).value) == Ok([(n, raw), (c1, raw), (c1, v1), (c2, v2)])
  {
    var n := EnsureUnicodeStringType(Int(number)).value;
    var texts := [(n, raw), (c1, raw), (c1, v1), (c2, v2)];
    EnsureUnicodePairsPointwise(pairs, texts);
    UnquoteQuoteIndices(pairs);
  }

  lemma OverlapUuidsFree(u: seq<byte>)
    requires u == OverlapUuid || u == OverlapUuidExt
    ensures Free(u, Slash)
  {
    assert Free(OverlapUuid, Slash);
    if u == OverlapUuidExt {
      assert forall i :: |OverlapUuid| <= i < |u| ==> u[i] == [0x5F, 0x65, 0x78, 0x74][i - |OverlapUuid|];
    }
  }

  lemma OverlapUuidsDiffer(u: seq<byte>, other: seq<byte>)
    requires (u == OverlapUuid && other == OverlapUuidExt) || (u == OverlapUuidExt && other == OverlapUuid)
    ensures u != other
  {
    assert |OverlapUuidExt| == |OverlapUuid| + 4;
  }

  lemma CoreFree(table: seq<byte>)
    requires table == Core
    ensures Free(table, Slash)
  {
  }

  lemma OverlapNamesUnreserved(c: seq<byte>, v: seq<byte>)
    requires c == Location && v == L0
    ensures AllUnreserved(c) && AllUnreserved(v)
  {
  }

  /** `location` sorts after `_common_metadata`. */
  lemma LocationAfterUnderscore(c: seq<byte>)
    requires c == Location
    ensures |c| > 0 && c[0] > TableMetadataFile[0]
  {
  }

  /** `test_overlap_keyspace`: datasets `uuid+namespace-attribute12_underscored`
      and the same identifier followed by `_ext` each write their metadata
      document, the `core` table's schema object and the data file of
      partition `location=L-0/data` into one store. For either dataset,
      `storage_keys` lists exactly its own three keys in order, and loading it
      with its indices gives that one partition and the index
      `location -> L-0 -> {location=L-0/data}`. */
  lemma OverlapKeyspaceExample(u: seq<byte>, other: seq<byte>, table: Table, c: Utf8.Utf8, v: Utf8.Utf8,
                               lbl: Label, store: Store, keys: seq<Key>, doc: Document)
    requires (u == OverlapUuid && other == OverlapUuidExt) || (u == OverlapUuidExt && other == OverlapUuid)
    requires table == Core && c == Location && v == L0
    requires lbl == c + [EqualsSign] + v + [Slash] + DefaultFilename
    requires store == DatasetKeys(u, table, lbl) + DatasetKeys(other, table, lbl)
    requires StrictlySorted(keys) && forall k :: k in keys <==> k in store && OwnedBy(u, k)
    requires doc.uuid == u
    ensures OverlapOutcome(u, table, c, v, lbl, store, keys, doc)
  {
    OverlapNames(u, other, table, c, v);
    OverlapKeyspace(u, other, table, c, v, lbl, store, keys, doc);
  }

  /** The names of the shared-store case meet what `OverlapKeyspace` asks of
      them. */
  lemma OverlapNames(u: seq<byte>, other: seq<byte>, table: Table, c: Utf8.Utf8, v: Utf8.Utf8)
    requires (u == OverlapUuid && other == OverlapUuidExt) || (u == OverlapUuidExt && other == OverlapUuid)
    requires table == Core && c == Location && v == L0
    ensures Free(u, Slash) && Free(other, Slash) && u != other && Free(table, Slash)
    ensures forall i :: 0 <= i < |c| ==> Unreserved(c[i])
    ensures forall i :: 0 <= i < |v| ==> Unreserved(v[i])
    ensures |c| > 0 && c[0] > TableMetadataFile[0]
  {
    OverlapUuidsFree(u);
    OverlapUuidsFree(other);
    OverlapUuidsDiffer(u, other);
    CoreFree(table);
    OverlapNamesUnreserved(c, v);
    LocationAfterUnderscore(c);
  }
}
