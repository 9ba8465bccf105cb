/** The partition-key codec: percent-encoding (section 2.1 of RFC 3986) of
    the UTF-8 bytes of column names and values, and its inverse. Every byte
    other than the unreserved characters `A-Z a-z 0-9 - . _ ~` becomes `%XX`
    with upper-case hex digits, so a quoted string never holds `/` or `=`. */
module UrlEncode {
  import opened Bytes
  import opened Wrappers
  import Utf8
  import opened SerializationUtil

  /** The unreserved characters of section 2.3 of RFC 3986. */
  predicate Unreserved(b: byte) {
    (0x41 <= b <= 0x5A) || (0x61 <= b <= 0x7A) || (0x30 <= b <= 0x39)
    || b == 0x2D || b == 0x2E || b == 0x5F || b == 0x7E
  }

  predicate IsHex(b: byte) {
    (0x30 <= b <= 0x39) || (0x41 <= b <= 0x46) || (0x61 <= b <= 0x66)
  }

  predicate IsUpperHex(b: byte) {
    (0x30 <= b <= 0x39) || (0x41 <= b <= 0x46)
  }

  /** Upper-case hex digit of a nibble. */
  function HexDigit(n: nat): (d: byte)
    requires n < 16
    ensures IsUpperHex(d) && Unreserved(d)
  {
    if n < 10 then 0x30 + n else 0x41 + (n - 10)
  }

  /** Value of a hex digit of either case. */
  function HexValue(b: byte): (n: nat)
    requires IsHex(b)
    ensures n < 16
    ensures IsUpperHex(b) ==> HexDigit(n) == b
  {
    if b <= 0x39 then b - 0x30
    else if b <= 0x46 then b - 0x41 + 10
    else b - 0x61 + 10
  }

  /** The encoding of one byte. */
  function EscapeByte(b: byte): seq<byte> {
    if Unreserved(b) then [b] else [Percent, HexDigit(b / 16), HexDigit(b % 16)]
  }

  /** Percent-encoding of a byte string. */
  function PercentEncode(b: seq<byte>): seq<byte>
    decreases |b|
  {
    if |b| == 0 then [] else EscapeByte(b[0]) + PercentEncode(b[1..])
  }

  /** The bytes a quoted form may hold. */
  predicate EncodedByte(b: byte) {
    Unreserved(b) || b == Percent
  }

  /** The quoted form holds only unreserved bytes and `%`. */
  lemma {:induction false} EncodedBytes(b: seq<byte>)
    ensures forall i :: 0 <= i < |PercentEncode(b)| ==> EncodedByte(PercentEncode(b)[i])
    decreases |b|
  {
    if |b| > 0 {
      EncodedBytes(b[1..]);
      var q := PercentEncode(b);
      var e := EscapeByte(b[0]);
      var tail := PercentEncode(b[1..]);
      assert q == e + tail;
      forall i | 0 <= i < |q|
        ensures EncodedByte(q[i])
      {
        if i >= |e| {
          assert q[i] == tail[i - |e|];
        } else if Unreserved(b[0]) {
          assert q[i] == e[0] == b[0];
        } else {
          assert q[i] == e[i];
          assert e[1] == HexDigit(b[0] / 16) && e[2] == HexDigit(b[0] % 16);
        }
      }
    }
  }

  /** Percent-decoding; a `%` not followed by two hex digits is malformed. */
  function PercentDecode(s: seq<byte>): Result<seq<byte>, DecodeError>
    decreases |s|
  {
    if |s| == 0 then Ok([])
    else if s[0] == Percent then
      if |s| < 3 || !IsHex(s[1]) || !IsHex(s[2]) then Err(MalformedEscape)
      else
        var rest :- PercentDecode(s[3..]);
        Ok([HexValue(s[1]) * 16 + HexValue(s[2])] + rest)
    else
      var rest :- PercentDecode(s[1..]);
      Ok([s[0]] + rest)
  }

  /** The strings `PercentEncode` produces: unreserved bytes stand for
      themselves, every other byte is written `%XX` in upper case. */
  predicate Canonical(s: seq<byte>)
    decreases |s|
  {
    if |s| == 0 then true
    else if Unreserved(s[0]) then Canonical(s[1..])
    else
      s[0] == Percent && |s| >= 3 && IsUpperHex(s[1]) && IsUpperHex(s[2])
      && !Unreserved(HexValue(s[1]) * 16 + HexValue(s[2])) && Canonical(s[3..])
  }

  /** Encoding a byte string escapes its first byte and encodes the rest. */
  lemma PercentEncodeCons(b: byte, rest: seq<byte>, e: seq<byte>)
    requires EscapeByte(b) == e
    ensures PercentEncode([b] + rest) == e + PercentEncode(rest)
  {
    assert ([b] + rest)[0] == b;
    assert ([b] + rest)[1..] == rest;
  }

  lemma {:induction false} PercentEncodeConcat(a: seq<byte>, b: seq<byte>)
    ensures PercentEncode(a + b) == PercentEncode(a) + PercentEncode(b)
    decreases |a|
  {
    if |a| == 0 {
      assert a + b == b;
    } else {
      assert (a + b)[0] == a[0];
      assert (a + b)[1..] == a[1..] + b;
      PercentEncodeConcat(a[1..], b);
    }
  }

  /** A string of unreserved bytes is its own encoding. */
  lemma {:induction false} PercentEncodeUnreserved(b: seq<byte>)
    requires forall i :: 0 <= i < |b| ==> Unreserved(b[i])
    ensures PercentEncode(b) == b
    decreases |b|
  {
    if |b| > 0 {
      PercentEncodeUnreserved(b[1..]);
      assert b == [b[0]] + b[1..];
    }
  }

  /** Decoding undoes encoding. */
  lemma {:induction false} DecodeEncode(b: seq<byte>)
    ensures PercentDecode(PercentEncode(b)) == Ok(b)
    decreases |b|
  {
    if |b| > 0 {
      DecodeEncode(b[1..]);
      var q := PercentEncode(b[1..]);
      assert PercentEncode(b) == EscapeByte(b[0]) + q;
      if Unreserved(b[0]) {
        DecodeUnreserved(b[0], q);
      } else {
        DecodeEscaped(b[0], q);
      }
      assert b == [b[0]] + b[1..];
    }
  }

  /** Decoding reads an unreserved byte as itself. */
  lemma DecodeUnreserved(b: byte, q: seq<byte>)
    requires Unreserved(b) && PercentDecode(q).Ok?
    ensures PercentDecode(EscapeByte(b) + q) == Ok([b] + PercentDecode(q).value)
  {
    var s := EscapeByte(b) + q;
    assert s[0] == b && s[1..] == q;
  }

  /** Decoding reads the escape of a reserved byte as that byte. */
  lemma DecodeEscaped(b: byte, q: seq<byte>)
    requires !Unreserved(b) && PercentDecode(q).Ok?
    ensures PercentDecode(EscapeByte(b) + q) == Ok([b] + PercentDecode(q).value)
  {
    var hi, lo := b / 16, b % 16;
    var s := EscapeByte(b) + q;
    assert s[0] == Percent && s[1] == HexDigit(hi) && s[2] == HexDigit(lo);
    assert s[3..] == q;
    HexDigitValue(hi);
    HexDigitValue(lo);
    assert hi * 16 + lo == b;
  }

  /** Reading back the hex digit of a nibble gives the nibble. */
  lemma HexDigitValue(n: nat)
    requires n < 16
    ensures IsHex(HexDigit(n)) && HexValue(HexDigit(n)) == n
  {
  }

  /** Every encoding is canonical. */
  lemma {:induction false} EncodeIsCanonical(b: seq<byte>)
    ensures Canonical(PercentEncode(b))
    decreases |b|
  {
    if |b| > 0 {
      EncodeIsCanonical(b[1..]);
      var q := PercentEncode(b);
      assert q == EscapeByte(b[0]) + PercentEncode(b[1..]);
      if Unreserved(b[0]) {
        assert q[1..] == PercentEncode(b[1..]);
      } else {
        assert q[3..] == PercentEncode(b[1..]);
        assert HexValue(q[1]) == b[0] / 16 && HexValue(q[2]) == b[0] % 16;
      }
    }
  }

  /** Every canonical string decodes, and encoding the result gives it back. */
  lemma EncodeDecode(s: seq<byte>)
    requires Canonical(s)
    ensures PercentDecode(s).Ok? && PercentEncode(PercentDecode(s).value) == s
  {
    var b := CanonicalSource(s);
    DecodeEncode(b);
  }

  /** The byte string a canonical string is the encoding of. */
  function CanonicalSource(s: seq<byte>): (b: seq<byte>)
    requires Canonical(s)
    ensures PercentEncode(b) == s
    decreases |s|
  {
    if |s| == 0 then []
    else if Unreserved(s[0]) then
      var r := CanonicalSource(s[1..]);
      PercentEncodeCons(s[0], r, [s[0]]);
      assert s == [s[0]] + s[1..];
      [s[0]] + r
    else
      CanonicalHead(s);
      var r := CanonicalSource(s[3..]);
      EscapeSource(s, r);
      [HexValue(s[1]) * 16 + HexValue(s[2])] + r
  }

  /** A string starting with an upper-case escape of a reserved byte encodes
      that byte followed by whatever its rest encodes. */
  lemma EscapeSource(s: seq<byte>, r: seq<byte>)
    requires |s| >= 3 && s[0] == Percent && IsUpperHex(s[1]) && IsUpperHex(s[2])
    requires !Unreserved(HexValue(s[1]) * 16 + HexValue(s[2]))
    requires PercentEncode(r) == s[3..]
    ensures HexValue(s[1]) * 16 + HexValue(s[2]) < 256
    ensures PercentEncode([HexValue(s[1]) * 16 + HexValue(s[2])] + r) == s
  {
    var d: byte := HexValue(s[1]) * 16 + HexValue(s[2]);
    EscapeOfHex(s[0], s[1], s[2]);
    SplitThree(s);
    PercentEncodeCons(d, r, s[..3]);
  }

  /** A string of at least three bytes is its first three bytes followed by
      the rest. */
  lemma SplitThree(s: seq<byte>)
    requires |s| >= 3
    ensures s[..3] == [s[0], s[1], s[2]] && s == s[..3] + s[3..]
  {
  }

  /** A canonical string not starting with an unreserved byte starts with an
      upper-case escape of a reserved byte. */
  lemma CanonicalHead(s: seq<byte>)
    requires |s| > 0 && !Unreserved(s[0]) && Canonical(s)
    ensures |s| >= 3 && s[0] == Percent && IsUpperHex(s[1]) && IsUpperHex(s[2])
    ensures !Unreserved(HexValue(s[1]) * 16 + HexValue(s[2]))
  {
  }

  /** A reserved byte spelled by two upper-case hex digits is escaped with
      exactly those digits. */
  lemma EscapeOfHex(p: byte, h: byte, l: byte)
    requires p == Percent && IsUpperHex(h) && IsUpperHex(l) && !Unreserved(HexValue(h) * 16 + HexValue(l))
    ensures EscapeByte(HexValue(h) * 16 + HexValue(l)) == [p, h, l]
  {
    HexPairValue(h, l);
  }

  /** Two upper-case hex digits are the digits of the byte they spell. */
  lemma HexPairValue(h: byte, l: byte)
    requires IsUpperHex(h) && IsUpperHex(l)
    ensures var d := HexValue(h) * 16 + HexValue(l);
      d / 16 == HexValue(h) && d % 16 == HexValue(l) && HexDigit(d / 16) == h && HexDigit(d % 16) == l
  {
  }

  /** `quote`: coerce the value to text, then percent-encode its UTF-8 bytes. */
  function Quote(v: Value): (r: Result<seq<byte>, DecodeError>)
    ensures r.Ok? <==> EnsureUnicodeStringType(v).Ok?
    ensures r.Ok? ==> Canonical(r.value) && Free(r.value, Slash) && Free(r.value, EqualsSign)
    ensures r.Ok? ==> PercentDecode(r.value) == Ok(EnsureUnicodeStringType(v).value)
  {
    var text :- EnsureUnicodeStringType(v);
    var q := PercentEncode(text);
    EncodedBytes(text);
    EncodeIsCanonical(text);
    DecodeEncode(text);
    Ok(q)
  }

  /** `unquote`: percent-decode, then read the bytes as UTF-8 text. */
  function Unquote(s: seq<byte>): (r: Result<Utf8.Utf8, DecodeError>)
    ensures r.Ok? <==> PercentDecode(s).Ok? && Utf8.Valid(PercentDecode(s).value)
    ensures r.Ok? ==> PercentDecode(s) == Ok(r.value)
  {
    var bytes :- PercentDecode(s);
    if Utf8.Valid(bytes) then Ok(bytes) else Err(InvalidUtf8)
  }

  /** On a canonical string, quoting what `unquote` returns gives the string back. */
  lemma QuoteUnquote(s: seq<byte>)
    requires Canonical(s) && Unquote(s).Ok?
    ensures Quote(Text(Unquote(s).value)) == Ok(s)
  {
    EncodeDecode(s);
  }

  /** Quoting text is percent-encoding its bytes. */
  lemma QuoteText(t: Utf8.Utf8)
    ensures Quote(Text(t)) == Ok(PercentEncode(t))
  {
  }

  /** Unquoting a quoted value gives the value coerced to text. */
  lemma UnquoteQuote(v: Value)
    requires Quote(v).Ok?
    ensures Unquote(Quote(v).value) == EnsureUnicodeStringType(v)
  {
  }

  /** A partition column pair as the caller gives it. */
  type Pair = (Value, Value)

  /** A partition column pair after coercion to text. */
  type TextPair = (Utf8.Utf8, Utf8.Utf8)

  /** Both halves of each pair coerced to text, in order. */
  function EnsureUnicodePairs(pairs: seq<Pair>): (r: Result<seq<TextPair>, DecodeError>)
    ensures r.Ok? ==> |r.value| == |pairs|
    ensures r.Ok? <==> forall i :: 0 <= i < |pairs| ==>
      EnsureUnicodeStringType(pairs[i].0).Ok? && EnsureUnicodeStringType(pairs[i].1).Ok?
    ensures r.Ok? ==> forall i :: 0 <= i < |pairs| ==>
      r.value[i] == (EnsureUnicodeStringType(pairs[i].0).value, EnsureUnicodeStringType(pairs[i].1).value)
    decreases |pairs|
  {
    if |pairs| == 0 then Ok([])
    else
      var column :- EnsureUnicodeStringType(pairs[0].0);
      var value :- EnsureUnicodeStringType(pairs[0].1);
      var rest :- EnsureUnicodePairs(pairs[1..]);
      Ok([(column, value)] + rest)
  }

  /** Coercing pairs to text succeeds with `texts` when it does so pair by pair. */
  lemma EnsureUnicodePairsPointwise(pairs: seq<Pair>, texts: seq<TextPair>)
    requires |pairs| == |texts|
    requires forall i :: 0 <= i < |pairs| ==>
      EnsureUnicodeStringType(pairs[i].0) == Ok(texts[i].0) && EnsureUnicodeStringType(pairs[i].1) == Ok(texts[i].1)
    ensures EnsureUnicodePairs(pairs) == Ok(texts)
  {
    forall i | 0 <= i < |pairs|
      ensures EnsureUnicodeStringType(pairs[i].0).Ok? && EnsureUnicodeStringType(pairs[i].1).Ok?
    {
    }
    var r := EnsureUnicodePairs(pairs).value;
    forall i | 0 <= i < |texts|
      ensures r[i] == texts[i]
    {
      assert r[i] == (EnsureUnicodeStringType(pairs[i].0).value, EnsureUnicodeStringType(pairs[i].1).value);
    }
    assert r == texts;
  }

  /** `col=val` with both halves quoted. */
  function QuotePair(p: Pair): (r: Result<seq<byte>, DecodeError>)
    ensures r.Ok? <==> EnsureUnicodeStringType(p.0).Ok? && EnsureUnicodeStringType(p.1).Ok?
    ensures r.Ok? ==> Free(r.value, Slash) && |Split(r.value, EqualsSign)| == 2
  {
    var column :- Quote(p.0);
    var value :- Quote(p.1);
    SplitAtSeparator(column, value, EqualsSign);
    SplitFree(value, EqualsSign);
    Ok(column + [EqualsSign] + value)
  }

  /** `quote_indices`: one `col=val` string per pair, in order. */
  function QuoteIndices(pairs: seq<Pair>): (r: Result<seq<seq<byte>>, DecodeError>)
    ensures r.Ok? <==> EnsureUnicodePairs(pairs).Ok?
    ensures r.Ok? ==> |r.value| == |pairs|
    ensures r.Ok? ==> forall i :: 0 <= i < |r.value| ==> Free(r.value[i], Slash)
    ensures r.Ok? ==> forall i :: 0 <= i < |pairs| ==> QuotePair(pairs[i]) == Ok(r.value[i])
    decreases |pairs|
  {
    if |pairs| == 0 then Ok([])
    else
      var head :- QuotePair(pairs[0]);
      var rest :- QuoteIndices(pairs[1..]);
      Ok([head] + rest)
  }

  /** Splits one `col=val` string at its only `=` and unquotes both halves. */
  function UnquotePair(s: seq<byte>): (r: Result<TextPair, DecodeError>)
    ensures |Split(s, EqualsSign)| != 2 ==> r == Err(MalformedPair)
    ensures r.Ok? <==> var halves := Split(s, EqualsSign);
      |halves| == 2 && Unquote(halves[0]).Ok? && Unquote(halves[1]).Ok?
    ensures r.Ok? ==> var halves := Split(s, EqualsSign);
      Unquote(halves[0]) == Ok(r.value.0) && Unquote(halves[1]) == Ok(r.value.1)
  {
    var halves := Split(s, EqualsSign);
    if |halves| != 2 then Err(MalformedPair)
    else
      var column :- Unquote(halves[0]);
      var value :- Unquote(halves[1]);
      Ok((column, value))
  }

  /** `unquote_indices`: unquotes every `col=val` string, failing on the first
      one that is malformed. */
  function UnquoteIndices(strings: seq<seq<byte>>): (r: Result<seq<TextPair>, DecodeError>)
    ensures r.Ok? ==> |r.value| == |strings|
    ensures r.Ok? <==> forall i :: 0 <= i < |strings| ==> UnquotePair(strings[i]).Ok?
    ensures r.Ok? ==> forall i :: 0 <= i < |strings| ==> r.value[i] == UnquotePair(strings[i]).value
    decreases |strings|
  {
    if |strings| == 0 then Ok([])
    else
      var head :- UnquotePair(strings[0]);
      var rest :- UnquoteIndices(strings[1..]);
      Ok([head] + rest)
  }

  /** Unquoting a quoted pair gives the pair coerced to text. */
  lemma UnquoteQuotePair(p: Pair)
    requires QuotePair(p).Ok?
    ensures UnquotePair(QuotePair(p).value) ==
      Ok((EnsureUnicodeStringType(p.0).value, EnsureUnicodeStringType(p.1).value))
  {
    var column := Quote(p.0).value;
    var value := Quote(p.1).value;
    SplitAtSeparator(column, value, EqualsSign);
    SplitFree(value, EqualsSign);
    assert Split(QuotePair(p).value, EqualsSign) == [column, value];
    UnquoteQuote(p.0);
    UnquoteQuote(p.1);
  }

  /** The round trip of the codec: `unquote_indices(quote_indices(pairs))`
      is `pairs` with every column and value coerced to text. */
  lemma {:induction false} UnquoteQuoteIndices(pairs: seq<Pair>)
    requires QuoteIndices(pairs).Ok?
    ensures UnquoteIndices(QuoteIndices(pairs).value) == EnsureUnicodePairs(pairs)
    decreases |pairs|
  {
    if |pairs| > 0 {
      UnquoteQuotePair(pairs[0]);
      UnquoteQuoteIndices(pairs[1..]);
      var q := QuoteIndices(pairs).value;
      assert q[1..] == QuoteIndices(pairs[1..]).value;
    }
  }
}
