/** UTF-8 as defined by RFC 3629. Text values are represented by their UTF-8
    encoding; `Valid` is the well-formedness grammar of section 4 of RFC 3629
    and `Encode` the scalar-to-bytes mapping of its section 3. */
module Utf8 {
  import opened Bytes

  predicate IsTail(b: byte) { 0x80 <= b <= 0xBF }

  /** Length of the well-formed character that starts `s`, or 0 if `s` does
      not start with one (the UTF8-1 .. UTF8-4 rules of RFC 3629). */
  function LeadLength(s: seq<byte>): (n: nat)
    requires |s| > 0
    ensures n <= 4 && n <= |s|
  {
    var b := s[0];
    if b <= 0x7F then 1
    else if 0xC2 <= b <= 0xDF then
      (if |s| >= 2 && IsTail(s[1]) then 2 else 0)
    else if b == 0xE0 then
      (if |s| >= 3 && 0xA0 <= s[1] <= 0xBF && IsTail(s[2]) then 3 else 0)
    else if (0xE1 <= b <= 0xEC) || (0xEE <= b <= 0xEF) then
      (if |s| >= 3 && IsTail(s[1]) && IsTail(s[2]) then 3 else 0)
    else if b == 0xED then
      (if |s| >= 3 && 0x80 <= s[1] <= 0x9F && IsTail(s[2]) then 3 else 0)
    else if b == 0xF0 then
      (if |s| >= 4 && 0x90 <= s[1] <= 0xBF && IsTail(s[2]) && IsTail(s[3]) then 4 else 0)
    else if 0xF1 <= b <= 0xF3 then
      (if |s| >= 4 && IsTail(s[1]) && IsTail(s[2]) && IsTail(s[3]) then 4 else 0)
    else if b == 0xF4 then
      (if |s| >= 4 && 0x80 <= s[1] <= 0x8F && IsTail(s[2]) && IsTail(s[3]) then 4 else 0)
    else 0
  }

  /** `s` is a sequence of well-formed UTF-8 characters. */
  predicate Valid(s: seq<byte>)
    decreases |s|
  {
    |s| == 0 || (var n := LeadLength(s); n > 0 && Valid(s[n..]))
  }

  /** Text: what a Python `str` holds, as its UTF-8 encoding. */
  type Utf8 = s: seq<byte> | Valid(s) witness []

  /** Every byte is an ASCII character. */
  predicate IsAscii(s: seq<byte>) {
    forall i :: 0 <= i < |s| ==> s[i] < 0x80
  }

  lemma {:induction false} AsciiIsValid(s: seq<byte>)
    requires IsAscii(s)
    ensures Valid(s)
    decreases |s|
  {
    if |s| > 0 {
      AsciiIsValid(s[1..]);
    }
  }

  /** A well-formed leading character is not disturbed by what follows it. */
  lemma LeadLengthExtend(a: seq<byte>, b: seq<byte>)
    requires |a| > 0 && LeadLength(a) > 0
    ensures LeadLength(a + b) == LeadLength(a)
  {
    var n := LeadLength(a);
    assert forall i :: 0 <= i < |a| ==> (a + b)[i] == a[i];
  }

  lemma ValidUnfold(s: seq<byte>)
    requires Valid(s) && |s| > 0
    ensures LeadLength(s) > 0 && Valid(s[LeadLength(s)..])
  {
  }

  lemma ValidFold(s: seq<byte>, n: nat)
    requires |s| > 0 && n == LeadLength(s) && n > 0 && Valid(s[n..])
    ensures Valid(s)
  {
  }

  lemma ConcatStep(a: seq<byte>, b: seq<byte>)
    requires |a| > 0 && LeadLength(a) > 0 && Valid(a[LeadLength(a)..] + b)
    ensures Valid(a + b)
  {
    var n := LeadLength(a);
    LeadLengthExtend(a, b);
    assert (a + b)[n..] == a[n..] + b;
    ValidFold(a + b, n);
  }

  lemma {:induction false} ConcatIsValid(a: seq<byte>, b: seq<byte>)
    requires Valid(a) && Valid(b)
    ensures Valid(a + b)
    decreases |a|
  {
    if |a| == 0 {
      assert a + b == b;
    } else {
      ValidUnfold(a);
      ConcatIsValid(a[LeadLength(a)..], b);
      ConcatStep(a, b);
    }
  }

  /** The UTF-8 encoding of one Unicode scalar value (section 3 of RFC 3629). */
  function EncodeChar(c: char): (r: seq<byte>)
    ensures 1 <= |r| <= 4 && LeadLength(r) == |r|
  {
    var x := c as int;
    if x < 0x80 then [x]
    else if x < 0x800 then EncodeTwo(x)
    else if x < 0x10000 then EncodeThree(x)
    else EncodeFour(x)
  }

  /** Two bytes for U+0080 .. U+07FF. */
  function EncodeTwo(x: int): (r: seq<byte>)
    requires 0x80 <= x < 0x800
    ensures |r| == 2 && LeadLength(r) == 2
  {
    [0xC0 + x / 64, 0x80 + x % 64]
  }

  /** Three bytes for U+0800 .. U+FFFF, surrogates excluded. */
  function EncodeThree(x: int): (r: seq<byte>)
    requires 0x800 <= x < 0x10000 && !(0xD800 <= x < 0xE000)
    ensures |r| == 3 && LeadLength(r) == 3
  {
    assert x / 4096 < 16;
    assert x < 0x1000 ==> x / 64 >= 32;
    assert 0xD000 <= x < 0xD800 ==> (x / 64) % 64 < 32;
    [0xE0 + x / 4096, 0x80 + (x / 64) % 64, 0x80 + x % 64]
  }

  /** Four bytes for U+10000 .. U+10FFFF. */
  function EncodeFour(x: int): (r: seq<byte>)
    requires 0x10000 <= x < 0x110000
    ensures |r| == 4 && LeadLength(r) == 4
  {
    assert x / 262144 <= 4;
    assert x < 0x40000 ==> x / 4096 >= 16;
    assert x >= 0x100000 ==> (x / 4096) % 64 < 16;
    [0xF0 + x / 262144, 0x80 + (x / 4096) % 64, 0x80 + (x / 64) % 64, 0x80 + x % 64]
  }

  /** The UTF-8 encoding of a string of Unicode scalar values. */
  function Encode(s: string): (r: Utf8)
    ensures |s| <= |r| <= 4 * |s|
    decreases |s|
  {
    if |s| == 0 then []
    else
      var head := EncodeChar(s[0]);
      var tail := Encode(s[1..]);
      assert head[|head|..] == [];
      ConcatIsValid(head, tail);
      head + tail
  }

  /** Encoding distributes over concatenation. */
  lemma {:induction false} EncodeConcat(s: string, t: string)
    ensures Encode(s + t) == Encode(s) + Encode(t)
    decreases |s|
  {
    if |s| == 0 {
      assert s + t == t;
    } else {
      var c := s[0];
      assert s == [c] + s[1..];
      assert s + t == [c] + (s[1..] + t);
      EncodeCons(c, s[1..] + t);
      EncodeCons(c, s[1..]);
      EncodeConcat(s[1..], t);
      Bytes.ConcatAssoc(EncodeChar(c), Encode(s[1..]), Encode(t));
    }
  }

  lemma EncodeCons(c: char, s: string)
    ensures Encode([c] + s) == EncodeChar(c) + Encode(s)
  {
    assert ([c] + s)[0] == c;
    assert ([c] + s)[1..] == s;
  }

  /** On ASCII strings the encoding is the identity on code points. */
  lemma {:induction false} EncodeAscii(s: string)
    requires forall i :: 0 <= i < |s| ==> (s[i] as int) < 0x80
    ensures |Encode(s)| == |s|
    ensures forall i :: 0 <= i < |s| ==> Encode(s)[i] == s[i] as int
    ensures IsAscii(Encode(s))
    decreases |s|
  {
    if |s| > 0 {
      EncodeAscii(s[1..]);
    }
  }

  /** An ASCII string encodes to the bytes of its code points. */
  lemma EncodeAsciiBytes(s: string, b: seq<byte>)
    requires |b| == |s|
    requires forall i :: 0 <= i < |s| ==> (s[i] as int) < 0x80 && b[i] == s[i] as int
    ensures Encode(s) == b
  {
    EncodeAscii(s);
  }
  /** The scalar value of a well-formed character of two bytes. */
  function DecodeTwo(b0: byte, b1: byte): (x: int)
    requires 0xC2 <= b0 <= 0xDF && IsTail(b1)
    ensures 0x80 <= x < 0x800 && EncodeTwo(x) == [b0, b1]
  {
    var x := (b0 - 0xC0) * 64 + (b1 - 0x80);
    assert x / 64 == b0 - 0xC0 && x % 64 == b1 - 0x80;
    x
  }

  /** The scalar value of a well-formed character of three bytes. */
  function DecodeThree(b0: byte, b1: byte, b2: byte): (x: int)
    requires 0xE0 <= b0 <= 0xEF && IsTail(b1) && IsTail(b2)
    requires b0 == 0xE0 ==> 0xA0 <= b1
    requires b0 == 0xED ==> b1 <= 0x9F
    ensures 0x800 <= x < 0x10000 && !(0xD800 <= x < 0xE000) && EncodeThree(x) == [b0, b1, b2]
  {
    var hi := (b0 - 0xE0) * 64 + (b1 - 0x80);
    var x := hi * 64 + (b2 - 0x80);
    assert x / 64 == hi && x % 64 == b2 - 0x80;
    assert hi / 64 == b0 - 0xE0 && hi % 64 == b1 - 0x80;
    DivDiv64(x, hi);
    x
  }

  /** The scalar value of a well-formed character of four bytes. */
  function DecodeFour(b0: byte, b1: byte, b2: byte, b3: byte): (x: int)
    requires 0xF0 <= b0 <= 0xF4 && IsTail(b1) && IsTail(b2) && IsTail(b3)
    requires b0 == 0xF0 ==> 0x90 <= b1
    requires b0 == 0xF4 ==> b1 <= 0x8F
    ensures 0x10000 <= x < 0x110000 && EncodeFour(x) == [b0, b1, b2, b3]
  {
    var top := (b0 - 0xF0) * 64 + (b1 - 0x80);
    var hi := top * 64 + (b2 - 0x80);
    var x := hi * 64 + (b3 - 0x80);
    assert x / 64 == hi && x % 64 == b3 - 0x80;
    assert hi / 64 == top && hi % 64 == b2 - 0x80;
    assert top / 64 == b0 - 0xF0 && top % 64 == b1 - 0x80;
    DivDiv64(x, hi);
    Div262144(x);
    x
  }

  /** Dividing by 4096 and then by 64 is dividing by 262144. */
  lemma Div262144(x: int)
    requires x >= 0
    ensures x / 262144 == (x / 4096) / 64
  {
  }

  /** Dividing by 64 twice is dividing by 4096. */
  lemma DivDiv64(x: int, q: int)
    requires x >= 0 && x / 64 == q
    ensures x / 4096 == q / 64
  {
  }

  /** The character a well-formed leading sequence of bytes encodes. */
  function DecodeChar(s: seq<byte>): (c: char)
    requires |s| > 0 && LeadLength(s) > 0
    ensures EncodeChar(c) == s[..LeadLength(s)]
  {
    var n := LeadLength(s);
    if n == 1 then
      assert s[..1] == [s[0]];
      s[0] as char
    else if n == 2 then
      assert s[..2] == [s[0], s[1]];
      DecodeTwo(s[0], s[1]) as char
    else if n == 3 then
      assert s[..3] == [s[0], s[1], s[2]];
      DecodeThree(s[0], s[1], s[2]) as char
    else
      assert s[..4] == [s[0], s[1], s[2], s[3]];
      DecodeFour(s[0], s[1], s[2], s[3]) as char
  }

  /** Decoding: every well-formed byte string is the encoding of a string of
      scalar values, so `Utf8` holds exactly the encodings of text. */
  function Decode(b: Utf8): (s: string)
    ensures Encode(s) == b
    decreases |b|
  {
    if |b| == 0 then []
    else
      var n := LeadLength(b);
      var c := DecodeChar(b);
      var rest := Decode(b[n..]);
      EncodeCons(c, rest);
      assert b == b[..n] + b[n..];
      [c] + rest
  }
}
