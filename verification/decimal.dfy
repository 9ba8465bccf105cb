/** Python's `str(i)` for an integer: its canonical decimal literal, and the
    parser that inverts it. */
module Decimal {
  import opened Bytes
  import opened Wrappers
  import Utf8

  const Minus: byte := 0x2D
  const Zero: byte := 0x30

  predicate IsDigit(b: byte) { 0x30 <= b <= 0x39 }

  predicate AllDigits(s: seq<byte>) {
    forall i :: 0 <= i < |s| ==> IsDigit(s[i])
  }

  /** Digit string without a redundant leading zero. */
  predicate CanonicalDigits(s: seq<byte>) {
    |s| >= 1 && AllDigits(s) && (s[0] == Zero ==> |s| == 1)
  }

  /** Decimal digits of a natural number, most significant first. */
  function Digits(n: nat): (r: seq<byte>)
    ensures CanonicalDigits(r)
    decreases n
  {
    if n < 10 then [Zero + n]
    else Digits(n / 10) + [Zero + n % 10]
  }

  /** Value of a digit string. */
  function ValueOf(s: seq<byte>): nat
    requires AllDigits(s)
    decreases |s|
  {
    if |s| == 0 then 0
    else ValueOf(s[..|s| - 1]) * 10 + (s[|s| - 1] - Zero)
  }

  /** Python's `str(i)`: a minus sign for negative numbers, then the digits. */
  function Render(i: int): (r: Utf8.Utf8)
    ensures Utf8.IsAscii(r)
    ensures |r| >= 1
  {
    var r := if i < 0 then [Minus] + Digits(-i) else Digits(i);
    assert Utf8.IsAscii(r);
    Utf8.AsciiIsValid(r);
    r
  }

  /** Parses exactly the strings `Render` produces. */
  function Parse(s: seq<byte>): Option<int> {
    if |s| >= 2 && s[0] == Minus && CanonicalDigits(s[1..]) && s[1] != Zero then
      Some(-(ValueOf(s[1..]) as int))
    else if CanonicalDigits(s) then Some(ValueOf(s))
    else None
  }

  lemma {:induction false} ValueOfDigits(n: nat)
    ensures ValueOf(Digits(n)) == n
    decreases n
  {
    if n >= 10 {
      ValueOfDigits(n / 10);
      var d := Digits(n);
      assert d[..|d| - 1] == Digits(n / 10);
    }
  }

  lemma {:induction false} ValueOfPositive(s: seq<byte>)
    requires CanonicalDigits(s) && s[0] != Zero
    ensures ValueOf(s) >= 1
    decreases |s|
  {
    if |s| > 1 {
      ValueOfPositive(s[..|s| - 1]);
    }
  }

  lemma {:induction false} DigitsOfValue(s: seq<byte>)
    requires CanonicalDigits(s)
    ensures Digits(ValueOf(s)) == s
    decreases |s|
  {
    if |s| > 1 {
      var p := s[..|s| - 1];
      assert s[0] != Zero;
      DigitsOfValue(p);
      ValueOfPositive(p);
      assert s == p + [s[|s| - 1]];
    }
  }

  lemma RenderParses(i: int)
    ensures Parse(Render(i)) == Some(i)
  {
    if i < 0 {
      ValueOfDigits(-i);
      var r := Render(i);
      assert r[1..] == Digits(-i);
    } else {
      ValueOfDigits(i);
    }
  }

  lemma ParsedRenders(s: seq<byte>)
    requires Parse(s).Some?
    ensures Render(Parse(s).value) == s
  {
    if |s| >= 2 && s[0] == Minus && CanonicalDigits(s[1..]) && s[1] != Zero {
      DigitsOfValue(s[1..]);
      ValueOfPositive(s[1..]);
      assert s == [Minus] + s[1..];
    } else {
      DigitsOfValue(s);
    }
  }

  /** Rendering and parsing are inverse: every integer has exactly one
      decimal literal and every accepted literal names exactly one integer. */
  lemma ParseRender(i: int, s: seq<byte>)
    ensures Parse(s) == Some(i) <==> Render(i) == s
  {
    RenderParses(i);
    if Parse(s).Some? {
      ParsedRenders(s);
    }
  }
}
