/** The value-normalisation helpers of kartothek's serialization layer:
    the null-byte scan and the coercion of a partition value to text. */
module SerializationUtil {
  import opened Bytes
  import opened Wrappers
  import Utf8
  import Decimal

  /** The dynamically typed values the source accepts as partition columns
      and values: text (`str`), raw bytes (`bytes`) and integers (`int`). */
  datatype Value = Text(text: Utf8.Utf8) | Raw(bytes: seq<byte>) | Int(number: int)

  /** Some byte of `b` is zero. */
  predicate HasZeroByte(b: seq<byte>) {
    exists i :: 0 <= i < |b| && b[i] == 0
  }

  /** The source's loop over the bytes, returning at the first zero byte. */
  function ScanForNull(b: seq<byte>): (found: bool)
    ensures found <==> HasZeroByte(b)
    decreases |b|
  {
    if |b| == 0 then false
    else if b[0] == 0 then true
    else
      var found := ScanForNull(b[1..]);
      assert HasZeroByte(b[1..]) ==> HasZeroByte(b) by {
        if HasZeroByte(b[1..]) {
          var i :| 0 <= i < |b[1..]| && b[1..][i] == 0;
          assert b[i + 1] == 0;
        }
      }
      assert HasZeroByte(b) ==> HasZeroByte(b[1..]) by {
        if HasZeroByte(b) {
          var i :| 0 <= i < |b| && b[i] == 0;
          assert i > 0 && b[1..][i - 1] == 0;
        }
      }
      found
  }

  /** `_check_contains_null`: only a bytes value is scanned; text (even text
      holding U+0000) and integers are never reported. */
  function ContainsNull(v: Value): (found: bool)
    ensures found <==> v.Raw? && HasZeroByte(v.bytes)
  {
    match v
    case Raw(b) => ScanForNull(b)
    case _ => false
  }

  /** The scan of a concatenation finds a zero byte exactly when one of the
      parts holds one. */
  lemma {:induction false} ContainsNullConcat(a: seq<byte>, b: seq<byte>)
    ensures ContainsNull(Raw(a + b)) == (ContainsNull(Raw(a)) || ContainsNull(Raw(b)))
    decreases |a|
  {
    if |a| == 0 {
      assert a + b == b;
    } else {
      assert (a + b)[0] == a[0];
      assert (a + b)[1..] == a[1..] + b;
      ContainsNullConcat(a[1..], b);
      assert ScanForNull(a + b) == (a[0] == 0 || ScanForNull(a[1..] + b));
      assert ScanForNull(a) == (a[0] == 0 || ScanForNull(a[1..]));
    }
  }

  /** `ensure_unicode_string_type`: bytes are decoded as UTF-8 (failing on
      bytes that are not UTF-8), integers rendered in decimal, and text is
      returned as it is. */
  function EnsureUnicodeStringType(v: Value): (r: Result<Utf8.Utf8, DecodeError>)
    ensures r.Err? <==> v.Raw? && !Utf8.Valid(v.bytes)
    ensures r.Err? ==> r.error == InvalidUtf8
    ensures v.Text? ==> r == Ok(v.text)
    ensures v.Raw? && r.Ok? ==> r.value == v.bytes
    ensures v.Int? ==> r.Ok? && Decimal.Parse(r.value) == Some(v.number) && Utf8.IsAscii(r.value)
  {
    match v
    case Text(t) => Ok(t)
    case Raw(b) => if Utf8.Valid(b) then Ok(b) else Err(InvalidUtf8)
    case Int(i) =>
      Decimal.RenderParses(i);
      Ok(Decimal.Render(i))
  }

  /** The result is always text, so coercing it again changes nothing. */
  lemma EnsureUnicodeIdempotent(v: Value)
    requires EnsureUnicodeStringType(v).Ok?
    ensures EnsureUnicodeStringType(Text(EnsureUnicodeStringType(v).value)) == EnsureUnicodeStringType(v)
  {
  }

  /** Bytes holding the UTF-8 encoding of a string decode to that string. */
  lemma EnsureUnicodeOfEncoded(s: string)
    ensures EnsureUnicodeStringType(Raw(Utf8.Encode(s))) == Ok(Utf8.Encode(s))
    ensures EnsureUnicodeStringType(Raw(Utf8.Encode(s))) == EnsureUnicodeStringType(Text(Utf8.Encode(s)))
  {
  }
}
