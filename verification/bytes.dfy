/** Byte strings: the single-byte separators of store keys, Python-style
    `split`/`join` on one separator, and the byte-wise lexicographic order
    in which store keys are sorted. */
module Bytes {

  type byte = x: int | 0 <= x < 256

  const Slash: byte := 0x2F
  const EqualsSign: byte := 0x3D
  const Percent: byte := 0x25
  const Dot: byte := 0x2E

  lemma ConcatAssoc<T>(a: seq<T>, b: seq<T>, c: seq<T>)
    ensures a + (b + c) == (a + b) + c
  {
  }

  /** `sep` does not occur in `s`. */
  predicate Free(s: seq<byte>, sep: byte) {
    forall i :: 0 <= i < |s| ==> s[i] != sep
  }

  /** Python's `s.split(sep)`: the maximal `sep`-free pieces, always at least one. */
  function Split(s: seq<byte>, sep: byte): (parts: seq<seq<byte>>)
    ensures |parts| >= 1
    ensures forall i :: 0 <= i < |parts| ==> Free(parts[i], sep)
    decreases |s|
  {
    if |s| == 0 then [[]]
    else
      var rest := Split(s[1..], sep);
      if s[0] == sep then [[]] + rest
      else [[s[0]] + rest[0]] + rest[1..]
  }

  /** Python's `sep.join(parts)`. */
  function Join(sep: byte, parts: seq<seq<byte>>): seq<byte>
    decreases |parts|
  {
    if |parts| == 0 then []
    else if |parts| == 1 then parts[0]
    else parts[0] + [sep] + Join(sep, parts[1..])
  }

  /** Joining the pieces of a split gives back the string. */
  lemma {:induction false} JoinSplit(s: seq<byte>, sep: byte)
    ensures Join(sep, Split(s, sep)) == s
    decreases |s|
  {
    if |s| > 0 {
      var rest := Split(s[1..], sep);
      JoinSplit(s[1..], sep);
      if s[0] == sep {
        assert Split(s, sep) == [[]] + rest;
        if |rest| == 1 {
          assert Join(sep, [[]] + rest) == [] + [sep] + rest[0];
        } else {
          assert ([[]] + rest)[1..] == rest;
        }
      } else {
        var parts := [[s[0]] + rest[0]] + rest[1..];
        assert Split(s, sep) == parts;
        if |rest| == 1 {
          assert Join(sep, parts) == [s[0]] + rest[0];
        } else {
          assert parts[1..] == rest[1..];
          assert rest == [rest[0]] + rest[1..];
          assert Join(sep, rest) == rest[0] + [sep] + Join(sep, rest[1..]);
          assert Join(sep, parts) == [s[0]] + rest[0] + [sep] + Join(sep, rest[1..]);
        }
        assert s == [s[0]] + s[1..];
      }
    }
  }

  /** A separator-free prefix fuses with the first piece of what follows it. */
  lemma {:induction false} SplitFreePrefix(p: seq<byte>, t: seq<byte>, sep: byte)
    requires Free(p, sep)
    ensures Split(p + t, sep) == [p + Split(t, sep)[0]] + Split(t, sep)[1..]
    decreases |p|
  {
    if |p| > 0 {
      assert (p + t)[1..] == p[1..] + t;
      SplitFreePrefix(p[1..], t, sep);
      assert [p[0]] + (p[1..] + Split(t, sep)[0]) == p + Split(t, sep)[0];
    } else {
      var parts := Split(t, sep);
      assert p + t == t && p + parts[0] == parts[0];
      assert parts == [parts[0]] + parts[1..];
    }
  }

  /** A separator-free string is a single piece. */
  lemma SplitFree(p: seq<byte>, sep: byte)
    requires Free(p, sep)
    ensures Split(p, sep) == [p]
  {
    SplitFreePrefix(p, [], sep);
    assert p + [] == p;
  }

  /** A separator-free piece followed by the separator splits off as one piece. */
  lemma SplitAtSeparator(p: seq<byte>, t: seq<byte>, sep: byte)
    requires Free(p, sep)
    ensures Split(p + [sep] + t, sep) == [p] + Split(t, sep)
  {
    assert p + [sep] + t == p + ([sep] + t);
    SplitFreePrefix(p, [sep] + t, sep);
    assert ([sep] + t)[1..] == t;
    assert Split([sep] + t, sep) == [[]] + Split(t, sep);
    assert p + [] == p;
  }

  /** Joining two leading pieces and a non-empty rest. */
  lemma JoinPrefixTwo(sep: byte, a: seq<byte>, b: seq<byte>, rest: seq<seq<byte>>)
    requires |rest| > 0
    ensures Join(sep, [a, b] + rest) == a + [sep] + b + [sep] + Join(sep, rest)
  {
    var all := [a, b] + rest;
    assert all[1..] == [b] + rest;
    assert all[1..][1..] == rest;
    var j := Join(sep, rest);
    assert Join(sep, all) == (a + [sep]) + ((b + [sep]) + j);
    ConcatAssoc(a + [sep], b + [sep], j);
    ConcatAssoc(a + [sep], b, [sep]);
  }

  /** Splitting a join of separator-free pieces gives back the pieces. */
  lemma {:induction false} SplitJoin(parts: seq<seq<byte>>, sep: byte)
    requires |parts| >= 1
    requires forall i :: 0 <= i < |parts| ==> Free(parts[i], sep)
    ensures Split(Join(sep, parts), sep) == parts
    decreases |parts|
  {
    if |parts| == 1 {
      SplitFree(parts[0], sep);
    } else {
      SplitJoin(parts[1..], sep);
      SplitAtSeparator(parts[0], Join(sep, parts[1..]), sep);
      assert parts == [parts[0]] + parts[1..];
    }
  }

  /** Appending separator-free bytes only extends the last piece. */
  lemma {:induction false} SplitFreeSuffix(s: seq<byte>, t: seq<byte>, sep: byte)
    requires Free(t, sep)
    ensures var parts := Split(s, sep);
      Split(s + t, sep) == parts[..|parts| - 1] + [parts[|parts| - 1] + t]
    decreases |s|
  {
    var parts := Split(s, sep);
    if |s| == 0 {
      assert s + t == t;
      SplitFree(t, sep);
    } else {
      assert (s + t)[0] == s[0];
      assert (s + t)[1..] == s[1..] + t;
      SplitFreeSuffix(s[1..], t, sep);
      var rest := Split(s[1..], sep);
      var m := |rest| - 1;
      var extended := Split(s[1..] + t, sep);
      assert extended == rest[..m] + [rest[m] + t];
      if s[0] == sep {
        assert Split(s + t, sep) == [[]] + extended;
        assert parts == [[]] + rest;
        ExtendLastCons([], rest, t);
      } else {
        assert Split(s + t, sep) == [[s[0]] + extended[0]] + extended[1..];
        assert parts == [[s[0]] + rest[0]] + rest[1..];
        ExtendLastHead(s[0], rest, t);
      }
    }
  }

  /** Extending the last of `[x] + rest` extends the last of `rest`. */
  lemma ExtendLastCons(x: seq<byte>, rest: seq<seq<byte>>, t: seq<byte>)
    requires |rest| >= 1
    ensures var parts := [x] + rest; var m := |rest| - 1;
      parts[..|parts| - 1] + [parts[|parts| - 1] + t] == [x] + (rest[..m] + [rest[m] + t])
  {
    var parts := [x] + rest;
    assert parts[..|parts| - 1] == [x] + rest[..|rest| - 1];
  }

  /** Extending the last piece commutes with prepending a byte to the first. */
  lemma ExtendLastHead(b: byte, rest: seq<seq<byte>>, t: seq<byte>)
    requires |rest| >= 1
    ensures var parts := [[b] + rest[0]] + rest[1..];
      var m := |rest| - 1;
      var extended := rest[..m] + [rest[m] + t];
      [[b] + extended[0]] + extended[1..] == parts[..|parts| - 1] + [parts[|parts| - 1] + t]
  {
    var m := |rest| - 1;
    var extended := rest[..m] + [rest[m] + t];
    if m == 0 {
      assert extended == [rest[0] + t];
      ConcatAssoc([b], rest[0], t);
    } else {
      assert extended[0] == rest[0];
      assert extended[1..] == rest[1..m] + [rest[m] + t];
    }
  }

  /** Appending to the last piece appends to the join. */
  lemma {:induction false} JoinExtendLast(parts: seq<seq<byte>>, t: seq<byte>, sep: byte)
    requires |parts| >= 1
    ensures Join(sep, parts[..|parts| - 1] + [parts[|parts| - 1] + t]) == Join(sep, parts) + t
    decreases |parts|
  {
    var ext := parts[..|parts| - 1] + [parts[|parts| - 1] + t];
    if |parts| > 1 {
      JoinExtendLast(parts[1..], t, sep);
      assert ext[0] == parts[0];
      assert ext[1..] == parts[1..][..|parts| - 2] + [parts[|parts| - 1] + t];
    }
  }

  /** Strict byte-wise lexicographic order (a proper prefix sorts first). */
  predicate Below(a: seq<byte>, b: seq<byte>)
    decreases |a|
  {
    if |a| == 0 then |b| > 0
    else if |b| == 0 then false
    else a[0] < b[0] || (a[0] == b[0] && Below(a[1..], b[1..]))
  }

  lemma {:induction false} BelowIrreflexive(a: seq<byte>)
    ensures !Below(a, a)
    decreases |a|
  {
    if |a| > 0 {
      BelowIrreflexive(a[1..]);
    }
  }

  lemma {:induction false} BelowTransitive(a: seq<byte>, b: seq<byte>, c: seq<byte>)
    requires Below(a, b) && Below(b, c)
    ensures Below(a, c)
    decreases |a|
  {
    if |a| > 0 && a[0] == b[0] && b[0] == c[0] {
      BelowTransitive(a[1..], b[1..], c[1..]);
    }
  }

  lemma {:induction false} BelowTotal(a: seq<byte>, b: seq<byte>)
    requires a != b
    ensures Below(a, b) || Below(b, a)
    decreases |a|
  {
    if |a| > 0 && |b| > 0 && a[0] == b[0] {
      assert a == [a[0]] + a[1..] && b == [b[0]] + b[1..];
      BelowTotal(a[1..], b[1..]);
    }
  }

  /** A common prefix does not change the order. */
  lemma {:induction false} BelowCommonPrefix(p: seq<byte>, a: seq<byte>, b: seq<byte>)
    requires Below(a, b)
    ensures Below(p + a, p + b)
    decreases |p|
  {
    if |p| == 0 {
      assert p + a == a && p + b == b;
    } else {
      assert (p + a)[1..] == p[1..] + a && (p + b)[1..] == p[1..] + b;
      assert (p + a)[0] == p[0] == (p + b)[0];
      BelowCommonPrefix(p[1..], a, b);
    }
  }
}
