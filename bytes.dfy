/** Byte strings as the program sees them: Go `string` values are sequences of
    bytes, compared byte by byte, and tested for whitespace one byte at a time. */
module Bytes {

  newtype byte = b: int | 0 <= b < 256

  /** A Go string, as its bytes. */
  type Str = seq<byte>

  const Newline: byte := 10

  /** `unicode.IsSpace(rune(b))`: the byte widened to a rune (so 0x85 is NEL and
      0xA0 is NO-BREAK SPACE, not UTF-8 continuation bytes). */
  predicate IsSpace(b: byte): (r: bool)
    ensures r <==> IsAsciiSpace(b) || b == 0x85 || b == 0xA0
  {
    b == 9 || b == 10 || b == 11 || b == 12 || b == 13 || b == 32 || b == 0x85 || b == 0xA0
  }

  /** The bytes `strings.TrimSpace` strips on its ASCII path: tab, newline,
      vertical tab, form feed, carriage return and space. */
  predicate IsAsciiSpace(b: byte)
  {
    9 <= b <= 13 || b == 32
  }

  /** `strings.HasPrefix(s, p)`. */
  predicate IsPrefix(p: Str, s: Str)
  {
    |p| <= |s| && s[..|p|] == p
  }

  lemma PrefixTransitive(p: Str, q: Str, s: Str)
    requires IsPrefix(p, q) && IsPrefix(q, s)
    ensures IsPrefix(p, s)
  {
    assert s[..|p|] == s[..|q|][..|p|];
  }

  /** Two prefixes of one string are ordered by length. */
  lemma PrefixesOfOneString(p: Str, q: Str, s: Str)
    requires IsPrefix(p, s) && IsPrefix(q, s) && |p| <= |q|
    ensures IsPrefix(p, q)
  {
    assert q[..|p|] == s[..|q|][..|p|];
  }

  /** Go's `a <= b` on strings: byte-wise lexicographic order, a proper prefix
      sorting first. */
  predicate LessEq(a: Str, b: Str): (r: bool)
    ensures IsPrefix(a, b) ==> r
    decreases |a|
  {
    a == [] || (b != [] && (a[0] < b[0] || (a[0] == b[0] && LessEq(a[1..], b[1..]))))
  }

  /** At the first position where `a` and `b` differ, `a` has the smaller byte. */
  ghost predicate SmallerAtFirstDifference(a: Str, b: Str)
  {
    exists k :: 0 <= k < |a| && k < |b| && a[..k] == b[..k] && a[k] < b[k]
  }

  /** Dropping an equal first byte keeps prefixes and first differences. */
  lemma SameHead(a: Str, b: Str)
    requires a != [] && b != [] && a[0] == b[0]
    ensures IsPrefix(a, b) <==> IsPrefix(a[1..], b[1..])
    ensures SmallerAtFirstDifference(a, b) <==> SmallerAtFirstDifference(a[1..], b[1..])
  {
    if |a| <= |b| {
      assert b[..|a|] == [b[0]] + b[1..][..|a| - 1];
      assert a == [a[0]] + a[1..];
    }
    if SmallerAtFirstDifference(a, b) {
      DifferenceInTail(a, b);
    }
    if SmallerAtFirstDifference(a[1..], b[1..]) {
      DifferenceFromTail(a, b);
    }
  }

  lemma DifferenceInTail(a: Str, b: Str)
    requires a != [] && b != [] && a[0] == b[0]
    requires SmallerAtFirstDifference(a, b)
    ensures SmallerAtFirstDifference(a[1..], b[1..])
  {
    var k :| 0 <= k < |a| && k < |b| && a[..k] == b[..k] && a[k] < b[k];
    var a', b' := a[1..], b[1..];
    assert a'[..k - 1] == a[..k][1..] && b'[..k - 1] == b[..k][1..];
    assert a'[k - 1] < b'[k - 1];
  }

  lemma DifferenceFromTail(a: Str, b: Str)
    requires a != [] && b != [] && a[0] == b[0]
    requires SmallerAtFirstDifference(a[1..], b[1..])
    ensures SmallerAtFirstDifference(a, b)
  {
    var a', b' := a[1..], b[1..];
    var k :| 0 <= k < |a'| && k < |b'| && a'[..k] == b'[..k] && a'[k] < b'[k];
    assert a[..k + 1] == [a[0]] + a'[..k] && b[..k + 1] == [b[0]] + b'[..k];
    assert a[k + 1] < b[k + 1];
  }

  /** `LessEq` is the lexicographic order: `a` is a prefix of `b`, or `a` has
      the smaller byte where the two first differ. */
  lemma {:induction false} LessEqIsLexicographic(a: Str, b: Str)
    ensures LessEq(a, b) <==> IsPrefix(a, b) || SmallerAtFirstDifference(a, b)
    decreases |a|
  {
    if a != [] && b != [] {
      if a[0] < b[0] {
        assert a[..0] == b[..0];
      } else if a[0] > b[0] {
        assert |a| <= |b| ==> b[..|a|][0] == b[0];
      } else {
        LessEqIsLexicographic(a[1..], b[1..]);
        SameHead(a, b);
      }
    }
  }

  /** Go's `a < b` on strings: `a <= b` and the two differ. */
  predicate Less(a: Str, b: Str): (r: bool)
    ensures r <==> LessEq(a, b) && a != b
  {
    LessEqTotal(a, b);
    LessEqReflexive(a);
    if LessEq(a, b) && LessEq(b, a) then LessEqAntisymmetric(a, b); false else !LessEq(b, a)
  }

  lemma {:induction false} LessEqReflexive(a: Str)
    ensures LessEq(a, a)
    decreases |a|
  {
    if a != [] {
      LessEqReflexive(a[1..]);
    }
  }

  lemma {:induction false} LessEqTotal(a: Str, b: Str)
    ensures LessEq(a, b) || LessEq(b, a)
    decreases |a|
  {
    if a != [] && b != [] && a[0] == b[0] {
      LessEqTotal(a[1..], b[1..]);
    }
  }

  lemma {:induction false} LessEqAntisymmetric(a: Str, b: Str)
    requires LessEq(a, b) && LessEq(b, a)
    ensures a == b
    decreases |a|
  {
    if a != [] {
      LessEqAntisymmetric(a[1..], b[1..]);
      assert a == [a[0]] + a[1..] && b == [b[0]] + b[1..];
    }
  }

  lemma {:induction false} LessEqTransitive(a: Str, b: Str, c: Str)
    requires LessEq(a, b) && LessEq(b, c)
    ensures LessEq(a, c)
    decreases |a|
  {
    if a != [] && a[0] == b[0] && b[0] == c[0] {
      LessEqTransitive(a[1..], b[1..], c[1..]);
    }
  }

  /** A prefix shared by two strings is shared by every string that sorts
      between them: the reason the minimum and the maximum suffice. */
  lemma {:induction false} PrefixBetween(p: Str, a: Str, b: Str, c: Str)
    requires IsPrefix(p, a) && IsPrefix(p, c)
    requires LessEq(a, b) && LessEq(b, c)
    ensures IsPrefix(p, b)
    decreases |p|
  {
    if p != [] {
      assert a[0] == p[0] == c[0];
      assert b != [];
      assert b[0] == p[0];
      assert IsPrefix(p[1..], a[1..]) by { assert a[1..][..|p| - 1] == a[..|p|][1..]; }
      assert IsPrefix(p[1..], c[1..]) by { assert c[1..][..|p| - 1] == c[..|p|][1..]; }
      PrefixBetween(p[1..], a[1..], b[1..], c[1..]);
      assert b[..|p|] == [b[0]] + b[1..][..|p| - 1];
    }
  }
}
