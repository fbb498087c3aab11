/** `longestCommonPrefix` (termwrap.go): the longest prefix shared by a list of
    strings, found from the lexicographic minimum and maximum of the list. */
module Lcp {
  import opened Bytes

  /** The strings of a list, as a set. */
  function Elems(ss: seq<Str>): set<Str>
  {
    set s | s in ss
  }

  ghost predicate IsCommonPrefix(p: Str, m: set<Str>)
  {
    forall s :: s in m ==> IsPrefix(p, s)
  }

  /** `p` is shared by every string of `m`, and every shared prefix is a prefix of
      `p` (so no longer string is shared). */
  ghost predicate IsLongestCommonPrefix(p: Str, m: set<Str>)
  {
    IsCommonPrefix(p, m) && forall q :: IsCommonPrefix(q, m) ==> IsPrefix(q, p)
  }

  /** The common prefix of two strings: shared by both, and at its end one of
      them ends or the two differ. */
  function CommonPrefix(a: Str, b: Str): (r: Str)
    ensures IsPrefix(r, a) && IsPrefix(r, b)
    ensures |r| == |a| || |r| == |b| || a[|r|] != b[|r|]
    decreases |a|
  {
    if a == [] || b == [] || a[0] != b[0] then []
    else [a[0]] + CommonPrefix(a[1..], b[1..])
  }

  /** Every prefix two strings share is a prefix of their common prefix. */
  lemma CommonPrefixGreatest(q: Str, a: Str, b: Str)
    requires IsPrefix(q, a) && IsPrefix(q, b)
    ensures IsPrefix(q, CommonPrefix(a, b))
  {
    var r := CommonPrefix(a, b);
    assert |q| <= |r|;
    PrefixesOfOneString(q, r, a);
  }

  /** What the byte-by-byte loop stops with is the common prefix. */
  lemma CommonPrefixUnique(p: Str, a: Str, b: Str)
    requires IsPrefix(p, a) && IsPrefix(p, b)
    requires |p| == |a| || |p| == |b| || a[|p|] != b[|p|]
    ensures p == CommonPrefix(a, b)
  {
    CommonPrefixGreatest(p, a, b);
  }

  /** The longest common prefix of a set, when there is one, is unique: the
      answer does not depend on the order in which the strings are listed. */
  lemma LongestCommonPrefixUnique(p: Str, q: Str, m: set<Str>)
    requires IsLongestCommonPrefix(p, m) && IsLongestCommonPrefix(q, m)
    ensures p == q
  {
    assert IsPrefix(p, q) && IsPrefix(q, p);
  }

  /** The claim behind the algorithm: when `lo` and `hi` are the least and the
      greatest strings of `m`, their common prefix is that of all of `m`. */
  lemma MinMaxCommonPrefix(lo: Str, hi: Str, m: set<Str>)
    requires lo in m && hi in m
    requires forall s :: s in m ==> LessEq(lo, s) && LessEq(s, hi)
    ensures IsLongestCommonPrefix(CommonPrefix(lo, hi), m)
  {
    var p := CommonPrefix(lo, hi);
    forall s | s in m
      ensures IsPrefix(p, s)
    {
      PrefixBetween(p, lo, s, hi);
    }
    forall q | IsCommonPrefix(q, m)
      ensures IsPrefix(q, p)
    {
      CommonPrefixGreatest(q, lo, hi);
    }
  }

  /** A reference definition of the longest common prefix of a set, folding the
      pairwise common prefix over its members in any order; `[]` for no strings. */
  ghost function LcpOf(m: set<Str>): Str
    decreases m
  {
    if m == {} then []
    else
      var x :| x in m;
      if m == {x} then x else CommonPrefix(x, LcpOf(m - {x}))
  }

  lemma {:induction false} LcpOfIsLongest(m: set<Str>)
    requires m != {}
    ensures IsLongestCommonPrefix(LcpOf(m), m)
    decreases m
  {
    var x :| x in m && LcpOf(m) == (if m == {x} then x else CommonPrefix(x, LcpOf(m - {x})));
    if m != {x} {
      var rest := m - {x};
      var r := LcpOf(rest);
      LcpOfIsLongest(rest);
      var p := CommonPrefix(x, r);
      forall s | s in m
        ensures IsPrefix(p, s)
      {
        if s != x {
          PrefixTransitive(p, r, s);
        }
      }
      forall q | IsCommonPrefix(q, m)
        ensures IsPrefix(q, p)
      {
        assert IsCommonPrefix(q, rest);
        CommonPrefixGreatest(q, x, r);
      }
    }
  }

  /** The lexicographic minimum and maximum of a non-empty list (the first loop of
      `longestCommonPrefix`). */
  method MinMax(ss: seq<Str>) returns (lo: Str, hi: Str)
    requires |ss| >= 1
    ensures lo in ss && hi in ss
    ensures forall s :: s in ss ==> LessEq(lo, s) && LessEq(s, hi)
  {
    lo, hi := ss[0], ss[0];
    LessEqReflexive(ss[0]);
    var i := 1;
    while i < |ss|
      invariant 1 <= i <= |ss|
      invariant lo in ss[..i] && hi in ss[..i]
      invariant forall j :: 0 <= j < i ==> LessEq(lo, ss[j]) && LessEq(ss[j], hi)
    {
      var s := ss[i];
      LessEqTransitive(lo, ss[0], hi);
      if Less(hi, s) {
        LessEqTransitive(lo, hi, s);
        forall j | 0 <= j < i
          ensures LessEq(ss[j], s)
        {
          LessEqTransitive(ss[j], hi, s);
        }
        LessEqReflexive(s);
        hi := s;
      } else if Less(s, lo) {
        forall j | 0 <= j < i
          ensures LessEq(s, ss[j])
        {
          LessEqTransitive(s, lo, ss[j]);
        }
        LessEqReflexive(s);
        lo := s;
      }
      assert ss[..i + 1] == ss[..i] + [s];
      i := i + 1;
    }
    assert ss[..i] == ss;
  }

  /** Go's `string(b)` for a byte `b`, as in `pref += string(min[i])`: the
      conversion takes `b` as a code point and yields its UTF-8 encoding, which
      is the byte itself below 0x80 and two bytes (a lead byte 0xC2 or 0xC3 and
      a continuation byte) from 0x80 on. */
  function RuneBytes(b: byte): (r: Str)
    ensures b < 0x80 ==> r == [b]
    ensures b >= 0x80 ==> |r| == 2 && 0xC0 <= r[0] < 0xE0 && 0x80 <= r[1] < 0xC0
    ensures b >= 0x80 ==> (r[0] as int - 0xC0) * 64 + (r[1] as int - 0x80) == b as int
  {
    if b < 0x80 then [b] else [0xC0 + b / 64, 0x80 + b % 64]
  }

  /** All bytes below 0x80. */
  predicate IsAscii(p: Str)
  {
    forall k :: 0 <= k < |p| ==> p[k] < 0x80
  }

  /** `p` with each byte passed through `RuneBytes`, in order: what the byte
      loop of `longestCommonPrefix` builds from the bytes `p` it walks over. */
  function Encoded(p: Str): (r: Str)
    ensures |r| >= |p|
    ensures r == [] <==> p == []
    decreases |p|
  {
    if p == [] then [] else Encoded(p[..|p| - 1]) + RuneBytes(p[|p| - 1])
  }

  /** Re-encoding changes nothing on ASCII bytes. */
  lemma {:induction false} EncodedAscii(p: Str)
    requires IsAscii(p)
    ensures Encoded(p) == p
    decreases |p|
  {
    if p != [] {
      var init := p[..|p| - 1];
      assert IsAscii(init) by {
        assert forall k :: 0 <= k < |init| ==> init[k] == p[k];
      }
      EncodedAscii(init);
      assert p == init + [p[|p| - 1]];
    }
  }

  /** A byte from 0x80 on makes the re-encoding strictly longer. */
  lemma {:induction false} EncodedLonger(p: Str)
    requires !IsAscii(p)
    ensures |Encoded(p)| > |p|
    decreases |p|
  {
    var n := |p| - 1;
    var init := p[..n];
    if p[n] < 0x80 {
      var k :| 0 <= k < |p| && p[k] >= 0x80;
      assert init[k] == p[k];
      EncodedLonger(init);
    }
  }

  /** So the re-encoding is the identity exactly on ASCII strings. */
  lemma EncodedIsIdentityIffAscii(p: Str)
    ensures Encoded(p) == p <==> IsAscii(p)
  {
    if IsAscii(p) {
      EncodedAscii(p);
    } else {
      EncodedLonger(p);
    }
  }

  /** Once re-encoded, the longest common prefix of strings holding a byte from
      0x80 on in that prefix is not even a common prefix any more. */
  lemma EncodedLcpIsNotCommon(m: set<Str>)
    requires m != {} && !IsAscii(LcpOf(m))
    ensures !IsCommonPrefix(Encoded(LcpOf(m)), m)
  {
    var p := LcpOf(m);
    LcpOfIsLongest(m);
    EncodedLonger(p);
    assert IsCommonPrefix(Encoded(p), m) ==> IsPrefix(Encoded(p), p);
  }

  /** What `longestCommonPrefix` returns for a list holding each string of `m`
      once: the string itself for one string, and otherwise the re-encoded
      common prefix. It is the longest common prefix exactly when there is one
      string or that prefix is ASCII. */
  ghost function CompletedPrefix(m: set<Str>): (r: Str)
    ensures r == LcpOf(m) <==> |m| <= 1 || IsAscii(LcpOf(m))
    ensures r == [] <==> LcpOf(m) == []
    ensures |r| >= |LcpOf(m)|
  {
    EncodedIsIdentityIffAscii(LcpOf(m));
    if |m| == 1 then LcpOf(m) else Encoded(LcpOf(m))
  }

  /** A list without repeated strings has one string exactly when its set has
      one, and none exactly when its set is empty. */
  lemma DistinctElems(ss: seq<Str>)
    requires forall i, j :: 0 <= i < j < |ss| ==> ss[i] != ss[j]
    ensures |ss| == 1 <==> |Elems(ss)| == 1
    ensures ss == [] <==> Elems(ss) == {}
  {
    if |ss| == 1 {
      assert Elems(ss) == {ss[0]};
    } else if |ss| >= 2 {
      var e := Elems(ss);
      assert ss[0] in e && ss[1] in e;
      var rest := e - {ss[0]};
      assert ss[1] in rest;
      assert |e| == |rest| + 1;
    } else {
      assert Elems(ss) == {};
    }
  }

  /** The byte loop of `longestCommonPrefix`: walks the common prefix of `lo`
      and `hi` and appends `string(lo[i])` for each of its bytes. */
  method PrefixLoop(lo: Str, hi: Str) returns (pref: Str)
    ensures pref == Encoded(CommonPrefix(lo, hi))
  {
    pref := [];
    var i := 0;
    while i < |lo| && i < |hi|
      invariant 0 <= i <= |lo| && i <= |hi|
      invariant pref == Encoded(lo[..i]) && lo[..i] == hi[..i]
    {
      if lo[i] != hi[i] {
        break;
      }
      assert lo[..i + 1][..i] == lo[..i];
      assert lo[..i + 1] == lo[..i] + [lo[i]] && hi[..i + 1] == hi[..i] + [hi[i]];
      pref := pref + RuneBytes(lo[i]);
      i := i + 1;
    }
    CommonPrefixUnique(lo[..i], lo, hi);
  }

  /** `longestCommonPrefix(ss)` as written: `""` for no strings, the string
      itself for one, and otherwise the re-encoded common prefix of the minimum
      and the maximum. That is the longest prefix of every string in the list
      exactly when the list has one string or the shared prefix is ASCII. */
  method LongestCommonPrefix(ss: seq<Str>) returns (pref: Str)
    ensures ss == [] ==> pref == []
    ensures |ss| == 1 ==> pref == ss[0]
    ensures |ss| >= 2 ==> pref == Encoded(LcpOf(Elems(ss)))
    ensures ss != [] ==>
              (IsLongestCommonPrefix(pref, Elems(ss)) <==> |ss| == 1 || IsAscii(LcpOf(Elems(ss))))
  {
    if |ss| == 0 {
      return [];
    }
    assert ss[0] in Elems(ss);
    LcpOfIsLongest(Elems(ss));
    if |ss| == 1 {
      pref := ss[0];
      assert Elems(ss) == {ss[0]};
      LongestCommonPrefixUnique(pref, LcpOf(Elems(ss)), Elems(ss));
      return;
    }
    var lo, hi := MinMax(ss);
    pref := PrefixLoop(lo, hi);
    MinMaxCommonPrefix(lo, hi, Elems(ss));
    LongestCommonPrefixUnique(CommonPrefix(lo, hi), LcpOf(Elems(ss)), Elems(ss));
    if IsAscii(LcpOf(Elems(ss))) {
      EncodedAscii(LcpOf(Elems(ss)));
    } else {
      EncodedLcpIsNotCommon(Elems(ss));
    }
  }

  /** The evidently intended `longestCommonPrefix`, appending the byte
      `min[i]` itself: always the longest prefix of every string in the list. */
  method ByteLongestCommonPrefix(ss: seq<Str>) returns (pref: Str)
    ensures ss == [] ==> pref == []
    ensures |ss| == 1 ==> pref == ss[0]
    ensures ss != [] ==> IsLongestCommonPrefix(pref, Elems(ss))
    ensures pref == LcpOf(Elems(ss))
  {
    if |ss| == 0 {
      return [];
    }
    if |ss| == 1 {
      pref := ss[0];
      assert Elems(ss) == {ss[0]};
      LcpOfIsLongest(Elems(ss));
      LongestCommonPrefixUnique(pref, LcpOf(Elems(ss)), Elems(ss));
      return;
    }
    var lo, hi := MinMax(ss);
    pref := [];
    var i := 0;
    while i < |lo| && i < |hi|
      invariant 0 <= i <= |lo| && i <= |hi|
      invariant pref == lo[..i] && lo[..i] == hi[..i]
    {
      if lo[i] != hi[i] {
        break;
      }
      assert lo[..i + 1] == lo[..i] + [lo[i]] && hi[..i + 1] == hi[..i] + [hi[i]];
      pref := pref + [lo[i]];
      i := i + 1;
    }
    CommonPrefixUnique(pref, lo, hi);
    MinMaxCommonPrefix(lo, hi, Elems(ss));
    LcpOfIsLongest(Elems(ss));
    LongestCommonPrefixUnique(pref, LcpOf(Elems(ss)), Elems(ss));
  }
}
