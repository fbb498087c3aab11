/** The two operations of Go's `strings` package that the word-list builder uses,
    over byte strings: `Split` on a one-byte separator and `TrimSpace`. */
module Strings {
  import opened Bytes

  /** `strings.Split(s, sep)` for a one-byte separator: the pieces between
      separators, so there is always at least one piece and none holds `sep`. */
  function Split(s: Str, sep: byte): (r: seq<Str>)
    ensures |r| >= 1
    ensures forall i :: 0 <= i < |r| ==> sep !in r[i]
    decreases |s|
  {
    if s == [] then [[]]
    else
      var rest := Split(s[1..], sep);
      if s[0] == sep then [[]] + rest
      else [[s[0]] + rest[0]] + rest[1..]
  }

  /** `strings.Join(parts, sep)`. */
  function Join(parts: seq<Str>, sep: byte): Str
    decreases |parts|
  {
    if parts == [] then []
    else if |parts| == 1 then parts[0]
    else parts[0] + [sep] + Join(parts[1..], sep)
  }

  /** Splitting loses nothing: joining the pieces gives the string back. */
  lemma {:induction false} JoinSplit(s: Str, sep: byte)
    ensures Join(Split(s, sep), sep) == s
    decreases |s|
  {
    if s != [] {
      var rest := Split(s[1..], sep);
      JoinSplit(s[1..], sep);
      if s[0] == sep {
        assert s == [sep] + s[1..];
      } else {
        var r := Split(s, sep);
        assert r[0] == [s[0]] + rest[0] && r[1..] == rest[1..];
        if |rest| == 1 {
          assert s == [s[0]] + rest[0];
        } else {
          assert Join(rest, sep) == rest[0] + [sep] + Join(rest[1..], sep);
          assert s == [s[0]] + s[1..];
        }
      }
    }
  }

  /** And the other way round: pieces free of the separator come back from
      splitting their join. */
  lemma {:induction false} SplitJoin(parts: seq<Str>, sep: byte)
    requires |parts| >= 1
    requires forall i :: 0 <= i < |parts| ==> sep !in parts[i]
    ensures Split(Join(parts, sep), sep) == parts
    decreases |parts|, |parts[0]|
  {
    var p := parts[0];
    if p == [] {
      if |parts| > 1 {
        SplitJoin(parts[1..], sep);
        assert Join(parts, sep) == [sep] + Join(parts[1..], sep);
        assert parts == [[]] + parts[1..];
      }
    } else {
      var tail := [p[1..]] + parts[1..];
      assert forall i :: 0 <= i < |tail| ==> sep !in tail[i] by {
        assert tail[0] == p[1..];
        assert forall i :: 1 <= i < |tail| ==> tail[i] == parts[i];
      }
      SplitJoin(tail, sep);
      assert Join(parts, sep) == [p[0]] + Join(tail, sep) by {
        if |parts| == 1 {
          assert p == [p[0]] + p[1..];
        } else {
          assert Join(tail, sep) == p[1..] + [sep] + Join(tail[1..], sep);
          assert tail[1..] == parts[1..];
          assert p == [p[0]] + p[1..];
        }
      }
      var j := Join(parts, sep);
      assert j[1..] == Join(tail, sep);
      assert j[0] == p[0] && p[0] != sep;
      assert [p[0]] + p[1..] == p;
    }
  }

  /** `s` with its leading ASCII whitespace removed: no longer than `s`, and not
      starting with whitespace. */
  function TrimLeft(s: Str): (r: Str)
    ensures |r| <= |s|
    ensures r == [] || !IsAsciiSpace(r[0])
    decreases |s|
  {
    if s != [] && IsAsciiSpace(s[0]) then TrimLeft(s[1..]) else s
  }

  /** `s` with its trailing ASCII whitespace removed: no longer than `s`, and not
      ending with whitespace. */
  function TrimRight(s: Str): (r: Str)
    ensures |r| <= |s|
    ensures r == [] || !IsAsciiSpace(r[|r| - 1])
    decreases |s|
  {
    if s != [] && IsAsciiSpace(s[|s| - 1]) then TrimRight(s[..|s| - 1]) else s
  }

  /** What `TrimLeft` keeps is a suffix of its input, and all it cuts off is
      whitespace. */
  lemma {:induction false} TrimLeftDropsSpace(s: Str)
    ensures TrimLeft(s) == s[|s| - |TrimLeft(s)|..]
    ensures forall i :: 0 <= i < |s| - |TrimLeft(s)| ==> IsAsciiSpace(s[i])
    decreases |s|
  {
    if s != [] && IsAsciiSpace(s[0]) {
      TrimLeftDropsSpace(s[1..]);
      assert forall i :: 1 <= i < |s| ==> s[i] == s[1..][i - 1];
    }
  }

  /** What `TrimRight` keeps is a prefix of its input, and all it cuts off is
      whitespace. */
  lemma {:induction false} TrimRightDropsSpace(s: Str)
    ensures TrimRight(s) == s[..|TrimRight(s)|]
    ensures forall i :: |TrimRight(s)| <= i < |s| ==> IsAsciiSpace(s[i])
    decreases |s|
  {
    if s != [] && IsAsciiSpace(s[|s| - 1]) {
      TrimRightDropsSpace(s[..|s| - 1]);
    }
  }

  /** `r` is the piece of `s` starting at `lo`, and all of `s` around it is
      whitespace. */
  ghost predicate IsPieceAmidSpace(s: Str, lo: nat, r: Str)
  {
    && lo + |r| <= |s|
    && r == s[lo..lo + |r|]
    && (forall k :: 0 <= k < lo ==> IsAsciiSpace(s[k]))
    && (forall k :: lo + |r| <= k < |s| ==> IsAsciiSpace(s[k]))
  }

  /** `strings.TrimSpace(s)` on its ASCII path: neither starts nor ends with
      whitespace. */
  function TrimSpace(s: Str): (r: Str)
    ensures r == [] || (!IsAsciiSpace(r[0]) && !IsAsciiSpace(r[|r| - 1]))
  {
    var l := TrimLeft(s);
    var r := TrimRight(l);
    TrimRightDropsSpace(l);
    assert r == [] || r[0] == l[0];
    r
  }

  /** What `TrimSpace` keeps is one piece of its input, and everything it cuts off
      around that piece is whitespace. */
  lemma TrimSpaceIsPiece(s: Str)
    ensures exists lo: nat :: IsPieceAmidSpace(s, lo, TrimSpace(s))
  {
    var l := TrimLeft(s);
    var r := TrimRight(l);
    var lo := |s| - |l|;
    TrimLeftDropsSpace(s);
    TrimRightDropsSpace(l);
    assert r == s[lo..lo + |r|] by {
      assert l == s[lo..];
      assert r == l[..|r|];
    }
    forall k | lo + |r| <= k < |s|
      ensures IsAsciiSpace(s[k])
    {
      assert s[k] == l[k - lo];
    }
    assert r == TrimSpace(s);
    assert IsPieceAmidSpace(s, lo, r);
  }

  /** Trimming twice is trimming once. */
  lemma TrimSpaceIdempotent(s: Str)
    ensures TrimSpace(TrimSpace(s)) == TrimSpace(s)
  {
    var t := TrimSpace(s);
    assert TrimLeft(t) == t;
    assert TrimRight(t) == t;
  }
}
