/** The completion word list: built once by `parseAList` from the contents of the
    word file, and queried by prefix. The immutable radix tree the program uses is
    modelled as the finite set of its keys. */
module WordList {
  import opened Bytes
  import opened Strings

  /** What `parseAList` stores for a file: every line, trimmed, unless it is
      blank. */
  function WordSet(contents: Str): set<Str>
  {
    WordsOf(Split(contents, Newline))
  }

  /** What one line contributes: its trimmed form, unless that is empty. */
  function LineWord(line: Str): set<Str>
  {
    if TrimSpace(line) == [] then {} else {TrimSpace(line)}
  }

  /** The words of `lines`, inserted one line after the other. */
  function WordsOf(lines: seq<Str>): set<Str>
    decreases |lines|
  {
    if lines == [] then {} else WordsOf(lines[..|lines| - 1]) + LineWord(lines[|lines| - 1])
  }

  /** `w` is the trimmed form of a line of `lines` and is not empty. */
  ghost predicate IsWordOf(lines: seq<Str>, w: Str)
  {
    w != [] && exists i :: 0 <= i < |lines| && TrimSpace(lines[i]) == w
  }

  /** Every word comes from some line. */
  lemma {:induction false} WordHasLine(lines: seq<Str>, w: Str)
    requires w in WordsOf(lines)
    ensures IsWordOf(lines, w)
    decreases |lines|
  {
    var n := |lines| - 1;
    var init := lines[..n];
    if w in WordsOf(init) {
      WordHasLine(init, w);
      var i :| 0 <= i < |init| && TrimSpace(init[i]) == w;
      assert lines[i] == init[i];
    } else {
      assert TrimSpace(lines[n]) == w;
    }
  }

  /** Every non-blank line gives a word. */
  lemma {:induction false} LineHasWord(lines: seq<Str>, i: nat)
    requires i < |lines| && TrimSpace(lines[i]) != []
    ensures TrimSpace(lines[i]) in WordsOf(lines)
    decreases |lines|
  {
    var n := |lines| - 1;
    if i < n {
      var init := lines[..n];
      assert init[i] == lines[i];
      LineHasWord(init, i);
    }
  }

  /** The words of a list of lines are exactly its trimmed non-blank lines:
      insertion order and repeated lines do not matter. */
  lemma WordsOfIsTrimmedLines(lines: seq<Str>, w: Str)
    ensures w in WordsOf(lines) <==> IsWordOf(lines, w)
  {
    if w in WordsOf(lines) {
      WordHasLine(lines, w);
    }
    if IsWordOf(lines, w) {
      var i :| 0 <= i < |lines| && TrimSpace(lines[i]) == w;
      LineHasWord(lines, i);
    }
  }

  /** The split/trim/insert loop of `parseAList`, over the file's contents (the
      starting tree is `iradix.New()`, the empty set). */
  method ParseAList(contents: Str) returns (words: set<Str>)
    ensures words == WordSet(contents)
  {
    var lines := Split(contents, Newline);
    words := {};
    for i := 0 to |lines|
      invariant words == WordsOf(lines[..i])
    {
      var l := TrimSpace(lines[i]);
      WordsOfStep(lines, i);
      if l == [] {
        continue;
      }
      words := words + {l};
    }
    assert lines[..|lines|] == lines;
  }

  /** One more line adds its word, if any. */
  lemma WordsOfStep(lines: seq<Str>, i: nat)
    requires i < |lines|
    ensures TrimSpace(lines[i]) == [] ==> WordsOf(lines[..i + 1]) == WordsOf(lines[..i])
    ensures TrimSpace(lines[i]) != [] ==>
              WordsOf(lines[..i + 1]) == WordsOf(lines[..i]) + {TrimSpace(lines[i])}
  {
    assert lines[..i + 1][..i] == lines[..i];
  }

  /** Trimming a line without a newline leaves no newline. */
  lemma TrimmedLineHasNoNewline(l: Str)
    requires Newline !in l
    ensures Newline !in TrimSpace(l)
  {
    TrimSpaceIsPiece(l);
    var lo: nat :| IsPieceAmidSpace(l, lo, TrimSpace(l));
  }

  /** A word taken from separator-free lines is non-empty, neither starts nor
      ends with whitespace, and holds no newline. */
  lemma WordOfLinesIsTrimmed(lines: seq<Str>, w: Str)
    requires forall i :: 0 <= i < |lines| ==> Newline !in lines[i]
    requires w in WordsOf(lines)
    ensures w != [] && !IsAsciiSpace(w[0]) && !IsAsciiSpace(w[|w| - 1]) && Newline !in w
  {
    WordHasLine(lines, w);
    var i :| 0 <= i < |lines| && TrimSpace(lines[i]) == w;
    TrimmedLineHasNoNewline(lines[i]);
  }

  /** Every stored word is non-empty, neither starts nor ends with whitespace, and
      holds no newline; and every non-blank line is stored, trimmed. */
  lemma StoredWordsAreTrimmedLines(contents: Str)
    ensures forall w :: w in WordSet(contents) ==>
              w != [] && !IsAsciiSpace(w[0]) && !IsAsciiSpace(w[|w| - 1]) && Newline !in w
    ensures forall i :: 0 <= i < |Split(contents, Newline)| && TrimSpace(Split(contents, Newline)[i]) != [] ==>
              TrimSpace(Split(contents, Newline)[i]) in WordSet(contents)
  {
    var lines := Split(contents, Newline);
    forall w | w in WordSet(contents)
      ensures w != [] && !IsAsciiSpace(w[0]) && !IsAsciiSpace(w[|w| - 1]) && Newline !in w
    {
      WordOfLinesIsTrimmed(lines, w);
    }
    forall i | 0 <= i < |lines| && TrimSpace(lines[i]) != []
      ensures TrimSpace(lines[i]) in WordSet(contents)
    {
      WordsOfIsTrimmedLines(lines, TrimSpace(lines[i]));
    }
  }

  /** The keys of `tree` that start with `prefix`: what `WalkPrefix` visits. */
  function Matches(tree: set<Str>, prefix: Str): set<Str>
  {
    set k | k in tree && IsPrefix(prefix, k)
  }

  /** Every match starts with the prefix, and a key that starts with a longer
      prefix also matches a shorter one. */
  lemma MatchesNarrow(tree: set<Str>, p: Str, q: Str)
    requires IsPrefix(p, q)
    ensures Matches(tree, q) <= Matches(tree, p)
  {
    forall k | k in Matches(tree, q)
      ensures k in Matches(tree, p)
    {
      PrefixTransitive(p, q, k);
    }
  }

  /** `WORDLIST.Root().WalkPrefix(prefix, fn)` with the callback of
      `autoCompleteCallback`, which appends each key and returns `false` (keep
      walking): every key with the prefix, each exactly once. The radix tree
      visits them in lexicographic order; the model picks them in an arbitrary
      order, which the longest common prefix does not depend on. */
  method WalkPrefix(tree: set<Str>, prefix: Str) returns (ms: seq<Str>)
    ensures forall k :: k in ms <==> k in tree && IsPrefix(prefix, k)
    ensures forall i, j :: 0 <= i < j < |ms| ==> ms[i] != ms[j]
  {
    ms := [];
    var rest := tree;
    while rest != {}
      invariant rest <= tree
      invariant forall k :: k in ms <==> k in tree && k !in rest && IsPrefix(prefix, k)
      invariant forall i, j :: 0 <= i < j < |ms| ==> ms[i] != ms[j]
      decreases rest
    {
      var k :| k in rest;
      if IsPrefix(prefix, k) {
        ms := ms + [k];
      }
      rest := rest - {k};
    }
  }
}
