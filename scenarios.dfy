/** Worked examples of the completion policy over the word list
    `list`, `load`, `log` (bytes written out: l=108 i=105 s=115 t=116 o=111
    a=97 d=100 g=103, space=32, newline=10). */
module Scenarios {
  import opened Bytes
  import opened Lcp
  import opened Strings
  import opened WordList
  import opened Completion

  const List: Str := [108, 105, 115, 116]
  const Load: Str := [108, 111, 97, 100]
  const Log: Str := [108, 111, 103]
  const Words: set<Str> := {List, Load, Log}

  /** "li" with the cursor at its end has one candidate, "list", and completes to
      it with the cursor after it. */
  lemma CompleteLi()
    ensures TokenStart([108, 105], 2) == 0
    ensures Matches(Words, [108, 105]) == {List}
    ensures LcpOf(Matches(Words, [108, 105])) == List
    ensures CompletedPrefix(Matches(Words, [108, 105])) == List
    ensures Splice([108, 105], 0, 2, List) == List
  {
    assert TokenStart([108, 105], 2) == 0;
    var m := Matches(Words, [108, 105]);
    assert IsPrefix([108, 105], List);
    assert Load[..2][1] != 105 && Log[..2][1] != 105;
    assert m == {List};
    LcpOfIsLongest(m);
  }

  /** "lo" has the candidates "load" and "log", whose longest common prefix is
      "lo" itself: the line comes back unchanged, and since that prefix is not
      empty the callback still answers `ok`. */
  lemma LoIsAlreadyComplete()
    ensures TokenStart([108, 111], 2) == 0
    ensures Matches(Words, [108, 111]) == {Load, Log}
    ensures LcpOf(Matches(Words, [108, 111])) == [108, 111]
    ensures CompletedPrefix(Matches(Words, [108, 111])) == [108, 111]
    ensures Splice([108, 111], 0, 2, [108, 111]) == [108, 111]
  {
    var m := Matches(Words, [108, 111]);
    assert IsPrefix([108, 111], Load) && IsPrefix([108, 111], Log);
    assert List[..2][1] != 111;
    assert m == {Load, Log};
    assert CommonPrefix(Load, Log) == [108, 111] by {
      CommonPrefixUnique([108, 111], Load, Log);
    }
    LessEqReflexive(Load);
    LessEqReflexive(Log);
    assert LessEq(Load, Log);
    MinMaxCommonPrefix(Load, Log, m);
    LcpOfIsLongest(m);
    LongestCommonPrefixUnique(LcpOf(m), [108, 111], m);
  }

  /** After "ab " the token is not empty: the byte before the cursor is taken
      without a whitespace test, so the token is "ab " and the scan runs on to
      the line start. */
  lemma TokenAfterSpaceKeepsSpace()
    ensures TokenStart([97, 98, 32], 3) == 0
  {
    assert TokenStartFrom([97, 98, 32], 2) == TokenStartFrom([97, 98, 32], 1) == 0;
  }

  /** "übel" and "über" in UTF-8 (ü is C3 BC, b=62 e=65 l=6C r=72), the token
      "ü", their common prefix "übe", and that prefix re-encoded byte by byte:
      C3 becomes C3 83 and BC becomes C2 BC ("Ã¼be"). */
  const Ubel: Str := [0xC3, 0xBC, 0x62, 0x65, 0x6C]
  const Uber: Str := [0xC3, 0xBC, 0x62, 0x65, 0x72]
  const Umlaut: Str := [0xC3, 0xBC]
  const Ube: Str := [0xC3, 0xBC, 0x62, 0x65]
  const Reencoded: Str := [0xC3, 0x83, 0xC2, 0xBC, 0x62, 0x65]

  lemma UmlautMatches()
    ensures Matches({Ubel, Uber}, Umlaut) == {Ubel, Uber}
    ensures Matches({Ubel, Uber}, Ube) == {Ubel, Uber}
  {
    assert IsPrefix(Umlaut, Ubel) && IsPrefix(Umlaut, Uber);
    assert IsPrefix(Ube, Ubel) && IsPrefix(Ube, Uber);
  }

  lemma UmlautLcp()
    ensures LcpOf({Ubel, Uber}) == Ube
  {
    var m := {Ubel, Uber};
    assert CommonPrefix(Ubel, Uber) == Ube by {
      assert Ubel[4] != Uber[4];
      CommonPrefixUnique(Ube, Ubel, Uber);
    }
    LessEqReflexive(Ubel);
    LessEqReflexive(Uber);
    assert LessEq(Ubel, Uber);
    MinMaxCommonPrefix(Ubel, Uber, m);
    LcpOfIsLongest(m);
    LongestCommonPrefixUnique(LcpOf(m), Ube, m);
  }

  lemma UmlautEncoded()
    ensures Encoded(Ube) == Reencoded
  {
    assert Ube[..3] == [0xC3, 0xBC, 0x62];
    assert Ube[..3][..2] == Umlaut;
    assert Umlaut[..1] == [0xC3];
    assert Encoded([0xC3]) == [0xC3, 0x83];
  }

  lemma UmlautWords()
    ensures Matches({Ubel, Uber}, Umlaut) == {Ubel, Uber}
    ensures Matches({Ubel, Uber}, Ube) == {Ubel, Uber}
    ensures LcpOf({Ubel, Uber}) == Ube
    ensures CompletedPrefix({Ubel, Uber}) == Reencoded
  {
    UmlautMatches();
    UmlautLcp();
    UmlautEncoded();
    assert Ubel[4] != Uber[4];
    assert |{Ubel, Uber}| == 2;
  }

  /** With the words "übel" and "über", Tab after "ü" splices in the
      re-encoded "Ã¼be" and puts the cursor at 6: the token is no prefix of
      the new text. */
  lemma UmlautIsReencoded()
    ensures TokenStart(Umlaut, 2) == 0
    ensures CompletedPrefix(Matches({Ubel, Uber}, Umlaut)) == Reencoded
    ensures Splice(Umlaut, 0, 2, Reencoded) == Reencoded && 0 + |Reencoded| == 6
    ensures !IsPrefix(Umlaut, Reencoded)
  {
    UmlautWords();
    assert TokenStartFrom(Umlaut, 1) == 0;
    assert Reencoded[..2][1] != Umlaut[1];
  }

  /** And Tab after the already complete "übe" changes the line. */
  lemma CompleteUbeChanges()
    ensures TokenStart(Ube, 4) == 0
    ensures CompletedPrefix(Matches({Ubel, Uber}, Ube)) == Reencoded
    ensures Splice(Ube, 0, 4, Reencoded) != Ube
  {
    UmlautWords();
    assert TokenStartFrom(Ube, 3) == TokenStartFrom(Ube, 2) == TokenStartFrom(Ube, 1) == 0;
    assert |Splice(Ube, 0, 4, Reencoded)| == 6;
  }

  const Sample: Str := [108, 111, 103, 10, 32, 32, 108, 111, 103, 32, 10]
  const PaddedLog: Str := [32, 32, 108, 111, 103, 32]

  /** The lines of `Sample` are "log", "  log " and "". */
  lemma SampleLines()
    ensures Split(Sample, Newline) == [Log, PaddedLog, []]
  {
    var lines: seq<Str> := [Log, PaddedLog, []];
    assert Join(lines[2..], Newline) == [];
    assert Join(lines[1..], Newline) == PaddedLog + [Newline];
    assert Join(lines, Newline) == Log + [Newline] + (PaddedLog + [Newline]);
    assert Join(lines, Newline) == Sample;
    SplitJoin(lines, Newline);
  }

  /** Trimming those lines gives "log", "log" and "". */
  lemma SampleTrims()
    ensures TrimSpace(Log) == Log && TrimSpace(PaddedLog) == Log && TrimSpace([]) == []
  {
    assert TrimLeft(Log) == Log && TrimRight(Log) == Log;
    assert PaddedLog[1..] == [32, 108, 111, 103, 32];
    assert PaddedLog[1..][1..] == [108, 111, 103, 32];
    assert TrimLeft(PaddedLog) == [108, 111, 103, 32];
    assert [108, 111, 103, 32][..3] == Log;
    assert TrimRight([108, 111, 103, 32]) == Log;
  }

  lemma WordOfThree(c: Str, a: Str, b: Str, e: Str, w: Str, x: Str)
    requires Split(c, Newline) == [a, b, e]
    requires TrimSpace(a) == w && TrimSpace(b) == w && TrimSpace(e) == []
    requires x in WordSet(c)
    ensures x == w
  {
    var lines := Split(c, Newline);
    WordHasLine(lines, x);
    var i :| 0 <= i < |lines| && TrimSpace(lines[i]) == x;
    assert i == 0 || i == 1 || i == 2;
  }

  /** A file of three lines, two of which trim to the same word and one of which
      is blank, stores that one word. */
  lemma WordSetOfThreeLines(c: Str, a: Str, b: Str, e: Str, w: Str)
    requires Split(c, Newline) == [a, b, e]
    requires TrimSpace(a) == w && TrimSpace(b) == w && w != [] && TrimSpace(e) == []
    ensures forall x :: x in WordSet(c) <==> x == w
  {
    forall x | x in WordSet(c)
      ensures x == w
    {
      WordOfThree(c, a, b, e, w, x);
    }
    assert w in WordSet(c) by {
      LineHasWord(Split(c, Newline), 0);
    }
  }

  /** The file `Sample`, holding "log", "  log " and a blank line, stores one
      word: the duplicate collapses. */
  lemma DuplicateLinesCollapse()
    ensures forall x :: x in WordSet(Sample) <==> x == Log
  {
    SampleLines();
    SampleTrims();
    WordSetOfThreeLines(Sample, Log, PaddedLog, [], Log);
  }
}
