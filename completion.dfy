/** `autoCompleteCallback` (termwrap.go): the policy the terminal consults on each
    key press, deciding between quitting, clearing the line, completing the word
    before the cursor, and leaving the key to the terminal's default handling. */
module Completion {
  import opened Bytes
  import opened Lcp
  import opened WordList

  datatype Option<T> = None | Some(value: T)

  /** The keys the callback acts on (the terminal passes a rune). */
  const CtrlC: int := 0x03
  const Tab: int := 0x09

  /** Where the scan for the token's start, begun at `i`, stops: at the first
      position going left whose preceding byte is whitespace, or at 0. */
  function TokenStartFrom(line: Str, i: nat): (start: nat)
    requires i <= |line|
    ensures start <= i
    ensures start == 0 || IsSpace(line[start - 1])
    ensures forall k :: start <= k < i ==> !IsSpace(line[k])
    decreases i
  {
    if i == 0 || IsSpace(line[i - 1]) then i else TokenStartFrom(line, i - 1)
  }

  /** The start of the token the cursor ends. The scan starts at `pos - 1`
      (clamped at 0) without testing the byte at `pos - 1` itself, so that byte
      is always part of the token, whitespace or not. */
  function TokenStart(line: Str, pos: nat): (start: nat)
    requires pos <= |line|
    ensures start <= pos && (pos > 0 ==> start < pos)
    ensures start == 0 || IsSpace(line[start - 1])
    ensures forall k :: start <= k < pos - 1 ==> !IsSpace(line[k])
  {
    TokenStartFrom(line, if pos == 0 then 0 else pos - 1)
  }

  /** The three facts above pin the token's start down. */
  lemma TokenStartUnique(line: Str, pos: nat, s: nat)
    requires pos <= |line|
    requires s == 0 || (s < pos && IsSpace(line[s - 1]))
    requires forall k :: s <= k < pos - 1 ==> !IsSpace(line[k])
    ensures s == TokenStart(line, pos)
  {
    var t := TokenStart(line, pos);
    assert s <= t;
    assert t <= s;
  }

  /** The token scan of `autoCompleteCallback`: `start := pos - 1`, clamped at 0,
      then stepped left while the byte before it is not whitespace. */
  method FindTokenStart(line: Str, pos: nat) returns (start: nat)
    requires pos <= |line|
    ensures start == TokenStart(line, pos)
  {
    start := if pos == 0 then 0 else pos - 1;
    while 0 < start && !IsSpace(line[start - 1])
      invariant start <= |line|
      invariant TokenStartFrom(line, start) == TokenStart(line, pos)
    {
      start := start - 1;
    }
  }

  /** `line[:start] + lcp + line[pos:]`: the token `line[start..pos]` replaced by
      `lcp`, with the text on both sides of it kept. */
  function Splice(line: Str, start: nat, pos: nat, lcp: Str): (r: Str)
    requires start <= pos <= |line|
    ensures |r| == start + |lcp| + (|line| - pos)
    ensures r[..start] == line[..start]
    ensures r[start..start + |lcp|] == lcp
    ensures r[start + |lcp|..] == line[pos..]
  {
    line[..start] + lcp + line[pos..]
  }

  /** Splicing the token back in for itself gives the line unchanged. */
  lemma SpliceOfTokenIsIdentity(line: Str, start: nat, pos: nat)
    requires start <= pos <= |line|
    ensures Splice(line, start, pos, line[start..pos]) == line
  {
    assert line == line[..start] + line[start..pos] + line[pos..];
  }

  /** Every candidate starts with the token, so the token is a prefix of their
      longest common prefix: a completion never shortens what was typed. */
  lemma TokenIsPrefixOfLcp(words: set<Str>, word: Str)
    requires Matches(words, word) != {}
    ensures IsPrefix(word, LcpOf(Matches(words, word)))
  {
    LcpOfIsLongest(Matches(words, word));
    assert IsCommonPrefix(word, Matches(words, word));
  }

  /** Completing to the longest common prefix keeps exactly the same candidates. */
  lemma MatchesOfLcp(words: set<Str>, word: Str)
    requires Matches(words, word) != {}
    ensures Matches(words, LcpOf(Matches(words, word))) == Matches(words, word)
  {
    var m := Matches(words, word);
    var lcp := LcpOf(m);
    LcpOfIsLongest(m);
    TokenIsPrefixOfLcp(words, word);
    MatchesNarrow(words, word, lcp);
  }

  /** `autoCompleteCallback(line, pos, key)` with `WORDLIST` as `wordList`
      (`None` when no word file was given). Where the program sends "keyboard
      interrupt" on its error channel, the model returns `quit`. The prefix
      spliced in is what `longestCommonPrefix` returns for the matches, which
      with two or more matches re-encodes each byte from 0x80 on. */
  method AutoCompleteCallback(line: Str, pos: int, key: int, wordList: Option<set<Str>>)
    returns (newLine: Str, newPos: int, ok: bool, quit: bool)
    requires key == Tab && wordList.Some? ==> 0 <= pos <= |line|
    // Ctrl+C quits on an empty line and otherwise clears it.
    ensures key == CtrlC ==>
              newLine == [] && newPos == 0 && ok == (line != []) && quit == (line == [])
    // Every other key but Tab, and Tab without a word list, is left alone.
    ensures key != CtrlC && (key != Tab || wordList.None?) ==>
              newLine == [] && newPos == 0 && !ok && !quit
    // Tab splices the prefix computed from the candidates in place of the token.
    ensures key == Tab && wordList.Some? ==>
              var start := TokenStart(line, pos);
              var m := Matches(wordList.value, line[start..pos]);
              var lcp := CompletedPrefix(m);
              && !quit
              && ok == (lcp != [])
              && (m == {} ==> !ok)
              && (ok ==> newLine == Splice(line, start, pos, lcp) && newPos == start + |lcp|)
              && (ok ==> newPos >= pos)
              && (ok && lcp == line[start..pos] ==> newLine == line && newPos == pos)
              && (!ok ==> newLine == [] && newPos == 0)
    // With one candidate, or an ASCII common prefix, that is the candidates'
    // longest common prefix, and it extends the token.
    ensures key == Tab && wordList.Some? ==>
              var start := TokenStart(line, pos);
              var m := Matches(wordList.value, line[start..pos]);
              (|m| <= 1 || IsAscii(LcpOf(m))) ==>
                && CompletedPrefix(m) == LcpOf(m)
                && (ok ==> IsPrefix(line[start..pos], LcpOf(m)))
    // Otherwise the spliced text is not a prefix shared by the candidates.
    ensures key == Tab && wordList.Some? ==>
              var start := TokenStart(line, pos);
              var m := Matches(wordList.value, line[start..pos]);
              !(|m| <= 1 || IsAscii(LcpOf(m))) ==>
                ok && !IsCommonPrefix(newLine[start..newPos], m)
  {
    if key == CtrlC {
      if line == [] {
        return [], 0, false, true;
      }
      return [], 0, true, false;
    } else if key != Tab {
      return [], 0, false, false;
    }

    if wordList.None? {
      return [], 0, false, false;
    }

    var start := FindTokenStart(line, pos);
    var word := line[start..pos];

    var ms := WalkPrefix(wordList.value, word);
    ghost var m := Matches(wordList.value, word);
    assert Elems(ms) == m;
    DistinctElems(ms);

    if |ms| == 0 {
      return [], 0, false, false;
    }

    var lcp := LongestCommonPrefix(ms);
    LcpOfIsLongest(m);
    if |ms| == 1 {
      LongestCommonPrefixUnique(lcp, LcpOf(m), m);
    }
    assert lcp == CompletedPrefix(m);

    if |lcp| == 0 {
      return [], 0, false, false;
    }

    TokenIsPrefixOfLcp(wordList.value, word);
    SpliceOfTokenIsIdentity(line, start, pos);
    if !(|m| <= 1 || IsAscii(LcpOf(m))) {
      EncodedLcpIsNotCommon(m);
    }
    var left := line[..start];
    var right := line[pos..];
    return left + lcp + right, pos + (|lcp| - |word|), true, false;
  }

  /** Splicing a non-empty text without whitespace before its last byte in at a
      token's start makes that text the token at its end. */
  lemma TokenStartAfterSplice(line: Str, pos: nat, p: Str)
    requires pos <= |line|
    requires p != [] && forall k :: 0 <= k < |p| - 1 ==> !IsSpace(p[k])
    ensures var start := TokenStart(line, pos);
            var line2 := Splice(line, start, pos, p);
            && start + |p| <= |line2|
            && TokenStart(line2, start + |p|) == start
            && line2[start..start + |p|] == p
  {
    var start := TokenStart(line, pos);
    var line2 := Splice(line, start, pos, p);
    var pos2 := start + |p|;
    forall k | start <= k < pos2 - 1
      ensures !IsSpace(line2[k])
    {
      assert line2[k] == line2[start..pos2][k - start];
    }
    assert start == 0 || IsSpace(line2[start - 1]) by {
      if start > 0 {
        assert line2[start - 1] == line2[..start][start - 1] == line[..start][start - 1];
      }
    }
    TokenStartUnique(line2, pos2, start);
  }

  /** Pressing Tab again right after a completion changes nothing: the token is
      now the completed prefix, its candidates are the same, and splicing their
      prefix back gives the same line and cursor (still with `ok`). This needs the
      prefix to hold no whitespace before its last byte, or the second scan would
      stop inside it, and it needs the prefix spliced in to be the longest common
      prefix (one candidate, or an ASCII prefix). */
  lemma {:induction false} SecondTabIsFixpoint(words: set<Str>, line: Str, pos: nat)
    requires pos <= |line|
    requires var start := TokenStart(line, pos);
             var m := Matches(words, line[start..pos]);
             var lcp := LcpOf(m);
             && lcp != [] && (forall k :: 0 <= k < |lcp| - 1 ==> !IsSpace(lcp[k]))
             && (|m| <= 1 || IsAscii(lcp))
    ensures var start := TokenStart(line, pos);
            var lcp := LcpOf(Matches(words, line[start..pos]));
            var line2 := Splice(line, start, pos, lcp);
            var pos2 := start + |lcp|;
            && CompletedPrefix(Matches(words, line[start..pos])) == lcp
            && pos2 <= |line2|
            && TokenStart(line2, pos2) == start
            && line2[start..pos2] == lcp
            && CompletedPrefix(Matches(words, lcp)) == lcp
            && Splice(line2, start, pos2, lcp) == line2
  {
    var start := TokenStart(line, pos);
    var word := line[start..pos];
    var m := Matches(words, word);
    var lcp := LcpOf(m);
    assert m != {};
    TokenStartAfterSplice(line, pos, lcp);
    MatchesOfLcp(words, word);
    SpliceOfTokenIsIdentity(Splice(line, start, pos, lcp), start, start + |lcp|);
  }
}
