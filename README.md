# termwrap: tab completion and line clearing, modelled in Dafny

termwrap runs a command and wraps its standard input in a line-editing terminal,
so that the child's output does not break up the line being typed. The terminal
calls back into termwrap on every key press (`autoCompleteCallback`), and that
callback holds the program's own policy:

- **Ctrl+C** (`0x03`) clears a non-empty line; on an empty line it asks the
  program to stop (the program sends "keyboard interrupt" on its error channel).
- **Tab** takes the token that ends at the cursor, collects every word of the
  completion word list that starts with it, and replaces the token by the
  longest common prefix of those words (`longestCommonPrefix`, computed from the
  lexicographically least and greatest of them). With two or more words the
  prefix is rebuilt with `pref += string(min[i])`, which turns every byte from
  0x80 on into two bytes (see "## Findings").
- Every other key goes back to the terminal's default handling.

The word list comes from the file given with `-t`: `parseAList` splits its
contents on newlines, trims every line, drops blank ones and inserts the rest
into an immutable radix tree.

This project models those three parts and proves what they promise.

| file | module | models |
|---|---|---|
| `bytes.dfy` | `Bytes` | byte strings, Go's byte-wise string order, `unicode.IsSpace` on a byte, prefixes |
| `lcp.dfy` | `Lcp` | `longestCommonPrefix`: its min/max loop and its byte loop, and the reference definition it is proved against |
| `strings.dfy` | `Strings` | `strings.Split` on one byte and `strings.TrimSpace` |
| `wordlist.dfy` | `WordList` | the split/trim/insert loop of `parseAList`, and `WalkPrefix` over the word list |
| `completion.dfy` | `Completion` | `autoCompleteCallback`: the key switch, the token scan, the splice |
| `scenarios.dfy` | `Scenarios` | worked examples over the word lists `list`, `load`, `log` and `übel`, `über` |

Modelling choices:

- Strings are `seq<byte>`, and Go's `<` and `>` on strings is the byte-wise
  lexicographic order `Bytes.LessEq`, proved reflexive, total, antisymmetric and
  transitive.
- The token scan tests bytes with `unicode.IsSpace(rune(b))`: tab, newline,
  vertical tab, form feed, carriage return, space, `0x85` and `0xA0`.
- The radix tree `WORDLIST` is the finite set of its keys, an
  `Option<set<Str>>` that is `None` when no word file was given (the `nil`
  tree). `WalkPrefix` with the program's callback, which appends each key and
  returns `false` to keep walking, is a loop that visits every key of the set
  exactly once and keeps those with the prefix.
- The error-channel send on Ctrl+C becomes a returned `quit` flag.
- The callback demands `0 <= pos <= |line|` only on the path that slices the
  line, Tab with a word list; the terminal library supplies a cursor in range.

The model follows the code where the program's description reads otherwise:

- The byte just before the cursor always belongs to the token, even when it is
  whitespace (the scan starts at `pos - 1` and only tests the bytes before it).
  After "ab " the token is "ab ", not empty (`Scenarios.TokenAfterSpaceKeepsSpace`).
- When the prefix `longestCommonPrefix` returns equals the typed token, the
  callback still answers `ok = true`, with the line and cursor unchanged; only
  an empty prefix gives `ok = false` (`Scenarios.LoIsAlreadyComplete`). That
  prefix is the true longest common prefix whenever there is one match or the
  shared prefix is ASCII; otherwise even an already complete token is replaced
  (`Scenarios.CompleteUbeChanges`).
- `longestCommonPrefix` appends `string(min[i])`, the UTF-8 encoding of the
  byte taken as a code point, not the byte itself. The model keeps this:
  `Lcp.LongestCommonPrefix` and `Completion.AutoCompleteCallback` return the
  re-encoded prefix, and `Lcp.ByteLongestCommonPrefix` is the byte-wise
  version the program evidently means.

## Model

| member | source | states |
|---|---|---|
| `Lcp.LongestCommonPrefix` | termwrap.go:261-292 | as written: `""` for an empty list, the sole element for a one-element list, and otherwise `Encoded(LcpOf(set of the list))`, the re-encoded longest common prefix; the result is the longest common prefix of the list exactly when the list has one string or that prefix is ASCII |
| `Lcp.ByteLongestCommonPrefix` | termwrap.go:261-292 | the intended version appending `min[i]` itself: `""` for an empty list, the sole element for one, otherwise a prefix of every string such that every shared prefix is a prefix of it; always the reference `LcpOf` of the list's set, so it does not depend on order or repetition |
| `Lcp.MinMax` | termwrap.go:272-280 | the two strings the first loop ends with are members of the list, and every string of the list lies between them in Go's string order |
| `Lcp.MinMaxCommonPrefix` | termwrap.go:282-288 | the claim in the source's comment: the common prefix of the minimum and the maximum is the longest common prefix of the whole set |
| `Lcp.PrefixLoop` | termwrap.go:284-291 | the byte loop returns `Encoded(CommonPrefix(lo, hi))`: each byte of the two strings' common prefix passed through `string(...)` |
| `Lcp.RuneBytes` | termwrap.go:289 | `string(b)` of a byte: `[b]` below 0x80, and from 0x80 on a two-byte UTF-8 sequence (lead byte 0xC0-0xDF, continuation byte 0x80-0xBF) whose code point is `b` |
| `Lcp.Encoded` | termwrap.go:284-291 | the re-encoding is at least as long as the bytes it encodes, and empty exactly when they are |
| `Lcp.EncodedAscii` | termwrap.go:289 | on ASCII bytes the re-encoding is the identity |
| `Lcp.EncodedLonger` | termwrap.go:289 | a byte from 0x80 on makes the re-encoding strictly longer |
| `Lcp.EncodedIsIdentityIffAscii` | termwrap.go:289 | the re-encoding leaves a string unchanged exactly when it is ASCII |
| `Lcp.EncodedLcpIsNotCommon` | termwrap.go:282-291 | when the longest common prefix of a set holds a byte from 0x80 on, its re-encoding is not a prefix of every string of the set |
| `Lcp.CompletedPrefix` | termwrap.go:231-246 | what the callback obtains for a set of matches listed once each: it equals the longest common prefix exactly when there is at most one match or that prefix is ASCII, it is empty exactly when that prefix is, and it is never shorter than it |
| `Lcp.DistinctElems` | termwrap.go:231-246 | a list without repeats has one string exactly when its set has one, and none exactly when its set is empty |
| `Lcp.CommonPrefix` | termwrap.go:284-288 | where the byte loop stops: the bytes it walks are a prefix of both strings, and at their end one string ends or the two differ |
| `Lcp.CommonPrefixUnique` | termwrap.go:285-288 | any shared prefix at whose end a string ends or the bytes differ (the loop's exit condition) is `CommonPrefix` |
| `Lcp.CommonPrefixGreatest` | termwrap.go:285-290 | every prefix two strings share is a prefix of their common prefix |
| `Lcp.LongestCommonPrefixUnique` | termwrap.go:282-283 | a set has at most one longest common prefix |
| `Lcp.LcpOfIsLongest` | termwrap.go:282-283 | the reference fold over any non-empty set is its longest common prefix |
| `Bytes.PrefixBetween` | termwrap.go:282-283 | a prefix shared by two strings is shared by every string sorting between them |
| `Bytes.IsSpace` | termwrap.go:226 | `unicode.IsSpace(rune(b))`: the ASCII whitespace `TrimSpace` strips, plus 0x85 and 0xA0 |
| `Bytes.LessEq` | termwrap.go:275-277 | Go's `<=` on strings; a prefix of a string sorts before it |
| `Bytes.LessEqIsLexicographic` | termwrap.go:275-277 | `a <= b` exactly when `a` is a prefix of `b` or `a` has the smaller byte at the first position where the two differ |
| `Bytes.Less` | termwrap.go:275-277 | Go's `<` on strings (and `b > a`) holds exactly when `a <= b` and `a != b` |
| `Bytes.LessEqReflexive` | termwrap.go:275-277 | Go's string order is reflexive |
| `Bytes.LessEqTotal` | termwrap.go:275-277 | any two strings are ordered one way or the other |
| `Bytes.LessEqAntisymmetric` | termwrap.go:275-277 | strings ordered both ways are equal |
| `Bytes.LessEqTransitive` | termwrap.go:275-277 | the order is transitive |
| `Completion.TokenStartFrom` | termwrap.go:226 | the scan stops at 0 or after a whitespace byte, having crossed only non-whitespace bytes |
| `Completion.TokenStart` | termwrap.go:222-228 | `0 <= start <= pos`, and `start < pos` when `pos > 0`; `start == 0` or the byte before `start` is whitespace; every byte of `line[start..pos-1]` (all but the last byte of the token) is not whitespace |
| `Completion.TokenStartUnique` | termwrap.go:222-227 | those facts determine the start: any position satisfying them is `TokenStart` |
| `Completion.FindTokenStart` | termwrap.go:222-227 | the decrementing loop ends at `TokenStart(line, pos)` |
| `Completion.Splice` | termwrap.go:254-256 | the spliced line keeps `line[:start]` and `line[pos:]` and holds the prefix between them |
| `Completion.SpliceOfTokenIsIdentity` | termwrap.go:249-256 | splicing the token in for itself leaves the line unchanged |
| `Completion.TokenIsPrefixOfLcp` | termwrap.go:231-246 | when some word matches, the token is a prefix of the matches' longest common prefix |
| `Completion.MatchesOfLcp` | termwrap.go:231-246 | the words matching the longest common prefix are exactly the words matching the token |
| `Completion.AutoCompleteCallback` | termwrap.go:196-258 | Ctrl+C on an empty line returns `("", 0, false)` and requests termination; on a non-empty line `("", 0, true)` without it; any other key but Tab, and Tab without a word list, returns `("", 0, false)`; Tab returns `ok` exactly when the prefix `CompletedPrefix(m)` obtained from the matches `m` is non-empty (so not when nothing matches), and then the line `line[:start] + prefix + line[pos:]` with cursor `start + len(prefix)`, never before `pos`; if that prefix is the token itself the line and cursor come back unchanged; with at most one match or an ASCII common prefix it is the matches' longest common prefix and extends the token; otherwise the spliced text is not a prefix of every match |
| `Completion.TokenStartAfterSplice` | termwrap.go:222-227 | after a non-empty text with no whitespace before its last byte is spliced in at the token's start, the scan from the end of that text stops at the same start, so the text is the new token |
| `Completion.SecondTabIsFixpoint` | termwrap.go:222-256 | when the first Tab splices in the true longest common prefix (one match, or an ASCII prefix) that holds no whitespace before its last byte, pressing Tab again finds the same token start, the completed prefix as token and the same prefix again, so the line and cursor stay as they are |
| `WordList.ParseAList` | termwrap.go:175-190 | starting from the empty tree, the loop over the lines stores exactly `WordSet(contents)`, the words of the lines inserted one after the other |
| `WordList.WordHasLine` | termwrap.go:184-190 | every stored word is the non-empty trimmed form of some line |
| `WordList.LineHasWord` | termwrap.go:184-190 | every line whose trimmed form is not empty is stored, trimmed |
| `WordList.WordsOfIsTrimmedLines` | termwrap.go:184-190 | a word is stored exactly when it is the non-empty trimmed form of some line, so neither line order nor repeated lines matter |
| `WordList.TrimmedLineHasNoNewline` | termwrap.go:184-185 | a line cut at newlines holds no newline after trimming either |
| `WordList.WordOfLinesIsTrimmed` | termwrap.go:184-190 | a word stored from newline-free lines is non-empty, starts and ends with non-whitespace and holds no newline |
| `WordList.StoredWordsAreTrimmedLines` | termwrap.go:184-190 | for a whole file: every stored word is non-empty, starts and ends with non-whitespace and holds no newline; every non-blank line is stored trimmed |
| `WordList.WalkPrefix` | termwrap.go:231-238 | the collected keys are exactly the stored words having the token as prefix, each once |
| `WordList.MatchesNarrow` | termwrap.go:232-238 | a longer prefix matches a subset of the words a shorter one matches |
| `Strings.Split` | termwrap.go:184 | at least one piece, none containing the separator |
| `Strings.JoinSplit` | termwrap.go:184 | joining the pieces with the separator gives the contents back |
| `Strings.SplitJoin` | termwrap.go:184 | splitting the join of separator-free pieces gives the pieces back |
| `Strings.TrimLeft` | termwrap.go:185 | no longer than the input and not starting with whitespace |
| `Strings.TrimLeftDropsSpace` | termwrap.go:185 | what `TrimLeft` keeps is a suffix of the input, and every byte it drops is whitespace |
| `Strings.TrimRight` | termwrap.go:185 | no longer than the input and not ending with whitespace |
| `Strings.TrimRightDropsSpace` | termwrap.go:185 | what `TrimRight` keeps is a prefix of the input, and every byte it drops is whitespace |
| `Strings.TrimSpace` | termwrap.go:185 | the trimmed line neither starts nor ends with whitespace |
| `Strings.TrimSpaceIsPiece` | termwrap.go:185 | the trimmed line is one piece of the line, and everything around that piece is whitespace |
| `Strings.TrimSpaceIdempotent` | termwrap.go:185 | trimming a trimmed line changes nothing |
| `Scenarios.CompleteLi` | termwrap.go:222-256 | with words `list`, `load`, `log`, "li" at cursor 2 has the single match `list` and becomes "list" with cursor 4 |
| `Scenarios.LoIsAlreadyComplete` | termwrap.go:222-256 | "lo" at cursor 2 is a token starting at 0 that matches `load` and `log`, whose longest common prefix, ASCII and so returned as is, is "lo": the line comes back unchanged |
| `Scenarios.TokenAfterSpaceKeepsSpace` | termwrap.go:222-227 | in "ab " at cursor 3 the token starts at 0 and includes the space |
| `Scenarios.UmlautWords` | termwrap.go:231-291 | with the words "übel" and "über", the token "ü" and the token "übe" both match both words, their longest common prefix is "übe", and the prefix `longestCommonPrefix` returns is C3 83 C2 BC 62 65 ("Ã¼be") |
| `Scenarios.UmlautIsReencoded` | termwrap.go:222-256 | Tab after "ü" turns the line into C3 83 C2 BC 62 65 with cursor 6, of which "ü" is not a prefix |
| `Scenarios.CompleteUbeChanges` | termwrap.go:222-256 | Tab after the already complete "übe" changes the line too |
| `Scenarios.SampleLines` | termwrap.go:184 | the contents "log\n  log \n" split into the lines "log", "  log " and "" |
| `Scenarios.SampleTrims` | termwrap.go:185 | "log" and "  log " both trim to "log", and "" stays empty |
| `Scenarios.WordSetOfThreeLines` | termwrap.go:184-190 | three lines of which two trim to one word and one is blank store that word only |
| `Scenarios.DuplicateLinesCollapse` | termwrap.go:184-190 | the contents "log", "  log ", "" store just `log` |

## Findings

| source | as written | input that shows it | evidently intended | confidence | as-written member | corrected member |
|---|---|---|---|---|---|---|
| termwrap.go:289 | `pref += string(min[i])` converts the byte `min[i]` as a code point, so with two or more matches every prefix byte from 0x80 on becomes two bytes | words "übel", "über" (C3 BC 62 65 6C, C3 BC 62 65 72), line "ü" at cursor 2: the line becomes C3 83 C2 BC 62 65 ("Ã¼be") at cursor 6 instead of "übe" at cursor 4 | append the byte itself, `pref += min[i:i+1]`, giving the longest common prefix of the matches | high; not executed | `Lcp.LongestCommonPrefix`, with `Scenarios.UmlautIsReencoded` and `Scenarios.CompleteUbeChanges` | `Lcp.ByteLongestCommonPrefix` |

The callback model keeps the code as written, so `Completion.AutoCompleteCallback`
states the effect of this; the completion lemmas `Completion.TokenIsPrefixOfLcp`,
`Completion.MatchesOfLcp` and `Completion.SecondTabIsFixpoint` are stated over
the intended prefix `LcpOf`, which `Lcp.ByteLongestCommonPrefix` computes.

## Left out

- `main` (termwrap.go:34-170): flag parsing, usage text and the exit codes 1 to 5 are command-line and I/O glue.
- Raw mode (`terminal.MakeRaw`, `terminal.Restore`) and the line discipline of `terminal.NewTerminal` belong to a foreign library whose source is not part of this model.
- Starting the child (`exec.Command`, `StdinPipe`, `Run`) and forwarding lines to it are process I/O.
- The two goroutines and the unbuffered error channel where the first error ends the program are concurrency; the Ctrl+C send on that channel is the returned `quit` flag.
- Reading the word file (`ioutil.ReadFile`, termwrap.go:178-181) is file I/O; the model starts from the file's contents. On a read error the program leaves the empty tree in `WORDLIST` and exits, which the model does not show.
- The internals of `go-immutable-radix` are replaced by a set of keys with a prefix filter.
- Strings.TrimSpace: strips only the ASCII whitespace of Go's fast path; Go's `strings.TrimSpace` also strips multi-byte UTF-8 whitespace (U+0085, U+00A0, U+2000 and the like) at the ends of a line, which the model keeps. Widening the byte predicate to `0x85` and `0xA0` instead would strip bytes Go keeps (a lone invalid byte, or the last byte of "à", `C3 A0`).
- WordList.WalkPrefix: returns the matching keys in an arbitrary order, where the radix tree walks them in lexicographic order; `Lcp.LongestCommonPrefix` is proved to depend only on the set of its inputs and on whether the list has one string, neither of which the order changes, and `WalkPrefix` lists each key once, so the completion is the same.
- Go's `int` is taken to be unbounded: a cursor or line length near 2^63 is out of scope.
