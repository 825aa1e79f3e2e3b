# Uganda word counter: a Dafny model

This is a model of the analysis core of the console program
`UgandaCount`, a library tool. A librarian types a book description. The
program counts how often the word "Uganda" occurs in it, prints statistics
about the text, and prints the text with every occurrence highlighted.

The model has five modules, one file each:

- `JavaText` (`java_text.dfy`): the parts of `java.lang.String` and
  `java.util.regex` the program relies on.
  - The ASCII classes `\w` and `\s` of the default regex flags.
  - ASCII case folding, as used by `CASE_INSENSITIVE` without `UNICODE_CASE`.
  - `String.trim`.
  - `String.split` for a pattern that is one repeated character class
    (`\s+`, `[.!?]+`), including the removal of trailing empty strings.
- `Occurrences` (`occurrences.dfy`): the pattern `\bUganda\b`.
  - `countUgandaOccurrences` is a method whose `while` loop calls `find`
    until it fails. It is proved equal to `MatchCount`, the length of the
    list of successive find results.
  - `highlightUganda` is `replaceAll` over that same list of find results.
- `Statistics` (`statistics.dfy`): the word count `split("\\s+")` and
  `countSentences`.
- `Acquisition` (`acquisition.dfy`): the read loop of `main`.
  - It works over the sequence of lines the scanner would deliver.
  - `ReadDescription` is a method with the loop. It is proved equal to the
    function `Acquire`.
- `Report` (`report.dfy`): the `switch` on the count, the values
  `displayResults` prints, and the whole program as `Run`.

## Behaviour worth noting

- The read loop stops at an *exactly empty* line once the buffer trims to
  something non-empty. A line holding only spaces does not stop it
  (`SpacesDoNotStop`), and an empty line before any content does not stop it
  either (`BlankLinesDoNotStop`).
- Removing the markers from the highlighted text does not give back the
  text, because the replacement is the fixed upper-case literal
  `**UGANDA**`: `uganda` comes back as `UGANDA`. What the highlighter does
  keep is where each marker lands (`HighlightMarks`) and every other
  character, in order (`HighlightCopies`).
- A word character for `\b` is `[A-Za-z0-9_]`, so the underscore counts as
  part of a word: `Uganda_x` holds no match.
- The counts of a description that starts with `.`, `!` or `?` include an
  empty leading sentence, since `split` keeps a leading empty string. For
  example, `".Hi"` gives 2 (`SentenceCountRuns`).

## Model

| member | source | states |
|---|---|---|
| JavaText.IsWordChar | src/main/java/com/mycompany/ugandacount/UgandaCount.java:74 | definition: the `\w` that `\b` tests, `[A-Za-z0-9_]` without UNICODE_CHARACTER_CLASS; see Occurrences.WordBoundary under Left out for non-ASCII text |
| JavaText.IsRegexSpace | src/main/java/com/mycompany/ugandacount/UgandaCount.java:110 | definition: the `\s` of `split("\\s+")`, the six characters space, tab, line feed, vertical tab, form feed and carriage return |
| JavaText.IsTrimSpace | src/main/java/com/mycompany/ugandacount/UgandaCount.java:39-46 | definition: the characters `String.trim` removes at either end, every character up to U+0020 |
| JavaText.IsSeparator | src/main/java/com/mycompany/ugandacount/UgandaCount.java:110-171 | definition: the two split classes, `\s` for the word count (line 110) and `[.!?]` for the sentence count (line 171) |
| JavaText.ToLowerAscii | src/main/java/com/mycompany/ugandacount/UgandaCount.java:74 | case folding changes only A-Z, leaves no upper-case ASCII letter, and keeps word characters word characters; which letter a capital becomes is fixed by FoldsEqual |
| JavaText.FoldsEqual | src/main/java/com/mycompany/ugandacount/UgandaCount.java:74 | two characters fold to the same character exactly when they are equal or are one ASCII letter in upper and lower case (a capital and the character 32 code points above it); with ToLowerAscii's contract this makes each capital fold to its own lower-case letter |
| JavaText.Trim | src/main/java/com/mycompany/ugandacount/UgandaCount.java:46 | the result neither starts nor ends with a character up to U+0020; it is empty exactly when the input is all such characters; it is a slice of the input with only such characters around it |
| JavaText.TrimUnique | src/main/java/com/mycompany/ugandacount/UgandaCount.java:46 | any text between two runs of trim-spaces that does not itself start or end with one is the trim of the whole |
| JavaText.TrimIdempotent | src/main/java/com/mycompany/ugandacount/UgandaCount.java:46 | a general property of the trim model, not used by the program, which trims only the raw buffer: trimming twice gives the same as trimming once |
| JavaText.Segments | src/main/java/com/mycompany/ugandacount/UgandaCount.java:171 | the pieces between separator runs number one more than the separator runs |
| JavaText.SegmentsSeparatorFree | src/main/java/com/mycompany/ugandacount/UgandaCount.java:171 | no piece holds a separator |
| JavaText.SegmentsFirst | src/main/java/com/mycompany/ugandacount/UgandaCount.java:171 | the first piece is empty exactly when the text is empty or starts with a separator |
| JavaText.SegmentsLast | src/main/java/com/mycompany/ugandacount/UgandaCount.java:171 | the last piece is empty exactly when the text is empty or ends with a separator |
| JavaText.SegmentsInnerNonEmpty | src/main/java/com/mycompany/ugandacount/UgandaCount.java:171 | every piece strictly between the first and the last is non-empty |
| JavaText.DropTrailingEmpty | src/main/java/com/mycompany/ugandacount/UgandaCount.java:171 | the result is a prefix of the input, does not end in an empty string, and only empty strings were removed |
| JavaText.Split | src/main/java/com/mycompany/ugandacount/UgandaCount.java:171 | no piece holds a separator, and the result ends in a non-empty piece unless it is empty or the single empty string |
| JavaText.RunCountConcat | src/main/java/com/mycompany/ugandacount/UgandaCount.java:110 | the runs of a concatenation are the runs of the two parts, less one when a run crosses the join |
| JavaText.RunsAlternate | src/main/java/com/mycompany/ugandacount/UgandaCount.java:110 | runs of separators and non-separators alternate: the non-separator runs plus one equal the separator runs plus one per end that is a non-separator |
| JavaText.SplitLength | src/main/java/com/mycompany/ugandacount/UgandaCount.java:171 | split returns one string when nothing matches, otherwise one per maximal non-separator run plus a leading empty one when the text starts with a separator and holds anything else |
| Occurrences.WordBoundary | src/main/java/com/mycompany/ugandacount/UgandaCount.java:74 | definition: `\b` holds at a position exactly when one of its two neighbours, a missing one counting as none, is a word character |
| Occurrences.SpellsTarget | src/main/java/com/mycompany/ugandacount/UgandaCount.java:74 | definition: the six characters at a position fold, one by one, to `u g a n d a` |
| Occurrences.MatchAt | src/main/java/com/mycompany/ugandacount/UgandaCount.java:74 | definition: `\bUganda\b` matches at i when the six characters fit in the text, spell the word ignoring ASCII case, and a boundary holds on both sides |
| Occurrences.MatchesApart | src/main/java/com/mycompany/ugandacount/UgandaCount.java:74 | two matches of `\bUganda\b` are at least seven positions apart |
| Occurrences.MatchNeighbours | src/main/java/com/mycompany/ugandacount/UgandaCount.java:74 | the character before and the character after a match, where present, are not word characters |
| Occurrences.FindFrom | src/main/java/com/mycompany/ugandacount/UgandaCount.java:78 | a successful find lies at or after the resume position and within the text |
| Occurrences.FindFromFirst | src/main/java/com/mycompany/ugandacount/UgandaCount.java:78 | find returns the first match at or after the resume position, and fails only when there is none |
| Occurrences.Matches | src/main/java/com/mycompany/ugandacount/UgandaCount.java:77-80 | the successive find results are increasing, within the text, and six or more apart |
| Occurrences.MatchesSound | src/main/java/com/mycompany/ugandacount/UgandaCount.java:77-80 | every reported position is a match |
| Occurrences.MatchesComplete | src/main/java/com/mycompany/ugandacount/UgandaCount.java:77-80 | every match at or after the start position is reported |
| Occurrences.MatchesMembers | src/main/java/com/mycompany/ugandacount/UgandaCount.java:77-80 | a position is reported exactly when the pattern matches there and it is at or after the start position |
| Occurrences.SpacedUnique | src/main/java/com/mycompany/ugandacount/UgandaCount.java:77-80 | two lists of positions, each increasing by at least six, with the same members are the same list |
| Occurrences.MatchCount | src/main/java/com/mycompany/ugandacount/UgandaCount.java:72-83 | the count is zero exactly when the pattern matches nowhere |
| Occurrences.CountOccurrences | src/main/java/com/mycompany/ugandacount/UgandaCount.java:72-83 | the loop returns the number of matches; at most one match per seven characters (plus one); zero exactly when nothing matches |
| Occurrences.MatchesBound | src/main/java/com/mycompany/ugandacount/UgandaCount.java:77-80 | the matches found from a position fit into the rest of the text, seven characters each but the last |
| Occurrences.CountBound | src/main/java/com/mycompany/ugandacount/UgandaCount.java:77-80 | 7 * count <= length + 1, and so count <= length / 6 |
| Occurrences.MatchAtIgnoresCase | src/main/java/com/mycompany/ugandacount/UgandaCount.java:74 | whether a match starts at a position is unchanged by ASCII case changes |
| Occurrences.FindFromIgnoresCase | src/main/java/com/mycompany/ugandacount/UgandaCount.java:74-78 | find gives the same result on texts that agree up to ASCII case |
| Occurrences.MatchesIgnoreCase | src/main/java/com/mycompany/ugandacount/UgandaCount.java:74-80 | the list of matches is the same on texts that agree up to ASCII case |
| Occurrences.CountIgnoresCase | src/main/java/com/mycompany/ugandacount/UgandaCount.java:72-83 | the count is the same on texts that agree up to ASCII case |
| Occurrences.ReplaceAll | src/main/java/com/mycompany/ugandacount/UgandaCount.java:160 | definition: the text between successive match spans, copied, with the replacement in place of each span; its length, markers and copied characters are fixed by the three lemmas below |
| Occurrences.ReplaceAllLength | src/main/java/com/mycompany/ugandacount/UgandaCount.java:160 | each replaced span changes the length by the replacement length minus six |
| Occurrences.ReplaceAllMarks | src/main/java/com/mycompany/ugandacount/UgandaCount.java:160 | the k-th replaced span holds the replacement, at its old position shifted once per earlier span |
| Occurrences.ReplaceAllCopies | src/main/java/com/mycompany/ugandacount/UgandaCount.java:160 | every character outside the spans is copied, shifted once per span before it |
| Occurrences.Highlight | src/main/java/com/mycompany/ugandacount/UgandaCount.java:159-161 | definition: replaceAll of every find result from the start by `**UGANDA**`; what it yields is given by the four lemmas below |
| Occurrences.HighlightLength | src/main/java/com/mycompany/ugandacount/UgandaCount.java:159-161 | the highlighted text is four characters longer per match, and equals the text when there is no match |
| Occurrences.HighlightSingle | src/main/java/com/mycompany/ugandacount/UgandaCount.java:159-161 | with a single match, the highlighted text is the text before it, `**UGANDA**`, and the text after it |
| Occurrences.HighlightMarks | src/main/java/com/mycompany/ugandacount/UgandaCount.java:159-161 | the k-th match, at position p, becomes `**UGANDA**` at position p + 4k |
| Occurrences.HighlightCopies | src/main/java/com/mycompany/ugandacount/UgandaCount.java:159-161 | every character outside the matches appears unchanged, four positions further right per earlier match |
| Occurrences.ExampleLongerWord | src/main/java/com/mycompany/ugandacount/UgandaCount.java:74-82 | `Ugandan history` has no match |
| Occurrences.ExampleThreeCases | src/main/java/com/mycompany/ugandacount/UgandaCount.java:74-82 | `UGANDA uganda Uganda` has three matches, at 0, 7 and 14 |
| Occurrences.ExamplePunctuation | src/main/java/com/mycompany/ugandacount/UgandaCount.java:74-82 | `Uganda,Uganda` has two matches, at 0 and 7, though it is one word |
| Statistics.WordCount | src/main/java/com/mycompany/ugandacount/UgandaCount.java:110-113 | definition: the length of `split("\\s+")`; for a trimmed description its value is given by WordCountOfTrimmed |
| Statistics.WordCountOfTrimmed | src/main/java/com/mycompany/ugandacount/UgandaCount.java:110-113 | for the trimmed non-empty description the word count is the number of non-whitespace runs, one more than the whitespace runs, and at least one |
| Statistics.WordCountOfWord | src/main/java/com/mycompany/ugandacount/UgandaCount.java:110-113 | a text without whitespace, the empty text included, is returned whole by split and counts as one word |
| Statistics.WordCountJoin | src/main/java/com/mycompany/ugandacount/UgandaCount.java:110 | a word, a space and further words make one word more |
| Statistics.SentenceCount | src/main/java/com/mycompany/ugandacount/UgandaCount.java:169-173 | the sentence count is at least one |
| Statistics.SentenceCountRuns | src/main/java/com/mycompany/ugandacount/UgandaCount.java:169-173 | one sentence without a terminator or without anything else; otherwise one per run of non-terminators, plus one for a leading terminator |
| Statistics.SentenceCountTerminators | src/main/java/com/mycompany/ugandacount/UgandaCount.java:171-172 | with both kinds of character present, one sentence per terminator run plus one for a text that does not end in a terminator |
| Acquisition.IsEndSentinel | src/main/java/com/mycompany/ugandacount/UgandaCount.java:38 | definition: the line equals `END` ignoring ASCII case: three characters that fold to `e n d`; `equalsIgnoreCase` folds over all of Unicode, but no other character folds to E, N or D, so the two agree for this literal |
| Acquisition.Buffer | src/main/java/com/mycompany/ugandacount/UgandaCount.java:43 | after any line the buffer ends in a space |
| Acquisition.StopsAt | src/main/java/com/mycompany/ugandacount/UgandaCount.java:38-40 | definition: the loop breaks at a line that is the sentinel, or that is empty while the buffer trims to something non-empty |
| Acquisition.StopFrom | src/main/java/com/mycompany/ugandacount/UgandaCount.java:34-44 | the first stopping line at or after a position, or the end of the input |
| Acquisition.StopIndex | src/main/java/com/mycompany/ugandacount/UgandaCount.java:34-44 | no earlier line stops the loop, and the line at the index, if any, does |
| Acquisition.Acquire | src/main/java/com/mycompany/ugandacount/UgandaCount.java:46-52 | a description is never empty and never starts or ends with a trim-space |
| Acquisition.ReadDescription | src/main/java/com/mycompany/ugandacount/UgandaCount.java:31-52 | the loop and the check after it give exactly `Acquire` |
| Acquisition.BufferBlank | src/main/java/com/mycompany/ugandacount/UgandaCount.java:39-43 | the buffer is all trim-spaces exactly when every appended line is |
| Acquisition.BlankIsNotSentinel | src/main/java/com/mycompany/ugandacount/UgandaCount.java:38 | a line of trim-spaces only is never the sentinel |
| Acquisition.BlankLinesDoNotStop | src/main/java/com/mycompany/ugandacount/UgandaCount.java:38-43 | leading lines with only trim-spaces, empty ones included, are read past |
| Acquisition.NoDescriptionWhenBlank | src/main/java/com/mycompany/ugandacount/UgandaCount.java:46-52 | no description results exactly when every line read holds only trim-spaces |
| Acquisition.EmptyLineStopsAfterContent | src/main/java/com/mycompany/ugandacount/UgandaCount.java:38-40 | a stop other than the sentinel is an empty line, and a description results |
| Acquisition.SpacesDoNotStop | src/main/java/com/mycompany/ugandacount/UgandaCount.java:38-40 | a non-empty line other than the sentinel never stops the loop |
| Acquisition.ExampleSentinel | src/main/java/com/mycompany/ugandacount/UgandaCount.java:34-52 | a sentence followed by `END` gives that sentence |
| Acquisition.ExampleEnterTwice | src/main/java/com/mycompany/ugandacount/UgandaCount.java:34-52 | a leading empty line is read past, and the empty line after the text stops the loop: the loop stops at line 2, before `END`, and the description is `Uganda` |
| Acquisition.ExampleOnlyEmptyLine | src/main/java/com/mycompany/ugandacount/UgandaCount.java:34-52 | a single empty line gives no description |
| Report.TierOf | src/main/java/com/mycompany/ugandacount/UgandaCount.java:121-125 | count 0 is "not found", count 1 is "once", any other count is "multiple times" with the count; exactly one applies |
| Report.Analyze | src/main/java/com/mycompany/ugandacount/UgandaCount.java:109-131 | definition: the values displayResults prints apart from the percentage: the description, its length, the word count, the sentence count, the match count, its tier and the highlighted text; their properties are stated by AnalysisFacts |
| Report.Outcome | src/main/java/com/mycompany/ugandacount/UgandaCount.java:16-58 | definition: main on a sequence of input lines: no analysis when the read loop yields no description, and otherwise the analysis of it; Run is proved equal to it |
| Report.Run | src/main/java/com/mycompany/ugandacount/UgandaCount.java:16-58 | reading, validation, the count loop and the analysis give exactly `Outcome` |
| Report.AnalysisFacts | src/main/java/com/mycompany/ugandacount/UgandaCount.java:109-131 | at least one word and one sentence, at most one match per seven characters plus one, highlighted text four longer per match and unchanged without a match, tier "not found" exactly at count 0 |
| Report.OutcomeFacts | src/main/java/com/mycompany/ugandacount/UgandaCount.java:46-58 | an analysis is made exactly when a description is read, and it is of a trimmed non-empty text |
| Report.ExampleSentences | src/main/java/com/mycompany/ugandacount/UgandaCount.java:169-173 | `Uganda is beautiful.` is one sentence |
| Report.ExampleWords | src/main/java/com/mycompany/ugandacount/UgandaCount.java:110-113 | `Uganda is beautiful.` has three words |
| Report.ExampleOneMatch | src/main/java/com/mycompany/ugandacount/UgandaCount.java:72-83 | `Uganda is beautiful.` has one match, at position 0 |
| Report.ExampleHighlight | src/main/java/com/mycompany/ugandacount/UgandaCount.java:159-161 | `Uganda is beautiful.` is highlighted as `**UGANDA** is beautiful.` |
| Report.ExampleSession | src/main/java/com/mycompany/ugandacount/UgandaCount.java:34-131 | the lines `Uganda is beautiful.` and `END` give that description, three words, one match, the tier "once", one sentence and the highlighted text |
| Report.ExampleEmptySession | src/main/java/com/mycompany/ugandacount/UgandaCount.java:46-52 | a single empty line gives no analysis |

## Left out

- Console I/O is not modelled: the `Scanner`, the banners, every printed
  message and its wording, and the top-level `catch`. The read loop takes
  the input as a sequence of lines without their terminators, and the end
  of that sequence stands for `hasNextLine` returning false.
- The percentage and its thresholds 5 and 1 use `double` arithmetic and
  `%.2f` formatting, so they are not modelled. They are computed only when
  the count is positive. The count is not bounded by the word count: one
  word such as `Uganda,Uganda` can hold two matches.
- The regex engine itself is not modelled, only the two patterns the program
  uses, written out as explicit scans. `replaceAll` is modelled only for a
  literal replacement without `$` or `\`.
- Unicode is not modelled: neither Unicode case folding nor Unicode word
  characters. Every character outside `[A-Za-z0-9_]` is a non-word
  character for `\b` in the model.
- Occurrences.WordBoundary: Java's `\b` differs from this on non-ASCII
  text. Before JDK 19 it treats every Unicode letter or digit as a word
  character, so a non-ASCII letter next to `Uganda` blocks a match. From
  JDK 19 on it uses the ASCII `\w`, but a non-spacing mark (category Mn)
  still counts as a word character when a letter or digit stands before
  it. So `Uganda` followed by U+0301, and `x`, U+0301, `Uganda`, each hold
  a match in the model and none in Java.
- Report.Analyze: `characters` is the number of Dafny characters (Unicode
  scalar values). `String.length()` counts UTF-16 code units, so the two
  differ on characters outside the Basic Multilingual Plane.
- Statistics.WordCount: the word count is stated only for the trimmed,
  non-empty description the program passes to it (`WordCountOfTrimmed`).
  For other strings only the general `SplitLength` applies.
- Integers are unbounded. The bound `7 * count <= length + 1`
  (`CountBound`) shows that Java's `int` counter cannot overflow for any
  string Java can hold.
