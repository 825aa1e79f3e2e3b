/** The description statistics: the word count, `split("\\s+")` of the
    trimmed description, and countSentences, `split("[.!?]+")` floored at
    one. */
module Statistics {
  import opened JavaText

  /** Number of strings `split("\\s+")` returns. */
  function WordCount(d: string): nat {
    |Split(d, Whitespace)|
  }

  /** Every regex space is a character String.trim removes. */
  lemma RegexSpaceIsTrimSpace(c: char)
    requires IsRegexSpace(c)
    ensures IsTrimSpace(c)
  {
  }

  /** For the trimmed, non-empty description the word count is the number of
      maximal runs of non-whitespace, one more than the number of whitespace
      runs, and so at least one. */
  lemma {:induction false} WordCountOfTrimmed(d: string)
    requires IsTrimmed(d) && d != []
    ensures WordCount(d) == RunCount(d, Whitespace, false)
    ensures WordCount(d) == RunCount(d, Whitespace, true) + 1
    ensures WordCount(d) >= 1
  {
    SplitLength(d, Whitespace);
    RunsAlternate(d, Whitespace);
    if IsRegexSpace(d[0]) {
      RegexSpaceIsTrimSpace(d[0]);
    }
    if IsRegexSpace(d[|d| - 1]) {
      RegexSpaceIsTrimSpace(d[|d| - 1]);
    }
    if !HasSeparator(d, Whitespace) {
      RunCountNone(d, Whitespace, true);
    }
  }

  /** A word, a space and further words make one word more. */
  lemma {:induction false} WordCountJoin(w: string, rest: string)
    requires w != [] && IsTrimmed(w) && !HasSeparator(w, Whitespace)
    requires rest != [] && IsTrimmed(rest)
    ensures WordCount(w + " " + rest) == 1 + WordCount(rest)
  {
    var d := w + " " + rest;
    assert d[0] == w[0] && d[|d| - 1] == rest[|rest| - 1];
    WordCountOfTrimmed(d);
    WordCountOfTrimmed(rest);
    RunCountOneRun(w, Whitespace, false);
    RunCountNone(" ", Whitespace, false);
    RunCountConcat(w, " ", Whitespace, false);
    RunCountConcat(w + " ", rest, Whitespace, false);
  }

  /** A text without whitespace is returned whole by split, so it counts as
      one word, the empty text included. */
  lemma {:induction false} WordCountOfWord(w: string)
    requires !HasSeparator(w, Whitespace)
    ensures WordCount(w) == 1
  {
    SplitLength(w, Whitespace);
  }

  /** countSentences: the number of strings `split("[.!?]+")` returns, or 1
      when it returns none. */
  function SentenceCount(s: string): (n: nat)
    ensures n >= 1
  {
    var pieces := Split(s, Terminator);
    if |pieces| > 0 then |pieces| else 1
  }

  /** A text all of terminators, a text without one, and a mixed text: the
      sentence count is one, one, and otherwise the number of maximal runs of
      non-terminators, plus one for an empty leading piece when the text
      starts with a terminator. A trailing run of terminators adds nothing. */
  lemma {:induction false} SentenceCountRuns(s: string)
    ensures !HasSeparator(s, Terminator) ==> SentenceCount(s) == 1
    ensures RunCount(s, Terminator, false) == 0 ==> SentenceCount(s) == 1
    ensures HasSeparator(s, Terminator) && RunCount(s, Terminator, false) > 0 ==>
              SentenceCount(s)
              == RunCount(s, Terminator, false) + (if IsSeparator(s[0], Terminator) then 1 else 0)
  {
    SplitLength(s, Terminator);
    if !HasSeparator(s, Terminator) && RunCount(s, Terminator, false) == 0 {
      assert |Split(s, Terminator)| == 1;
    }
  }

  /** Equivalently, counted by terminator runs: with both kinds of character
      present, one sentence per run of terminators, plus one when the text
      ends in a sentence without a terminator. */
  lemma {:induction false} SentenceCountTerminators(s: string)
    requires HasSeparator(s, Terminator) && RunCount(s, Terminator, false) > 0
    ensures SentenceCount(s)
            == RunCount(s, Terminator, true) + (if IsSeparator(s[|s| - 1], Terminator) then 0 else 1)
  {
    SentenceCountRuns(s);
    RunsAlternate(s, Terminator);
  }
}
