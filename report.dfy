/** What displayResults computes for a description, and the program as a
    whole: read the description, reject an empty one, count the matches and
    report the statistics, the tier of the count and the highlighted text. */
module Report {
  import opened JavaText
  import opened Occurrences
  import opened Statistics
  import opened Acquisition

  /** The three messages of the switch on the count. */
  datatype Tier = NotFound | Once | Multiple(times: nat)

  /** The switch on the count: case 0, case 1, and the default case, which
      reports the count itself. Exactly one message applies to each count. */
  function TierOf(count: nat): (t: Tier)
    ensures t == NotFound <==> count == 0
    ensures t == Once <==> count == 1
    ensures t.Multiple? <==> count >= 2
    ensures t.Multiple? ==> t.times == count
  {
    match count
    case 0 => NotFound
    case 1 => Once
    case _ => Multiple(count)
  }

  /** Everything displayResults reports apart from the percentage. */
  datatype Analysis = Analysis(
    description: string,
    characters: nat,
    words: nat,
    sentences: nat,
    occurrences: nat,
    tier: Tier,
    highlighted: string)

  /** displayResults for a description and its count. */
  function Analyze(d: string): Analysis {
    var count := MatchCount(d);
    Analysis(d, |d|, WordCount(d), SentenceCount(d), count, TierOf(count), Highlight(d))
  }

  /** The program on the given input lines: no analysis when the
      description is empty. */
  function Outcome(lines: seq<string>): Option<Analysis> {
    match Acquire(lines)
    case NoDescription => None
    case Description(d) => Some(Analyze(d))
  }

  /** main: the read loop, the emptiness check, then countUgandaOccurrences
      and the analysis. */
  method Run(lines: seq<string>) returns (r: Option<Analysis>)
    ensures r == Outcome(lines)
  {
    var description := ReadDescription(lines);
    match description
    case NoDescription =>
      r := None;
    case Description(d) =>
      var count := CountOccurrences(d);
      r := Some(Analysis(d, |d|, WordCount(d), SentenceCount(d), count, TierOf(count), Highlight(d)));
  }

  /** What the report promises for a trimmed, non-empty description: at
      least one word and one sentence, at most one match per seven
      characters (plus one), a highlighted text four characters longer per
      match and equal to the description when there is none, and the tier
      of the count. */
  lemma {:induction false} AnalysisFacts(d: string)
    requires IsTrimmed(d) && d != []
    ensures var a := Analyze(d);
            a.words >= 1 && a.sentences >= 1
            && 7 * a.occurrences <= a.characters + 1
            && |a.highlighted| == a.characters + 4 * a.occurrences
            && (a.occurrences == 0 ==> a.highlighted == d)
            && (a.tier == NotFound <==> a.occurrences == 0)
  {
    WordCountOfTrimmed(d);
    CountBound(d);
    HighlightLength(d);
  }

  /** An analysis is produced exactly when the read loop yields a
      description, and every analysis is of a trimmed, non-empty one. */
  lemma {:induction false} OutcomeFacts(lines: seq<string>)
    ensures Outcome(lines).Some? <==> Acquire(lines).Description?
    ensures Outcome(lines).Some? ==>
              var a := Outcome(lines).value;
              a.description != [] && IsTrimmed(a.description)
              && a.words >= 1 && a.sentences >= 1
              && |a.highlighted| == a.characters + 4 * a.occurrences
  {
    if Acquire(lines).Description? {
      AnalysisFacts(Acquire(lines).text);
    }
  }

  // ---------------------------------------------------------------------
  // Worked examples
  // ---------------------------------------------------------------------

  // The examples below take the text as a parameter equal to a literal:
  // stated on the literal itself, the recursive definitions would be
  // unfolded on it without bound.

  /** One sentence: a single run of non-terminators, then the full stop. */
  lemma ExampleSentences(d: string)
    requires d == "Uganda is beautiful."
    ensures SentenceCount(d) == 1
  {
    var body := d[..19];
    RunCountOneRun(body, Terminator, false);
    RunCountNone(".", Terminator, false);
    RunCountConcat(body, ".", Terminator, false);
    assert d == body + ".";
    SentenceCountRuns(d);
    assert IsSeparator(d[19], Terminator);
  }

  /** Three words: `Uganda`, `is` and `beautiful.`, separated by single
      spaces. */
  lemma ExampleWords(d: string)
    requires d == "Uganda is beautiful."
    ensures WordCount(d) == 3
  {
    assert d[6] == ' ' && d[9] == ' ';
    assert forall k :: 0 <= k < |d| && k != 6 && k != 9 ==> !IsTrimSpace(d[k]);
    ThreeWords(d, 6, 9);
  }

  /** A text of three words joined by single spaces counts as three. */
  lemma {:induction false} ThreeWords(d: string, i: nat, j: nat)
    requires 0 < i && i + 1 < j && j + 1 < |d|
    requires d[i] == ' ' && d[j] == ' '
    requires forall k :: 0 <= k < |d| && k != i && k != j ==> !IsTrimSpace(d[k])
    ensures WordCount(d) == 3
  {
    var w1, w2, w3 := d[..i], d[i + 1..j], d[j + 1..];
    var rest := w2 + " " + w3;
    assert d == w1 + " " + rest;
    assert forall k :: 0 <= k < |w1| ==> w1[k] == d[k];
    assert forall k :: 0 <= k < |w2| ==> w2[k] == d[i + 1 + k];
    assert forall k :: 0 <= k < |w3| ==> w3[k] == d[j + 1 + k];
    NoTrimSpaceNoWhitespace(w1);
    NoTrimSpaceNoWhitespace(w2);
    NoTrimSpaceNoWhitespace(w3);
    WordCountOfWord(w3);
    WordCountJoin(w2, w3);
    WordCountJoin(w1, rest);
  }

  /** A text without trim-spaces has no whitespace either. */
  lemma NoTrimSpaceNoWhitespace(w: string)
    requires forall k :: 0 <= k < |w| ==> !IsTrimSpace(w[k])
    ensures !HasSeparator(w, Whitespace)
  {
  }

  /** One match at the start of the description. */
  lemma ExampleOneMatch(d: string)
    requires d == "Uganda is beautiful."
    ensures MatchCount(d) == 1
    ensures Matches(d, 0) == [0]
  {
    assert MatchAt(d, 0) && FindFrom(d, 0) == Some(0);
    assert FindFrom(d, 15) == None;
    assert !MatchAt(d, 14);
    assert FindFrom(d, 14) == FindFrom(d, 15);
    assert !MatchAt(d, 13);
    assert FindFrom(d, 13) == FindFrom(d, 14);
    assert !MatchAt(d, 12);
    assert FindFrom(d, 12) == FindFrom(d, 13);
    assert !MatchAt(d, 11);
    assert FindFrom(d, 11) == FindFrom(d, 12);
    assert !MatchAt(d, 10);
    assert FindFrom(d, 10) == FindFrom(d, 11);
    assert !MatchAt(d, 9);
    assert FindFrom(d, 9) == FindFrom(d, 10);
    assert !MatchAt(d, 8);
    assert FindFrom(d, 8) == FindFrom(d, 9);
    assert !MatchAt(d, 7);
    assert FindFrom(d, 7) == FindFrom(d, 8);
    assert !MatchAt(d, 6);
    assert FindFrom(d, 6) == FindFrom(d, 7);
    assert Matches(d, 6) == [];
  }

  /** The match highlighted in place. */
  lemma ExampleHighlight(d: string)
    requires d == "Uganda is beautiful."
    ensures Highlight(d) == MARKER + " is beautiful."
  {
    ExampleOneMatch(d);
    HighlightSingle(d, 0);
    assert d[..0] == [] && d[6..] == " is beautiful.";
  }

  /** A sentence and the sentinel: the description is the sentence, it
      has three words, one match, reported as appearing once, and one
      sentence. */
  lemma ExampleSession()
    ensures var r := Outcome(["Uganda is beautiful.", "END"]);
            r.Some? && r.value.description == "Uganda is beautiful."
            && r.value.occurrences == 1 && r.value.tier == Once
            && r.value.words == 3 && r.value.sentences == 1
            && r.value.highlighted == MARKER + " is beautiful."
  {
    ExampleSentinel();
    ExampleWords("Uganda is beautiful.");
    ExampleSentences("Uganda is beautiful.");
    ExampleOneMatch("Uganda is beautiful.");
    ExampleHighlight("Uganda is beautiful.");
  }

  /** A single empty line: nothing is analysed. */
  lemma ExampleEmptySession()
    ensures Outcome([""]) == None
  {
    ExampleOnlyEmptyLine();
  }
}
