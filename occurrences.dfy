/** Whole-word, case-insensitive occurrences of "Uganda": the pattern
    `\bUganda\b` compiled with CASE_INSENSITIVE, the find loop that counts its
    matches, and the replaceAll that highlights them. */
module Occurrences {
  import opened JavaText

  /** Length of the literal the pattern matches. */
  const TARGET_LENGTH: nat := 6

  /** The literal replaceAll puts in place of every match. */
  const MARKER := "**UGANDA**"

  /** `\b` at position p: exactly one of the characters on either side of p
      is a word character (a missing character is not one). */
  predicate WordBoundary(t: string, p: nat)
    requires p <= |t|
  {
    (p > 0 && IsWordChar(t[p - 1])) != (p < |t| && IsWordChar(t[p]))
  }

  /** The literal `Uganda` at position i, each letter compared after ASCII
      case folding. */
  predicate SpellsTarget(t: string, i: nat)
    requires i + TARGET_LENGTH <= |t|
  {
    ToLowerAscii(t[i]) == 'u' && ToLowerAscii(t[i + 1]) == 'g' && ToLowerAscii(t[i + 2]) == 'a'
    && ToLowerAscii(t[i + 3]) == 'n' && ToLowerAscii(t[i + 4]) == 'd' && ToLowerAscii(t[i + 5]) == 'a'
  }

  /** `\bUganda\b` matches at position i. */
  predicate MatchAt(t: string, i: nat) {
    i + TARGET_LENGTH <= |t|
    && WordBoundary(t, i) && SpellsTarget(t, i) && WordBoundary(t, i + TARGET_LENGTH)
  }

  /** Two matches are at least seven positions apart: the first letter of
      `Uganda` occurs nowhere else in it, and the character after a match is
      not a word character. */
  lemma {:induction false} MatchesApart(t: string, i: nat, j: nat)
    requires MatchAt(t, i) && MatchAt(t, j) && i < j
    ensures i + TARGET_LENGTH < j
  {
  }

  /** A match is a six-character span whose neighbours, where they exist,
      are not word characters: `Ugandan` or `Uganda_x` contain no match at
      the start of the word. */
  lemma {:induction false} MatchNeighbours(t: string, i: nat)
    requires MatchAt(t, i)
    ensures i == 0 || !IsWordChar(t[i - 1])
    ensures i + TARGET_LENGTH == |t| || !IsWordChar(t[i + TARGET_LENGTH])
  {
    assert IsWordChar(ToLowerAscii(t[i]));
    assert IsWordChar(ToLowerAscii(t[i + 5]));
  }

  /** Matcher.find resumed at position `from`: the first position at or after
      it where the pattern matches, if any (FindFromFirst). */
  function FindFrom(t: string, from: nat): (r: Option<nat>)
    ensures r.Some? ==> from <= r.value && r.value + TARGET_LENGTH <= |t|
    decreases |t| - from
  {
    if from + TARGET_LENGTH > |t| then None
    else if MatchAt(t, from) then Some(from)
    else FindFrom(t, from + 1)
  }

  /** A successful find is a match. */
  lemma {:induction false} FindFromMatch(t: string, from: nat)
    ensures FindFrom(t, from).Some? ==> MatchAt(t, FindFrom(t, from).value)
    decreases |t| - from
  {
    if from + TARGET_LENGTH <= |t| && !MatchAt(t, from) {
      FindFromMatch(t, from + 1);
    }
  }

  /** find reports the first match at or after `from`, and fails only when
      there is none. */
  lemma {:induction false} FindFromFirst(t: string, from: nat)
    ensures var r := FindFrom(t, from);
            (r.Some? ==> MatchAt(t, r.value) && forall j: nat :: from <= j < r.value ==> !MatchAt(t, j))
            && (r.None? ==> forall j: nat :: from <= j ==> !MatchAt(t, j))
    decreases |t| - from
  {
    if from + TARGET_LENGTH <= |t| && !MatchAt(t, from) {
      FindFromFirst(t, from + 1);
    }
  }

  /** Positions at or after `from`, each with room for a match before n, and
      each at least a match length after the one before (SpacedAt). */
  predicate Spaced(ps: seq<nat>, from: nat, n: nat)
    decreases |ps|
  {
    ps == [] || (from <= ps[0] && ps[0] + TARGET_LENGTH <= n && Spaced(ps[1..], ps[0] + TARGET_LENGTH, n))
  }

  /** Every position of a spaced list lies in [from, n - 6], and a later one
      starts no earlier than a match length after an earlier one. */
  lemma {:induction false} SpacedAt(ps: seq<nat>, from: nat, n: nat, k: nat)
    requires Spaced(ps, from, n) && k < |ps|
    ensures from <= ps[k] && ps[k] + TARGET_LENGTH <= n
    ensures forall l :: k < l < |ps| ==> ps[k] + TARGET_LENGTH <= ps[l]
    decreases |ps|
  {
    if k > 0 {
      SpacedAt(ps[1..], ps[0] + TARGET_LENGTH, n, k - 1);
      assert ps[1..][k - 1] == ps[k];
      assert forall l :: k < l < |ps| ==> ps[1..][l - 1] == ps[l];
    } else if |ps| > 1 {
      forall l | 0 < l < |ps| ensures ps[0] + TARGET_LENGTH <= ps[l] {
        SpacedAt(ps[1..], ps[0] + TARGET_LENGTH, n, l - 1);
        assert ps[1..][l - 1] == ps[l];
      }
    }
  }

  /** The positions of the successive matches that repeated calls of find
      report, starting at `from` and resuming after each match (MatchesSound,
      MatchesComplete). */
  function Matches(t: string, from: nat): (ps: seq<nat>)
    ensures Spaced(ps, from, |t|)
    decreases |t| - from
  {
    match FindFrom(t, from)
    case None => []
    case Some(i) =>
      var rest := Matches(t, i + TARGET_LENGTH);
      assert ([i] + rest)[1..] == rest;
      [i] + rest
  }

  /** One step of repeated find: no match, or a match and the matches
      after it. */
  lemma {:induction false} MatchesStep(t: string, from: nat)
    ensures FindFrom(t, from).None? ==> Matches(t, from) == []
    ensures FindFrom(t, from).Some? ==>
              var i := FindFrom(t, from).value;
              Matches(t, from) == [i] + Matches(t, i + TARGET_LENGTH)
  {
  }

  /** Every position repeated find reports is a match. */
  lemma {:induction false} MatchesSound(t: string, from: nat)
    ensures forall k :: 0 <= k < |Matches(t, from)| ==> MatchAt(t, Matches(t, from)[k])
    decreases |t| - from
  {
    match FindFrom(t, from)
    case None =>
    case Some(i) =>
      var rest := Matches(t, i + TARGET_LENGTH);
      FindFromMatch(t, from);
      MatchesSound(t, i + TARGET_LENGTH);
      assert Matches(t, from) == [i] + rest;
      assert forall k :: 1 <= k < |rest| + 1 ==> ([i] + rest)[k] == rest[k - 1];
  }

  /** Repeated find misses no match at or after `from`: resuming after each
      match skips nothing, because matches never overlap. */
  lemma {:induction false} MatchesComplete(t: string, from: nat, j: nat)
    requires from <= j && MatchAt(t, j)
    ensures j in Matches(t, from)
    decreases |t| - from
  {
    FindFromFirst(t, from);
    var i := FindFrom(t, from).value;
    assert Matches(t, from) == [i] + Matches(t, i + TARGET_LENGTH);
    if i < j {
      MatchesApart(t, i, j);
      MatchesComplete(t, i + TARGET_LENGTH, j);
    }
  }

  /** The reported positions are exactly the matches at or after `from`. */
  lemma {:induction false} MatchesMembers(t: string, from: nat, x: nat)
    ensures x in Matches(t, from) <==> from <= x && MatchAt(t, x)
  {
    var ps := Matches(t, from);
    if x in ps {
      var k :| 0 <= k < |ps| && ps[k] == x;
      MatchesSound(t, from);
      SpacedAt(ps, from, |t|, k);
    }
    if from <= x && MatchAt(t, x) {
      MatchesComplete(t, from, x);
    }
  }

  /** The number of whole-word matches in t; zero exactly when the pattern
      matches nowhere. */
  function MatchCount(t: string): (n: nat)
    ensures n == 0 <==> forall j: nat :: !MatchAt(t, j)
  {
    MatchesSound(t, 0);
    forall j: nat | MatchAt(t, j) ensures j in Matches(t, 0) {
      MatchesComplete(t, 0, j);
    }
    if Matches(t, 0) != [] then
      assert MatchAt(t, Matches(t, 0)[0]);
      |Matches(t, 0)|
    else
      0
  }

  /** countUgandaOccurrences: call find until it fails, counting the calls
      that succeed. */
  method CountOccurrences(text: string) returns (count: nat)
    ensures count == MatchCount(text)
    ensures 7 * count <= |text| + 1
    ensures count == 0 <==> forall j: nat :: !MatchAt(text, j)
  {
    count := 0;
    var last := 0;
    var found := FindFrom(text, last);
    while found.Some?
      invariant last <= |text|
      invariant found == FindFrom(text, last)
      invariant count + |Matches(text, last)| == MatchCount(text)
      decreases |text| - last
    {
      MatchesStep(text, last);
      count := count + 1;
      last := found.value + TARGET_LENGTH;
      found := FindFrom(text, last);
    }
    MatchesStep(text, last);
    CountBound(text);
  }

  /** Resuming find at a position where nothing matches is the same as
      resuming one position later. */
  lemma {:induction false} MatchesSkip(t: string, a: nat)
    requires !MatchAt(t, a)
    ensures Matches(t, a) == Matches(t, a + 1)
  {
    assert FindFrom(t, a) == FindFrom(t, a + 1);
  }

  /** Matches found from `from` fit into what is left of t: each takes six
      characters and consecutive ones are separated by a non-word character. */
  lemma {:induction false} MatchesBound(t: string, from: nat)
    requires from <= |t| + 1
    ensures 7 * |Matches(t, from)| <= |t| + 1 - from
    decreases |t| + 1 - from
  {
    FindFromFirst(t, from);
    match FindFrom(t, from)
    case None =>
    case Some(i) =>
      var next := i + TARGET_LENGTH;
      assert Matches(t, from) == [i] + Matches(t, next);
      if next < |t| {
        assert !MatchAt(t, next);
        MatchesSkip(t, next);
        MatchesBound(t, next + 1);
      } else {
        assert FindFrom(t, next) == None;
      }
  }

  /** At most |t| / 6 matches, and more precisely 7 * count <= |t| + 1. */
  lemma {:induction false} CountBound(t: string)
    ensures 7 * MatchCount(t) <= |t| + 1
    ensures TARGET_LENGTH * MatchCount(t) <= |t|
  {
    MatchesBound(t, 0);
  }

  /** Whether a match starts at j does not depend on ASCII case. */
  lemma {:induction false} MatchAtIgnoresCase(a: string, b: string, j: nat)
    requires EqualIgnoringCase(a, b)
    ensures MatchAt(a, j) == MatchAt(b, j)
  {
    if j + TARGET_LENGTH <= |a| {
      if j > 0 {
        assert ToLowerAscii(a[j - 1]) == ToLowerAscii(b[j - 1]);
      }
      if j + TARGET_LENGTH < |a| {
        assert ToLowerAscii(a[j + 6]) == ToLowerAscii(b[j + 6]);
      }
      assert ToLowerAscii(a[j]) == ToLowerAscii(b[j]);
      assert ToLowerAscii(a[j + 1]) == ToLowerAscii(b[j + 1]);
      assert ToLowerAscii(a[j + 2]) == ToLowerAscii(b[j + 2]);
      assert ToLowerAscii(a[j + 3]) == ToLowerAscii(b[j + 3]);
      assert ToLowerAscii(a[j + 4]) == ToLowerAscii(b[j + 4]);
      assert ToLowerAscii(a[j + 5]) == ToLowerAscii(b[j + 5]);
    }
  }

  /** find gives the same result on texts that agree up to ASCII case. */
  lemma {:induction false} FindFromIgnoresCase(a: string, b: string, from: nat)
    requires EqualIgnoringCase(a, b)
    ensures FindFrom(a, from) == FindFrom(b, from)
    decreases |a| - from
  {
    if from + TARGET_LENGTH <= |a| {
      MatchAtIgnoresCase(a, b, from);
      if !MatchAt(a, from) {
        FindFromIgnoresCase(a, b, from + 1);
      }
    }
  }

  /** Two spaced lists with the same members are the same list. */
  lemma {:induction false} SpacedUnique(ps: seq<nat>, qs: seq<nat>, from: nat, n: nat)
    requires Spaced(ps, from, n) && Spaced(qs, from, n)
    requires forall x :: x in ps <==> x in qs
    ensures ps == qs
    decreases |ps|
  {
    assert ps != [] ==> ps[0] in qs;
    assert qs != [] ==> qs[0] in ps;
    if ps != [] {
      SpacedAt(ps, from, n, 0);
      SpacedAt(qs, from, n, 0);
      assert ps[0] == qs[0];
      var next := ps[0] + TARGET_LENGTH;
      forall x ensures x in ps[1..] <==> x in qs[1..] {
        if x in ps[1..] {
          assert x in qs && x != qs[0];
        }
        if x in qs[1..] {
          assert x in ps && x != ps[0];
        }
      }
      SpacedUnique(ps[1..], qs[1..], next, n);
      assert ps == [ps[0]] + ps[1..] && qs == [qs[0]] + qs[1..];
    }
  }

  /** The matcher does not see ASCII case: texts that agree up to case have
      the same matches at the same positions. */
  lemma {:induction false} MatchesIgnoreCase(a: string, b: string, from: nat)
    requires EqualIgnoringCase(a, b)
    ensures Matches(a, from) == Matches(b, from)
  {
    forall x ensures x in Matches(a, from) <==> x in Matches(b, from) {
      MatchesMembers(a, from, x);
      MatchesMembers(b, from, x);
      MatchAtIgnoresCase(a, b, x);
    }
    SpacedUnique(Matches(a, from), Matches(b, from), from, |a|);
  }

  /** The count is invariant under any change of ASCII case. */
  lemma {:induction false} CountIgnoresCase(a: string, b: string)
    requires EqualIgnoringCase(a, b)
    ensures MatchCount(a) == MatchCount(b)
  {
    MatchesIgnoreCase(a, b, 0);
  }

  // ---------------------------------------------------------------------
  // highlightUganda
  // ---------------------------------------------------------------------

  /** What replaceAll builds from the successive find results ps, resuming
      at `from`: the text up to the next match, `repl` in place of the match,
      and so on; after the last match, the rest of the text. */
  function ReplaceAll(t: string, ps: seq<nat>, from: nat, repl: string): string
    requires from <= |t| && Spaced(ps, from, |t|)
    decreases |ps|
  {
    if ps == [] then t[from..]
    else t[from..ps[0]] + repl + ReplaceAll(t, ps[1..], ps[0] + TARGET_LENGTH, repl)
  }

  /** highlightUganda: replaceAll of every match by MARKER. */
  function Highlight(t: string): string {
    ReplaceAll(t, Matches(t, 0), 0, MARKER)
  }

  /** How many of the positions ps lie before i. */
  function CountBelow(ps: seq<nat>, i: nat): nat {
    if ps == [] then 0 else (if ps[0] < i then 1 else 0) + CountBelow(ps[1..], i)
  }

  /** i lies inside one of the six-character spans starting at ps. */
  predicate Covered(ps: seq<nat>, i: nat) {
    exists k :: 0 <= k < |ps| && ps[k] <= i < ps[k] + TARGET_LENGTH
  }

  /** One step of ReplaceAll: the gap, the replacement, and the rest. */
  lemma {:induction false} ReplaceAllStep(t: string, ps: seq<nat>, from: nat, repl: string)
    requires from <= |t| && Spaced(ps, from, |t|) && ps != []
    ensures ReplaceAll(t, ps, from, repl)
            == t[from..ps[0]] + repl + ReplaceAll(t, ps[1..], ps[0] + TARGET_LENGTH, repl)
  {
  }

  /** Each replaced span changes the length by the difference between the
      replacement and the match. */
  lemma {:induction false} ReplaceAllLength(t: string, ps: seq<nat>, from: nat, repl: string)
    requires from <= |t| && Spaced(ps, from, |t|)
    ensures |ReplaceAll(t, ps, from, repl)| == |t| - from + |ps| * (|repl| - TARGET_LENGTH)
    decreases |ps|
  {
    if ps != [] {
      ReplaceAllStep(t, ps, from, repl);
      ReplaceAllLength(t, ps[1..], ps[0] + TARGET_LENGTH, repl);
      var d := |repl| - TARGET_LENGTH;
      assert |ps| * d == d + (|ps| - 1) * d;
    }
  }

  /** Slicing the middle and the last part of a three-part concatenation. */
  lemma {:induction false} SliceOfThree(x: string, y: string, z: string, a: nat, b: nat)
    requires a <= b <= |z|
    ensures (x + y + z)[|x|..|x| + |y|] == y
    ensures (x + y + z)[|x| + |y| + a..|x| + |y| + b] == z[a..b]
    ensures b < |z| ==> (x + y + z)[|x| + |y| + b] == z[b]
  {
    assert (x + y + z)[|x| + |y|..] == z;
  }

  /** The k-th span (counting from 0) becomes the replacement, shifted by
      the length difference once for each earlier span. */
  lemma {:induction false} ReplaceAllMarks(t: string, ps: seq<nat>, from: nat, repl: string, k: nat)
    requires from <= |t| && Spaced(ps, from, |t|)
    requires k < |ps|
    ensures from <= ps[k]
    ensures var q := ps[k] - from + k * (|repl| - TARGET_LENGTH);
            0 <= q && q + |repl| <= |ReplaceAll(t, ps, from, repl)|
            && ReplaceAll(t, ps, from, repl)[q..q + |repl|] == repl
    decreases |ps|
  {
    SpacedAt(ps, from, |t|, k);
    ReplaceAllStep(t, ps, from, repl);
    var next := ps[0] + TARGET_LENGTH;
    var gap := t[from..ps[0]];
    var rest := ReplaceAll(t, ps[1..], next, repl);
    var whole := ReplaceAll(t, ps, from, repl);
    assert whole == gap + repl + rest;
    if k == 0 {
      SliceOfThree(gap, repl, rest, 0, 0);
      assert whole[|gap|..|gap| + |repl|] == repl;
      NoShift(k, |repl| - TARGET_LENGTH);
    } else {
      var tail := ps[1..];
      assert tail[k - 1] == ps[k];
      ReplaceAllMarks(t, tail, next, repl, k - 1);
      var q' := ps[k] - next + (k - 1) * (|repl| - TARGET_LENGTH);
      ShiftAfterSpan(ps[k], from, ps[0], k - 1, |repl|);
      SliceOfLast(whole, gap, repl, rest, q', |repl|);
    }
  }

  /** None of the positions of a spaced list lies before its start. */
  lemma {:induction false} CountBelowSpaced(ps: seq<nat>, from: nat, n: nat, i: nat)
    requires Spaced(ps, from, n) && i <= from
    ensures CountBelow(ps, i) == 0
    decreases |ps|
  {
    if ps != [] {
      CountBelowSpaced(ps[1..], ps[0] + TARGET_LENGTH, n, i);
    }
  }

  /** A character before the first span is copied to the same place. */
  lemma {:induction false} CopiesInGap(t: string, ps: seq<nat>, from: nat, repl: string, j: nat)
    requires from <= |t| && Spaced(ps, from, |t|) && ps != []
    requires from <= j < ps[0]
    ensures CountBelow(ps, j) == 0
    ensures j - from < |ReplaceAll(t, ps, from, repl)| && ReplaceAll(t, ps, from, repl)[j - from] == t[j]
  {
    var next := ps[0] + TARGET_LENGTH;
    CountBelowSpaced(ps[1..], next, |t|, j);
    ReplaceAllStep(t, ps, from, repl);
    var gap := t[from..ps[0]];
    IndexOfFirst(ReplaceAll(t, ps, from, repl), gap, repl, ReplaceAll(t, ps[1..], next, repl), j - from);
  }

  /** Every character outside the spans is copied, shifted by the length
      difference once for each span before it. */
  lemma {:induction false} ReplaceAllCopies(t: string, ps: seq<nat>, from: nat, repl: string, j: nat)
    requires from <= |t| && Spaced(ps, from, |t|)
    requires from <= j < |t| && !Covered(ps, j)
    ensures var q := j - from + CountBelow(ps, j) * (|repl| - TARGET_LENGTH);
            0 <= q < |ReplaceAll(t, ps, from, repl)| && ReplaceAll(t, ps, from, repl)[q] == t[j]
    decreases |ps|
  {
    if ps == [] {
      assert CountBelow(ps, j) == 0;
    } else {
      ReplaceAllStep(t, ps, from, repl);
      var next := ps[0] + TARGET_LENGTH;
      var gap := t[from..ps[0]];
      var rest := ReplaceAll(t, ps[1..], next, repl);
      var whole := ReplaceAll(t, ps, from, repl);
      assert whole == gap + repl + rest;
      if j < ps[0] {
        CopiesInGap(t, ps, from, repl, j);
        NoShift(CountBelow(ps, j), |repl| - TARGET_LENGTH);
      } else {
        assert !Covered(ps[1..], j) by {
          forall k | 0 <= k < |ps| - 1 ensures !(ps[1..][k] <= j < ps[1..][k] + TARGET_LENGTH) {
            assert ps[1..][k] == ps[k + 1];
          }
        }
        ReplaceAllCopies(t, ps[1..], next, repl, j);
        var d := |repl| - TARGET_LENGTH;
        var c := CountBelow(ps[1..], j);
        var q' := j - next + c * d;
        assert 0 <= q' < |rest| && rest[q'] == t[j];
        assert CountBelow(ps, j) == 1 + c;
        ShiftAfterSpan(j, from, ps[0], c, |repl|);
        IndexOfThird(whole, gap, repl, rest, q');
      }
    }
  }

  /** Arithmetic of one replaced span: the position after it, seen from its
      start, moves by the length difference once more. */
  lemma ShiftAfterSpan(j: int, from: int, p: int, c: int, r: int)
    ensures j - from + (1 + c) * (r - TARGET_LENGTH)
            == (p - from) + r + (j - (p + TARGET_LENGTH) + c * (r - TARGET_LENGTH))
  {
  }

  /** No span before the first one, so no shift. */
  lemma NoShift(k: int, d: int)
    requires k == 0
    ensures k * d == 0
  {
  }

  /** Slicing inside the last part of a three-part concatenation. */
  lemma SliceOfLast(w: string, x: string, y: string, z: string, i: nat, n: nat)
    requires w == x + y + z && i + n <= |z|
    ensures w[|x| + |y| + i..|x| + |y| + i + n] == z[i..i + n]
  {
    assert w[|x| + |y|..] == z;
  }

  /** Indexing the first part of a three-part concatenation. */
  lemma IndexOfFirst(w: string, x: string, y: string, z: string, i: nat)
    requires w == x + y + z && i < |x|
    ensures i < |w| && w[i] == x[i]
  {
  }

  /** Indexing the last part of a three-part concatenation. */
  lemma IndexOfThird(w: string, x: string, y: string, z: string, i: nat)
    requires w == x + y + z && i < |z|
    ensures w[|x| + |y| + i] == z[i]
  {
  }

  /** highlightUganda makes the text four characters longer per match, and
      with no match returns the text unchanged. */
  lemma {:induction false} HighlightLength(t: string)
    ensures |Highlight(t)| == |t| + 4 * MatchCount(t)
    ensures MatchCount(t) == 0 ==> Highlight(t) == t
  {
    ReplaceAllLength(t, Matches(t, 0), 0, MARKER);
  }

  /** With a single match, at p, highlightUganda puts MARKER in its place
      and keeps the text on either side. */
  lemma {:induction false} HighlightSingle(t: string, p: nat)
    requires Matches(t, 0) == [p]
    ensures p + TARGET_LENGTH <= |t|
    ensures Highlight(t) == t[..p] + MARKER + t[p + TARGET_LENGTH..]
  {
    var ps := Matches(t, 0);
    SpacedAt(ps, 0, |t|, 0);
    ReplaceAllStep(t, ps, 0, MARKER);
    assert ps[1..] == [];
  }

  /** In highlightUganda's result the k-th match (counting from 0), at
      position p of the text, is MARKER at position p + 4 * k. */
  lemma {:induction false} HighlightMarks(t: string, k: nat)
    requires k < MatchCount(t)
    ensures var p := Matches(t, 0)[k];
            p + 4 * k + |MARKER| <= |Highlight(t)| && Highlight(t)[p + 4 * k..p + 4 * k + |MARKER|] == MARKER
  {
    ReplaceAllMarks(t, Matches(t, 0), 0, MARKER, k);
    assert k * (|MARKER| - TARGET_LENGTH) == 4 * k;
  }

  /** In highlightUganda's result every character of the text outside the
      matches appears unchanged, four positions further right for each match
      before it. */
  lemma {:induction false} HighlightCopies(t: string, j: nat)
    requires j < |t| && !Covered(Matches(t, 0), j)
    ensures var shift := 4 * CountBelow(Matches(t, 0), j);
            j + shift < |Highlight(t)| && Highlight(t)[j + shift] == t[j]
  {
    ReplaceAllCopies(t, Matches(t, 0), 0, MARKER, j);
  }

  // ---------------------------------------------------------------------
  // Worked examples
  // ---------------------------------------------------------------------

  // The examples take the text as a parameter equal to a literal: stated on
  // the literal itself, the recursive definitions would be unfolded on it
  // without bound.

  /** A letter directly after the word breaks the trailing boundary. */
  lemma ExampleLongerWord(t: string)
    requires t == "Ugandan history"
    ensures MatchCount(t) == 0
  {
    assert !MatchAt(t, 0);
    forall j: nat ensures !MatchAt(t, j) {
      if 0 < j && j + TARGET_LENGTH <= 15 {
        assert !SpellsTarget(t, j);
      }
    }
  }

  /** Case does not matter: three spellings, three matches. */
  lemma ExampleThreeCases(t: string)
    requires t == "UGANDA uganda Uganda"
    ensures Matches(t, 0) == [0, 7, 14]
    ensures MatchCount(t) == 3
  {
    assert FindFrom(t, 20) == None;
    assert MatchAt(t, 14) && FindFrom(t, 14) == Some(14);
    assert !MatchAt(t, 13) && FindFrom(t, 13) == Some(14);
    assert Matches(t, 13) == [14];
    assert MatchAt(t, 7) && FindFrom(t, 7) == Some(7);
    assert Matches(t, 7) == [7, 14];
    assert !MatchAt(t, 6) && FindFrom(t, 6) == Some(7);
    assert Matches(t, 6) == [7, 14];
    assert MatchAt(t, 0) && FindFrom(t, 0) == Some(0);
  }

  /** A comma is not a word character, so one token can hold two matches. */
  lemma ExamplePunctuation(t: string)
    requires t == "Uganda,Uganda"
    ensures Matches(t, 0) == [0, 7]
    ensures MatchCount(t) == 2
  {
    assert MatchAt(t, 0) && FindFrom(t, 0) == Some(0);
    assert !MatchAt(t, 6) && MatchAt(t, 7);
    assert FindFrom(t, 6) == Some(7);
    assert FindFrom(t, 13) == None;
    assert Matches(t, 7) == [7];
  }
}
