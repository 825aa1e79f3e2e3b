/** The small part of java.lang.String and java.util.regex that the analyser
    relies on: the ASCII character classes of the default regex flags, ASCII
    case folding, String.trim, and Pattern.split for a pattern that is one
    repeated character class (`\s+`, `[.!?]+`), with trailing empty strings
    removed as String.split(regex) does. */
module JavaText {

  datatype Option<T> = None | Some(value: T)

  // ---------------------------------------------------------------------
  // Character classes
  // ---------------------------------------------------------------------

  /** `\w` of java.util.regex without UNICODE_CHARACTER_CLASS: [A-Za-z0-9_]. */
  predicate IsWordChar(c: char) {
    ('a' <= c <= 'z') || ('A' <= c <= 'Z') || ('0' <= c <= '9') || c == '_'
  }

  predicate IsAsciiUpper(c: char) {
    'A' <= c <= 'Z'
  }

  /** Case folding of CASE_INSENSITIVE without UNICODE_CASE: only A-Z change. */
  function ToLowerAscii(c: char): (r: char)
    ensures !IsAsciiUpper(r)
    ensures r == c || IsAsciiUpper(c)
    ensures IsWordChar(r) <==> IsWordChar(c)
  {
    if IsAsciiUpper(c) then (c as int + 32) as char else c
  }

  /** Two characters fold to the same one exactly when they are equal or
      are the same ASCII letter in its two cases. */
  lemma FoldsEqual(c: char, d: char)
    ensures ToLowerAscii(c) == ToLowerAscii(d)
            <==> c == d || (IsAsciiUpper(c) && d as int == c as int + 32)
                 || (IsAsciiUpper(d) && c as int == d as int + 32)
  {
  }

  /** The two strings have the same length and agree position by position
      after ASCII case folding. */
  predicate EqualIgnoringCase(a: string, b: string) {
    |a| == |b| && forall k :: 0 <= k < |a| ==> ToLowerAscii(a[k]) == ToLowerAscii(b[k])
  }

  /** `\s` of java.util.regex without UNICODE_CHARACTER_CLASS: [ \t\n\x0B\f\r]. */
  predicate IsRegexSpace(c: char) {
    c == ' ' || c == '\t' || c == '\n' || c == '\r' || c as int == 0x0B || c as int == 0x0C
  }

  // ---------------------------------------------------------------------
  // String.trim
  // ---------------------------------------------------------------------

  /** String.trim removes, at either end, every character up to U+0020. */
  predicate IsTrimSpace(c: char) {
    c <= ' '
  }

  predicate AllTrimSpace(s: string) {
    forall k :: 0 <= k < |s| ==> IsTrimSpace(s[k])
  }

  /** Neither end of s is a character String.trim would remove. */
  predicate IsTrimmed(s: string) {
    s == [] || (!IsTrimSpace(s[0]) && !IsTrimSpace(s[|s| - 1]))
  }

  /** The index of the first character String.trim keeps (|s| if none). */
  function TrimStartIndex(s: string, st: nat): (r: nat)
    requires st <= |s|
    ensures st <= r <= |s|
    ensures forall k :: st <= k < r ==> IsTrimSpace(s[k])
    ensures r < |s| ==> !IsTrimSpace(s[r])
    decreases |s| - st
  {
    if st < |s| && IsTrimSpace(s[st]) then TrimStartIndex(s, st + 1) else st
  }

  /** The end (exclusive) of what String.trim keeps, scanning down to st. */
  function TrimEndIndex(s: string, st: nat, len: nat): (r: nat)
    requires st <= len <= |s|
    ensures st <= r <= len
    ensures forall k :: r <= k < len ==> IsTrimSpace(s[k])
    ensures st < r ==> !IsTrimSpace(s[r - 1])
    decreases len
  {
    if st < len && IsTrimSpace(s[len - 1]) then TrimEndIndex(s, st, len - 1) else len
  }

  /** String.trim: s is a run of trim-spaces, then r, then a run of trim-spaces,
      and r neither starts nor ends with a trim-space. */
  function Trim(s: string): (r: string)
    ensures IsTrimmed(r)
    ensures r == [] <==> AllTrimSpace(s)
    ensures exists st :: 0 <= st <= |s| - |r| && r == s[st..st + |r|]
                         && AllTrimSpace(s[..st]) && AllTrimSpace(s[st + |r|..])
  {
    var st := TrimStartIndex(s, 0);
    var len := TrimEndIndex(s, st, |s|);
    assert AllTrimSpace(s[..st]);
    assert AllTrimSpace(s[len..]);
    assert st < len ==> !IsTrimSpace(s[st]);
    s[st..len]
  }

  /** String.trim is determined by its contract: whatever sits between two
      runs of trim-spaces and neither starts nor ends with one is the trim. */
  lemma {:induction false} TrimUnique(a: string, r: string, b: string)
    requires AllTrimSpace(a) && IsTrimmed(r) && AllTrimSpace(b)
    ensures Trim(a + r + b) == r
  {
    var s := a + r + b;
    if r == [] {
      assert s == a + b;
      assert AllTrimSpace(s);
    } else {
      var st := TrimStartIndex(s, 0);
      assert s[|a|] == r[0];
      assert forall k :: 0 <= k < |a| ==> s[k] == a[k];
      assert st == |a|;
      var len := TrimEndIndex(s, st, |s|);
      assert s[|a| + |r| - 1] == r[|r| - 1];
      assert forall k :: |a| + |r| <= k < |s| ==> s[k] == b[k - |a| - |r|];
      assert len == |a| + |r|;
      assert s[st..len] == r;
    }
  }

  /** Trimming twice is trimming once. */
  lemma TrimIdempotent(s: string)
    ensures Trim(Trim(s)) == Trim(s)
  {
    TrimUnique([], Trim(s), []);
    assert [] + Trim(s) + [] == Trim(s);
  }

  // ---------------------------------------------------------------------
  // Pattern.split on a run of one character class
  // ---------------------------------------------------------------------

  /** The two split patterns of the analyser: `\s+` and `[.!?]+`. */
  datatype Separator = Whitespace | Terminator

  predicate IsSeparator(c: char, sep: Separator) {
    match sep
    case Whitespace => IsRegexSpace(c)
    case Terminator => c == '.' || c == '!' || c == '?'
  }

  predicate HasSeparator(s: string, sep: Separator) {
    exists k :: 0 <= k < |s| && IsSeparator(s[k], sep)
  }

  /** Number of maximal runs of characters whose separator-ness equals
      `inside`, each run counted at its last character. */
  function RunCount(s: string, sep: Separator, inside: bool): nat {
    if s == [] then 0
    else
      (if IsSeparator(s[0], sep) == inside && (|s| == 1 || IsSeparator(s[1], sep) != inside) then 1 else 0)
      + RunCount(s[1..], sep, inside)
  }

  /** The pieces between maximal separator runs, the first and the last
      included even when empty: what Pattern.split collects before String.split
      drops trailing empty strings. Built from the back: a non-separator joins
      the first piece; a separator that ends its run opens a new first piece;
      any other separator belongs to the run already there. There is one piece
      more than there are separator runs. */
  function Segments(s: string, sep: Separator): (r: seq<string>)
    ensures |r| == RunCount(s, sep, true) + 1
    decreases |s|
  {
    if s == [] then [[]]
    else
      var rest := Segments(s[1..], sep);
      if !IsSeparator(s[0], sep) then [[s[0]] + rest[0]] + rest[1..]
      else if |s| > 1 && IsSeparator(s[1], sep) then rest
      else [[]] + rest
  }

  /** No piece of Segments holds a separator. */
  lemma {:induction false} SegmentsSeparatorFree(s: string, sep: Separator)
    ensures forall k :: 0 <= k < |Segments(s, sep)| ==> !HasSeparator(Segments(s, sep)[k], sep)
    decreases |s|
  {
    if s != [] {
      var rest := Segments(s[1..], sep);
      SegmentsSeparatorFree(s[1..], sep);
      var r := Segments(s, sep);
      if !IsSeparator(s[0], sep) {
        var first := [s[0]] + rest[0];
        assert !HasSeparator(first, sep) by {
          assert forall k :: 1 <= k < |first| ==> first[k] == rest[0][k - 1];
        }
        assert forall k :: 1 <= k < |r| ==> r[k] == rest[k];
      } else if !(|s| > 1 && IsSeparator(s[1], sep)) {
        assert forall k :: 1 <= k < |r| ==> r[k] == rest[k - 1];
      }
    }
  }

  /** The first piece is empty exactly when s is empty or starts with a
      separator. */
  lemma {:induction false} SegmentsFirst(s: string, sep: Separator)
    ensures Segments(s, sep)[0] == [] <==> (s == [] || IsSeparator(s[0], sep))
    decreases |s|
  {
    if s != [] && IsSeparator(s[0], sep) && |s| > 1 && IsSeparator(s[1], sep) {
      SegmentsFirst(s[1..], sep);
    }
  }

  /** s starts with a non-separator: it joins the first piece, so the last
      piece is the tail's, unless that first piece is also the last. */
  lemma {:induction false} SegmentsLastAfterWord(s: string, sep: Separator)
    requires |s| > 1 && !IsSeparator(s[0], sep)
    ensures var r := Segments(s, sep); var rest := Segments(s[1..], sep);
            |r| == |rest|
            && (|rest| > 1 ==> r[|r| - 1] == rest[|rest| - 1])
            && (|rest| == 1 ==> r[|r| - 1] != [] && !IsSeparator(s[|s| - 1], sep))
  {
    var tail := s[1..];
    var rest := Segments(tail, sep);
    if |rest| == 1 {
      RunCountNone(tail, sep, true);
      assert tail[|tail| - 1] == s[|s| - 1];
    }
  }

  /** s starts with a separator that ends its run: an empty first piece is
      put in front of the tail's pieces. */
  lemma {:induction false} SegmentsLastAfterRun(s: string, sep: Separator)
    requires |s| > 1 && IsSeparator(s[0], sep) && !IsSeparator(s[1], sep)
    ensures var r := Segments(s, sep); var rest := Segments(s[1..], sep);
            r[|r| - 1] == rest[|rest| - 1]
  {
    assert Segments(s, sep) == [[]] + Segments(s[1..], sep);
  }

  /** The last piece is empty exactly when s is empty or ends with a
      separator. */
  lemma {:induction false} SegmentsLast(s: string, sep: Separator)
    ensures Segments(s, sep)[|Segments(s, sep)| - 1] == [] <==> (s == [] || IsSeparator(s[|s| - 1], sep))
    decreases |s|
  {
    if |s| == 1 {
      assert s[1..] == [];
    } else if |s| > 1 {
      var tail := s[1..];
      assert tail[|tail| - 1] == s[|s| - 1];
      SegmentsLast(tail, sep);
      if !IsSeparator(s[0], sep) {
        SegmentsLastAfterWord(s, sep);
      } else if IsSeparator(s[1], sep) {
        assert Segments(s, sep) == Segments(tail, sep);
      } else {
        SegmentsLastAfterRun(s, sep);
      }
    }
  }

  /** Every piece strictly between the first and the last is non-empty. */
  lemma {:induction false} SegmentsInnerNonEmpty(s: string, sep: Separator)
    ensures forall k :: 0 < k < |Segments(s, sep)| - 1 ==> Segments(s, sep)[k] != []
    decreases |s|
  {
    if s != [] {
      var tail := s[1..];
      var rest := Segments(tail, sep);
      var r := Segments(s, sep);
      SegmentsInnerNonEmpty(tail, sep);
      if !IsSeparator(s[0], sep) {
        assert r == [[s[0]] + rest[0]] + rest[1..];
        assert forall k :: 1 <= k < |r| ==> r[k] == rest[k];
      } else if !(|s| > 1 && IsSeparator(s[1], sep)) {
        assert forall k :: 1 <= k < |r| ==> r[k] == rest[k - 1];
        if |s| > 1 {
          SegmentsFirst(tail, sep);
          assert tail[0] == s[1];
        }
      }
    }
  }

  /** Trailing empty strings removed, as String.split(regex) (limit 0) does. */
  function DropTrailingEmpty(xs: seq<string>): (r: seq<string>)
    ensures |r| <= |xs| && r == xs[..|r|]
    ensures r == [] || r[|r| - 1] != []
    ensures forall k :: |r| <= k < |xs| ==> xs[k] == []
  {
    if xs != [] && xs[|xs| - 1] == [] then DropTrailingEmpty(xs[..|xs| - 1]) else xs
  }

  /** String.split with a pattern that matches one or more separator
      characters: the whole string when nothing matches, otherwise the pieces
      between the matches without the trailing empty ones. */
  function Split(s: string, sep: Separator): (r: seq<string>)
    ensures forall k :: 0 <= k < |r| ==> !HasSeparator(r[k], sep)
    ensures r == [] || r[|r| - 1] != [] || r == [[]]
  {
    if !HasSeparator(s, sep) then [s]
    else
      SegmentsSeparatorFree(s, sep);
      DropTrailingEmpty(Segments(s, sep))
  }

  // ---------------------------------------------------------------------
  // Lemmas about runs and splitting
  // ---------------------------------------------------------------------

  /** There are no runs of a kind exactly when no character is of that kind. */
  lemma {:induction false} RunCountNone(s: string, sep: Separator, inside: bool)
    ensures RunCount(s, sep, inside) == 0 <==> forall k :: 0 <= k < |s| ==> IsSeparator(s[k], sep) != inside
  {
    if s != [] {
      RunCountNone(s[1..], sep, inside);
      assert forall k :: 1 <= k < |s| ==> s[k] == s[1..][k - 1];
    }
  }

  /** A non-empty string all of one kind is a single run. */
  lemma {:induction false} RunCountOneRun(s: string, sep: Separator, inside: bool)
    requires s != []
    requires forall k :: 0 <= k < |s| ==> IsSeparator(s[k], sep) == inside
    ensures RunCount(s, sep, inside) == 1
  {
    if |s| > 1 {
      assert forall k :: 0 <= k < |s| - 1 ==> s[1..][k] == s[k + 1];
      RunCountOneRun(s[1..], sep, inside);
    }
  }

  /** Runs of a concatenation: two runs merge when a ends and b starts with
      the same kind. */
  lemma {:induction false} RunCountConcat(a: string, b: string, sep: Separator, inside: bool)
    ensures RunCount(a + b, sep, inside)
            + (if a != [] && b != [] && IsSeparator(a[|a| - 1], sep) == inside && IsSeparator(b[0], sep) == inside then 1 else 0)
            == RunCount(a, sep, inside) + RunCount(b, sep, inside)
  {
    if a != [] {
      assert (a + b)[1..] == a[1..] + b;
      RunCountConcat(a[1..], b, sep, inside);
    } else {
      assert a + b == b;
    }
  }

  /** Runs of the two kinds alternate: for a non-empty string, the runs of
      non-separators plus one equal the runs of separators plus one for each
      end that is a non-separator. */
  lemma {:induction false} RunsAlternate(s: string, sep: Separator)
    requires s != []
    ensures RunCount(s, sep, false) + 1
            == RunCount(s, sep, true)
               + (if IsSeparator(s[0], sep) then 0 else 1)
               + (if IsSeparator(s[|s| - 1], sep) then 0 else 1)
  {
    if |s| > 1 {
      RunsAlternate(s[1..], sep);
    }
  }

  /** The number of pieces String.split returns: one when nothing matches
      (the empty string included); otherwise one per maximal run of
      non-separators, plus a leading empty piece when s starts with a separator
      and holds anything else. */
  lemma SplitLength(s: string, sep: Separator)
    ensures !HasSeparator(s, sep) ==> |Split(s, sep)| == 1
    ensures HasSeparator(s, sep) ==>
              |Split(s, sep)| == RunCount(s, sep, false)
                                 + (if IsSeparator(s[0], sep) && RunCount(s, sep, false) > 0 then 1 else 0)
  {
    if HasSeparator(s, sep) {
      var segs := Segments(s, sep);
      var r := DropTrailingEmpty(segs);
      SegmentsFirst(s, sep);
      SegmentsLast(s, sep);
      SegmentsInnerNonEmpty(s, sep);
      RunsAlternate(s, sep);
      RunCountNone(s, sep, false);
      RunCountNone(s, sep, true);
      var n := |segs|;
      if !IsSeparator(s[|s| - 1], sep) {
        assert |r| == n;
      } else if n >= 3 || !IsSeparator(s[0], sep) {
        assert segs[n - 2] != [];
        assert |r| == n - 1;
      } else {
        assert n == 2;
        assert segs[0] == [] && segs[1] == [];
        assert |r| == 0;
        // one run of separators spanning both ends: nothing else is in s
        assert RunCount(s, sep, false) == 0;
      }
    }
  }
}
