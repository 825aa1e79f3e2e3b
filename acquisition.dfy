/** The read loop of the console program, over the sequence of lines the
    scanner would deliver: every line is appended to a buffer followed by a
    space, until a line equal to `END` ignoring case, an exactly empty line
    once the buffer holds something besides trim-spaces, or the end of the
    input. The trimmed buffer is the description; an empty one is rejected. */
module Acquisition {
  import opened JavaText

  /** The outcome of the read loop and the emptiness check after it. */
  datatype Description = NoDescription | Description(text: string)

  /** The sentinel line: `END` compared with equalsIgnoreCase. That method
      folds case over all of Unicode, but no character other than the ASCII
      letters e, n and d (in either case) upper-cases or lower-cases to E, N
      or D, so for this literal the ASCII fold gives the same answer. */
  predicate IsEndSentinel(line: string) {
    EqualIgnoringCase(line, "END")
  }

  /** What the buffer holds after appending each of the lines and a space. */
  function Buffer(lines: seq<string>): (b: string)
    ensures |lines| > 0 ==> |b| > 0 && b[|b| - 1] == ' '
  {
    if lines == [] then [] else Buffer(lines[..|lines| - 1]) + lines[|lines| - 1] + " "
  }

  /** The loop leaves before appending line k of the input. */
  predicate StopsAt(lines: seq<string>, k: nat)
    requires k < |lines|
  {
    IsEndSentinel(lines[k]) || (lines[k] == [] && Trim(Buffer(lines[..k])) != [])
  }

  /** The first line at or after `from` at which the loop stops, or the end
      of the input. */
  function StopFrom(lines: seq<string>, from: nat): (k: nat)
    requires from <= |lines|
    ensures from <= k <= |lines|
    ensures forall j :: from <= j < k ==> !StopsAt(lines, j)
    ensures k < |lines| ==> StopsAt(lines, k)
    decreases |lines| - from
  {
    if from == |lines| || StopsAt(lines, from) then from else StopFrom(lines, from + 1)
  }

  /** The number of lines the loop appends. */
  function StopIndex(lines: seq<string>): (k: nat)
    ensures k <= |lines|
    ensures forall j :: 0 <= j < k ==> !StopsAt(lines, j)
    ensures k < |lines| ==> StopsAt(lines, k)
  {
    StopFrom(lines, 0)
  }

  /** The trimmed buffer, or NoDescription when it is empty. */
  function Acquire(lines: seq<string>): (r: Description)
    ensures r.Description? ==> r.text != [] && IsTrimmed(r.text)
  {
    var text := Trim(Buffer(lines[..StopIndex(lines)]));
    if text == [] then NoDescription else Description(text)
  }

  /** The read loop of main and the validation after it. */
  method ReadDescription(lines: seq<string>) returns (r: Description)
    ensures r == Acquire(lines)
  {
    var buffer := "";
    var i := 0;
    while i < |lines|
      invariant i <= |lines|
      invariant buffer == Buffer(lines[..i])
      invariant forall j :: 0 <= j < i ==> !StopsAt(lines, j)
    {
      var line := lines[i];
      if IsEndSentinel(line) || (line == [] && Trim(buffer) != []) {
        assert StopsAt(lines, i);
        break;
      }
      BufferStep(lines, i);
      buffer := buffer + line + " ";
      i := i + 1;
    }
    StopIndexIs(lines, i);
    var description := Trim(buffer);
    if description == [] {
      r := NoDescription;
    } else {
      r := Description(description);
    }
  }

  /** Reading one more line appends it and a space to the buffer. */
  lemma {:induction false} BufferStep(lines: seq<string>, i: nat)
    requires i < |lines|
    ensures Buffer(lines[..i + 1]) == Buffer(lines[..i]) + lines[i] + " "
  {
    assert lines[..i + 1][..i] == lines[..i];
  }

  /** The first line that stops the loop, or the end of the input, is the
      number of lines the loop appends. */
  lemma {:induction false} StopIndexIs(lines: seq<string>, i: nat)
    requires i <= |lines|
    requires forall j :: 0 <= j < i ==> !StopsAt(lines, j)
    requires i < |lines| ==> StopsAt(lines, i)
    ensures i == StopIndex(lines)
  {
  }

  // ---------------------------------------------------------------------
  // Properties of the read loop
  // ---------------------------------------------------------------------

  /** The buffer is all trim-spaces exactly when every line appended is. */
  lemma {:induction false} BufferBlank(lines: seq<string>)
    ensures AllTrimSpace(Buffer(lines)) <==> forall j :: 0 <= j < |lines| ==> AllTrimSpace(lines[j])
    decreases |lines|
  {
    if lines != [] {
      var init := lines[..|lines| - 1];
      var last := lines[|lines| - 1];
      BufferBlank(init);
      var b := Buffer(init) + last + " ";
      assert Buffer(lines) == b;
      assert forall k :: 0 <= k < |Buffer(init)| ==> b[k] == Buffer(init)[k];
      assert forall k :: 0 <= k < |last| ==> b[|Buffer(init)| + k] == last[k];
      assert forall j :: 0 <= j < |init| ==> init[j] == lines[j];
      if AllTrimSpace(b) {
        assert AllTrimSpace(last);
      }
    }
  }

  /** A line of trim-spaces only is not the sentinel: the letters of `END`
      are not trim-spaces, in either case. */
  lemma {:induction false} BlankIsNotSentinel(line: string)
    requires AllTrimSpace(line)
    ensures !IsEndSentinel(line)
  {
    if line != [] {
      assert ToLowerAscii(line[0]) == line[0];
    }
  }

  /** Lines that hold nothing but trim-spaces, the empty line included, do
      not stop the loop before anything else has been read, so the loop
      reads past all of them. */
  lemma {:induction false} BlankLinesDoNotStop(lines: seq<string>, k: nat)
    requires k <= |lines|
    requires forall j :: 0 <= j < k ==> AllTrimSpace(lines[j])
    ensures k <= StopIndex(lines)
  {
    var s := StopIndex(lines);
    if s < k {
      BlankIsNotSentinel(lines[s]);
      BufferBlank(lines[..s]);
      assert false;
    }
  }

  /** No description results exactly when every line read before the loop
      stopped holds nothing but trim-spaces. */
  lemma {:induction false} NoDescriptionWhenBlank(lines: seq<string>)
    ensures Acquire(lines) == NoDescription
            <==> forall j :: 0 <= j < StopIndex(lines) ==> AllTrimSpace(lines[j])
  {
    var s := StopIndex(lines);
    BufferBlank(lines[..s]);
    assert forall j :: 0 <= j < s ==> lines[..s][j] == lines[j];
  }

  /** A line stops the loop only as the sentinel or as an exactly empty line
      after content, and in the second case a description results. */
  lemma {:induction false} EmptyLineStopsAfterContent(lines: seq<string>)
    requires StopIndex(lines) < |lines| && !IsEndSentinel(lines[StopIndex(lines)])
    ensures lines[StopIndex(lines)] == []
    ensures Acquire(lines).Description?
  {
  }

  /** A line holding only spaces is not an empty line: it never stops the
      loop. */
  lemma {:induction false} SpacesDoNotStop(lines: seq<string>, k: nat)
    requires k < |lines| && lines[k] != [] && !IsEndSentinel(lines[k])
    ensures k != StopIndex(lines)
  {
  }

  // ---------------------------------------------------------------------
  // Worked examples
  // ---------------------------------------------------------------------

  /** One line of text and the sentinel. */
  lemma ExampleSentinel()
    ensures Acquire(["Uganda is beautiful.", "END"]) == Description("Uganda is beautiful.")
  {
    var lines := ["Uganda is beautiful.", "END"];
    assert !IsEndSentinel(lines[0]);
    assert Buffer(lines[..0]) == [];
    assert !StopsAt(lines, 0);
    assert StopsAt(lines, 1);
    assert StopIndex(lines) == 1;
    assert Buffer(lines[..1]) == "Uganda is beautiful." + " " by {
      assert lines[..1][..0] == [];
    }
    TrimUnique([], "Uganda is beautiful.", " ");
    assert [] + "Uganda is beautiful." + " " == "Uganda is beautiful." + " ";
  }

  /** A leading empty line is read and does not stop the loop; the empty
      line after the text does, and the line after it is never read. */
  lemma ExampleEnterTwice()
    ensures StopIndex(["", "Uganda", "", "END"]) == 2
    ensures Acquire(["", "Uganda", "", "END"]) == Description("Uganda")
  {
    var lines := ["", "Uganda", "", "END"];
    ExampleEnterTwiceBuffers(lines);
    assert !StopsAt(lines, 0);
    assert !StopsAt(lines, 1);
    assert StopsAt(lines, 2);
    assert StopIndex(lines) == 2;
  }

  lemma ExampleEnterTwiceBuffers(lines: seq<string>)
    requires lines == ["", "Uganda", "", "END"]
    ensures Trim(Buffer(lines[..0])) == []
    ensures Trim(Buffer(lines[..1])) == []
    ensures Trim(Buffer(lines[..2])) == "Uganda"
    ensures !IsEndSentinel(lines[1])
  {
    assert lines[..0] == [] && Buffer([]) == [];
    assert AllTrimSpace([]);
    assert lines[..1] == [""] && lines[..1][..0] == [];
    assert Buffer(lines[..1]) == " ";
    assert AllTrimSpace(" ");
    assert lines[..2] == ["", "Uganda"] && lines[..2][..1] == [""];
    assert Buffer(lines[..2]) == " " + "Uganda" + " ";
    TrimUnique(" ", "Uganda", " ");
    assert |lines[1]| != 3;
  }

  /** Nothing but an empty line: the buffer holds one space, which trims to
      nothing. */
  lemma ExampleOnlyEmptyLine()
    ensures Acquire([""]) == NoDescription
  {
    var lines := [""];
    assert lines[..0] == [] && Buffer([]) == [];
    assert Trim([]) == [] by {
      assert AllTrimSpace([]);
    }
    assert !StopsAt(lines, 0);
    assert StopIndex(lines) == 1;
    assert lines[..1] == lines && Buffer(lines) == " ";
    assert AllTrimSpace(" ");
  }
}
