/** The extraction unit tests, stated for any lines of the tested count that
    are non-empty and hold no line break (the tests use "line 1", "line 2",
    ...), joined with '\n' as the tests write their input. */
module ExtractionExamples {
  import opened Text
  import opened Ranges
  import opened Partition
  import opened PartitionProperties

  /** Lines like "line 1": non-empty, without '\n' and not ending in '\r'. */
  predicate PlainLines(ls: seq<string>)
  {
    forall i :: 0 <= i < |ls| ==> ls[i] != [] && '\n' !in ls[i] && !EndsWithCR(ls[i])
  }

  /** Plain lines come back unchanged from a join and a split into lines. */
  lemma PlainLinesRoundTrip(ls: seq<string>)
    requires PlainLines(ls)
    ensures Lines(Join(ls, '\n')) == ls
  {
    LinesOfJoin(ls);
  }

  /** `test_extract_lines_simple`: `{2,4}` of five lines gives lines 2 to 4. */
  lemma ExtractSimpleExample(ls: seq<string>)
    requires |ls| == 5 && PlainLines(ls)
    ensures var r := LineRange("test.txt", 2, 4);
      SlicesInBounds(Join(ls, '\n'), [r], "test.txt") &&
      SelectedText(Join(ls, '\n'), [r], "test.txt") == Join([ls[1], ls[2], ls[3]], '\n')
  {
    var r := LineRange("test.txt", 2, 4);
    PlainLinesRoundTrip(ls);
    SingleRangeSelection(Join(ls, '\n'), r);
    assert ls[1..4] == [ls[1], ls[2], ls[3]];
  }

  /** `test_extract_lines_out_of_bounds`: `{2,10}` of three lines is clamped
      to lines 2 and 3. */
  lemma ExtractOutOfBoundsExample(ls: seq<string>)
    requires |ls| == 3 && PlainLines(ls)
    ensures var r := LineRange("test.txt", 2, 10);
      SlicesInBounds(Join(ls, '\n'), [r], "test.txt") &&
      SelectedText(Join(ls, '\n'), [r], "test.txt") == Join([ls[1], ls[2]], '\n')
  {
    PlainLinesRoundTrip(ls);
    OutOfBoundsOn(Join(ls, '\n'), ls);
  }

  /** The same, for any text whose lines are known. */
  lemma OutOfBoundsOn(content: string, ls: seq<string>)
    requires |ls| == 3 && Lines(content) == ls
    ensures var r := LineRange("test.txt", 2, 10);
      SlicesInBounds(content, [r], "test.txt") &&
      SelectedText(content, [r], "test.txt") == Join([ls[1], ls[2]], '\n')
  {
    var r := LineRange("test.txt", 2, 10);
    SingleRangeSelection(content, r);
    assert EndIdx(r, |ls|) == 3 && StartIdx(r) == 1;
    var kept := ls[1..3];
    assert SelectedText(content, [r], r.path) == Join(kept, '\n');
    assert kept == [ls[1], ls[2]];
  }

  /** `test_extract_lines_multiple_ranges`: `{1,2}` and `{5,6}` of six lines
      give lines 1, 2, 5 and 6. */
  lemma ExtractMultipleExample(ls: seq<string>)
    requires |ls| == 6 && PlainLines(ls)
    ensures var rs := [LineRange("test.txt", 1, 2), LineRange("test.txt", 5, 6)];
      SlicesInBounds(Join(ls, '\n'), rs, "test.txt") &&
      SelectedText(Join(ls, '\n'), rs, "test.txt") == Join([ls[0], ls[1], ls[4], ls[5]], '\n')
  {
    PlainLinesRoundTrip(ls);
    TwoRangeSelection(Join(ls, '\n'), ls);
  }

  /** The same, for any text whose lines are known. */
  lemma TwoRangeSelection(content: string, ls: seq<string>)
    requires |ls| == 6 && Lines(content) == ls
    ensures var rs := [LineRange("test.txt", 1, 2), LineRange("test.txt", 5, 6)];
      SlicesInBounds(content, rs, "test.txt") &&
      SelectedText(content, rs, "test.txt") == Join([ls[0], ls[1], ls[4], ls[5]], '\n')
  {
    var rs := [LineRange("test.txt", 1, 2), LineRange("test.txt", 5, 6)];
    ApplicablePair(rs[0], rs[1]);
    assert forall r :: r in rs ==> SliceInBounds(r, 6) by {
      assert SliceInBounds(rs[0], 6) && SliceInBounds(rs[1], 6);
    }
    assert SelectedText(content, rs, "test.txt") == Join(SelectedLines(ls, rs), '\n');
    TwoSlices(ls, rs);
  }

  /** The selection of `{1,2}` and `{5,6}` from six lines. */
  lemma TwoSlices(ls: seq<string>, rs: seq<LineRange>)
    requires |ls| == 6 && rs == [LineRange("test.txt", 1, 2), LineRange("test.txt", 5, 6)]
    ensures SelectedLines(ls, rs) == [ls[0], ls[1], ls[4], ls[5]]
  {
    SelectedLinesStep(ls, rs, 0);
    SelectedLinesStep(ls, rs, 1);
    assert rs[..0] == [] && rs[..2] == rs;
  }

  /** `test_extract_complement_lines_simple`: taking `{2,4}` out of five lines
      leaves lines 1 and 5. */
  lemma ComplementSimpleExample(ls: seq<string>)
    requires |ls| == 5 && PlainLines(ls)
    ensures RemainderText(Join(ls, '\n'), [LineRange("test.txt", 2, 4)], "test.txt")
      == Join([ls[0], ls[4]], '\n')
  {
    PlainLinesRoundTrip(ls);
    SingleRangeRemainder(Join(ls, '\n'), LineRange("test.txt", 2, 4));
    assert ls[..1] + ls[4..] == [ls[0], ls[4]];
  }

  /** `test_extract_complement_all_lines_selected`: taking `{1,3}` out of
      three lines leaves nothing. */
  lemma ComplementAllExample(ls: seq<string>)
    requires |ls| == 3 && PlainLines(ls)
    ensures RemainderText(Join(ls, '\n'), [LineRange("test.txt", 1, 3)], "test.txt") == []
  {
    PlainLinesRoundTrip(ls);
    SingleRangeRemainder(Join(ls, '\n'), LineRange("test.txt", 1, 3));
    assert ls[..0] + ls[3..] == [];
  }

  /** `test_extract_complement_lines_multiple_ranges`: taking `{2,3}` and
      `{5,5}` out of six lines leaves lines 1, 4 and 6. */
  lemma ComplementMultipleExample(ls: seq<string>)
    requires |ls| == 6 && PlainLines(ls)
    ensures var rs := [LineRange("test.txt", 2, 3), LineRange("test.txt", 5, 5)];
      RemainderText(Join(ls, '\n'), rs, "test.txt") == Join([ls[0], ls[3], ls[5]], '\n')
  {
    var rs := [LineRange("test.txt", 2, 3), LineRange("test.txt", 5, 5)];
    PlainLinesRoundTrip(ls);
    ApplicablePair(rs[0], rs[1]);
    TwoGaps(ls, rs);
  }

  /** What `{2,3}` and `{5,5}` leave of six lines. */
  lemma TwoGaps(ls: seq<string>, rs: seq<LineRange>)
    requires |ls| == 6 && rs == [LineRange("test.txt", 2, 3), LineRange("test.txt", 5, 5)]
    ensures Unexcluded(ls, ExcludedSet(6, rs)) == [ls[0], ls[3], ls[5]]
  {
    var ex := ExcludedSet(6, rs);
    forall i: nat | i < 6 ensures i in ex <==> i == 1 || i == 2 || i == 4 {
      assert rs[0] in rs && rs[1] in rs;
      assert CoveredBy(rs, 6, i) <==> Covers(rs[0], 6, i) || Covers(rs[1], 6, i);
    }
    KeptStep(ls, ex, 0);
    KeptStep(ls, ex, 1);
    KeptStep(ls, ex, 2);
    KeptStep(ls, ex, 3);
    KeptStep(ls, ex, 4);
    KeptStep(ls, ex, 5);
    assert ls[..0] == [] && ls[..6] == ls;
  }

  /** Looking at one more line keeps it unless its index is in `ex`. */
  lemma KeptStep(ls: seq<string>, ex: set<nat>, k: nat)
    requires k < |ls|
    ensures Unexcluded(ls[..k + 1], ex) == Unexcluded(ls[..k], ex) + (if k in ex then [] else [ls[k]])
  {
    assert ls[..k + 1][..k] == ls[..k];
  }

  /** `test_round_trip_extraction`: with `{2,3}` over five plain lines the
      selection is lines 2 and 3 and the remainder lines 1, 4 and 5; split
      into lines again they hold five lines between them. */
  lemma RoundTripExample(ls: seq<string>)
    requires |ls| == 5 && PlainLines(ls)
    ensures var content, rs := Join(ls, '\n'), [LineRange("test.txt", 2, 3)];
      SlicesInBounds(content, rs, "test.txt") &&
      SelectedText(content, rs, "test.txt") == Join([ls[1], ls[2]], '\n') &&
      RemainderText(content, rs, "test.txt") == Join([ls[0], ls[3], ls[4]], '\n')
    ensures var content, rs := Join(ls, '\n'), [LineRange("test.txt", 2, 3)];
      SlicesInBounds(content, rs, "test.txt") &&
      |Lines(SelectedText(content, rs, "test.txt"))| + |Lines(RemainderText(content, rs, "test.txt"))| == 5
  {
    var content, r := Join(ls, '\n'), LineRange("test.txt", 2, 3);
    PlainLinesRoundTrip(ls);
    RoundTripOn(content, ls);
    assert forall l :: l in Lines(content) ==> l != [] && !EndsWithCR(l);
    RejoinedCountsAddUp(content, [r], "test.txt");
  }

  /** The two outputs, for any text whose lines are known. */
  lemma RoundTripOn(content: string, ls: seq<string>)
    requires |ls| == 5 && Lines(content) == ls
    ensures var rs := [LineRange("test.txt", 2, 3)];
      SlicesInBounds(content, rs, "test.txt") &&
      SelectedText(content, rs, "test.txt") == Join([ls[1], ls[2]], '\n') &&
      RemainderText(content, rs, "test.txt") == Join([ls[0], ls[3], ls[4]], '\n')
  {
    RoundTripSelectionOn(content, ls);
    RoundTripRemainderOn(content, ls);
  }

  lemma RoundTripSelectionOn(content: string, ls: seq<string>)
    requires |ls| == 5 && Lines(content) == ls
    ensures var rs := [LineRange("test.txt", 2, 3)];
      SlicesInBounds(content, rs, "test.txt") &&
      SelectedText(content, rs, "test.txt") == Join([ls[1], ls[2]], '\n')
  {
    var r := LineRange("test.txt", 2, 3);
    SingleRangeSelection(content, r);
    assert StartIdx(r) == 1 && EndIdx(r, 5) == 3;
    assert ls[1..3] == [ls[1], ls[2]];
  }

  lemma RoundTripRemainderOn(content: string, ls: seq<string>)
    requires |ls| == 5 && Lines(content) == ls
    ensures RemainderText(content, [LineRange("test.txt", 2, 3)], "test.txt")
      == Join([ls[0], ls[3], ls[4]], '\n')
  {
    var r := LineRange("test.txt", 2, 3);
    SingleRangeRemainder(content, r);
    assert EndIdx(r, |ls|) == 3 && StartIdx(r) == 1;
    var rest := ls[..1] + ls[3..];
    assert RemainderText(content, [r], r.path) == Join(rest, '\n');
    assert rest == [ls[0], ls[3], ls[4]];
  }

  /** Why `RejoinedCountsAddUp` asks for non-empty lines: when the selection
      ends with an empty line, the '\n' before it becomes a line terminator
      once the output is split into lines again, so that line is lost and the
      two sides of `a`, an empty line and `b` under `{1,2}` hold two lines
      instead of three. */
  lemma EmptyLineLostExample(a: string, b: string)
    requires PlainLines([a, b])
    ensures var content, rs := Join([a, [], b], '\n'), [LineRange("f", 1, 2)];
      |Lines(content)| == 3 && SlicesInBounds(content, rs, "f") &&
      |Lines(SelectedText(content, rs, "f"))| + |Lines(RemainderText(content, rs, "f"))| == 2
  {
    var ls := [a, [], b];
    assert RejoinableLines(ls) by {
      assert [a, b][0] == a && [a, b][1] == b;
      assert ls[0] == a && ls[1] == [] && ls[2] == b;
      assert !EndsWithCR([]);
    }
    LinesOfJoin(ls);
    EmptyLineLostOn(Join(ls, '\n'), a, b);
  }

  /** The same, for any text whose lines are `a`, an empty line and `b`. */
  lemma EmptyLineLostOn(content: string, a: string, b: string)
    requires PlainLines([a, b]) && Lines(content) == [a, [], b]
    ensures var rs := [LineRange("f", 1, 2)];
      SlicesInBounds(content, rs, "f") &&
      |Lines(SelectedText(content, rs, "f"))| + |Lines(RemainderText(content, rs, "f"))| == 2
  {
    var r := LineRange("f", 1, 2);
    var ls := [a, [], b];
    assert SelectedText(content, [r], "f") == Join([a, []], '\n') by {
      SingleRangeSelection(content, r);
      assert ls[0..2] == [a, []];
    }
    assert RemainderText(content, [r], "f") == Join([b], '\n') by {
      SingleRangeRemainder(content, r);
      assert ls[..0] + ls[2..] == [b];
    }
    assert [a, b][0] == a && [a, b][1] == b;
    TrailingEmptyLineDropped(a);
    PlainLinesRoundTrip([b]);
  }

  /** A line followed by an empty one reads back as that line alone. */
  lemma TrailingEmptyLineDropped(a: string)
    requires a != [] && '\n' !in a && !EndsWithCR(a)
    ensures Lines(Join([a, []], '\n')) == [a]
  {
    SplitJoin([a, []], '\n');
  }
}
