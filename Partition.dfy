/** The line partitioner of `hunksplit`: the lines of one file that its ranges
    select (`extract_lines_from_content`) and the lines they leave
    (`extract_complement_lines`). Content is already-decoded text. */
module Partition {
  import opened Text
  import opened Ranges

  // ------------------------------------------------------------------------
  // The ranges that apply to one file, in the order they are used

  /** The ranges whose path is `path`, in their given order. */
  function Matching(ranges: seq<LineRange>, path: string): (ms: seq<LineRange>)
    ensures forall r :: r in ms <==> r in ranges && r.path == path
  {
    if ranges == [] then []
    else
      assert ranges == [ranges[0]] + ranges[1..];
      (if ranges[0].path == path then [ranges[0]] else []) + Matching(ranges[1..], path)
  }

  /** The filter works element by element: a lone range is kept exactly when
      it names the file, and filtering a concatenation concatenates the
      filtered parts, so order is kept. */
  lemma {:induction false} MatchingAppend(a: seq<LineRange>, b: seq<LineRange>, path: string)
    ensures forall r :: Matching([r], path) == if r.path == path then [r] else []
    ensures Matching(a + b, path) == Matching(a, path) + Matching(b, path)
  {
    forall r ensures Matching([r], path) == if r.path == path then [r] else [] {
      assert [r][1..] == [];
    }
    if a == [] {
      assert a + b == b;
    } else {
      assert (a + b)[0] == a[0] && (a + b)[1..] == a[1..] + b;
      MatchingAppend(a[1..], b, path);
    }
  }

  /** Filtering one more range appends it exactly when it names the file. */
  lemma MatchingSnoc(pre: seq<LineRange>, last: LineRange, path: string)
    ensures Matching(pre + [last], path) ==
      Matching(pre, path) + (if last.path == path then [last] else [])
  {
    MatchingAppend(pre, [last], path);
  }

  /** A range of the file is kept as many times as it is given (repeats
      included); a range of another file never. */
  lemma {:induction false} MatchingCount(ranges: seq<LineRange>, path: string)
    ensures forall r ::
      multiset(Matching(ranges, path))[r] == if r.path == path then multiset(ranges)[r] else 0
  {
    if ranges != [] {
      MatchingCount(ranges[1..], path);
      assert ranges == [ranges[0]] + ranges[1..];
    }
  }

  /** The positions of `ranges` that name the file, in increasing order. */
  ghost function MatchingIndices(ranges: seq<LineRange>, path: string): seq<nat>
  {
    if ranges == [] then []
    else
      var m := |ranges| - 1;
      MatchingIndices(ranges[..m], path) + (if ranges[m].path == path then [m] else [])
  }

  /** The positions that name the file are listed in increasing order, each
      exactly once. */
  lemma {:induction false} MatchingIndicesSpec(ranges: seq<LineRange>, path: string)
    ensures var idx := MatchingIndices(ranges, path);
      StrictlyIncreasing(idx) &&
      (forall j :: 0 <= j < |idx| ==> idx[j] < |ranges|) &&
      (forall i: nat :: i in idx <==> i < |ranges| && ranges[i].path == path)
  {
    if ranges != [] {
      var m := |ranges| - 1;
      var pre := ranges[..m];
      MatchingIndicesSpec(pre, path);
      var p := MatchingIndices(pre, path);
      forall i: nat | i < m ensures ranges[i] == pre[i] { }
    }
  }

  /** The kept ranges are the given ranges at exactly those positions, in
      increasing order of position. */
  lemma {:induction false} MatchingPositions(ranges: seq<LineRange>, path: string)
    ensures var ms, idx := Matching(ranges, path), MatchingIndices(ranges, path);
      |idx| == |ms| && forall j :: 0 <= j < |idx| ==> idx[j] < |ranges| && ms[j] == ranges[idx[j]]
  {
    if ranges != [] {
      var m := |ranges| - 1;
      var pre, last := ranges[..m], ranges[m];
      assert ranges == pre + [last];
      MatchingSnoc(pre, last, path);
      MatchingPositions(pre, path);
      MatchingIndicesSpec(pre, path);
      var p, mp := MatchingIndices(pre, path), Matching(pre, path);
      var ms, idx := Matching(ranges, path), MatchingIndices(ranges, path);
      if last.path == path {
        assert ms == mp + [last] && idx == p + [m];
      } else {
        assert ms == mp && idx == p;
      }
      forall j | 0 <= j < |idx| ensures idx[j] < |ranges| && ms[j] == ranges[idx[j]] {
        if j < |p| {
          assert ms[j] == mp[j] && idx[j] == p[j] && ranges[p[j]] == pre[p[j]];
        }
      }
    }
  }

  predicate SortedByStart(rs: seq<LineRange>)
  {
    forall i, j :: 0 <= i < j < |rs| ==> rs[i].start <= rs[j].start
  }

  /** The ranges of `rs` that start at line `k`, in their order in `rs`. */
  function StartingAt(rs: seq<LineRange>, k: nat): seq<LineRange>
  {
    if rs == [] then []
    else (if rs[0].start == k then [rs[0]] else []) + StartingAt(rs[1..], k)
  }

  /** Puts `x` in front of the first range that does not start before it. */
  function Insert(x: LineRange, ys: seq<LineRange>): (r: seq<LineRange>)
    ensures multiset(r) == multiset(ys) + multiset{x}
  {
    if ys == [] || x.start <= ys[0].start then [x] + ys
    else
      assert ys == [ys[0]] + ys[1..];
      [ys[0]] + Insert(x, ys[1..])
  }

  /** Inserting into a sorted sequence keeps it sorted. */
  lemma {:induction false} InsertSorted(x: LineRange, ys: seq<LineRange>)
    requires SortedByStart(ys)
    ensures SortedByStart(Insert(x, ys))
  {
    if ys != [] && x.start > ys[0].start {
      var rest := Insert(x, ys[1..]);
      InsertSorted(x, ys[1..]);
      forall z | z in rest ensures ys[0].start <= z.start {
        assert z in multiset(rest);
        if z != x {
          assert z in ys[1..];
        }
      }
    }
  }

  /** `sorted_by_key(|r| r.start)`: a stable sort on the start line. */
  function SortByStart(xs: seq<LineRange>): (r: seq<LineRange>)
    ensures SortedByStart(r)
    ensures multiset(r) == multiset(xs)
  {
    if xs == [] then []
    else
      assert xs == [xs[0]] + xs[1..];
      InsertSorted(xs[0], SortByStart(xs[1..]));
      Insert(xs[0], SortByStart(xs[1..]))
  }

  /** The ranges `extract_lines_from_content` and `extract_complement_lines`
      work through: those of `path`, sorted by start line. */
  function Applicable(ranges: seq<LineRange>, path: string): (app: seq<LineRange>)
    ensures forall r :: r in app <==> r in ranges && r.path == path
  {
    var app := SortByStart(Matching(ranges, path));
    assert forall r :: r in app <==> r in multiset(Matching(ranges, path));
    app
  }

  // ------------------------------------------------------------------------
  // Where a range lands in a file of n lines

  /** `range.start.saturating_sub(1)`: the 0-based first line of a range. */
  function StartIdx(r: LineRange): nat
  {
    if r.start == 0 then 0 else r.start - 1
  }

  /** `range.end.min(lines.len())`: the 0-based end of a range, exclusive,
      clamped to the file. */
  function EndIdx(r: LineRange, n: nat): nat
  {
    if r.end < n then r.end else n
  }

  /** The start index is `start - 1`, or 0 when that would go below zero; the
      end index is the smaller of `end` and the number of lines. */
  lemma Clamping(r: LineRange, n: nat)
    ensures var i := StartIdx(r); i + 1 >= r.start && (i == 0 || i + 1 == r.start)
    ensures var e := EndIdx(r, n); e <= n && e <= r.end && (e == n || e == r.end)
  {
  }

  /** The slice `lines[start_idx..end_idx]`, taken only when
      `start_idx < lines.len()`, is in bounds (Rust panics otherwise). */
  predicate SliceInBounds(r: LineRange, n: nat)
  {
    StartIdx(r) < n ==> StartIdx(r) <= EndIdx(r, n)
  }

  /** Every range of `path` can be sliced out of `content`. */
  predicate SlicesInBounds(content: string, ranges: seq<LineRange>, path: string)
  {
    forall r :: r in ranges && r.path == path ==> SliceInBounds(r, |Lines(content)|)
  }

  /** Range `r` covers the 0-based line `i` of a file of `n` lines. */
  predicate Covers(r: LineRange, n: nat, i: nat)
  {
    StartIdx(r) <= i < EndIdx(r, n)
  }

  /** Some range of `rs` covers line `i`. */
  predicate CoveredBy(rs: seq<LineRange>, n: nat, i: nat)
  {
    exists r :: r in rs && Covers(r, n, i)
  }

  /** A line is covered by `pre + [r]` when `pre` or `r` covers it. */
  lemma CoveredBySnoc(pre: seq<LineRange>, r: LineRange, n: nat)
    ensures forall i: nat :: CoveredBy(pre + [r], n, i) <==> CoveredBy(pre, n, i) || Covers(r, n, i)
  {
    forall i: nat ensures CoveredBy(pre + [r], n, i) <==> CoveredBy(pre, n, i) || Covers(r, n, i) {
      if CoveredBy(pre, n, i) {
        var r' :| r' in pre && Covers(r', n, i);
        assert r' in pre + [r];
      }
      assert r in pre + [r];
    }
  }

  predicate StrictlyIncreasing(s: seq<nat>)
  {
    forall i, j :: 0 <= i < j < |s| ==> s[i] < s[j]
  }

  /** The indices lo, lo + 1, ..., hi - 1. */
  function Span(lo: nat, hi: nat): (idx: seq<nat>)
    ensures |idx| == if lo < hi then hi - lo else 0
    ensures forall j :: 0 <= j < |idx| ==> idx[j] == lo + j
    decreases hi - lo
  {
    if lo < hi then [lo] + Span(lo + 1, hi) else []
  }

  /** The set of indices lo, lo + 1, ..., hi - 1. */
  function SpanSet(lo: nat, hi: nat): (ix: set<nat>)
    ensures forall i: nat :: i in ix <==> lo <= i < hi
    decreases hi - lo
  {
    if lo < hi then {lo} + SpanSet(lo + 1, hi) else {}
  }

  // ------------------------------------------------------------------------
  // Selection

  /** The line indices the ranges select, range after range, each range's
      lines in file order; every index is a line of the file and is covered
      by one of the ranges. */
  function SelectedIndices(n: nat, rs: seq<LineRange>): (idx: seq<nat>)
    ensures forall j :: 0 <= j < |idx| ==> idx[j] < n
    ensures forall i: nat :: i in idx <==> CoveredBy(rs, n, i)
  {
    if rs == [] then []
    else
      var pre, r := rs[..|rs| - 1], rs[|rs| - 1];
      assert rs == pre + [r];
      var idx := SelectedIndices(n, pre) + Span(StartIdx(r), EndIdx(r, n));
      CoveredBySnoc(pre, r, n);
      assert forall i: nat :: Covers(r, n, i) ==> i in Span(StartIdx(r), EndIdx(r, n)) by {
        forall i: nat | Covers(r, n, i) ensures i in Span(StartIdx(r), EndIdx(r, n)) {
          assert Span(StartIdx(r), EndIdx(r, n))[i - StartIdx(r)] == i;
        }
      }
      idx
  }

  /** The lines the ranges select: range after range, the clamped slice of
      each. */
  function SelectedLines(lines: seq<string>, rs: seq<LineRange>): (sel: seq<string>)
    requires forall r :: r in rs ==> SliceInBounds(r, |lines|)
  {
    if rs == [] then []
    else
      var pre, r := rs[..|rs| - 1], rs[|rs| - 1];
      assert rs == pre + [r];
      assert r in rs && SliceInBounds(r, |lines|);
      SelectedLines(lines, pre) +
        (if StartIdx(r) < |lines| then lines[StartIdx(r)..EndIdx(r, |lines|)] else [])
  }

  /** The clamped slice of one range, as `extract_lines_from_content` takes it. */
  function RangeSlice(lines: seq<string>, r: LineRange): seq<string>
    requires SliceInBounds(r, |lines|)
  {
    if StartIdx(r) < |lines| then lines[StartIdx(r)..EndIdx(r, |lines|)] else []
  }

  /** Selecting with `a` and then `b` concatenates the two selections: the
      slices come out range after range, in the order of the ranges. */
  lemma {:induction false} SelectedLinesAppend(lines: seq<string>, a: seq<LineRange>, b: seq<LineRange>)
    requires forall r :: r in a + b ==> SliceInBounds(r, |lines|)
    ensures forall r :: r in a ==> SliceInBounds(r, |lines|)
    ensures forall r :: r in b ==> SliceInBounds(r, |lines|)
    ensures SelectedLines(lines, a + b) == SelectedLines(lines, a) + SelectedLines(lines, b)
  {
    assert forall r :: r in a ==> r in a + b;
    assert forall r :: r in b ==> r in a + b;
    if b == [] {
      assert a + b == a;
    } else {
      var pre, r := b[..|b| - 1], b[|b| - 1];
      assert b == pre + [r];
      assert a + b == (a + pre) + [r];
      assert forall x :: x in a + pre ==> x in a + b;
      SelectedLinesAppend(lines, a, pre);
      SelectedLinesLast(lines, a + pre, r);
      SelectedLinesLast(lines, pre, r);
      ConcatAssoc(SelectedLines(lines, a), SelectedLines(lines, pre), RangeSlice(lines, r));
    }
  }

  /** One more range at the end appends its clamped slice. */
  lemma SelectedLinesLast(lines: seq<string>, rs: seq<LineRange>, r: LineRange)
    requires forall x :: x in rs + [r] ==> SliceInBounds(x, |lines|)
    ensures forall x :: x in rs ==> SliceInBounds(x, |lines|)
    ensures SliceInBounds(r, |lines|)
    ensures SelectedLines(lines, rs + [r]) == SelectedLines(lines, rs) + RangeSlice(lines, r)
  {
    var xs := rs + [r];
    assert forall x :: x in rs ==> x in xs;
    assert r in xs;
    assert xs[..|xs| - 1] == rs && xs[|xs| - 1] == r;
  }

  lemma ConcatAssoc(x: seq<string>, y: seq<string>, z: seq<string>)
    ensures (x + y) + z == x + (y + z)
  {
  }

  /** The j-th selected line is the line at the j-th selected index. */
  lemma {:induction false} SelectedLinesAt(lines: seq<string>, rs: seq<LineRange>)
    requires forall r :: r in rs ==> SliceInBounds(r, |lines|)
    ensures var sel, idx := SelectedLines(lines, rs), SelectedIndices(|lines|, rs);
      |sel| == |idx| && forall j :: 0 <= j < |sel| ==> sel[j] == lines[idx[j]]
  {
    if rs != [] {
      var pre, r := rs[..|rs| - 1], rs[|rs| - 1];
      assert rs == pre + [r];
      assert r in rs;
      SelectedLinesAt(lines, pre);
      var a, b := SelectedLines(lines, pre), SelectedIndices(|lines|, pre);
      var sel, idx := SelectedLines(lines, rs), SelectedIndices(|lines|, rs);
      var lo, hi := StartIdx(r), EndIdx(r, |lines|);
      if lo < |lines| {
        assert sel == a + lines[lo..hi] && idx == b + Span(lo, hi);
        forall j | |a| <= j < |sel| ensures sel[j] == lines[idx[j]] {
          assert idx[j] == Span(lo, hi)[j - |a|];
        }
      } else {
        assert sel == a && idx == b + Span(lo, hi);
      }
    }
  }

  /** What `extract_lines_from_content` returns. */
  function SelectedText(content: string, ranges: seq<LineRange>, path: string): string
    requires SlicesInBounds(content, ranges, path)
  {
    var applicable := Applicable(ranges, path);
    if applicable == [] then [] else Join(SelectedLines(Lines(content), applicable), '\n')
  }

  /** `extract_lines_from_content`: the lines of `content` that the ranges of
      `filePath` select, taken range by range in start order and joined with
      '\n'; nothing at all when no range names the file. */
  method ExtractLinesFromContent(content: string, ranges: seq<LineRange>, filePath: string)
    returns (out: string)
    requires SlicesInBounds(content, ranges, filePath)
    ensures out == SelectedText(content, ranges, filePath)
    ensures (forall r :: r in ranges ==> r.path != filePath) ==> out == []
  {
    var applicable := Applicable(ranges, filePath);
    if applicable == [] {
      return [];
    }
    assert applicable[0] in applicable;
    var lines := Lines(content);
    var resultLines := CollectSlices(lines, applicable);
    out := Join(resultLines, '\n');
  }

  /** The loop of `extract_lines_from_content` that pushes, range after range,
      the lines of each clamped slice onto `result_lines`. */
  method CollectSlices(lines: seq<string>, applicable: seq<LineRange>)
    returns (resultLines: seq<string>)
    requires forall r :: r in applicable ==> SliceInBounds(r, |lines|)
    ensures resultLines == SelectedLines(lines, applicable)
  {
    resultLines := [];
    var k := 0;
    while k < |applicable|
      invariant 0 <= k <= |applicable|
      invariant resultLines == SelectedLines(lines, applicable[..k])
    {
      var range := applicable[k];
      var startIdx := StartIdx(range);
      var endIdx := EndIdx(range, |lines|);
      SelectedLinesStep(lines, applicable, k);
      if startIdx < |lines| {
        ghost var before := resultLines;
        var j := startIdx;
        while j < endIdx
          invariant startIdx <= j <= endIdx
          invariant resultLines == before + lines[startIdx..j]
        {
          resultLines := resultLines + [lines[j]];
          j := j + 1;
        }
      }
      k := k + 1;
    }
    assert applicable[..k] == applicable;
  }

  /** Taking one more range appends its clamped slice to the selection. */
  lemma SelectedLinesStep(lines: seq<string>, rs: seq<LineRange>, k: nat)
    requires k < |rs|
    requires forall r :: r in rs ==> SliceInBounds(r, |lines|)
    ensures var r := rs[k];
      StartIdx(r) < |lines| ==> StartIdx(r) <= EndIdx(r, |lines|) <= |lines|
    ensures var r := rs[k];
      SelectedLines(lines, rs[..k + 1]) == SelectedLines(lines, rs[..k]) +
        (if StartIdx(r) < |lines| then lines[StartIdx(r)..EndIdx(r, |lines|)] else [])
  {
    var pre := rs[..k];
    assert rs[..k + 1] == pre + [rs[k]];
    assert forall x :: x in pre + [rs[k]] ==> x in rs;
    SelectedLinesLast(lines, pre, rs[k]);
  }

  // ------------------------------------------------------------------------
  // Complement

  /** The set of line indices the ranges exclude: the union of their clamped
      spans, so a line covered twice is excluded once. */
  function ExcludedSet(n: nat, rs: seq<LineRange>): (ex: set<nat>)
    ensures forall i: nat :: i in ex <==> i < n && CoveredBy(rs, n, i)
  {
    if rs == [] then {}
    else
      var pre, r := rs[..|rs| - 1], rs[|rs| - 1];
      assert rs == pre + [r];
      CoveredBySnoc(pre, r, n);
      ExcludedSet(n, pre) + SpanSet(StartIdx(r), EndIdx(r, n))
  }

  /** The indices below `n` that are not in `ex`, in increasing order. */
  function KeptIndices(n: nat, ex: set<nat>): (idx: seq<nat>)
    ensures StrictlyIncreasing(idx)
    ensures forall j :: 0 <= j < |idx| ==> idx[j] < n
  {
    if n == 0 then [] else KeptIndices(n - 1, ex) + (if n - 1 in ex then [] else [n - 1])
  }

  /** `KeptIndices(n, ex)` holds exactly the indices below `n` outside `ex`. */
  lemma {:induction false} KeptIndicesMembers(n: nat, ex: set<nat>)
    ensures forall i: nat :: i in KeptIndices(n, ex) <==> i < n && i !in ex
  {
    if n > 0 {
      KeptIndicesMembers(n - 1, ex);
    }
  }

  /** `lines.iter().enumerate().filter(|(i, _)| !excluded.contains(i))`: the
      lines whose index is outside `ex`, in file order. */
  function Unexcluded(lines: seq<string>, ex: set<nat>): (kept: seq<string>)
  {
    if lines == [] then []
    else
      var m := |lines| - 1;
      Unexcluded(lines[..m], ex) + (if m in ex then [] else [lines[m]])
  }

  /** The j-th kept line is the line at the j-th index outside `ex`. */
  lemma {:induction false} UnexcludedAt(lines: seq<string>, ex: set<nat>)
    ensures var kept, idx := Unexcluded(lines, ex), KeptIndices(|lines|, ex);
      |kept| == |idx| && forall j :: 0 <= j < |kept| ==> kept[j] == lines[idx[j]]
  {
    if lines != [] {
      var m := |lines| - 1;
      UnexcludedAt(lines[..m], ex);
    }
  }

  /** What `extract_complement_lines` returns. */
  function RemainderText(content: string, ranges: seq<LineRange>, path: string): string
  {
    var applicable := Applicable(ranges, path);
    if applicable == [] then content
    else
      var lines := Lines(content);
      Join(Unexcluded(lines, ExcludedSet(|lines|, applicable)), '\n')
  }

  /** `extract_complement_lines`: the lines of `content` that no range of
      `filePath` covers, in file order, joined with '\n'; the content itself,
      untouched, when no range names the file. */
  method ExtractComplementLines(content: string, ranges: seq<LineRange>, filePath: string)
    returns (out: string)
    ensures out == RemainderText(content, ranges, filePath)
    ensures (forall r :: r in ranges ==> r.path != filePath) ==> out == content
  {
    var applicable := Applicable(ranges, filePath);
    if applicable == [] {
      return content;
    }
    assert applicable[0] in applicable;
    var lines := Lines(content);
    var excluded := MarkExcluded(|lines|, applicable);
    out := Join(Unexcluded(lines, excluded), '\n');
  }

  /** The loops of `extract_complement_lines` that insert the clamped span of
      every range into the `excluded_lines` set of a file of `n` lines. */
  method MarkExcluded(n: nat, applicable: seq<LineRange>) returns (excluded: set<nat>)
    ensures excluded == ExcludedSet(n, applicable)
  {
    excluded := {};
    var k := 0;
    while k < |applicable|
      invariant 0 <= k <= |applicable|
      invariant excluded == ExcludedSet(n, applicable[..k])
    {
      var range := applicable[k];
      var startIdx := StartIdx(range);
      var endIdx := EndIdx(range, n);
      assert applicable[..k + 1] == applicable[..k] + [range];
      var i := startIdx;
      while i < endIdx
        invariant i == startIdx || startIdx < i <= endIdx
        invariant excluded == ExcludedSet(n, applicable[..k]) + SpanSet(startIdx, i)
      {
        excluded := excluded + {i};
        i := i + 1;
      }
      k := k + 1;
    }
    assert applicable[..k] == applicable;
  }
}
