/** What the line partitioner promises: the order in which ranges are used,
    clamping, and that selection and complement split a file's lines. */
module PartitionProperties {
  import opened Text
  import opened Ranges
  import opened Partition

  // ------------------------------------------------------------------------
  // Order of the applicable ranges

  /** Inserting `x` places it ahead of every range that starts where it does. */
  lemma {:induction false} InsertStartingAt(x: LineRange, ys: seq<LineRange>, k: nat)
    ensures StartingAt(Insert(x, ys), k) == (if x.start == k then [x] else []) + StartingAt(ys, k)
  {
    var here := if x.start == k then [x] else [];
    if ys == [] || x.start <= ys[0].start {
      var r := [x] + ys;
      assert r[0] == x && r[1..] == ys;
      assert StartingAt(r, k) == here + StartingAt(ys, k);
    } else {
      var rest := Insert(x, ys[1..]);
      InsertStartingAt(x, ys[1..], k);
      var r := [ys[0]] + rest;
      assert r[0] == ys[0] && r[1..] == rest;
      var first := if ys[0].start == k then [ys[0]] else [];
      assert StartingAt(r, k) == first + StartingAt(rest, k);
      assert StartingAt(ys, k) == first + StartingAt(ys[1..], k);
      assert first == [] || here == [];
    }
  }

  /** The sort is stable: the ranges that start on the same line keep their
      given order. */
  lemma {:induction false} SortByStartStable(xs: seq<LineRange>, k: nat)
    ensures StartingAt(SortByStart(xs), k) == StartingAt(xs, k)
  {
    if xs != [] {
      SortByStartStable(xs[1..], k);
      InsertStartingAt(xs[0], SortByStart(xs[1..]), k);
    }
  }

  /** The ranges used for a file are exactly those naming it, sorted by start
      line, ties in their given order; there are none exactly when no range
      names the file. */
  lemma ApplicableOrder(ranges: seq<LineRange>, path: string)
    ensures SortedByStart(Applicable(ranges, path))
    ensures forall k: nat :: StartingAt(Applicable(ranges, path), k) == StartingAt(Matching(ranges, path), k)
    ensures Applicable(ranges, path) == [] <==> forall r :: r in ranges ==> r.path != path
  {
    var app := Applicable(ranges, path);
    forall k: nat ensures StartingAt(app, k) == StartingAt(Matching(ranges, path), k) {
      SortByStartStable(Matching(ranges, path), k);
    }
    if app != [] {
      assert app[0] in app;
    }
  }

  /** Every range of the file is used as many times as it is given, so a
      repeated range selects its lines again; a range of another file is
      never used. */
  lemma ApplicableCount(ranges: seq<LineRange>, path: string)
    ensures forall r ::
      multiset(Applicable(ranges, path))[r] == if r.path == path then multiset(ranges)[r] else 0
  {
    MatchingCount(ranges, path);
  }

  // ------------------------------------------------------------------------
  // Clamping

  /** Parsed ranges never make the slice of `extract_lines_from_content` go
      out of bounds, whatever the length of the file. */
  lemma ValidRangesInBounds(content: string, ranges: seq<LineRange>, path: string)
    requires forall r :: r in ranges && r.path == path ==> Valid(r)
    ensures SlicesInBounds(content, ranges, path)
  {
  }

  /** Number of lines a range keeps once clamped to a file of `n` lines. */
  function ClampedLength(r: LineRange, n: nat): nat
  {
    if StartIdx(r) < EndIdx(r, n) then EndIdx(r, n) - StartIdx(r) else 0
  }

  function ClampedTotal(n: nat, rs: seq<LineRange>): nat
  {
    if rs == [] then 0 else ClampedTotal(n, rs[..|rs| - 1]) + ClampedLength(rs[|rs| - 1], n)
  }

  lemma {:induction false} SelectedIndicesCount(n: nat, rs: seq<LineRange>)
    ensures |SelectedIndices(n, rs)| == ClampedTotal(n, rs)
  {
    if rs != [] {
      SelectedIndicesCount(n, rs[..|rs| - 1]);
    }
  }

  /** The selection holds as many lines as the clamped ranges add up to: a
      range running past the end of the file contributes only the lines that
      exist. */
  lemma SelectedCount(lines: seq<string>, rs: seq<LineRange>)
    requires forall r :: r in rs ==> SliceInBounds(r, |lines|)
    ensures |SelectedLines(lines, rs)| == ClampedTotal(|lines|, rs)
  {
    SelectedLinesAt(lines, rs);
    SelectedIndicesCount(|lines|, rs);
  }

  // ------------------------------------------------------------------------
  // Complement

  /** A line is left for the remainder exactly when no range of the file
      covers it. */
  lemma RemainderKeepsUncovered(ranges: seq<LineRange>, path: string, n: nat, i: nat)
    requires i < n
    ensures i in KeptIndices(n, ExcludedSet(n, Applicable(ranges, path)))
      <==> forall r :: r in ranges && r.path == path ==> !Covers(r, n, i)
  {
    KeptIndicesMembers(n, ExcludedSet(n, Applicable(ranges, path)));
  }

  /** A range of the file from line 1 to (at least) its last line leaves an
      empty remainder. */
  lemma WholeFileRangeLeavesNothing(content: string, ranges: seq<LineRange>, path: string, r: LineRange)
    requires r in ranges && r.path == path && r.start <= 1 && |Lines(content)| <= r.end
    ensures RemainderText(content, ranges, path) == []
  {
    var ls := Lines(content);
    var n := |ls|;
    var app := Applicable(ranges, path);
    assert r in app;
    var ex := ExcludedSet(n, app);
    forall i: nat | i < n ensures i in ex {
      assert Covers(r, n, i);
    }
    NothingKept(n, ex);
    UnexcludedAt(ls, ex);
  }

  lemma {:induction false} NothingKept(n: nat, ex: set<nat>)
    requires forall i: nat :: i < n ==> i in ex
    ensures KeptIndices(n, ex) == []
  {
    if n > 0 {
      NothingKept(n - 1, ex);
    }
  }

  // ------------------------------------------------------------------------
  // A single range

  /** The only range of a file is its own applicable list. */
  lemma ApplicableSingle(r: LineRange)
    ensures Applicable([r], r.path) == [r]
  {
    assert Matching([r], r.path) == [r];
  }

  /** Two ranges of a file, the first starting no later than the second, are
      used in the order given. */
  lemma ApplicablePair(r1: LineRange, r2: LineRange)
    requires r1.path == r2.path && r1.start <= r2.start
    ensures Applicable([r1, r2], r1.path) == [r1, r2]
  {
    var rs := [r1, r2];
    assert rs[1..] == [r2] && [r2][1..] == [];
    assert Matching([r2], r1.path) == [r2];
    assert Matching(rs, r1.path) == rs;
    assert SortByStart([r2]) == [r2];
  }

  /** Keeping the lines outside one block `[lo, hi)` of indices leaves the
      lines before the block followed by the lines after it. */
  lemma {:induction false} UnexcludedOutside(lines: seq<string>, ex: set<nat>, lo: nat, hi: nat)
    requires lo <= hi <= |lines|
    requires forall i: nat :: i < |lines| ==> (i in ex <==> lo <= i < hi)
    ensures Unexcluded(lines, ex) == lines[..lo] + lines[hi..]
  {
    if lines != [] {
      var m := |lines| - 1;
      var lo', hi' := if lo < m then lo else m, if hi < m then hi else m;
      UnexcludedOutside(lines[..m], ex, lo', hi');
      assert lines[..m][..lo'] == lines[..lo'];
      if hi <= m {
        assert lines[hi..] == lines[..m][hi..] + [lines[m]];
      } else if lo <= m {
        assert lines[..m][m..] == [];
      } else {
        assert lines == lines[..m] + [lines[m]];
      }
    }
  }

  /** One range of a file selects exactly its clamped slice of lines: from
      line `start` to line `end` or the last line, whichever comes first. */
  lemma SingleRangeSelection(content: string, r: LineRange)
    requires Valid(r)
    ensures SlicesInBounds(content, [r], r.path)
    ensures var ls := Lines(content);
      var hi := EndIdx(r, |ls|);
      var lo := if StartIdx(r) < hi then StartIdx(r) else hi;
      SelectedText(content, [r], r.path) == Join(ls[lo..hi], '\n')
  {
    ApplicableSingle(r);
    var ls := Lines(content);
    assert [r][..0] == [];
    assert SelectedLines(ls, [r]) ==
      if StartIdx(r) < |ls| then ls[StartIdx(r)..EndIdx(r, |ls|)] else [];
  }

  /** What one range of a file leaves: the lines before its clamped slice and
      the lines after it, in file order. */
  lemma SingleRangeRemainder(content: string, r: LineRange)
    ensures var ls := Lines(content);
      var hi := EndIdx(r, |ls|);
      var lo := if StartIdx(r) < hi then StartIdx(r) else hi;
      RemainderText(content, [r], r.path) == Join(ls[..lo] + ls[hi..], '\n')
  {
    ApplicableSingle(r);
    var ls := Lines(content);
    var hi := EndIdx(r, |ls|);
    var lo := if StartIdx(r) < hi then StartIdx(r) else hi;
    var ex := ExcludedSet(|ls|, [r]);
    forall i: nat | i < |ls| ensures i in ex <==> lo <= i < hi {
      assert CoveredBy([r], |ls|, i) <==> Covers(r, |ls|, i) by {
        assert r in [r];
      }
    }
    UnexcludedOutside(ls, ex, lo, hi);
  }

  // ------------------------------------------------------------------------
  // Selection and complement split the lines

  /** Every line of the file goes to exactly one side: into the selection
      (as often as ranges cover it) or into the remainder. */
  lemma EveryLineOnOneSide(n: nat, rs: seq<LineRange>, i: nat)
    requires i < n
    ensures i in SelectedIndices(n, rs) <==> i !in KeptIndices(n, ExcludedSet(n, rs))
  {
    KeptIndicesMembers(n, ExcludedSet(n, rs));
  }

  predicate Disjoint(a: LineRange, b: LineRange)
  {
    a.end < b.start || b.end < a.start
  }

  /** No two ranges of `path` share a line. */
  predicate PairwiseDisjointOn(ranges: seq<LineRange>, path: string)
  {
    forall i, j :: 0 <= i < j < |ranges| && ranges[i].path == path && ranges[j].path == path ==>
      Disjoint(ranges[i], ranges[j])
  }

  predicate PairwiseDisjoint(rs: seq<LineRange>)
  {
    forall i, j :: 0 <= i < j < |rs| ==> Disjoint(rs[i], rs[j])
  }

  /** Each range ends before the next one starts. */
  predicate Separated(rs: seq<LineRange>)
  {
    forall i, j :: 0 <= i < j < |rs| ==> rs[i].end < rs[j].start
  }

  lemma {:induction false} MatchingDisjoint(ranges: seq<LineRange>, path: string)
    requires PairwiseDisjointOn(ranges, path)
    ensures PairwiseDisjoint(Matching(ranges, path))
  {
    if ranges != [] {
      var tail := Matching(ranges[1..], path);
      assert PairwiseDisjointOn(ranges[1..], path) by {
        forall i, j | 0 <= i < j < |ranges[1..]| && ranges[1..][i].path == path && ranges[1..][j].path == path
          ensures Disjoint(ranges[1..][i], ranges[1..][j])
        {
          assert ranges[1..][i] == ranges[i + 1] && ranges[1..][j] == ranges[j + 1];
        }
      }
      MatchingDisjoint(ranges[1..], path);
      if ranges[0].path == path {
        forall y | y in tail ensures Disjoint(ranges[0], y) {
          var p :| 0 <= p < |ranges[1..]| && ranges[1..][p] == y;
          assert ranges[p + 1] == y;
        }
        var ms := [ranges[0]] + tail;
        forall i, j | 0 <= i < j < |ms| ensures Disjoint(ms[i], ms[j]) {
          if i == 0 {
            assert ms[j] == tail[j - 1] && ms[j] in tail;
          } else {
            assert ms[i] == tail[i - 1] && ms[j] == tail[j - 1];
          }
        }
      }
    }
  }

  lemma ConsSeparated(h: LineRange, t: seq<LineRange>)
    requires forall z :: z in t ==> h.end < z.start
    requires Separated(t)
    ensures Separated([h] + t)
  {
    var r := [h] + t;
    forall i, j | 0 <= i < j < |r| ensures r[i].end < r[j].start {
      if i == 0 {
        assert r[j] == t[j - 1] && r[j] in t;
      } else {
        assert r[i] == t[i - 1] && r[j] == t[j - 1];
      }
    }
  }

  lemma {:induction false} InsertSeparated(x: LineRange, ys: seq<LineRange>)
    requires Valid(x) && forall y :: y in ys ==> Valid(y) && Disjoint(x, y)
    requires Separated(ys)
    ensures Separated(Insert(x, ys))
  {
    if ys == [] || x.start <= ys[0].start {
      forall y | y in ys ensures x.end < y.start {
        var p :| 0 <= p < |ys| && ys[p] == y;
        assert ys[0] in ys;
        if p > 0 {
          assert ys[0].end < ys[p].start;
        }
      }
      ConsSeparated(x, ys);
    } else {
      var rest := Insert(x, ys[1..]);
      assert Separated(ys[1..]) by {
        forall i, j | 0 <= i < j < |ys[1..]| ensures ys[1..][i].end < ys[1..][j].start {
          assert ys[1..][i] == ys[i + 1] && ys[1..][j] == ys[j + 1];
        }
      }
      assert forall y :: y in ys[1..] ==> y in ys;
      InsertSeparated(x, ys[1..]);
      assert ys[0] in ys;
      forall z | z in rest ensures ys[0].end < z.start {
        assert z in multiset(rest);
        if z != x {
          var p :| 0 <= p < |ys[1..]| && ys[1..][p] == z;
          assert ys[p + 1] == z;
        }
      }
      ConsSeparated(ys[0], rest);
    }
  }

  /** Sorting pairwise disjoint valid ranges lines them up one after another. */
  lemma {:induction false} SortSeparated(xs: seq<LineRange>)
    requires forall x :: x in xs ==> Valid(x)
    requires PairwiseDisjoint(xs)
    ensures Separated(SortByStart(xs))
  {
    if xs != [] {
      var tail := xs[1..];
      assert forall x :: x in tail ==> x in xs;
      assert PairwiseDisjoint(tail) by {
        forall i, j | 0 <= i < j < |tail| ensures Disjoint(tail[i], tail[j]) {
          assert tail[i] == xs[i + 1] && tail[j] == xs[j + 1];
        }
      }
      SortSeparated(tail);
      var ys := SortByStart(tail);
      forall y | y in ys ensures Valid(y) && Disjoint(xs[0], y) {
        assert y in multiset(ys);
        var p :| 0 <= p < |tail| && tail[p] == y;
        assert xs[p + 1] == y;
      }
      assert xs[0] in xs;
      InsertSeparated(xs[0], ys);
    }
  }

  /** Separated valid ranges select each line at most once, in file order. */
  lemma {:induction false} SelectedIndicesIncreasing(n: nat, rs: seq<LineRange>)
    requires forall r :: r in rs ==> Valid(r)
    requires Separated(rs)
    ensures StrictlyIncreasing(SelectedIndices(n, rs))
  {
    if rs != [] {
      var pre, last := rs[..|rs| - 1], rs[|rs| - 1];
      assert forall r :: r in pre ==> r in rs;
      assert Separated(pre);
      SelectedIndicesIncreasing(n, pre);
      var a := SelectedIndices(n, pre);
      var b := Span(StartIdx(last), EndIdx(last, n));
      assert last in rs;
      forall x | x in a ensures x < StartIdx(last) {
        var r :| r in pre && Covers(r, n, x);
        var p :| 0 <= p < |pre| && pre[p] == r;
        assert rs[p].end < rs[|rs| - 1].start;
      }
      var c := a + b;
      forall i, j | 0 <= i < j < |c| ensures c[i] < c[j] {
        if j < |a| {
          assert c[i] == a[i] && c[j] == a[j];
        } else if i < |a| {
          assert c[i] == a[i] && a[i] in a;
          assert c[j] == b[j - |a|];
        } else {
          assert c[i] == b[i - |a|] && c[j] == b[j - |a|];
        }
      }
    }
  }

  /** A strictly increasing run of indices below `n` and the indices that are
      left over together number `n`. */
  lemma {:induction false} CountPartition(n: nat, idx: seq<nat>, ex: set<nat>)
    requires StrictlyIncreasing(idx)
    requires forall j :: 0 <= j < |idx| ==> idx[j] < n
    requires forall i: nat :: i < n ==> (i in idx <==> i in ex)
    ensures |idx| + |KeptIndices(n, ex)| == n
  {
    if n == 0 {
      IncreasingBelow(idx, 0);
    } else if n - 1 in idx {
      var pre := DropTop(n, idx);
      CountPartition(n - 1, pre, ex);
    } else {
      BelowTop(n, idx);
      CountPartition(n - 1, idx, ex);
    }
  }

  /** Indices below `n` that leave out `n - 1` stay below `n - 1`. */
  lemma BelowTop(n: nat, idx: seq<nat>)
    requires n > 0 && n - 1 !in idx
    requires forall j :: 0 <= j < |idx| ==> idx[j] < n
    ensures forall j :: 0 <= j < |idx| ==> idx[j] < n - 1
  {
    forall j | 0 <= j < |idx| ensures idx[j] < n - 1 {
      assert idx[j] in idx;
    }
  }

  /** A strictly increasing sequence of indices below `n` has at most `n`
      elements. */
  lemma {:induction false} IncreasingBelow(idx: seq<nat>, n: nat)
    requires StrictlyIncreasing(idx)
    requires forall j :: 0 <= j < |idx| ==> idx[j] < n
    ensures |idx| <= n
  {
    if idx != [] {
      var last := |idx| - 1;
      var pre := idx[..last];
      assert forall j :: 0 <= j < |pre| ==> pre[j] == idx[j];
      IncreasingBelow(pre, idx[last]);
    }
  }

  /** An increasing sequence of indices below `n` that holds `n - 1` holds it
      last; what comes before it stays below `n - 1`. */
  lemma DropTop(n: nat, idx: seq<nat>) returns (pre: seq<nat>)
    requires n > 0 && n - 1 in idx
    requires StrictlyIncreasing(idx)
    requires forall j :: 0 <= j < |idx| ==> idx[j] < n
    ensures idx == pre + [n - 1]
    ensures StrictlyIncreasing(pre)
    ensures forall j :: 0 <= j < |pre| ==> pre[j] < n - 1
    ensures forall i :: i in idx <==> i in pre || i == n - 1
  {
    var k :| 0 <= k < |idx| && idx[k] == n - 1;
    var last := |idx| - 1;
    assert idx[k] <= idx[last];
    pre := idx[..last];
    assert idx == pre + [idx[last]];
    forall j | 0 <= j < |pre| ensures pre[j] < n - 1 {
      assert pre[j] == idx[j] && idx[j] < idx[last];
    }
  }

  /** When the ranges of a file are valid and share no line, the selection
      and the remainder together hold exactly as many lines as the file. */
  lemma LineCountsAddUp(content: string, ranges: seq<LineRange>, path: string)
    requires forall r :: r in ranges && r.path == path ==> Valid(r)
    requires PairwiseDisjointOn(ranges, path)
    ensures SlicesInBounds(content, ranges, path)
    ensures forall r :: r in Applicable(ranges, path) ==> SliceInBounds(r, |Lines(content)|)
    ensures |SelectedLines(Lines(content), Applicable(ranges, path))|
      + |Unexcluded(Lines(content), ExcludedSet(|Lines(content)|, Applicable(ranges, path)))| == |Lines(content)|
  {
    var ls := Lines(content);
    var app := Applicable(ranges, path);
    var ms := Matching(ranges, path);
    MatchingDisjoint(ranges, path);
    SortSeparated(ms);
    SelectedIndicesIncreasing(|ls|, app);
    SelectedLinesAt(ls, app);
    UnexcludedAt(ls, ExcludedSet(|ls|, app));
    CountPartition(|ls|, SelectedIndices(|ls|, app), ExcludedSet(|ls|, app));
  }

  /** The unit test of a round trip: for a file whose lines are all non-empty
      and do not end in '\r', and valid ranges that share no line, the lines
      of the two outputs, split again, add up to the lines of the file. */
  lemma RejoinedCountsAddUp(content: string, ranges: seq<LineRange>, path: string)
    requires forall r :: r in ranges && r.path == path ==> Valid(r)
    requires PairwiseDisjointOn(ranges, path)
    requires forall l :: l in Lines(content) ==> l != [] && !EndsWithCR(l)
    ensures SlicesInBounds(content, ranges, path)
    ensures |Lines(SelectedText(content, ranges, path))| + |Lines(RemainderText(content, ranges, path))|
      == |Lines(content)|
  {
    var ls := Lines(content);
    var app := Applicable(ranges, path);
    if app == [] {
      assert Lines([]) == [];
    } else {
      var sel := SelectedLines(ls, app);
      var kept := Unexcluded(ls, ExcludedSet(|ls|, app));
      SelectedLinesAt(ls, app);
      forall j | 0 <= j < |sel| ensures sel[j] in ls {
        assert sel[j] == ls[SelectedIndices(|ls|, app)[j]];
      }
      UnexcludedAt(ls, ExcludedSet(|ls|, app));
      forall j | 0 <= j < |kept| ensures kept[j] in ls {
        assert kept[j] == ls[KeptIndices(|ls|, ExcludedSet(|ls|, app))[j]];
      }
      LinesOfJoin(sel);
      LinesOfJoin(kept);
      LineCountsAddUp(content, ranges, path);
    }
  }
}
