/** The sweep of SelectionGeometryUtils::UnionArea, proved to count unit cells. */
module UnionArea {
  import opened Basics
  import opened Counting
  import opened Rects
  import Sorting

  // ----- the length of a union of intervals

  datatype Interval = Interval(start: int, end: int)

  ghost predicate InSome(intervals: seq<Interval>, p: int) {
    exists v :: v in intervals && v.start <= p < v.end
  }

  ghost function Line(intervals: seq<Interval>): int -> bool { p => InSome(intervals, p) }

  /** How many points of [lo, hi) some interval covers. */
  ghost function Measure(intervals: seq<Interval>, lo: int, hi: int): nat {
    Count(Line(intervals), lo, hi)
  }

  lemma MeasureAdvance(s: seq<Interval>, lo: int, a: int, b: int, c: int)
    requires lo <= a <= b <= c
    requires forall p :: a <= p < b ==> InSome(s, p)
    requires forall p :: b <= p < c ==> !InSome(s, p)
    ensures Measure(s, lo, c) == Measure(s, lo, a) + (b - a)
  {
    var f := Line(s);
    CountSplit(f, lo, a, c);
    CountSplit(f, a, b, c);
    CountUniform(f, a, b, true);
    CountUniform(f, b, c, false);
  }

  lemma MeasureSame(s: seq<Interval>, t: seq<Interval>, lo: int, a: int, b: int, hi: int)
    requires lo <= a <= b <= hi
    requires forall p :: InSome(s, p) <==> InSome(t, p)
    requires forall p :: lo <= p < a || b <= p < hi ==> !InSome(t, p)
    ensures Measure(t, lo, hi) == Measure(s, a, b)
  {
    var f, g := Line(s), Line(t);
    CountSplit(g, lo, a, hi);
    CountSplit(g, a, b, hi);
    CountUniform(g, lo, a, false);
    CountUniform(g, b, hi, false);
    CountCongruent(g, f, a, b);
  }

  predicate Within(intervals: seq<Interval>, lo: int, hi: int) {
    forall v :: v in intervals ==> lo <= v.start <= v.end <= hi
  }

  ghost predicate SortedByStart(s: seq<Interval>) {
    && (forall v :: v in s ==> v.start <= v.end)
    && (forall i, j :: 0 <= i < j < |s| ==> s[i].start <= s[j].start)
  }

  /** After k intervals: what lies left of the open run [curStart, curEnd) is counted, the
      run is covered, and no interval seen so far reaches past it. */
  ghost predicate Merged(s: seq<Interval>, k: nat, mergedLen: int, curStart: int, curEnd: int) {
    && 0 < k <= |s|
    && s[0].start <= curStart <= s[k - 1].start && curStart <= curEnd
    && (forall j :: 0 <= j < k ==> s[j].end <= curEnd)
    && (exists j :: 0 <= j < k && s[j].end == curEnd)
    && (forall p :: curStart <= p < curEnd ==> InSome(s, p))
    && mergedLen == Measure(s, s[0].start, curStart)
  }

  lemma MergeStep(s: seq<Interval>, k: nat, mergedLen: int, curStart: int, curEnd: int)
    requires SortedByStart(s) && k < |s| && Merged(s, k, mergedLen, curStart, curEnd)
    ensures if s[k].start > curEnd
            then Merged(s, k + 1, mergedLen + (curEnd - curStart), s[k].start, s[k].end)
            else Merged(s, k + 1, mergedLen, curStart, Max(curEnd, s[k].end))
  {
    assert s[k] in s;
    assert s[k - 1].start <= s[k].start;
    if s[k].start > curEnd {
      MeasureAdvance(s, s[0].start, curStart, curEnd, s[k].start);
    }
  }

  lemma MergeEnd(intervals: seq<Interval>, s: seq<Interval>, mergedLen: int, curStart: int, curEnd: int, lo: int,
      hi: int)
    requires s != [] && forall v :: v in s <==> v in intervals
    requires SortedByStart(s) && Merged(s, |s|, mergedLen, curStart, curEnd)
    requires Within(intervals, lo, hi)
    ensures mergedLen + (curEnd - curStart) == Measure(intervals, lo, hi)
  {
    assert forall k :: 0 <= k < |s| ==> s[k] in s;
    MeasureAdvance(s, s[0].start, curStart, curEnd, curEnd);
    MeasureSame(s, intervals, lo, s[0].start, curEnd, hi);
  }

  /** Whatever window the intervals lie in, the total is the measure of their union there. */
  ghost predicate IsMeasure(intervals: seq<Interval>, total: int) {
    forall lo, hi :: lo <= hi && Within(intervals, lo, hi) ==> total == Measure(intervals, lo, hi)
  }

  lemma MergeTotal(intervals: seq<Interval>, s: seq<Interval>, mergedLen: int, curStart: int, curEnd: int)
    requires s != [] && forall v :: v in s <==> v in intervals
    requires SortedByStart(s) && Merged(s, |s|, mergedLen, curStart, curEnd)
    ensures IsMeasure(intervals, mergedLen + (curEnd - curStart))
  {
    forall lo, hi | lo <= hi && Within(intervals, lo, hi)
      ensures mergedLen + (curEnd - curStart) == Measure(intervals, lo, hi)
    {
      MergeEnd(intervals, s, mergedLen, curStart, curEnd, lo, hi);
    }
  }

  lemma NoIntervals()
    ensures IsMeasure([], 0)
  {
    forall lo, hi | lo <= hi ensures Measure([], lo, hi) == 0 {
      CountUniform(Line([]), lo, hi, false);
    }
  }

  method SortByStart(intervals: seq<Interval>) returns (s: seq<Interval>)
    requires forall v :: v in intervals ==> v.start <= v.end
    ensures |s| == |intervals| && SortedByStart(s) && forall v :: v in s <==> v in intervals
  {
    var byStart := (v: Interval, w: Interval) => v.start <= w.start;
    s := Sorting.Sort(intervals, byStart);
    Sorting.SameElements(s, intervals);
    assert |s| == |multiset(s)| == |multiset(intervals)|;
    forall i, j | 0 <= i < j < |s| ensures s[i].start <= s[j].start {
      assert byStart(s[i], s[j]);
    }
  }

  /** The total length of a union of intervals, whatever window it is measured in. */
  method MergeIntervalLengths(intervals: seq<Interval>) returns (mergedLen: int)
    requires forall v :: v in intervals ==> v.start <= v.end
    ensures IsMeasure(intervals, mergedLen)
  {
    if intervals == [] {
      NoIntervals();
      return 0;
    }
    var s := SortByStart(intervals);
    mergedLen := 0;
    var curStart, curEnd := s[0].start, s[0].end;
    assert s[0] in s;
    for k := 1 to |s|
      invariant Merged(s, k, mergedLen, curStart, curEnd)
    {
      MergeStep(s, k, mergedLen, curStart, curEnd);
      if s[k].start <= curEnd {
        if s[k].end > curEnd {
          curEnd := s[k].end;
        }
      } else {
        mergedLen := mergedLen + (curEnd - curStart);
        curStart := s[k].start;
        curEnd := s[k].end;
      }
    }
    MergeTotal(intervals, s, mergedLen, curStart, curEnd);
    mergedLen := mergedLen + (curEnd - curStart);
  }

  // ----- the sweep

  ghost predicate InSomeRect(list: seq<Rect>, p: int, q: int) {
    exists r :: r in list && r.x <= p < r.Right() && r.y <= q < r.Bottom()
  }

  ghost function Plane(list: seq<Rect>): (int, int) -> bool { (p, q) => InSomeRect(list, p, q) }

  /** Covered cells in columns [lo, hi) from row y0 up to sweep line y. */
  ghost function AreaBelow(list: seq<Rect>, lo: int, hi: int, y0: int, y: int): nat {
    WindowCount(Plane(list), lo, hi, y0, y)
  }

  ghost predicate HasEdges(ys: seq<int>, list: seq<Rect>) {
    forall r :: r in list ==> r.y in ys && r.Bottom() in ys
  }

  predicate Spans(r: Rect, y0: int, y1: int) { r.y <= y0 && r.Bottom() >= y1 }

  ghost predicate AreSlabIntervals(intervals: seq<Interval>, list: seq<Rect>, y0: int, y1: int) {
    forall v :: v in intervals <==> exists r :: r in list && Spans(r, y0, y1) && v == Interval(r.x, r.Right())
  }

  lemma EdgeOutside(ys: seq<int>, i: nat, y: int)
    requires Sorting.StrictlyAscending(ys) && i + 1 < |ys| && y in ys
    ensures y <= ys[i] || ys[i + 1] <= y
  {
    var j :| 0 <= j < |ys| && ys[j] == y;
  }

  /** Between consecutive stops every row is covered alike. */
  lemma SlabRow(list: seq<Rect>, ys: seq<int>, i: nat, intervals: seq<Interval>, lo: int, hi: int, q: int)
    requires Sorting.StrictlyAscending(ys) && i + 1 < |ys| && HasEdges(ys, list)
    requires AreSlabIntervals(intervals, list, ys[i], ys[i + 1]) && ys[i] <= q < ys[i + 1]
    ensures RowCount(Plane(list), lo, hi, q) == Measure(intervals, lo, hi)
  {
    forall p ensures InSomeRect(list, p, q) <==> InSome(intervals, p) {
      if InSomeRect(list, p, q) {
        var r :| r in list && r.x <= p < r.Right() && r.y <= q < r.Bottom();
        EdgeOutside(ys, i, r.y);
        EdgeOutside(ys, i, r.Bottom());
        assert Interval(r.x, r.Right()) in intervals;
      }
      if InSome(intervals, p) {
        var v :| v in intervals && v.start <= p < v.end;
        var r :| r in list && Spans(r, ys[i], ys[i + 1]) && v == Interval(r.x, r.Right());
      }
    }
    var f := Plane(list);
    CountCongruent(p => f(p, q), Line(intervals), lo, hi);
  }

  lemma SlabArea(list: seq<Rect>, ys: seq<int>, i: nat, intervals: seq<Interval>, lo: int, hi: int)
    requires Sorting.StrictlyAscending(ys) && i + 1 < |ys| && HasEdges(ys, list)
    requires AreSlabIntervals(intervals, list, ys[i], ys[i + 1])
    ensures AreaBelow(list, lo, hi, ys[0], ys[i + 1]) ==
            AreaBelow(list, lo, hi, ys[0], ys[i]) + Measure(intervals, lo, hi) * (ys[i + 1] - ys[i])
  {
    var f, length := Plane(list), Measure(intervals, lo, hi);
    forall q | ys[i] <= q < ys[i + 1] ensures RowCount(f, lo, hi, q) == length {
      SlabRow(list, ys, i, intervals, lo, hi, q);
    }
    WindowExtend(f, lo, hi, ys[0], ys[i], ys[i + 1], length);
  }

  lemma SlabBounds(list: seq<Rect>, y0: int, y1: int, intervals: seq<Interval>, lo: int, hi: int)
    requires lo <= INT32_MIN && INT32_MAX <= hi && Normal(list) && AreSlabIntervals(intervals, list, y0, y1)
    ensures Within(intervals, lo, hi) && forall v :: v in intervals ==> v.start <= v.end
    ensures intervals == [] ==> Measure(intervals, lo, hi) == 0
  {
    if intervals == [] {
      CountUniform(Line(intervals), lo, hi, false);
    }
  }

  ghost predicate IsEdge(y: int, list: seq<Rect>) { exists r :: r in list && (y == r.y || y == r.Bottom()) }

  /** The distinct top and bottom edges, in ascending order: all of them and nothing else. */
  method SweepStops(normed: seq<Rect>) returns (ys: seq<int>)
    ensures Sorting.StrictlyAscending(ys)
    ensures HasEdges(ys, normed) && forall y :: y in ys ==> IsEdge(y, normed)
  {
    var edges: seq<int> := [];
    for k := 0 to |normed|
      invariant HasEdges(edges, normed[..k])
      invariant forall y :: y in edges ==> IsEdge(y, normed)
    {
      assert normed[..k + 1] == normed[..k] + [normed[k]];
      assert normed[k] in normed;
      edges := edges + [normed[k].y, normed[k].Bottom()];
    }
    assert normed[..|normed|] == normed;
    ys := Sorting.SortUnique(edges);
  }

  method SlabIntervals(normed: seq<Rect>, y0: int, y1: int) returns (intervals: seq<Interval>)
    ensures AreSlabIntervals(intervals, normed, y0, y1)
  {
    intervals := [];
    for k := 0 to |normed|
      invariant AreSlabIntervals(intervals, normed[..k], y0, y1)
    {
      assert normed[..k + 1] == normed[..k] + [normed[k]];
      assert forall r :: r in normed[..k + 1] <==> r in normed[..k] || r == normed[k];
      if normed[k].y <= y0 && normed[k].Bottom() >= y1 {
        intervals := intervals + [Interval(normed[k].x, normed[k].Right())];
      }
    }
    assert normed[..|normed|] == normed;
  }

  /** The slab loop: what it adds up between stops is the covered area between them. */
  method SweepSlabs(normed: seq<Rect>, ys: seq<int>, ghost lo: int, ghost hi: int) returns (total: int)
    requires Normal(normed) && lo <= INT32_MIN && INT32_MAX <= hi
    requires Sorting.StrictlyAscending(ys) && ys != [] && HasEdges(ys, normed)
    ensures total == AreaBelow(normed, lo, hi, ys[0], ys[|ys| - 1])
  {
    total := 0;
    for i := 0 to |ys| - 1
      invariant total == AreaBelow(normed, lo, hi, ys[0], ys[i])
    {
      var y0, y1 := ys[i], ys[i + 1];
      if y1 <= y0 {
        continue;
      }
      var intervals := SlabIntervals(normed, y0, y1);
      SlabArea(normed, ys, i, intervals, lo, hi);
      SlabBounds(normed, y0, y1, intervals, lo, hi);
      if intervals == [] {
        continue;
      }
      var length := MergeIntervalLengths(intervals);
      total := total + length * (y1 - y0);
    }
  }

  /** The number of unit cells in at least one non-empty rectangle, cells past INT32_MAX
      excepted. */
  method UnionArea(list: seq<Rect>) returns (total: int)
    ensures total == |Visible(list)|
  {
    NormalizedCoverage(list);
    if list == [] {
      return 0;
    }
    var normed := NormalizedNonEmpty(list);
    if normed == [] {
      return 0;
    }
    NormalizedIsNormal(list);
    var ys := SweepStops(normed);
    assert normed[0] in normed;
    ghost var lo, hi := PlaneWindow();
    total := SweepSlabs(normed, ys, lo, hi);
    WholeSweep(normed, ys, lo, hi);
  }

  /** Columns wide enough for every rectangle. */
  lemma PlaneWindow() returns (lo: int, hi: int)
    ensures lo <= INT32_MIN && INT32_MAX <= hi
  {
    lo, hi := INT32_MIN, INT32_MAX;
  }

  /** Nothing lies before the first stop or after the last. */
  lemma WholeSweep(list: seq<Rect>, ys: seq<int>, lo: int, hi: int)
    requires lo <= INT32_MIN && INT32_MAX <= hi && Normal(list) && Sorting.StrictlyAscending(ys) && ys != []
    requires HasEdges(ys, list)
    ensures AreaBelow(list, lo, hi, ys[0], ys[|ys| - 1]) == |Covered(list)|
  {
    forall c
      ensures c in Covered(list) <==>
                lo <= c.0 < hi && ys[0] <= c.1 < ys[|ys| - 1] && InSomeRect(list, c.0, c.1)
    {
      if c in Covered(list) {
        var r :| r in list && c in Cells(r);
        var i :| 0 <= i < |ys| && ys[i] == r.y;
        var j :| 0 <= j < |ys| && ys[j] == r.Bottom();
      }
      if InSomeRect(list, c.0, c.1) {
        var r :| r in list && r.x <= c.0 < r.Right() && r.y <= c.1 < r.Bottom();
        assert (c.0, c.1) in Cells(r);
      }
    }
    WindowIsCardinality(Plane(list), lo, hi, ys[0], ys[|ys| - 1], Covered(list));
  }

  // ----- what the area means

  /** The area depends only on which rectangles are listed, not on order or repetition. */
  lemma AreaIgnoresOrder(list: seq<Rect>, other: seq<Rect>)
    requires forall r :: r in list <==> r in other
    ensures |Visible(list)| == |Visible(other)|
  {
    forall c ensures c in Covered(list) <==> c in Covered(other) {
      if c in Covered(list) {
        var r :| r in list && c in Cells(r);
        assert r in other;
      }
      if c in Covered(other) {
        var r :| r in other && c in Cells(r);
        assert r in list;
      }
    }
    assert Visible(list) == Visible(other);
  }

  /** Nothing is lost to clipping exactly when no non-empty rectangle passes INT32_MAX. */
  lemma AreaIsExact(list: seq<Rect>)
    ensures |Visible(list)| == |Covered(list)| <==> forall r :: r in list && !r.IsEmpty() ==> Inside(r)
  {
    assert Visible(list) <= Covered(list);
    SubsetSize(Visible(list), Covered(list));
    if forall r :: r in list && !r.IsEmpty() ==> Inside(r) {
      forall c | c in Covered(list) ensures Representable(c) {
        var r :| r in list && c in Cells(r);
      }
      assert Visible(list) == Covered(list);
    } else {
      var r :| r in list && !r.IsEmpty() && !Inside(r);
      var c := (r.Right() - 1, r.Bottom() - 1);
      assert c in Cells(r);
      assert c in Covered(list) && c !in Visible(list);
    }
  }

  function Area(r: Rect): nat {
    var w, h := AbsInt64(r.width), AbsInt64(r.height);
    assert 0 <= w * h;
    w * h
  }

  function SumAreas(list: seq<Rect>): nat {
    if list == [] then 0 else Area(Normalize(list[0])) + SumAreas(list[1..])
  }

  method TotalArea(list: seq<Rect>) returns (total: int)
    ensures total == SumAreas(list)
  {
    total := 0;
    for i := 0 to |list|
      invariant total + SumAreas(list[i..]) == SumAreas(list)
    {
      total := total + Area(Normalize(list[i]));
    }
  }

  lemma CellsSize(r: Rect)
    requires r.width >= 0 && r.height >= 0
    ensures |Cells(r)| == r.width * r.height
  {
    var f := (p: int, q: int) => true;
    forall q | r.y <= q < r.Bottom() ensures RowCount(f, r.x, r.Right(), q) == r.width {
      CountUniform(p => f(p, q), r.x, r.Right(), true);
    }
    WindowExtend(f, r.x, r.Right(), r.y, r.y, r.Bottom(), r.width);
    forall c ensures c in Cells(r) <==> r.x <= c.0 < r.Right() && r.y <= c.1 < r.Bottom() && f(c.0, c.1) {
      assert c == (c.0, c.1);
    }
    WindowIsCardinality(f, r.x, r.Right(), r.y, r.Bottom(), Cells(r));
  }

  /** Overlaps are counted once: UnionArea never exceeds TotalArea. */
  lemma {:induction false} AreaAtMostTotal(list: seq<Rect>)
    ensures |Visible(list)| <= SumAreas(list)
  {
    if list == [] {
      assert Visible(list) == {};
    } else {
      AreaAtMostTotal(list[1..]);
      assert list == [list[0]] + list[1..];
      VisibleCons(list[0], list[1..]);
    }
  }

  lemma VisibleCons(r: Rect, rest: seq<Rect>)
    ensures |Visible([r] + rest)| <= Area(Normalize(r)) + |Visible(rest)|
  {
    CoveredCons(r, rest);
    if r.IsEmpty() {
      assert Visible([r] + rest) == Visible(rest);
    } else {
      NormalizeMeaning(r);
      NormalizeCells(r);
      CellsSize(Normalize(r));
      assert Visible([r] + rest) == Cells(Normalize(r)) + Visible(rest);
    }
  }
}
