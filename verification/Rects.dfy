/** Selection rectangles: the value computations of SelectionGeometryUtils, and their
    meaning as sets of unit cells. */
module Rects {
  import opened Basics

  /** static_cast<int32_t> of an int64: two's complement truncation. */
  function ToInt32(v: int): int32 {
    (v + 0x8000_0000) % 0x1_0000_0000 - 0x8000_0000
  }

  function ClampToInt32(v: int): int32 {
    if v < INT32_MIN then INT32_MIN else if v > INT32_MAX then INT32_MAX else v
  }

  function AbsInt64(v: int): nat { if v < 0 then -v else v }

  datatype Rect = Rect(x: int32, y: int32, width: int32, height: int32) {
    predicate IsEmpty() { width <= 0 || height <= 0 }

    function Right(): int { x + width }

    function Bottom(): int { y + height }
  }

  const EMPTY_RECT := Rect(0, 0, 0, 0)

  /** One axis of ClampRect: the clamped near edge and the int32 extent. */
  function ClampEdge(start: int, extent: int): int32 {
    ClampToInt32(if extent < 0 then start + extent else start)
  }

  function ClampExtent(start: int, extent: int): int32 {
    var near := ClampEdge(start, extent);
    var far := ClampToInt32(if extent < 0 then start else start + extent);
    ToInt32(Max(far, near) - near)
  }

  function ClampRect(x: int, y: int, width: int, height: int): Rect {
    Rect(ClampEdge(x, width), ClampEdge(y, height), ClampExtent(x, width), ClampExtent(y, height))
  }

  /** An axis already in range is kept when its extent fits in an int32, and its extent
      turns negative when it does not. */
  lemma ClampAxis(start: int, extent: int)
    requires INT32_MIN <= start && extent >= 0 && start + extent <= INT32_MAX
    ensures ClampEdge(start, extent) == start
    ensures extent <= INT32_MAX ==> ClampExtent(start, extent) == extent
    ensures extent > INT32_MAX ==> ClampExtent(start, extent) == extent - 0x1_0000_0000 < 0
  {
  }

  function Normalize(r: Rect): Rect {
    ClampRect(r.x, r.y, r.width, r.height)
  }

  predicate ContainsRect(outer: Rect, inner: Rect) {
    && !outer.IsEmpty()
    && !inner.IsEmpty()
    && Encloses(Normalize(outer), Normalize(inner))
  }

  function IntersectRect(a: Rect, b: Rect): Rect {
    if a.IsEmpty() || b.IsEmpty() then EMPTY_RECT else Common(Normalize(a), Normalize(b))
  }

  function Common(na: Rect, nb: Rect): Rect {
    var l, t := Max(na.x, nb.x), Max(na.y, nb.y);
    var r, m := Min(na.Right(), nb.Right()), Min(na.Bottom(), nb.Bottom());
    if r <= l || m <= t then EMPTY_RECT else ClampRect(l, t, r - l, m - t)
  }

  function UnionRect(a: Rect, b: Rect): Rect {
    if a.IsEmpty() then Normalize(b) else
    if b.IsEmpty() then Normalize(a) else Box(Normalize(a), Normalize(b))
  }

  function Box(na: Rect, nb: Rect): Rect {
    var l, t := Min(na.x, nb.x), Min(na.y, nb.y);
    ClampRect(l, t, Max(na.Right(), nb.Right()) - l, Max(na.Bottom(), nb.Bottom()) - t)
  }

  function GapBetween(a0: int, a1: int, b0: int, b1: int): int32 {
    if a1 <= b0 then ClampToInt32(b0 - a1) else
    if b1 <= a0 then ClampToInt32(a0 - b1) else 0
  }

  function HorizontalGap(a: Rect, b: Rect): int32 {
    if a.IsEmpty() || b.IsEmpty() then 0 else
    var na, nb := Normalize(a), Normalize(b);
    GapBetween(na.x, na.Right(), nb.x, nb.Right())
  }

  function VerticalGap(a: Rect, b: Rect): int32 {
    if a.IsEmpty() || b.IsEmpty() then 0 else
    var na, nb := Normalize(a), Normalize(b);
    GapBetween(na.y, na.Bottom(), nb.y, nb.Bottom())
  }

  /** The non-empty rectangles of a list, normalised: the first loop of every list
      operation. */
  function NormalizedNonEmpty(list: seq<Rect>): (r: seq<Rect>) {
    if list == [] then [] else
    var rest := NormalizedNonEmpty(list[1..]);
    if list[0].IsEmpty() then rest else [Normalize(list[0])] + rest
  }

  // ----- meaning

  ghost function Cells(r: Rect): set<(int, int)> {
    set p, q | r.x <= p < r.Right() && r.y <= q < r.Bottom() :: (p, q)
  }

  ghost function Covered(list: seq<Rect>): set<(int, int)> {
    set r, c | r in list && c in Cells(r) :: c
  }

  /** A cell that survives clipping: edges stop at INT32_MAX. */
  predicate Representable(c: (int, int)) { c.0 < INT32_MAX && c.1 < INT32_MAX }

  ghost function Visible(list: seq<Rect>): set<(int, int)> {
    set c | c in Covered(list) && Representable(c)
  }

  /** Neither edge is past INT32_MAX, so that normalising changes nothing. */
  predicate Inside(r: Rect) { r.Right() <= INT32_MAX && r.Bottom() <= INT32_MAX }

  lemma NormalizeMeaning(r: Rect)
    requires !r.IsEmpty()
    ensures var n := Normalize(r);
            && n.x == r.x && n.y == r.y && n.width >= 0 && n.height >= 0
            && n.Right() == Min(r.Right(), INT32_MAX) && n.Bottom() == Min(r.Bottom(), INT32_MAX)
            && Normalize(n) == n
            && (Inside(r) <==> n == r)
  {
    NormalizeAxis(r.x, r.width);
    NormalizeAxis(r.y, r.height);
    NormalForm(Normalize(r));
  }

  lemma NormalizeAxis(start: int, extent: int)
    requires INT32_MIN <= start <= INT32_MAX && 0 < extent <= INT32_MAX
    ensures ClampEdge(start, extent) == start
    ensures start + ClampExtent(start, extent) == Min(start + extent, INT32_MAX)
  {
  }

  /** As NormalizedNonEmpty leaves them: their own normal form, possibly clipped to nothing. */
  ghost predicate Normal(list: seq<Rect>) {
    forall r :: r in list ==> r.width >= 0 && r.height >= 0 && Inside(r)
  }

  lemma NormalForm(r: Rect)
    requires r.width >= 0 && r.height >= 0 && Inside(r)
    ensures Normalize(r) == r
  {
    ClampAxis(r.x, r.width);
    ClampAxis(r.y, r.height);
  }

  lemma NormalizeCells(r: Rect)
    requires !r.IsEmpty()
    ensures Cells(Normalize(r)) == set c | c in Cells(r) && Representable(c)
  {
    NormalizeMeaning(r);
  }

  lemma NormalizedMembers(list: seq<Rect>)
    ensures forall n :: n in NormalizedNonEmpty(list) <==>
              exists r :: r in list && !r.IsEmpty() && n == Normalize(r)
  {
    if list != [] {
      NormalizedMembers(list[1..]);
      assert list == [list[0]] + list[1..];
    }
  }

  lemma NormalizedIsNormal(list: seq<Rect>)
    ensures Normal(NormalizedNonEmpty(list))
  {
    NormalizedMembers(list);
    forall n | n in NormalizedNonEmpty(list) ensures n.width >= 0 && n.height >= 0 && Inside(n) {
      var r :| r in list && !r.IsEmpty() && n == Normalize(r);
      NormalizeMeaning(r);
    }
  }

  /** Dropping empty rectangles and normalising keeps exactly the representable cells. */
  lemma {:induction false} NormalizedCoverage(list: seq<Rect>)
    ensures Covered(NormalizedNonEmpty(list)) == Visible(list)
  {
    if list != [] {
      NormalizedCoverage(list[1..]);
      CoveredCons(list[0], list[1..]);
      assert list == [list[0]] + list[1..];
      if list[0].IsEmpty() {
        assert Cells(list[0]) == {};
      } else {
        NormalizeCells(list[0]);
        CoveredCons(Normalize(list[0]), NormalizedNonEmpty(list[1..]));
      }
    }
  }

  lemma CoveredCons(r: Rect, rest: seq<Rect>)
    ensures Covered([r] + rest) == Cells(r) + Covered(rest)
  {
    var list := [r] + rest;
    forall c ensures c in Covered(list) <==> c in Cells(r) + Covered(rest) {
      if c in Cells(r) { assert r in list; }
      if c in Covered(rest) {
        var x :| x in rest && c in Cells(x);
        assert x in list;
      }
    }
  }

  predicate Encloses(outer: Rect, inner: Rect) {
    outer.x <= inner.x && outer.y <= inner.y && inner.Right() <= outer.Right() && inner.Bottom() <= outer.Bottom()
  }

  /** Enclosing edges and enclosing cells are the same thing. */
  lemma EnclosesCells(outer: Rect, inner: Rect)
    requires !inner.IsEmpty()
    ensures Encloses(outer, inner) <==> Cells(inner) <= Cells(outer)
  {
    if Cells(inner) <= Cells(outer) {
      assert (inner.x, inner.y) in Cells(inner);
      assert (inner.Right() - 1, inner.Bottom() - 1) in Cells(inner);
    }
  }

  /** Clipped to nothing: an edge at INT32_MAX leaves no representable cell. */
  predicate Collapses(r: Rect) { !r.IsEmpty() && (r.x == INT32_MAX || r.y == INT32_MAX) }

  /** Sides of the bounding box of two non-empty rectangles, cut off at INT32_MAX. */
  function SpanX(a: Rect, b: Rect): int { Min(Max(a.Right(), b.Right()), INT32_MAX) - Min(a.x, b.x) }

  function SpanY(a: Rect, b: Rect): int { Min(Max(a.Bottom(), b.Bottom()), INT32_MAX) - Min(a.y, b.y) }

  ghost predicate KeepsCells(u: Rect, a: Rect, b: Rect) {
    forall c :: (c in Cells(a) || c in Cells(b)) && Representable(c) ==> c in Cells(u)
  }

  /** UnionRect is the bounding box of the representable cells of both just when the box's sides
      fit in an int32. Otherwise a side is short by 2^32, that is negative, and every cell is lost. */
  lemma UnionRectIsBoundingBox(a: Rect, b: Rect)
    ensures KeepsCells(UnionRect(a, b), a, b) <==>
              || a.IsEmpty() || b.IsEmpty() || (Collapses(a) && Collapses(b))
              || (SpanX(a, b) <= INT32_MAX && SpanY(a, b) <= INT32_MAX)
    ensures !a.IsEmpty() && !b.IsEmpty() && (SpanX(a, b) > INT32_MAX || SpanY(a, b) > INT32_MAX) ==>
              Cells(UnionRect(a, b)) == {}
  {
    if a.IsEmpty() {
      assert Cells(a) == {};
      if !b.IsEmpty() { NormalizeCells(b); }
    } else if b.IsEmpty() {
      assert Cells(b) == {};
      NormalizeCells(a);
    } else {
      UnionRectValue(a, b);
      if SpanX(a, b) <= INT32_MAX && SpanY(a, b) <= INT32_MAX {
        BoxKeepsCells(UnionRect(a, b), a, b);
      } else {
        EmptyLosesCells(UnionRect(a, b), a, b);
      }
    }
  }

  lemma BoxKeepsCells(u: Rect, a: Rect, b: Rect)
    requires u.x == Min(a.x, b.x) && u.y == Min(a.y, b.y) && u.width == SpanX(a, b) && u.height == SpanY(a, b)
    ensures KeepsCells(u, a, b)
  {
    forall c | (c in Cells(a) || c in Cells(b)) && Representable(c) ensures c in Cells(u) {
      InSpan(c.0, a.x, a.Right(), b.x, b.Right());
      InSpan(c.1, a.y, a.Bottom(), b.y, b.Bottom());
    }
  }

  lemma InSpan(p: int, a0: int, a1: int, b0: int, b1: int)
    requires (a0 <= p < a1 || b0 <= p < b1) && p < INT32_MAX
    ensures Min(a0, b0) <= p < Min(Max(a1, b1), INT32_MAX)
  {
  }

  lemma EmptyLosesCells(u: Rect, a: Rect, b: Rect)
    requires !a.IsEmpty() && !b.IsEmpty() && u.IsEmpty()
    ensures Cells(u) == {} && (KeepsCells(u, a, b) <==> Collapses(a) && Collapses(b))
  {
    if !Collapses(a) { assert (a.x, a.y) in Cells(a) && Representable((a.x, a.y)); }
    if !Collapses(b) { assert (b.x, b.y) in Cells(b) && Representable((b.x, b.y)); }
  }

  lemma UnionRectValue(a: Rect, b: Rect)
    requires !a.IsEmpty() && !b.IsEmpty()
    ensures var u, w, h := UnionRect(a, b), SpanX(a, b), SpanY(a, b);
            && u.x == Min(a.x, b.x) && u.y == Min(a.y, b.y)
            && u.width == (if w <= INT32_MAX then w else w - 0x1_0000_0000)
            && u.height == (if h <= INT32_MAX then h else h - 0x1_0000_0000)
            && (w > INT32_MAX ==> u.width < 0) && (h > INT32_MAX ==> u.height < 0)
  {
    NormalizeMeaning(a);
    NormalizeMeaning(b);
    BoxValue(Normalize(a), Normalize(b));
    CutEdge(a.Right(), b.Right());
    CutEdge(a.Bottom(), b.Bottom());
  }

  lemma BoxValue(na: Rect, nb: Rect)
    requires na.width >= 0 && na.height >= 0 && Inside(na) && nb.width >= 0 && nb.height >= 0 && Inside(nb)
    ensures var u, l, t := Box(na, nb), Min(na.x, nb.x), Min(na.y, nb.y);
            var w, h := Max(na.Right(), nb.Right()) - l, Max(na.Bottom(), nb.Bottom()) - t;
            && u.x == l && u.y == t
            && u.width == (if w <= INT32_MAX then w else w - 0x1_0000_0000)
            && u.height == (if h <= INT32_MAX then h else h - 0x1_0000_0000)
            && (w > INT32_MAX ==> u.width < 0) && (h > INT32_MAX ==> u.height < 0)
  {
    var l, t := Min(na.x, nb.x), Min(na.y, nb.y);
    ClampAxis(l, Max(na.Right(), nb.Right()) - l);
    ClampAxis(t, Max(na.Bottom(), nb.Bottom()) - t);
  }

  lemma CutEdge(p: int, q: int)
    ensures Max(Min(p, INT32_MAX), Min(q, INT32_MAX)) == Min(Max(p, q), INT32_MAX)
  {
  }
}
