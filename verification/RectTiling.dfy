/** SubtractRect and SplitGrid: exact splittings of a rectangle into disjoint pieces. */
module RectTiling {
  import opened Basics
  import opened Rects
  import opened UnionArea

  // ----- disjoint families and their area

  ghost predicate Disjoint(list: seq<Rect>) {
    forall i, j :: 0 <= i < j < |list| ==> Cells(list[i]) !! Cells(list[j])
  }

  /** The pieces of a splitting: ordered edges, pairwise disjoint. */
  ghost predicate Pieces(list: seq<Rect>) {
    (forall r :: r in list ==> r.width >= 0 && r.height >= 0) && Disjoint(list)
  }

  function PlainArea(list: seq<Rect>): nat {
    if list == [] then 0 else Area(list[0]) + PlainArea(list[1..])
  }

  /** Area is conserved: disjoint pieces have together the area of what they cover. */
  lemma {:induction false} PiecesArea(list: seq<Rect>)
    requires Pieces(list)
    ensures PlainArea(list) == |Covered(list)|
  {
    if list == [] {
      assert Covered(list) == {};
    } else {
      var head, rest := list[0], list[1..];
      assert list == [head] + rest;
      HeadApart(list);
      PiecesArea(rest);
      CoveredCons(head, rest);
      CellsSize(head);
    }
  }

  lemma HeadApart(list: seq<Rect>)
    requires Disjoint(list) && list != []
    ensures Disjoint(list[1..]) && Cells(list[0]) !! Covered(list[1..])
  {
    var rest := list[1..];
    forall c | c in Covered(rest) ensures c !in Cells(list[0]) {
      var r :| r in rest && c in Cells(r);
      var k :| 0 <= k < |rest| && rest[k] == r;
      assert Cells(list[0]) !! Cells(list[k + 1]);
    }
  }

  // ----- SubtractRect

  function SubtractRect(a: Rect, b: Rect): seq<Rect> {
    if a.IsEmpty() then [] else
    var na := Normalize(a);
    if b.IsEmpty() then [na] else
    var inter := IntersectRect(na, b);
    if inter.IsEmpty() then [na] else
    Frame4(na.x, na.y, na.Right(), na.Bottom(), inter.x, inter.y, inter.Right(), inter.Bottom())
  }

  /** What surrounds [il, ir) x [it, ib) inside [al, ar) x [at, ab). */
  function Frame4(al: int, at: int, ar: int, ab: int, il: int, it: int, ir: int, ib: int): seq<Rect> {
    (if il > al then [ClampRect(al, at, il - al, ab - at)] else []) +
    (if ir < ar then [ClampRect(ir, at, ar - ir, ab - at)] else []) +
    (if it > at then [ClampRect(il, at, ir - il, it - at)] else []) +
    (if ib < ab then [ClampRect(il, ib, ir - il, ab - ib)] else [])
  }

  lemma CommonEdges(na: Rect, nb: Rect)
    requires Inside(na)
    ensures var l, t := Max(na.x, nb.x), Max(na.y, nb.y);
            var r, m := Min(na.Right(), nb.Right()), Min(na.Bottom(), nb.Bottom());
            if r <= l || m <= t then Common(na, nb) == EMPTY_RECT else IsWindow(Common(na, nb), l, t, r, m)
  {
    var l, t := Max(na.x, nb.x), Max(na.y, nb.y);
    var r, m := Min(na.Right(), nb.Right()), Min(na.Bottom(), nb.Bottom());
    if l < r && t < m {
      WindowOf(l, t, r, m, na);
    }
  }

  /** The intersection of any two rectangles holds exactly their common representable cells. */
  lemma IntersectCells(a: Rect, b: Rect)
    ensures var i := IntersectRect(a, b);
            && (forall c :: c in Cells(i) <==> c in Cells(a) && c in Cells(b) && Representable(c))
            && (!i.IsEmpty() ==> Encloses(a, i) && Encloses(b, i))
  {
    if a.IsEmpty() || b.IsEmpty() {
      NoCells(EMPTY_RECT);
      if a.IsEmpty() { NoCells(a); } else { NoCells(b); }
    } else {
      CommonOfBoth(a, b, Normalize(a), Normalize(b));
    }
  }

  lemma NoCells(r: Rect)
    requires r.IsEmpty()
    ensures forall c :: c !in Cells(r)
  {
  }

  lemma CommonOfBoth(a: Rect, b: Rect, na: Rect, nb: Rect)
    requires !a.IsEmpty() && !b.IsEmpty() && na == Normalize(a) && nb == Normalize(b)
    ensures var i := Common(na, nb);
            && (forall c :: c in Cells(i) <==> c in Cells(a) && c in Cells(b) && Representable(c))
            && (!i.IsEmpty() ==> Encloses(a, i) && Encloses(b, i))
  {
    NormalEncloses(a, na);
    NormalEncloses(b, nb);
    CommonCells(na, nb);
    CommonTransfers(a, na, b, nb, Common(na, nb));
  }

  lemma CommonCells(na: Rect, nb: Rect)
    requires Inside(na)
    ensures var i := Common(na, nb);
            && (forall c :: c in Cells(i) <==> c in Cells(na) && c in Cells(nb))
            && (!i.IsEmpty() ==> Encloses(na, i) && Encloses(nb, i))
  {
    CommonEdges(na, nb);
    WindowIntersection(na, nb, Common(na, nb));
  }

  lemma CommonTransfers(a: Rect, na: Rect, b: Rect, nb: Rect, i: Rect)
    requires Encloses(a, na) && forall c :: c in Cells(na) <==> c in Cells(a) && Representable(c)
    requires Encloses(b, nb) && forall c :: c in Cells(nb) <==> c in Cells(b) && Representable(c)
    requires forall c :: c in Cells(i) <==> c in Cells(na) && c in Cells(nb)
    requires !i.IsEmpty() ==> Encloses(na, i) && Encloses(nb, i)
    ensures forall c :: c in Cells(i) <==> c in Cells(a) && c in Cells(b) && Representable(c)
    ensures !i.IsEmpty() ==> Encloses(a, i) && Encloses(b, i)
  {
  }

  lemma NormalEncloses(r: Rect, n: Rect)
    requires !r.IsEmpty() && n == Normalize(r)
    ensures Inside(n) && Encloses(r, n) && forall c :: c in Cells(n) <==> c in Cells(r) && Representable(c)
  {
    NormalizeMeaning(r);
    NormalizeCells(r);
  }

  lemma WindowIntersection(a: Rect, b: Rect, i: Rect)
    requires var l, t, r, m := Max(a.x, b.x), Max(a.y, b.y), Min(a.Right(), b.Right()), Min(a.Bottom(), b.Bottom());
             if r <= l || m <= t then i == EMPTY_RECT else IsWindow(i, l, t, r, m)
    ensures forall c :: c in Cells(i) <==> c in Cells(a) && c in Cells(b)
    ensures !i.IsEmpty() ==> Encloses(a, i) && Encloses(b, i)
  {
  }

  predicate IsWindow(w: Rect, l: int, t: int, r: int, b: int) {
    w.x == l && w.y == t && w.Right() == r && w.Bottom() == b
  }

  lemma WindowOf(l: int, t: int, r: int, b: int, na: Rect)
    requires na.x <= l <= r <= na.Right() && na.y <= t <= b <= na.Bottom() && Inside(na)
    ensures IsWindow(ClampRect(l, t, r - l, b - t), l, t, r, b)
  {
    ClampAxis(l, r - l);
    ClampAxis(t, b - t);
  }

  lemma Frame4Cells(na: Rect, i: Rect)
    requires na.width >= 0 && na.height >= 0 && Inside(na) && !i.IsEmpty() && Encloses(na, i)
    ensures var pieces := Frame4(na.x, na.y, na.Right(), na.Bottom(), i.x, i.y, i.Right(), i.Bottom());
            Pieces(pieces) && Covered(pieces) == Cells(na) - Cells(i)
  {
    var al, at, ar, ab := na.x, na.y, na.Right(), na.Bottom();
    var il, it, ir, ib := i.x, i.y, i.Right(), i.Bottom();
    WindowOf(al, at, il, ab, na);
    WindowOf(ir, at, ar, ab, na);
    WindowOf(il, at, ir, it, na);
    WindowOf(il, ib, ir, ab, na);
    var pieces := Frame4(al, at, ar, ab, il, it, ir, ib);
    Frame4Covered(ClampRect(al, at, il - al, ab - at), ClampRect(ir, at, ar - ir, ab - at),
      ClampRect(il, at, ir - il, it - at), ClampRect(il, ib, ir - il, ab - ib), na, i, pieces);
  }

  lemma Frame4Covered(w0: Rect, w1: Rect, w2: Rect, w3: Rect, na: Rect, i: Rect, pieces: seq<Rect>)
    requires !i.IsEmpty() && Encloses(na, i)
    requires IsWindow(w0, na.x, na.y, i.x, na.Bottom()) && IsWindow(w1, i.Right(), na.y, na.Right(), na.Bottom())
    requires IsWindow(w2, i.x, na.y, i.Right(), i.y) && IsWindow(w3, i.x, i.Bottom(), i.Right(), na.Bottom())
    requires pieces == (if i.x > na.x then [w0] else []) + (if i.Right() < na.Right() then [w1] else []) +
                       (if i.y > na.y then [w2] else []) + (if i.Bottom() < na.Bottom() then [w3] else [])
    ensures Pieces(pieces) && Covered(pieces) == Cells(na) - Cells(i)
  {
    assert Cells(w0) !! Cells(w1) !! Cells(w2) !! Cells(w3);
    assert Cells(w0) + Cells(w1) + Cells(w2) + Cells(w3) == Cells(na) - Cells(i);
    CoveredOptional(w0, i.x > na.x, w1, i.Right() < na.Right(), w2, i.y > na.y, w3, i.Bottom() < na.Bottom(), pieces);
  }

  /** Leaving out windows that have no cells changes nothing. */
  lemma CoveredOptional(w0: Rect, b0: bool, w1: Rect, b1: bool, w2: Rect, b2: bool, w3: Rect, b3: bool,
      pieces: seq<Rect>)
    requires pieces == (if b0 then [w0] else []) + (if b1 then [w1] else []) + (if b2 then [w2] else [])
               + (if b3 then [w3] else [])
    requires Cells(w0) !! Cells(w1) !! Cells(w2) !! Cells(w3)
    requires !b0 ==> Cells(w0) == {}
    requires !b1 ==> Cells(w1) == {}
    requires !b2 ==> Cells(w2) == {}
    requires !b3 ==> Cells(w3) == {}
    ensures Disjoint(pieces) && Covered(pieces) == Cells(w0) + Cells(w1) + Cells(w2) + Cells(w3)
  {
    var p3 := if b3 then [w3] else [];
    var p2 := (if b2 then [w2] else []) + p3;
    var p1 := (if b1 then [w1] else []) + p2;
    CoveredFront(w3, b3, []);
    CoveredFront(w2, b2, p3);
    CoveredFront(w1, b1, p2);
    CoveredFront(w0, b0, p1);
    assert pieces == (if b0 then [w0] else []) + p1;
  }

  lemma CoveredFront(w: Rect, b: bool, rest: seq<Rect>)
    requires !b ==> Cells(w) == {}
    ensures Covered((if b then [w] else []) + rest) == Cells(w) + Covered(rest)
    ensures Disjoint(rest) && Cells(w) !! Covered(rest) ==> Disjoint((if b then [w] else []) + rest)
  {
    if b {
      CoveredCons(w, rest);
      if Disjoint(rest) && Cells(w) !! Covered(rest) {
        FrontDisjoint(w, rest);
      }
    } else {
      assert [] + rest == rest;
    }
  }

  lemma FrontDisjoint(w: Rect, rest: seq<Rect>)
    requires Disjoint(rest) && Cells(w) !! Covered(rest)
    ensures Disjoint([w] + rest)
  {
    forall k | 0 <= k < |rest| ensures Cells(w) !! Cells(rest[k]) {
      assert rest[k] in rest;
      assert Cells(rest[k]) <= Covered(rest);
    }
  }

  lemma CoveredOne(r: Rect)
    ensures Covered([r]) == Cells(r) && Disjoint([r])
  {
    CoveredCons(r, []);
    assert Covered([]) == {} && [r] + [] == [r];
  }

  /** The pieces are disjoint and cover exactly a's cells outside b. */
  lemma SubtractIsDifference(a: Rect, b: Rect)
    ensures Pieces(SubtractRect(a, b))
    ensures Covered(SubtractRect(a, b)) == Visible([a]) - Cells(b)
    ensures PlainArea(SubtractRect(a, b)) == |Visible([a]) - Cells(b)|
  {
    VisibleOne(a);
    if !a.IsEmpty() {
      NormalizeMeaning(a);
      SubtractNormal(Normalize(a), b);
    }
    PiecesArea(SubtractRect(a, b));
  }

  lemma SubtractNormal(na: Rect, b: Rect)
    requires na.width >= 0 && na.height >= 0 && Inside(na)
    ensures var inter := IntersectRect(na, b);
            var pieces := if b.IsEmpty() || inter.IsEmpty() then [na] else
              Frame4(na.x, na.y, na.Right(), na.Bottom(), inter.x, inter.y, inter.Right(), inter.Bottom());
            Pieces(pieces) && Covered(pieces) == Cells(na) - Cells(b)
  {
    CoveredOne(na);
    if b.IsEmpty() {
      assert Cells(b) == {};
    } else {
      IntersectCells(na, b);
      var i := IntersectRect(na, b);
      if !i.IsEmpty() {
        Frame4Cells(na, i);
        assert Cells(na) - Cells(i) == Cells(na) - Cells(b);
      } else {
        assert Cells(i) == {};
        assert Cells(na) - Cells(b) == Cells(na);
      }
    }
  }

  lemma VisibleOne(a: Rect)
    ensures Visible([a]) == if a.IsEmpty() then {} else Cells(Normalize(a))
  {
    CoveredOne(a);
    if !a.IsEmpty() {
      NormalizeCells(a);
    }
  }

  // ----- SplitGrid

  /** The k-th of several parts that share a length, the first `rem` of them one larger. */
  function Part(base: int, rem: int, k: int): int { base + if k < rem then 1 else 0 }

  function SumParts(base: int, rem: int, k: int, parts: int): (sum: int)
    ensures base >= 0 ==> sum >= 0
    decreases parts - k
  {
    if k >= parts then 0 else Part(base, rem, k) + SumParts(base, rem, k + 1, parts)
  }

  /** Columns c, c+1, .. of one grid row whose first column starts at x. */
  function RowFrom(x: int, y: int, h: int, base: int, rem: int, c: int, cols: int): seq<Rect>
    decreases cols - c
  {
    if c >= cols then [] else
    [ClampRect(x, y, Part(base, rem, c), h)] + RowFrom(x + Part(base, rem, c), y, h, base, rem, c + 1, cols)
  }

  function GridFrom(x: int, y: int, baseW: int, remW: int, cols: int, baseH: int, remH: int,
      r: int, rows: int): seq<Rect>
    decreases rows - r
  {
    if r >= rows then [] else
    RowFrom(x, y, Part(baseH, remH, r), baseW, remW, 0, cols) +
    GridFrom(x, y + Part(baseH, remH, r), baseW, remW, cols, baseH, remH, r + 1, rows)
  }

  function Grid(rect: Rect, rows: int32, cols: int32): seq<Rect> {
    if rect.IsEmpty() || cols <= 0 || rows <= 0 then [] else
    var nr := Normalize(rect);
    var baseW, baseH := nr.width / cols, nr.height / rows;
    GridFrom(nr.x, nr.y, baseW, nr.width - baseW * cols, cols, baseH, nr.height - baseH * rows, 0, rows)
  }

  method SplitRow(nx: int, y: int, cellH: int, baseW: int, remW: int, cols: int) returns (result: seq<Rect>)
    requires cols >= 0
    ensures result == RowFrom(nx, y, cellH, baseW, remW, 0, cols)
  {
    result := [];
    var x := nx;
    for c := 0 to cols
      invariant result + RowFrom(x, y, cellH, baseW, remW, c, cols) == RowFrom(nx, y, cellH, baseW, remW, 0, cols)
    {
      var cellW := baseW + if c < remW then 1 else 0;
      var piece := ClampRect(x, y, cellW, cellH);
      assert result + RowFrom(x, y, cellH, baseW, remW, c, cols) ==
          (result + [piece]) + RowFrom(x + cellW, y, cellH, baseW, remW, c + 1, cols);
      result := result + [piece];
      x := x + cellW;
    }
  }

  method SplitRows(nr: Rect, baseW: int, remW: int, cols: int, baseH: int, remH: int, rows: int)
      returns (result: seq<Rect>)
    requires cols >= 0 && rows >= 0
    ensures result == GridFrom(nr.x, nr.y, baseW, remW, cols, baseH, remH, 0, rows)
  {
    result := [];
    var y: int := nr.y;
    for r := 0 to rows
      invariant result + GridFrom(nr.x, y, baseW, remW, cols, baseH, remH, r, rows) ==
                  GridFrom(nr.x, nr.y, baseW, remW, cols, baseH, remH, 0, rows)
    {
      var cellH := baseH + if r < remH then 1 else 0;
      var row := SplitRow(nr.x, y, cellH, baseW, remW, cols);
      ghost var rest := GridFrom(nr.x, y + cellH, baseW, remW, cols, baseH, remH, r + 1, rows);
      assert result + (row + rest) == (result + row) + rest;
      result := result + row;
      y := y + cellH;
    }
  }

  method SplitGrid(rect: Rect, rows: int32, cols: int32) returns (result: seq<Rect>)
    ensures result == Grid(rect, rows, cols)
  {
    if rect.IsEmpty() {
      return [];
    }
    var nr := Normalize(rect);
    if cols <= 0 || rows <= 0 {
      return [];
    }
    var baseW, baseH := nr.width / cols, nr.height / rows;
    var remW, remH := nr.width - baseW * cols, nr.height - baseH * rows;
    result := SplitRows(nr, baseW, remW, cols, baseH, remH, rows);
  }

  ghost function Block(l: int, t: int, r: int, b: int): set<(int, int)> {
    set p, q | l <= p < r && t <= q < b :: (p, q)
  }

  /** Pieces that tile a block, each with sides from the given two-value ranges. */
  ghost predicate Tiles(list: seq<Rect>, l: int, t: int, r: int, b: int) {
    Pieces(list) && Covered(list) == Block(l, t, r, b)
  }

  ghost predicate Sized(list: seq<Rect>, baseW: int, baseH: int) {
    forall p :: p in list ==> baseW <= p.width <= baseW + 1 && baseH <= p.height <= baseH + 1
  }

  lemma TilesJoin(a: seq<Rect>, b: seq<Rect>)
    requires Pieces(a) && Pieces(b) && Covered(a) !! Covered(b)
    ensures Pieces(a + b) && Covered(a + b) == Covered(a) + Covered(b)
  {
    forall i, j | 0 <= i < j < |a + b| ensures Cells((a + b)[i]) !! Cells((a + b)[j]) {
      if i < |a| <= j {
        assert a[i] in a && b[j - |a|] in b;
        assert Cells(a[i]) <= Covered(a) && Cells(b[j - |a|]) <= Covered(b);
      }
    }
    forall c ensures c in Covered(a + b) <==> c in Covered(a) + Covered(b) {
      if c in Covered(a) { var r :| r in a && c in Cells(r); assert r in a + b; }
      if c in Covered(b) { var r :| r in b && c in Cells(r); assert r in a + b; }
    }
  }

  lemma {:induction false} SumPartsValue(base: int, rem: int, k: int, parts: int)
    requires 0 <= k <= parts && 0 <= rem <= parts
    ensures SumParts(base, rem, k, parts) == base * (parts - k) + Max(rem - k, 0)
    decreases parts - k
  {
    if k < parts {
      SumPartsValue(base, rem, k + 1, parts);
      assert base * (parts - k) == base + base * (parts - (k + 1));
    }
  }

  /** The parts of an integer division add up to the whole. */
  lemma EvenDivision(total: int, parts: int)
    requires total >= 0 && parts > 0
    ensures total / parts >= 0
    ensures SumParts(total / parts, total - total / parts * parts, 0, parts) == total
  {
    SumPartsValue(total / parts, total - total / parts * parts, 0, parts);
  }

  lemma JoinColumn(p: Rect, rest: seq<Rect>, l: int, t: int, m: int, r: int, b: int)
    requires IsWindow(p, l, t, m, b) && l <= m <= r && t <= b && Tiles(rest, m, t, r, b)
    ensures Tiles([p] + rest, l, t, r, b)
  {
    CoveredOne(p);
    assert Covered([p]) == Block(l, t, m, b);
    TilesJoin([p], rest);
    assert Block(l, t, r, b) == Block(l, t, m, b) + Block(m, t, r, b);
  }

  lemma JoinRow(row: seq<Rect>, rest: seq<Rect>, l: int, t: int, r: int, m: int, b: int)
    requires t <= m <= b && Tiles(row, l, t, r, m) && Tiles(rest, l, m, r, b)
    ensures Tiles(row + rest, l, t, r, b)
  {
    TilesJoin(row, rest);
    assert Block(l, t, r, b) == Block(l, t, r, m) + Block(l, m, r, b);
  }

  lemma NoTiles(l: int, t: int, r: int, b: int)
    requires l == r || t == b
    ensures Tiles([], l, t, r, b)
  {
  }

  lemma ColumnStep(nr: Rect, x: int, y: int, w: int, h: int, rest: seq<Rect>)
    requires Inside(nr) && w >= 0 && h >= 0
    requires nr.x <= x && x + w <= nr.Right() && nr.y <= y && y + h <= nr.Bottom()
    requires Tiles(rest, x + w, y, nr.Right(), y + h)
    ensures Tiles([ClampRect(x, y, w, h)] + rest, x, y, nr.Right(), y + h)
  {
    var p := ClampRect(x, y, w, h);
    assert IsWindow(p, x, y, x + w, y + h) by { WindowOf(x, y, x + w, y + h, nr); }
    JoinColumn(p, rest, x, y, x + w, nr.Right(), y + h);
  }

  lemma {:induction false} RowFromTiles(nr: Rect, x: int, y: int, h: int, base: int, rem: int, c: int, cols: int)
    requires nr.width >= 0 && nr.height >= 0 && Inside(nr) && base >= 0
    requires nr.x <= x && x + SumParts(base, rem, c, cols) == nr.Right()
    requires nr.y <= y && h >= 0 && y + h <= nr.Bottom()
    ensures Tiles(RowFrom(x, y, h, base, rem, c, cols), x, y, nr.Right(), y + h)
    decreases cols - c
  {
    if c >= cols {
      NoTiles(x, y, nr.Right(), y + h);
    } else {
      var w := Part(base, rem, c);
      var rest := RowFrom(x + w, y, h, base, rem, c + 1, cols);
      assert w >= 0 && SumParts(base, rem, c, cols) == w + SumParts(base, rem, c + 1, cols);
      RowFromTiles(nr, x + w, y, h, base, rem, c + 1, cols);
      ColumnStep(nr, x, y, w, h, rest);
      assert RowFrom(x, y, h, base, rem, c, cols) == [ClampRect(x, y, w, h)] + rest;
    }
  }

  ghost predicate RowSized(row: seq<Rect>, base: int, h: int) {
    forall p :: p in row ==> base <= p.width <= base + 1 && p.height == h
  }

  lemma RowSizedCons(p: Rect, rest: seq<Rect>, base: int, h: int)
    requires base <= p.width <= base + 1 && p.height == h && RowSized(rest, base, h)
    ensures RowSized([p] + rest, base, h)
  {
  }

  lemma {:induction false} RowFromSizes(nr: Rect, x: int, y: int, h: int, base: int, rem: int, c: int, cols: int)
    requires nr.width >= 0 && nr.height >= 0 && Inside(nr) && base >= 0
    requires nr.x <= x && x + SumParts(base, rem, c, cols) == nr.Right()
    requires nr.y <= y && h >= 0 && y + h <= nr.Bottom()
    ensures RowSized(RowFrom(x, y, h, base, rem, c, cols), base, h)
    decreases cols - c
  {
    if c < cols {
      var w := Part(base, rem, c);
      var rest := RowFrom(x + w, y, h, base, rem, c + 1, cols);
      assert w >= 0 && SumParts(base, rem, c, cols) == w + SumParts(base, rem, c + 1, cols);
      RowFromSizes(nr, x + w, y, h, base, rem, c + 1, cols);
      TileSize(nr, x, y, w, h);
      RowSizedCons(ClampRect(x, y, w, h), rest, base, h);
      assert RowFrom(x, y, h, base, rem, c, cols) == [ClampRect(x, y, w, h)] + rest;
    }
  }

  lemma TileSize(nr: Rect, x: int, y: int, w: int, h: int)
    requires Inside(nr) && nr.x <= x && nr.y <= y && w >= 0 && h >= 0
    requires x + w <= nr.Right() && y + h <= nr.Bottom()
    ensures ClampRect(x, y, w, h).width == w && ClampRect(x, y, w, h).height == h
  {
    WindowOf(x, y, x + w, y + h, nr);
  }

  lemma {:induction false} GridFromTiles(nr: Rect, y: int, baseW: int, remW: int, cols: int, baseH: int, remH: int,
      r: int, rows: int)
    requires nr.width >= 0 && nr.height >= 0 && Inside(nr)
    requires baseW >= 0 && nr.x + SumParts(baseW, remW, 0, cols) == nr.Right()
    requires baseH >= 0 && nr.y <= y && y + SumParts(baseH, remH, r, rows) == nr.Bottom()
    ensures Tiles(GridFrom(nr.x, y, baseW, remW, cols, baseH, remH, r, rows), nr.x, y, nr.Right(), nr.Bottom())
    decreases rows - r
  {
    if r >= rows {
      NoTiles(nr.x, y, nr.Right(), nr.Bottom());
    } else {
      var h := Part(baseH, remH, r);
      RowFromTiles(nr, nr.x, y, h, baseW, remW, 0, cols);
      GridFromTiles(nr, y + h, baseW, remW, cols, baseH, remH, r + 1, rows);
      JoinRow(RowFrom(nr.x, y, h, baseW, remW, 0, cols),
        GridFrom(nr.x, y + h, baseW, remW, cols, baseH, remH, r + 1, rows),
        nr.x, y, nr.Right(), y + h, nr.Bottom());
    }
  }

  lemma {:induction false} GridFromSizes(nr: Rect, y: int, baseW: int, remW: int, cols: int, baseH: int, remH: int,
      r: int, rows: int)
    requires nr.width >= 0 && nr.height >= 0 && Inside(nr)
    requires baseW >= 0 && nr.x + SumParts(baseW, remW, 0, cols) == nr.Right()
    requires baseH >= 0 && nr.y <= y && y + SumParts(baseH, remH, r, rows) == nr.Bottom()
    ensures Sized(GridFrom(nr.x, y, baseW, remW, cols, baseH, remH, r, rows), baseW, baseH)
    decreases rows - r
  {
    if r < rows {
      var h := Part(baseH, remH, r);
      var rest := GridFrom(nr.x, y + h, baseW, remW, cols, baseH, remH, r + 1, rows);
      RowFromSizes(nr, nr.x, y, h, baseW, remW, 0, cols);
      GridFromSizes(nr, y + h, baseW, remW, cols, baseH, remH, r + 1, rows);
      SizedJoin(RowFrom(nr.x, y, h, baseW, remW, 0, cols), rest, baseW, baseH, h);
    }
  }

  lemma {:induction false} GridFromCount(x: int, y: int, baseW: int, remW: int, cols: int, baseH: int, remH: int,
      r: int, rows: int)
    requires 0 <= cols && r <= rows
    ensures |GridFrom(x, y, baseW, remW, cols, baseH, remH, r, rows)| == (rows - r) * cols
    decreases rows - r
  {
    if r < rows {
      var h := Part(baseH, remH, r);
      RowFromCount(x, y, h, baseW, remW, 0, cols);
      GridFromCount(x, y + h, baseW, remW, cols, baseH, remH, r + 1, rows);
      assert (rows - r) * cols == cols + (rows - (r + 1)) * cols;
    }
  }

  lemma {:induction false} RowFromCount(x: int, y: int, h: int, base: int, rem: int, c: int, cols: int)
    requires c <= cols
    ensures |RowFrom(x, y, h, base, rem, c, cols)| == cols - c
    decreases cols - c
  {
    if c < cols {
      RowFromCount(x + Part(base, rem, c), y, h, base, rem, c + 1, cols);
    }
  }

  lemma SizedJoin(row: seq<Rect>, grid: seq<Rect>, baseW: int, baseH: int, h: int)
    requires RowSized(row, baseW, h) && baseH <= h <= baseH + 1 && Sized(grid, baseW, baseH)
    ensures Sized(row + grid, baseW, baseH)
  {
  }

  /** The grid is rows * cols disjoint pieces that tile the rectangle, with widths and
      heights that differ by at most one. */
  lemma GridTiles(rect: Rect, rows: int32, cols: int32)
    requires !rect.IsEmpty() && rows > 0 && cols > 0
    ensures Pieces(Grid(rect, rows, cols)) && Covered(Grid(rect, rows, cols)) == Visible([rect])
    ensures PlainArea(Grid(rect, rows, cols)) == |Visible([rect])|
    ensures |Grid(rect, rows, cols)| == rows * cols
    ensures Sized(Grid(rect, rows, cols), Normalize(rect).width / cols, Normalize(rect).height / rows)
  {
    NormalizeMeaning(rect);
    VisibleOne(rect);
    var nr := Normalize(rect);
    NormalGridTiles(nr, rows, cols);
    PiecesArea(Grid(rect, rows, cols));
  }

  lemma NormalGridTiles(nr: Rect, rows: int32, cols: int32)
    requires nr.width >= 0 && nr.height >= 0 && Inside(nr) && rows > 0 && cols > 0
    ensures var baseW, baseH := nr.width / cols, nr.height / rows;
            var remW, remH := nr.width - baseW * cols, nr.height - baseH * rows;
            var grid := GridFrom(nr.x, nr.y, baseW, remW, cols, baseH, remH, 0, rows);
            Pieces(grid) && Covered(grid) == Cells(nr) && |grid| == rows * cols && Sized(grid, baseW, baseH)
  {
    var baseW, baseH := nr.width / cols, nr.height / rows;
    var remW, remH := nr.width - baseW * cols, nr.height - baseH * rows;
    EvenDivision(nr.width, cols);
    EvenDivision(nr.height, rows);
    GridFromTiles(nr, nr.y, baseW, remW, cols, baseH, remH, 0, rows);
    GridFromSizes(nr, nr.y, baseW, remW, cols, baseH, remH, 0, rows);
    GridFromCount(nr.x, nr.y, baseW, remW, cols, baseH, remH, 0, rows);
    assert Block(nr.x, nr.y, nr.Right(), nr.Bottom()) == Cells(nr);
  }
}
