/** MergeOverlapping and SelectionRectCombiner: merging to a fixpoint. */
module MergeRects {
  import opened Basics
  import opened Rects

  predicate CanMergeRects(a: Rect, b: Rect, tol: int32) {
    var hx, vy := HorizontalGap(a, b), VerticalGap(a, b);
    var xOverlap, yOverlap := hx <= 0, vy <= 0;
    var xAdj, yAdj := 0 <= hx <= tol, 0 <= vy <= tol;
    (xOverlap && (yOverlap || yAdj)) || (yOverlap && (xOverlap || xAdj))
  }

  type Relation = (Rect, Rect) -> bool

  function Mergeable(tol: int32): Relation { (a, b) => CanMergeRects(a, b, tol) }

  // ----- the merge loop as a function of the work list

  /** The first index from j on whose rectangle merges with rects[i], or |rects|. */
  function Partner(rects: seq<Rect>, i: nat, j: nat, can: Relation): (r: nat)
    requires i < j <= |rects|
    ensures j <= r <= |rects|
    ensures r < |rects| ==> can(rects[i], rects[r])
    ensures forall k :: j <= k < r ==> !can(rects[i], rects[k])
    decreases |rects| - j
  {
    if j == |rects| || can(rects[i], rects[j]) then j else Partner(rects, i, j + 1, can)
  }

  predicate HasPartner(rects: seq<Rect>, i: nat, can: Relation)
    requires i < |rects|
  {
    Partner(rects, i, i + 1, can) < |rects|
  }

  /** The first index from i on that has a partner, or |rects|. */
  function Leader(rects: seq<Rect>, i: nat, can: Relation): (r: nat)
    requires i <= |rects|
    ensures i <= r <= |rects|
    ensures r < |rects| ==> HasPartner(rects, r, can)
    ensures forall k :: i <= k < r ==> !HasPartner(rects, k, can)
    decreases |rects| - i
  {
    if i == |rects| || HasPartner(rects, i, can) then i else Leader(rects, i + 1, can)
  }

  /** Put u in place of rects[i] and erase rects[j]. */
  function Fuse(rects: seq<Rect>, i: nat, j: nat, u: Rect): (r: seq<Rect>)
    requires i < j < |rects|
    ensures |r| == |rects| - 1
  {
    rects[..j][i := u] + rects[j + 1..]
  }

  function MergeFix(rects: seq<Rect>, can: Relation): seq<Rect>
    decreases |rects|
  {
    var i := Leader(rects, 0, can);
    if i == |rects| then rects else
    var j := Partner(rects, i, i + 1, can);
    MergeFix(Fuse(rects, i, j, UnionRect(rects[i], rects[j])), can)
  }

  ghost predicate Apart(rects: seq<Rect>, can: Relation) {
    forall i, j :: 0 <= i < j < |rects| ==> !can(rects[i], rects[j])
  }

  lemma LeaderApart(rects: seq<Rect>, can: Relation)
    ensures Leader(rects, 0, can) == |rects| <==> Apart(rects, can)
  {
    var r := Leader(rects, 0, can);
    if r < |rects| {
      assert HasPartner(rects, r, can);
      assert can(rects[r], rects[Partner(rects, r, r + 1, can)]);
    } else {
      forall i, j | 0 <= i < j < |rects| ensures !can(rects[i], rects[j]) {
        assert !HasPartner(rects, i, can);
      }
    }
  }

  method FindMergePartner(rects: seq<Rect>, i: nat, tol: int32) returns (j: nat)
    requires i < |rects|
    ensures j == Partner(rects, i, i + 1, Mergeable(tol))
  {
    j := i + 1;
    while j < |rects|
      invariant i < j <= |rects| && Partner(rects, i, j, Mergeable(tol)) == Partner(rects, i, i + 1, Mergeable(tol))
    {
      if CanMergeRects(rects[i], rects[j], tol) {
        return;
      }
      j := j + 1;
    }
  }

  /** One pass of the for loop inside both merge loops: fuse the first mergeable pair. */
  method MergeFirstPair(work: seq<Rect>, tol: int32) returns (next: seq<Rect>, changed: bool)
    ensures changed <==> !Apart(work, Mergeable(tol))
    ensures changed ==> |next| < |work|
    ensures !changed ==> next == work
    ensures MergeFix(next, Mergeable(tol)) == MergeFix(work, Mergeable(tol))
  {
    ghost var can := Mergeable(tol);
    LeaderApart(work, can);
    next, changed := work, false;
    var i := 0;
    while i < |work|
      invariant i <= |work| && Leader(work, i, can) == Leader(work, 0, can)
    {
      var j := FindMergePartner(work, i, tol);
      if j < |work| {
        var u := UnionRect(work[i], work[j]);
        next := work[i := u];
        next := next[..j] + next[j + 1..];
        FirstFuse(work, i, j, u, can, next);
        return next, true;
      }
      i := i + 1;
    }
  }

  /** What the pass has done: one unfolding of the fixpoint. */
  lemma FirstFuse(work: seq<Rect>, i: nat, j: nat, u: Rect, can: Relation, next: seq<Rect>)
    requires i < j < |work| && i == Leader(work, 0, can) && j == Partner(work, i, i + 1, can)
    requires u == UnionRect(work[i], work[j]) && next == work[i := u][..j] + work[i := u][j + 1..]
    ensures |next| < |work| && MergeFix(next, can) == MergeFix(work, can)
  {
    assert next == Fuse(work, i, j, u);
  }

  /** The non-empty inputs merged until no two of them can merge. */
  method MergeOverlapping(list: seq<Rect>, tol: int32) returns (work: seq<Rect>)
    ensures work == MergeFix(NormalizedNonEmpty(list), Mergeable(tol))
    ensures Apart(work, Mergeable(tol))
  {
    work := NormalizedNonEmpty(list);
    var changed := true;
    while changed
      invariant MergeFix(work, Mergeable(tol)) == MergeFix(NormalizedNonEmpty(list), Mergeable(tol))
      invariant !changed ==> Apart(work, Mergeable(tol))
      decreases |work|, changed
    {
      work, changed := MergeFirstPair(work, tol);
    }
    LeaderApart(work, Mergeable(tol));
  }

  class SelectionRectCombiner {
    var rects: seq<Rect>

    constructor ()
      ensures rects == []
    {
      rects := [];
    }

    method Add(rect: Rect)
      modifies this
      ensures rects == Combine(old(rects), rect)
    {
      if rect.IsEmpty() {
        return;
      }
      rects := rects + [Normalize(rect)];
      TryMergeAdjacent();
    }

    method TryMergeAdjacent()
      modifies this
      ensures rects == MergeFix(old(rects), Mergeable(0)) && Apart(rects, Mergeable(0))
    {
      var changed := true;
      while changed
        invariant MergeFix(rects, Mergeable(0)) == MergeFix(old(rects), Mergeable(0))
        invariant !changed ==> Apart(rects, Mergeable(0))
        decreases |rects|, changed
      {
        rects, changed := MergeFirstPair(rects, 0);
      }
      LeaderApart(rects, Mergeable(0));
    }
  }

  function Combine(rects: seq<Rect>, rect: Rect): seq<Rect> {
    if rect.IsEmpty() then rects else MergeFix(rects + [Normalize(rect)], Mergeable(0))
  }

  /** The combiner's rectangles after adding a whole list to an empty one. */
  function CombineAll(list: seq<Rect>): seq<Rect> {
    if list == [] then [] else Combine(CombineAll(list[..|list| - 1]), list[|list| - 1])
  }

  // ----- merging is monotone

  lemma GapMonotone(a0: int, a1: int, b0: int, b1: int, c0: int, c1: int, d0: int, d1: int)
    requires c0 <= a0 < a1 <= c1 && d0 <= b0 < b1 <= d1
    ensures 0 <= GapBetween(c0, c1, d0, d1) <= GapBetween(a0, a1, b0, b1)
  {
  }

  predicate Proper(r: Rect) { !r.IsEmpty() && Inside(r) }

  lemma GapsOf(a: Rect, b: Rect)
    requires Proper(a) && Proper(b)
    ensures HorizontalGap(a, b) == GapBetween(a.x, a.Right(), b.x, b.Right())
    ensures VerticalGap(a, b) == GapBetween(a.y, a.Bottom(), b.y, b.Bottom())
  {
    NormalizeMeaning(a);
    NormalizeMeaning(b);
  }

  /** Two extents at most t apart; 0 apart means that they meet or touch. */
  predicate Within(a0: int, a1: int, b0: int, b1: int, t: int) { a0 <= b1 + t && b0 <= a1 + t }

  predicate WithinX(a: Rect, b: Rect, t: int) {
    Within(a.x, Min(a.Right(), INT32_MAX), b.x, Min(b.Right(), INT32_MAX), t)
  }

  predicate WithinY(a: Rect, b: Rect, t: int) {
    Within(a.y, Min(a.Bottom(), INT32_MAX), b.y, Min(b.Bottom(), INT32_MAX), t)
  }

  lemma GapWithin(a0: int, a1: int, b0: int, b1: int, t: int)
    requires a0 <= a1 && b0 <= b1 && 0 <= t < INT32_MAX
    ensures 0 <= GapBetween(a0, a1, b0, b1) <= INT32_MAX
    ensures GapBetween(a0, a1, b0, b1) <= t <==> Within(a0, a1, b0, b1, t)
  {
  }

  /** Which rectangles can be merged, in distances: on one axis they meet or touch, on the other
      they are at most the tolerance apart. Gaps are cut off at INT32_MAX, so that tolerance bridges
      any distance. Empty rectangles can always be merged. */
  lemma CanMergeMeaning(a: Rect, b: Rect, tol: int32)
    ensures CanMergeRects(a, b, tol) <==>
              || a.IsEmpty() || b.IsEmpty()
              || (WithinX(a, b, 0) && (tol == INT32_MAX || WithinY(a, b, Max(tol, 0))))
              || (WithinY(a, b, 0) && (tol == INT32_MAX || WithinX(a, b, Max(tol, 0))))
  {
    if !a.IsEmpty() && !b.IsEmpty() {
      NormalizeMeaning(a);
      NormalizeMeaning(b);
      var t := if tol == INT32_MAX then 0 else Max(tol, 0);
      GapsWithin(a, b, Normalize(a), Normalize(b), 0);
      GapsWithin(a, b, Normalize(a), Normalize(b), t);
    }
  }

  lemma GapsWithin(a: Rect, b: Rect, na: Rect, nb: Rect, t: int)
    requires !a.IsEmpty() && !b.IsEmpty() && na == Normalize(a) && nb == Normalize(b) && 0 <= t < INT32_MAX
    ensures 0 <= HorizontalGap(a, b) <= INT32_MAX && 0 <= VerticalGap(a, b) <= INT32_MAX
    ensures HorizontalGap(a, b) <= t <==> WithinX(a, b, t)
    ensures VerticalGap(a, b) <= t <==> WithinY(a, b, t)
  {
    NormalizeMeaning(a);
    NormalizeMeaning(b);
    GapWithin(na.x, na.Right(), nb.x, nb.Right(), t);
    GapWithin(na.y, na.Bottom(), nb.y, nb.Bottom(), t);
  }

  /** Enlarging rectangles never separates them. */
  ghost predicate Monotone(can: Relation) {
    forall a, b, c, d ::
      Proper(a) && Proper(b) && Proper(c) && Proper(d) && Encloses(c, a) && Encloses(d, b) && can(a, b) ==>
      can(c, d) && can(d, c)
  }

  ghost predicate MergesOverlaps(can: Relation) {
    forall a, b :: Proper(a) && Proper(b) && Encloses(b, a) ==> can(a, b) && can(b, a)
  }

  lemma MergeableIsMonotone(tol: int32)
    ensures Monotone(Mergeable(tol)) && MergesOverlaps(Mergeable(tol))
  {
    forall a, b, c, d |
      Proper(a) && Proper(b) && Proper(c) && Proper(d) && Encloses(c, a) && Encloses(d, b) && CanMergeRects(a, b, tol)
      ensures CanMergeRects(c, d, tol) && CanMergeRects(d, c, tol)
    {
      CanMergeMonotone(a, b, c, d, tol);
    }
    forall a, b | Proper(a) && Proper(b) && Encloses(b, a)
      ensures CanMergeRects(a, b, tol) && CanMergeRects(b, a, tol)
    {
      GapsOf(a, b);
      GapsOf(b, a);
    }
  }

  lemma CanMergeMonotone(a: Rect, b: Rect, c: Rect, d: Rect, tol: int32)
    requires Proper(a) && Proper(b) && Proper(c) && Proper(d)
    requires Encloses(c, a) && Encloses(d, b) && CanMergeRects(a, b, tol)
    ensures CanMergeRects(c, d, tol) && CanMergeRects(d, c, tol)
  {
    GapsOf(a, b);
    GapsOf(c, d);
    GapsOf(d, c);
    GapMonotone(a.x, a.Right(), b.x, b.Right(), c.x, c.Right(), d.x, d.Right());
    GapMonotone(a.y, a.Bottom(), b.y, b.Bottom(), c.y, c.Bottom(), d.y, d.Bottom());
  }

  // ----- the fixpoint is the finest separated cover

  ghost predicate AllProper(list: seq<Rect>) { forall r :: r in list ==> Proper(r) }

  ghost predicate CoveredIn(family: seq<Rect>, r: Rect) { exists f :: f in family && Encloses(f, r) }

  ghost predicate Covers(family: seq<Rect>, list: seq<Rect>) {
    forall r {:trigger CoveredIn(family, r)} :: r in list ==> CoveredIn(family, r)
  }

  /** Pairwise unmergeable and covering, as any acceptable answer must be. */
  ghost predicate SeparatedCover(family: seq<Rect>, list: seq<Rect>, can: Relation) {
    AllProper(family) && Apart(family, can) && Covers(family, list)
  }

  /** Some acceptable answer exists. */
  ghost predicate Separable(list: seq<Rect>, can: Relation) {
    exists family :: SeparatedCover(family, list, can)
  }

  // ----- rectangles clipped to nothing are absorbed

  function Solid(list: seq<Rect>): seq<Rect> {
    if list == [] then [] else
    if list[0].IsEmpty() then Solid(list[1..]) else [list[0]] + Solid(list[1..])
  }

  lemma {:induction false} SolidMembers(list: seq<Rect>)
    ensures forall r :: r in Solid(list) <==> r in list && !r.IsEmpty()
    ensures Normal(list) ==> AllProper(Solid(list))
  {
    if list != [] {
      assert list == [list[0]] + list[1..];
      SolidMembers(list[1..]);
    }
  }

  ghost predicate AbsorbsEmpty(can: Relation) {
    forall a: Rect, b: Rect :: a.IsEmpty() || b.IsEmpty() ==> can(a, b)
  }

  /** What the merge loop needs of its relation. */
  ghost predicate Merging(can: Relation) { Monotone(can) && MergesOverlaps(can) && AbsorbsEmpty(can) }

  lemma MergeableMerges(tol: int32)
    ensures Merging(Mergeable(tol))
  {
    MergeableIsMonotone(tol);
  }

  lemma FuseMembers(rects: seq<Rect>, i: nat, j: nat, u: Rect)
    requires i < j < |rects|
    ensures forall r :: r in Fuse(rects, i, j, u) ==> r in rects || r == u
    ensures u in Fuse(rects, i, j, u)
    ensures forall k :: 0 <= k < |rects| && k != i && k != j ==> rects[k] in Fuse(rects, i, j, u)
  {
    var n := Fuse(rects, i, j, u);
    assert n[i] == u;
    forall k | 0 <= k < |rects| && k != i && k != j ensures rects[k] in n {
      if k < j { assert n[k] == rects[k]; } else { assert n[k - 1] == rects[k]; }
    }
  }

  /** u is the bounding box of a and b. */
  predicate IsBox(u: Rect, a: Rect, b: Rect) {
    && u.x == Min(a.x, b.x) && u.Right() == Max(a.Right(), b.Right())
    && u.y == Min(a.y, b.y) && u.Bottom() == Max(a.Bottom(), b.Bottom())
  }

  /** Two rectangles inside a proper one have a bounding box, and UnionRect finds it. */
  lemma UnionInside(g: Rect, a: Rect, b: Rect)
    requires Proper(g) && Proper(a) && Proper(b) && Encloses(g, a) && Encloses(g, b)
    ensures IsBox(UnionRect(a, b), a, b) && Proper(UnionRect(a, b)) && Encloses(g, UnionRect(a, b))
  {
    UnionRectValue(a, b);
  }

  /** The union of two normal rectangles, of which one is empty, is the other. */
  lemma UnionWithEmpty(a: Rect, b: Rect)
    requires a.width >= 0 && a.height >= 0 && Inside(a) && b.width >= 0 && b.height >= 0 && Inside(b)
    requires a.IsEmpty() || b.IsEmpty()
    ensures UnionRect(a, b) == if a.IsEmpty() then b else a
  {
    NormalForm(a);
    NormalForm(b);
  }

  lemma SameMember(family: seq<Rect>, g: Rect, h: Rect, can: Relation)
    requires Apart(family, can) && g in family && h in family && can(g, h) && can(h, g)
    ensures g == h
  {
    var m :| 0 <= m < |family| && family[m] == g;
    var n :| 0 <= n < |family| && family[n] == h;
    assert m == n;
  }

  /** Two rectangles that merge lie in one member of any separated cover. */
  lemma CommonMember(family: seq<Rect>, a: Rect, b: Rect, can: Relation) returns (g: Rect)
    requires Monotone(can) && Proper(a) && Proper(b) && can(a, b)
    requires AllProper(family) && Apart(family, can) && CoveredIn(family, a) && CoveredIn(family, b)
    ensures g in family && Encloses(g, a) && Encloses(g, b)
  {
    g :| g in family && Encloses(g, a);
    var h :| h in family && Encloses(h, b);
    assert Proper(g) && Proper(h);
    assert can(g, h) && can(h, g);
    SameMember(family, g, h, can);
  }

  /** The work list: normal rectangles whose solid ones have a separated cover. */
  ghost predicate Workable(rects: seq<Rect>, family: seq<Rect>, can: Relation) {
    Normal(rects) && SeparatedCover(family, Solid(rects), can)
  }

  /** What the fused rectangle is: the other one if one is empty, else the box of both, which
      fits because any cover has a member around both. */
  lemma FusedUnion(rects: seq<Rect>, i: nat, j: nat, family: seq<Rect>, can: Relation)
    requires Monotone(can) && Workable(rects, family, can) && i < j < |rects| && can(rects[i], rects[j])
    ensures var a, b, u := rects[i], rects[j], UnionRect(rects[i], rects[j]);
            && (a.IsEmpty() ==> u == b) && (b.IsEmpty() && !a.IsEmpty() ==> u == a)
            && (Proper(a) && Proper(b) ==> IsBox(u, a, b) && Proper(u) && CoveredIn(family, u))
  {
    var a, b := rects[i], rects[j];
    assert a in rects && b in rects;
    SolidMembers(rects);
    if a.IsEmpty() || b.IsEmpty() {
      UnionWithEmpty(a, b);
    } else {
      assert CoveredIn(family, a) && CoveredIn(family, b);
      var g := CommonMember(family, a, b, can);
      UnionInside(g, a, b);
    }
  }

  /** One fuse keeps the list workable for every family, and covers what was there. */
  lemma FuseStep(rects: seq<Rect>, i: nat, j: nat, family: seq<Rect>, can: Relation)
    requires Monotone(can) && Workable(rects, family, can) && i < j < |rects| && can(rects[i], rects[j])
    ensures var next := Fuse(rects, i, j, UnionRect(rects[i], rects[j]));
            && Workable(next, family, can) && Covers(Solid(next), Solid(rects))
            && (Solid(rects) != [] ==> Solid(next) != [])
  {
    var a, b, u := rects[i], rects[j], UnionRect(rects[i], rects[j]);
    FusedUnion(rects, i, j, family, can);
    FuseMembers(rects, i, j, u);
    SolidMembers(rects);
    SolidMembers(Fuse(rects, i, j, u));
    assert a in rects && b in rects;
    FuseCovers(rects, i, j, u, Fuse(rects, i, j, u));
    if Solid(rects) != [] {
      assert CoveredIn(Solid(Fuse(rects, i, j, u)), Solid(rects)[0]);
    }
  }

  lemma FuseCovers(rects: seq<Rect>, i: nat, j: nat, u: Rect, next: seq<Rect>)
    requires i < j < |rects| && u in next
    requires forall k :: 0 <= k < |rects| && k != i && k != j ==> rects[k] in next
    requires !rects[i].IsEmpty() || !rects[j].IsEmpty() ==> !u.IsEmpty()
    requires !rects[i].IsEmpty() ==> Encloses(u, rects[i])
    requires !rects[j].IsEmpty() ==> Encloses(u, rects[j])
    ensures Covers(Solid(next), Solid(rects))
  {
    SolidMembers(rects);
    SolidMembers(next);
    forall r | r in Solid(rects) ensures CoveredIn(Solid(next), r) {
      var k :| 0 <= k < |rects| && rects[k] == r;
      assert Encloses(if k == i || k == j then u else r, r);
    }
  }

  lemma CoversSelf(list: seq<Rect>)
    ensures Covers(list, list)
  {
    assert forall r :: r in list ==> Encloses(r, r);
  }

  lemma CoversTransitive(a: seq<Rect>, b: seq<Rect>, c: seq<Rect>)
    requires Covers(a, b) && Covers(b, c)
    ensures Covers(a, c)
  {
    forall r | r in c ensures CoveredIn(a, r) {
      assert CoveredIn(b, r);
      var h :| h in b && Encloses(h, r);
      assert CoveredIn(a, h);
      var g :| g in a && Encloses(g, h);
      assert Encloses(g, r);
    }
  }

  /** The fixpoint stays workable for every family that the inputs had, and covers them. */
  lemma {:induction false} MergeFixCovers(rects: seq<Rect>, family: seq<Rect>, can: Relation)
    requires Monotone(can) && Workable(rects, family, can)
    ensures var result := MergeFix(rects, can);
            && Workable(result, family, can) && Covers(Solid(result), Solid(rects))
            && (Solid(rects) != [] ==> Solid(result) != [])
    decreases |rects|
  {
    var i := Leader(rects, 0, can);
    if i < |rects| {
      assert HasPartner(rects, i, can);
      var j := Partner(rects, i, i + 1, can);
      var next := Fuse(rects, i, j, UnionRect(rects[i], rects[j]));
      FuseStep(rects, i, j, family, can);
      MergeFixCovers(next, family, can);
      CoversTransitive(Solid(MergeFix(rects, can)), Solid(next), Solid(rects));
    } else {
      CoversSelf(Solid(rects));
    }
  }

  lemma {:induction false} MergeFixApart(rects: seq<Rect>, can: Relation)
    ensures Apart(MergeFix(rects, can), can)
    decreases |rects|
  {
    LeaderApart(rects, can);
    var i := Leader(rects, 0, can);
    if i < |rects| {
      var j := Partner(rects, i, i + 1, can);
      MergeFixApart(Fuse(rects, i, j, UnionRect(rects[i], rects[j])), can);
    }
  }

  /** An empty rectangle survives only alone. */
  lemma ApartIsSolid(result: seq<Rect>, can: Relation)
    requires AbsorbsEmpty(can) && Apart(result, can) && Solid(result) != []
    ensures forall r :: r in result ==> !r.IsEmpty()
  {
    SolidMembers(result);
    var s := Solid(result)[0];
    assert s in result;
    forall r | r in result ensures !r.IsEmpty() {
      var m :| 0 <= m < |result| && result[m] == s;
      var n :| 0 <= n < |result| && result[n] == r;
      if m < n { assert !can(s, r); } else if n < m { assert !can(r, s); }
    }
  }

  lemma {:induction false} SolidIsAll(list: seq<Rect>)
    requires forall r :: r in list ==> !r.IsEmpty()
    ensures Solid(list) == list
  {
    if list != [] {
      assert list == [list[0]] + list[1..];
      SolidIsAll(list[1..]);
    }
  }

  lemma MemberShared(s: seq<Rect>, t: seq<Rect>, can: Relation, r: Rect)
    requires MergesOverlaps(can) && AllProper(s) && AllProper(t) && Apart(s, can) && Covers(s, t) && Covers(t, s)
    requires r in s
    ensures r in t
  {
    assert CoveredIn(t, r);
    var g :| g in t && Encloses(g, r);
    assert CoveredIn(s, g);
    var h :| h in s && Encloses(h, g);
    assert can(r, h) && can(h, r) by {
      EnclosesTransitive(h, g, r);
      assert Proper(r) && Proper(h);
    }
    SameMember(s, r, h, can);
    EnclosesAntisymmetric(r, g);
  }

  lemma EnclosesTransitive(a: Rect, b: Rect, c: Rect)
    requires Encloses(a, b) && Encloses(b, c)
    ensures Encloses(a, c)
  {
  }

  lemma EnclosesAntisymmetric(a: Rect, b: Rect)
    requires Encloses(a, b) && Encloses(b, a)
    ensures a == b
  {
  }

  /** Separated families that cover each other are the same, up to order. */
  lemma MutualCoverEqual(s: seq<Rect>, t: seq<Rect>, can: Relation)
    requires MergesOverlaps(can) && AllProper(s) && AllProper(t)
    requires Apart(s, can) && Apart(t, can) && Covers(s, t) && Covers(t, s)
    ensures multiset(s) == multiset(t)
  {
    forall r ensures r in s <==> r in t {
      if r in s { MemberShared(s, t, can, r); }
      if r in t { MemberShared(t, s, can, r); }
    }
    ApartNoDuplicates(s, can);
    ApartNoDuplicates(t, can);
    forall r ensures multiset(s)[r] == multiset(t)[r] {
      CountOnce(s, r);
      CountOnce(t, r);
    }
  }

  lemma {:induction false} CountOnce(s: seq<Rect>, r: Rect)
    requires forall i, j :: 0 <= i < j < |s| ==> s[i] != s[j]
    ensures multiset(s)[r] == if r in s then 1 else 0
  {
    if s != [] {
      assert s == [s[0]] + s[1..];
      CountOnce(s[1..], r);
    }
  }

  lemma ApartNoDuplicates(s: seq<Rect>, can: Relation)
    requires MergesOverlaps(can) && AllProper(s) && Apart(s, can)
    ensures forall i, j :: 0 <= i < j < |s| ==> s[i] != s[j]
  {
    forall i, j | 0 <= i < j < |s| ensures s[i] != s[j] {
      assert s[i] in s;
      assert Encloses(s[i], s[i]);
    }
  }

  // ----- main results

  /** The finest separated cover: it covers the inputs, no two members merge, and each
      member lies inside a member of every other family with those two properties. */
  ghost predicate FinestCover(result: seq<Rect>, list: seq<Rect>, can: Relation) {
    && SeparatedCover(result, list, can)
    && forall family :: SeparatedCover(family, list, can) ==> Covers(family, result)
  }

  lemma FinestIsUnique(s: seq<Rect>, t: seq<Rect>, list: seq<Rect>, other: seq<Rect>, can: Relation)
    requires MergesOverlaps(can)
    requires FinestCover(s, list, can) && FinestCover(t, other, can) && forall r :: r in list <==> r in other
    ensures multiset(s) == multiset(t)
  {
    assert SeparatedCover(t, list, can) && SeparatedCover(s, other, can);
    MutualCoverEqual(s, t, can);
  }

  /** The exact condition: the fixpoint is the finest separated cover of the solid inputs just
      when they have any separated cover at all (and are not all clipped to nothing). */
  lemma MergeFixIsFinest(rects: seq<Rect>, can: Relation)
    requires Merging(can) && Normal(rects)
    ensures FinestCover(MergeFix(rects, can), Solid(rects), can) <==>
              (Solid(rects) != [] || rects == []) && Separable(Solid(rects), can)
  {
    if FinestCover(MergeFix(rects, can), Solid(rects), can) {
      FinestNeedsCover(rects, can);
    }
    if (Solid(rects) != [] || rects == []) && Separable(Solid(rects), can) {
      SeparableIsFinest(rects, can);
    }
  }

  lemma FinestNeedsCover(rects: seq<Rect>, can: Relation)
    requires Merging(can) && Normal(rects) && FinestCover(MergeFix(rects, can), Solid(rects), can)
    ensures (Solid(rects) != [] || rects == []) && Separable(Solid(rects), can)
  {
    assert SeparatedCover(MergeFix(rects, can), Solid(rects), can);
    if Solid(rects) == [] && rects != [] {
      AllEmptyFix(rects, can);
      LastIsEmpty(rects);
    }
  }

  lemma SeparableIsFinest(rects: seq<Rect>, can: Relation)
    requires Merging(can) && Normal(rects) && (Solid(rects) != [] || rects == []) && Separable(Solid(rects), can)
    ensures FinestCover(MergeFix(rects, can), Solid(rects), can)
  {
    var family :| SeparatedCover(family, Solid(rects), can);
    FixOfSeparable(rects, family, can);
    forall other | SeparatedCover(other, Solid(rects), can) ensures Covers(other, MergeFix(rects, can)) {
      FixOfSeparable(rects, other, can);
    }
  }

  lemma FixOfSeparable(rects: seq<Rect>, family: seq<Rect>, can: Relation)
    requires Merging(can) && Workable(rects, family, can) && (Solid(rects) != [] || rects == [])
    ensures var result := MergeFix(rects, can);
            SeparatedCover(result, Solid(rects), can) && Covers(family, result) && Solid(result) == result
  {
    var result := MergeFix(rects, can);
    MergeFixCovers(rects, family, can);
    MergeFixApart(rects, can);
    if rects != [] {
      ApartIsSolid(result, can);
    }
    SolidIsAll(result);
    SolidMembers(result);
  }

  lemma LastIsEmpty(rects: seq<Rect>)
    requires rects != [] && Solid(rects) == []
    ensures !AllProper([rects[|rects| - 1]])
  {
    SolidMembers(rects);
    var last := rects[|rects| - 1];
    assert last in rects && last in [last];
  }

  /** Rectangles all clipped to nothing merge into the last of them. */
  lemma {:induction false} AllEmptyFix(rects: seq<Rect>, can: Relation)
    requires AbsorbsEmpty(can) && Normal(rects) && Solid(rects) == []
    ensures MergeFix(rects, can) == if rects == [] then [] else [rects[|rects| - 1]]
    decreases |rects|
  {
    SolidMembers(rects);
    if |rects| > 1 {
      assert rects[0] in rects && rects[1] in rects;
      assert Partner(rects, 0, 1, can) == 1 && HasPartner(rects, 0, can) && Leader(rects, 0, can) == 0;
      UnionWithEmpty(rects[0], rects[1]);
      var next := Fuse(rects, 0, 1, rects[1]);
      assert next == rects[1..];
      SolidMembers(next);
      AllEmptyFix(next, can);
    } else if |rects| == 1 {
      assert Leader(rects, 0, can) == 1 by {
        LeaderApart(rects, can);
      }
    } else {
      assert Leader(rects, 0, can) == 0;
    }
  }

  function Merged(list: seq<Rect>, tol: int32): seq<Rect> { MergeFix(NormalizedNonEmpty(list), Mergeable(tol)) }

  /** The inputs that are not empty after normalising. */
  function SolidInputs(list: seq<Rect>): seq<Rect> { Solid(NormalizedNonEmpty(list)) }

  predicate AllClipped(list: seq<Rect>) { NormalizedNonEmpty(list) != [] && SolidInputs(list) == [] }

  /** MergeOverlapping yields the finest separated cover of its inputs exactly when they have
      a separated cover. */
  lemma MergeOverlappingIsFinest(list: seq<Rect>, tol: int32)
    ensures FinestCover(Merged(list, tol), SolidInputs(list), Mergeable(tol)) <==>
              !AllClipped(list) && Separable(SolidInputs(list), Mergeable(tol))
  {
    MergeableMerges(tol);
    NormalizedIsNormal(list);
    MergeFixIsFinest(NormalizedNonEmpty(list), Mergeable(tol));
  }

  /** ... and so the same rectangles for every order and repetition of such inputs. */
  lemma MergeOverlappingIgnoresOrder(list: seq<Rect>, other: seq<Rect>, tol: int32)
    requires Separable(SolidInputs(list), Mergeable(tol)) && !AllClipped(list)
    requires forall r :: r in list <==> r in other
    ensures multiset(Merged(list, tol)) == multiset(Merged(other, tol))
  {
    SameInputs(list, other);
    MergeOverlappingIsFinest(list, tol);
    SameCovers(SolidInputs(list), SolidInputs(other), Mergeable(tol));
    MergeOverlappingIsFinest(other, tol);
    MergeableMerges(tol);
    FinestIsUnique(Merged(list, tol), Merged(other, tol), SolidInputs(list), SolidInputs(other), Mergeable(tol));
  }

  lemma SameInputs(list: seq<Rect>, other: seq<Rect>)
    requires forall r :: r in list <==> r in other
    ensures forall r :: r in SolidInputs(list) <==> r in SolidInputs(other)
    ensures AllClipped(list) <==> AllClipped(other)
  {
    NormalizedMembers(list);
    NormalizedMembers(other);
    SolidMembers(NormalizedNonEmpty(list));
    SolidMembers(NormalizedNonEmpty(other));
    SameEmptiness(NormalizedNonEmpty(list), NormalizedNonEmpty(other));
    SameEmptiness(SolidInputs(list), SolidInputs(other));
  }

  lemma SameEmptiness(s: seq<Rect>, t: seq<Rect>)
    requires forall r :: r in s <==> r in t
    ensures s == [] <==> t == []
  {
    if s != [] {
      assert s[0] in t;
    }
    if t != [] {
      assert t[0] in s;
    }
  }

  lemma SameCovers(s: seq<Rect>, t: seq<Rect>, can: Relation)
    requires forall r :: r in s <==> r in t
    ensures Separable(s, can) <==> Separable(t, can)
  {
    if Separable(s, can) {
      var family :| SeparatedCover(family, s, can);
      assert SeparatedCover(family, t, can);
    }
    if Separable(t, can) {
      var family :| SeparatedCover(family, t, can);
      assert SeparatedCover(family, s, can);
    }
  }

  /** Inputs all clipped to nothing leave the last of them, so their order matters whenever
      the last ones differ. */
  lemma AllClippedLeavesLast(list: seq<Rect>, tol: int32)
    requires AllClipped(list)
    ensures var rects := NormalizedNonEmpty(list); Merged(list, tol) == [rects[|rects| - 1]]
  {
    MergeableMerges(tol);
    NormalizedIsNormal(list);
    AllEmptyFix(NormalizedNonEmpty(list), Mergeable(tol));
  }

  lemma OrderMattersWhenClipped(list: seq<Rect>, other: seq<Rect>, tol: int32)
    requires AllClipped(list) && AllClipped(other)
    ensures var s, t := NormalizedNonEmpty(list), NormalizedNonEmpty(other);
            multiset(Merged(list, tol)) == multiset(Merged(other, tol)) <==> s[|s| - 1] == t[|t| - 1]
  {
    AllClippedLeavesLast(list, tol);
    AllClippedLeavesLast(other, tol);
    var s, t := NormalizedNonEmpty(list), NormalizedNonEmpty(other);
    assert multiset([s[|s| - 1]])[s[|s| - 1]] == 1;
  }

  lemma FixOfTwo(a: Rect, b: Rect, can: Relation)
    requires can(a, b)
    ensures MergeFix([a, b], can) == [UnionRect(a, b)]
  {
    var u := UnionRect(a, b);
    assert Partner([a, b], 0, 1, can) == 1 && HasPartner([a, b], 0, can) && Leader([a, b], 0, can) == 0;
    assert Fuse([a, b], 0, 1, u) == [u];
    LeaderApart([u], can);
  }

  lemma FixOfThree(a: Rect, b: Rect, c: Rect, can: Relation)
    requires can(a, b) && can(UnionRect(a, b), c)
    ensures MergeFix([a, b, c], can) == [UnionRect(UnionRect(a, b), c)]
  {
    var u := UnionRect(a, b);
    assert Partner([a, b, c], 0, 1, can) == 1 && HasPartner([a, b, c], 0, can) && Leader([a, b, c], 0, can) == 0;
    assert Fuse([a, b, c], 0, 1, u) == [u, c];
    FixOfTwo(u, c, can);
  }

  /** Side by side from a to c; a and b together are too wide for an int32, b and c are not. */
  predicate TooWide(a: Rect, b: Rect, c: Rect) {
    && Proper(a) && Proper(b) && Proper(c)
    && a.y == b.y == c.y && a.height == b.height == c.height
    && a.x <= b.x <= a.Right() <= b.Right() && b.x <= c.x <= b.Right() <= c.Right()
    && b.Right() - a.x > INT32_MAX && c.Right() - b.x <= INT32_MAX
  }

  /** Without a separated cover the order can matter: merging a and b first loses both of them,
      merging b and c first loses all three. */
  lemma OrderMattersWhenTooWide(a: Rect, b: Rect, c: Rect, tol: int32)
    requires TooWide(a, b, c)
    ensures Merged([a, b, c], tol) == [c]
    ensures |Merged([b, c, a], tol)| == 1 && Merged([b, c, a], tol)[0].IsEmpty()
  {
    SolidFixed([a, b, c]);
    SolidFixed([b, c, a]);
    WideFirst(a, b, c, tol);
    WideLast(a, b, c, tol);
  }

  lemma WideFirst(a: Rect, b: Rect, c: Rect, tol: int32)
    requires TooWide(a, b, c)
    ensures MergeFix([a, b, c], Mergeable(tol)) == [c]
  {
    SideBySide(a, b, tol);
    UnionRectValue(a, b);
    NormalForm(c);
    FixOfThree(a, b, c, Mergeable(tol));
  }

  lemma WideLast(a: Rect, b: Rect, c: Rect, tol: int32)
    requires TooWide(a, b, c)
    ensures var r := MergeFix([b, c, a], Mergeable(tol)); |r| == 1 && r[0].IsEmpty()
  {
    var v := UnionRect(b, c);
    SideBySide(b, c, tol);
    UnionRectValue(b, c);
    assert Proper(v) && v.x == b.x && v.y == a.y && v.height == a.height;
    SideBySide(v, a, tol);
    UnionRectValue(v, a);
    FixOfThree(b, c, a, Mergeable(tol));
  }

  lemma SideBySide(a: Rect, b: Rect, tol: int32)
    requires Proper(a) && Proper(b) && a.y == b.y && a.height == b.height
    requires a.x <= b.x <= a.Right() || b.x <= a.x <= b.Right()
    ensures CanMergeRects(a, b, tol)
  {
    GapsOf(a, b);
  }

  lemma {:induction false} SolidFixed(list: seq<Rect>)
    requires AllProper(list)
    ensures NormalizedNonEmpty(list) == list
  {
    if list != [] {
      assert list[0] in list && list == [list[0]] + list[1..];
      SolidFixed(list[1..]);
      NormalForm(list[0]);
    }
  }

  // ----- the incremental combiner

  lemma NormalizedSnoc(list: seq<Rect>, r: Rect)
    ensures NormalizedNonEmpty(list + [r]) == NormalizedNonEmpty(list) + NormalizedNonEmpty([r])
  {
    if list == [] {
      assert list + [r] == [r];
    } else {
      assert (list + [r])[1..] == list[1..] + [r];
      NormalizedSnoc(list[1..], r);
    }
  }

  lemma {:induction false} SolidAppend(a: seq<Rect>, b: seq<Rect>)
    ensures Solid(a + b) == Solid(a) + Solid(b)
    decreases a
  {
    if a == [] {
      assert a + b == b;
    } else {
      assert (a + b)[0] == a[0] && (a + b)[1..] == a[1..] + b;
      SolidAppend(a[1..], b);
    }
  }

  lemma CoversAppend(state: seq<Rect>, list: seq<Rect>, more: seq<Rect>)
    requires Covers(state, list)
    ensures Covers(state + more, list + more)
  {
    forall x | x in list + more ensures CoveredIn(state + more, x) {
      if x in list {
        assert CoveredIn(state, x);
        var g :| g in state && Encloses(g, x);
        assert g in state + more;
      } else {
        assert Encloses(x, x) && x in state + more;
      }
    }
  }

  lemma SeparatedAppend(family: seq<Rect>, state: seq<Rect>, list: seq<Rect>, more: seq<Rect>, can: Relation)
    requires FinestCover(state, list, can) && SeparatedCover(family, list + more, can)
    ensures SeparatedCover(family, list, can) && SeparatedCover(family, state + more, can)
  {
    assert forall x :: x in list + more <==> x in list || x in more;
    assert SeparatedCover(family, list, can);
  }

  /** A finest cover of what the state and more hold is one of what the inputs and more hold. */
  lemma FinestAppend(result: seq<Rect>, state: seq<Rect>, list: seq<Rect>, more: seq<Rect>, can: Relation)
    requires FinestCover(state, list, can) && FinestCover(result, state + more, can)
    ensures FinestCover(result, list + more, can)
  {
    CoversAppend(state, list, more);
    CoversTransitive(result, state + more, list + more);
    forall family | SeparatedCover(family, list + more, can) ensures Covers(family, result) {
      SeparatedAppend(family, state, list, more, can);
    }
  }

  /** What the combiner holds after the normalised inputs. */
  ghost predicate Combined(state: seq<Rect>, rects: seq<Rect>, can: Relation) {
    if rects != [] && Solid(rects) == [] then state == [rects[|rects| - 1]]
    else Solid(state) == state && AllProper(state) && FinestCover(state, Solid(rects), can)
  }

  lemma CombineStep(state: seq<Rect>, rects: seq<Rect>, r: Rect, family: seq<Rect>, can: Relation)
    requires Merging(can) && Normal(rects + [r]) && Combined(state, rects, can)
    requires SeparatedCover(family, Solid(rects + [r]), can)
    ensures Combined(MergeFix(state + [r], can), rects + [r], can)
  {
    var work, more := state + [r], Solid([r]);
    SolidAppend(rects, [r]);
    SolidAppend(state, [r]);
    SolidMembers([r]);
    assert r in rects + [r];
    if rects != [] && Solid(rects) == [] {
      var e := rects[|rects| - 1];
      assert e in rects + [r];
      SolidMembers(rects);
      assert e in rects && Solid([e]) == [];
      assert Normal(work);
      assert [] + more == more;
      if r.IsEmpty() {
        AllEmptyFix(work, can);
      } else {
        StepIsFinest(work, family, can);
      }
    } else {
      assert Normal(work);
      SeparatedAppend(family, state, Solid(rects), more, can);
      if Solid(work) == [] {
        assert more == [] && r.IsEmpty() && state == [];
        AllEmptyFix(work, can);
        EmptyFinest(state, Solid(rects), can);
        assert rects == [];
      } else {
        StepIsFinest(work, family, can);
        FinestAppend(MergeFix(work, can), state, Solid(rects), more, can);
        NothingFromNothing(state, Solid(rects), more, can);
      }
    }
  }

  lemma CoverNonEmpty(family: seq<Rect>, list: seq<Rect>)
    requires Covers(family, list) && list != []
    ensures family != []
  {
    assert CoveredIn(family, list[0]);
  }

  /** A finest cover is empty only if there is nothing to cover. */
  lemma EmptyFinest(state: seq<Rect>, solid: seq<Rect>, can: Relation)
    requires FinestCover(state, solid, can) && state == []
    ensures solid == []
  {
    if solid != [] {
      CoverNonEmpty(state, solid);
    }
  }

  lemma NothingFromNothing(state: seq<Rect>, solid: seq<Rect>, more: seq<Rect>, can: Relation)
    requires FinestCover(state, solid, can) && state + more != []
    ensures solid + more != []
  {
    if solid == [] {
      assert SeparatedCover([], solid, can);
      assert state != [] ==> CoveredIn([], state[0]);
    }
  }

  lemma StepIsFinest(work: seq<Rect>, family: seq<Rect>, can: Relation)
    requires Merging(can) && Normal(work) && Solid(work) != [] && SeparatedCover(family, Solid(work), can)
    ensures var result := MergeFix(work, can);
            FinestCover(result, Solid(work), can) && Solid(result) == result && AllProper(result)
  {
    FixOfSeparable(work, family, can);
    MergeFixIsFinest(work, can);
  }

  lemma {:induction false} CombineAllShows(list: seq<Rect>, family: seq<Rect>)
    requires Merging(Mergeable(0)) && SeparatedCover(family, SolidInputs(list), Mergeable(0))
    ensures Combined(CombineAll(list), NormalizedNonEmpty(list), Mergeable(0))
  {
    var can := Mergeable(0);
    if list == [] {
      assert SeparatedCover([], [], can);
    } else {
      var init, last := list[..|list| - 1], list[|list| - 1];
      assert list == init + [last];
      NormalizedSnoc(init, last);
      SolidAppend(NormalizedNonEmpty(init), NormalizedNonEmpty([last]));
      assert forall r :: r in SolidInputs(init) ==> r in SolidInputs(list);
      CombineAllShows(init, family);
      if !last.IsEmpty() {
        assert NormalizedNonEmpty([last]) == [Normalize(last)];
        NormalizedIsNormal(list);
        CombineStep(CombineAll(init), NormalizedNonEmpty(init), Normalize(last), family, can);
      }
    }
  }

  /** Fed one by one, the combiner ends with exactly the tolerance-0 batch result. */
  lemma CombinerAgreesWithBatch(list: seq<Rect>)
    requires Separable(SolidInputs(list), Mergeable(0))
    ensures multiset(CombineAll(list)) == multiset(Merged(list, 0))
  {
    MergeableMerges(0);
    var family :| SeparatedCover(family, SolidInputs(list), Mergeable(0));
    CombineAllShows(list, family);
    if AllClipped(list) {
      AllClippedLeavesLast(list, 0);
    } else {
      MergeOverlappingIsFinest(list, 0);
      FinestIsUnique(CombineAll(list), Merged(list, 0), SolidInputs(list), SolidInputs(list), Mergeable(0));
    }
  }

  // ----- every result is the bounding box of a cluster of inputs

  ghost predicate BoundingBoxOf(box: Rect, cluster: seq<Rect>) {
    && (forall r :: r in cluster ==> Encloses(box, r))
    && (exists r :: r in cluster && r.x == box.x)
    && (exists r :: r in cluster && r.y == box.y)
    && (exists r :: r in cluster && r.Right() == box.Right())
    && (exists r :: r in cluster && r.Bottom() == box.Bottom())
  }

  ghost function Pool(clusters: seq<seq<Rect>>): multiset<Rect> {
    if clusters == [] then multiset{} else multiset(clusters[0]) + Pool(clusters[1..])
  }

  /** The clusters split the inputs and the boxes are their bounding boxes. */
  ghost predicate Clustered(boxes: seq<Rect>, clusters: seq<seq<Rect>>, inputs: seq<Rect>) {
    && |clusters| == |boxes|
    && (forall i :: 0 <= i < |boxes| ==> BoundingBoxOf(boxes[i], clusters[i]))
    && Pool(clusters) == multiset(inputs)
  }

  lemma BoxOfFused(u: Rect, a: Rect, b: Rect, ca: seq<Rect>, cb: seq<Rect>)
    requires IsBox(u, a, b) && BoundingBoxOf(a, ca) && BoundingBoxOf(b, cb)
    ensures BoundingBoxOf(u, ca + cb)
  {
  }

  lemma {:induction false} PoolConcat(a: seq<seq<Rect>>, b: seq<seq<Rect>>)
    ensures Pool(a + b) == Pool(a) + Pool(b)
  {
    if a == [] {
      assert a + b == b;
    } else {
      assert (a + b)[1..] == a[1..] + b;
      PoolConcat(a[1..], b);
    }
  }

  lemma PoolSplit(cs: seq<seq<Rect>>, i: nat)
    requires i < |cs|
    ensures Pool(cs) == Pool(cs[..i]) + multiset(cs[i]) + Pool(cs[i + 1..])
  {
    assert cs == cs[..i] + cs[i..];
    PoolConcat(cs[..i], cs[i..]);
    assert cs[i..][1..] == cs[i + 1..];
  }

  lemma PoolFused(cs: seq<seq<Rect>>, i: nat, j: nat)
    requires i < j < |cs|
    ensures Pool(cs[..j][i := cs[i] + cs[j]] + cs[j + 1..]) == Pool(cs)
  {
    var front := cs[..j][i := cs[i] + cs[j]];
    PoolSplit(cs, j);
    PoolSplit(cs[..j], i);
    PoolSplit(front, i);
    assert front[..i] == cs[..j][..i] && front[i + 1..] == cs[..j][i + 1..];
    PoolConcat(front, cs[j + 1..]);
  }

  /** An empty box stands for no inputs. */
  ghost predicate StandsFor(box: Rect, cluster: seq<Rect>) {
    if box.IsEmpty() then cluster == [] else BoundingBoxOf(box, cluster)
  }

  ghost predicate Standing(boxes: seq<Rect>, clusters: seq<seq<Rect>>, inputs: seq<Rect>) {
    && |clusters| == |boxes|
    && (forall i :: 0 <= i < |boxes| ==> StandsFor(boxes[i], clusters[i]))
    && Pool(clusters) == multiset(inputs)
  }

  lemma FusedStands(u: Rect, a: Rect, b: Rect, ca: seq<Rect>, cb: seq<Rect>)
    requires StandsFor(a, ca) && StandsFor(b, cb)
    requires (a.IsEmpty() ==> u == b) && (b.IsEmpty() && !a.IsEmpty() ==> u == a)
    requires !a.IsEmpty() && !b.IsEmpty() ==> IsBox(u, a, b) && !u.IsEmpty()
    ensures StandsFor(u, ca + cb)
  {
    if a.IsEmpty() {
      assert ca + cb == cb;
    } else if b.IsEmpty() {
      assert ca + cb == ca;
    } else {
      BoxOfFused(u, a, b, ca, cb);
    }
  }

  /** One fuse, done to the clusters as to the boxes. */
  lemma FuseClusters(rects: seq<Rect>, clusters: seq<seq<Rect>>, inputs: seq<Rect>, i: nat, j: nat, u: Rect)
    returns (fused: seq<seq<Rect>>)
    requires Standing(rects, clusters, inputs) && i < j < |rects| && StandsFor(u, clusters[i] + clusters[j])
    ensures Standing(Fuse(rects, i, j, u), fused, inputs)
  {
    fused := clusters[..j][i := clusters[i] + clusters[j]] + clusters[j + 1..];
    PoolFused(clusters, i, j);
    var n := Fuse(rects, i, j, u);
    forall k | 0 <= k < |n| ensures StandsFor(n[k], fused[k]) {
      if k == i {
        assert n[k] == u && fused[k] == clusters[i] + clusters[j];
      } else {
        var m := if k < j then k else k + 1;
        assert n[k] == rects[m] && fused[k] == clusters[m];
      }
    }
  }

  lemma {:induction false} MergeFixClusters(rects: seq<Rect>, clusters: seq<seq<Rect>>, inputs: seq<Rect>,
      family: seq<Rect>, can: Relation)
    returns (out: seq<seq<Rect>>)
    requires Monotone(can) && Workable(rects, family, can) && Standing(rects, clusters, inputs)
    ensures Standing(MergeFix(rects, can), out, inputs)
    decreases |rects|
  {
    var i := Leader(rects, 0, can);
    if i == |rects| {
      return clusters;
    }
    assert HasPartner(rects, i, can);
    var j := Partner(rects, i, i + 1, can);
    var u := UnionRect(rects[i], rects[j]);
    assert rects[i] in rects && rects[j] in rects;
    FusedUnion(rects, i, j, family, can);
    FusedStands(u, rects[i], rects[j], clusters[i], clusters[j]);
    FuseStep(rects, i, j, family, can);
    var fused := FuseClusters(rects, clusters, inputs, i, j, u);
    out := MergeFixClusters(Fuse(rects, i, j, u), fused, inputs, family, can);
  }

  ghost predicate SplitsIntoClusters(boxes: seq<Rect>, inputs: seq<Rect>) {
    exists clusters :: Clustered(boxes, clusters, inputs)
  }

  /** The inputs split into clusters whose bounding boxes are the merged rectangles, exactly
      when they have a separated cover. */
  lemma MergeOverlappingClusters(list: seq<Rect>, tol: int32)
    ensures SplitsIntoClusters(Merged(list, tol), SolidInputs(list)) <==>
              !AllClipped(list) && Separable(SolidInputs(list), Mergeable(tol))
  {
    var rects, solid, result := NormalizedNonEmpty(list), SolidInputs(list), Merged(list, tol);
    MergeableMerges(tol);
    NormalizedIsNormal(list);
    SolidMembers(rects);
    if !AllClipped(list) && Separable(solid, Mergeable(tol)) {
      var family :| SeparatedCover(family, solid, Mergeable(tol));
      var out := ClustersOf(rects, family, Mergeable(tol));
    }
    if SplitsIntoClusters(result, solid) {
      var clusters :| Clustered(result, clusters, solid);
      MergeFixApart(rects, Mergeable(tol));
      ClustersCover(result, clusters, solid);
      assert SeparatedCover(result, solid, Mergeable(tol));
      if AllClipped(list) {
        AllClippedLeavesLast(list, tol);
        LastIsEmpty(rects);
      }
    }
  }

  lemma ClustersOf(rects: seq<Rect>, family: seq<Rect>, can: Relation) returns (out: seq<seq<Rect>>)
    requires Merging(can) && Workable(rects, family, can) && (Solid(rects) != [] || rects == [])
    ensures Clustered(MergeFix(rects, can), out, Solid(rects))
  {
    var singles := Singles(rects);
    out := MergeFixClusters(rects, singles, Solid(rects), family, can);
    FixOfSeparable(rects, family, can);
    SolidStand(MergeFix(rects, can), out, Solid(rects));
  }

  /** Each solid rectangle in a cluster of its own. */
  lemma Singles(rects: seq<Rect>) returns (singles: seq<seq<Rect>>)
    ensures Standing(rects, singles, Solid(rects))
  {
    singles := seq(|rects|, i requires 0 <= i < |rects| => Solid([rects[i]]));
    PoolSingles(rects, singles);
    forall i | 0 <= i < |rects| ensures StandsFor(rects[i], singles[i]) {
      if !rects[i].IsEmpty() {
        assert singles[i] == [rects[i]];
        assert rects[i] in singles[i];
      }
    }
  }

  lemma SolidStand(boxes: seq<Rect>, clusters: seq<seq<Rect>>, inputs: seq<Rect>)
    requires Standing(boxes, clusters, inputs) && Solid(boxes) == boxes
    ensures Clustered(boxes, clusters, inputs)
  {
    SolidMembers(boxes);
    assert forall i :: 0 <= i < |boxes| ==> boxes[i] in boxes;
  }

  /** Bounding boxes of clusters of proper rectangles are proper and cover them. */
  lemma ClustersCover(boxes: seq<Rect>, clusters: seq<seq<Rect>>, inputs: seq<Rect>)
    requires Clustered(boxes, clusters, inputs) && AllProper(inputs)
    ensures AllProper(boxes) && Covers(boxes, inputs)
  {
    forall b | b in boxes ensures Proper(b) {
      var i :| 0 <= i < |boxes| && boxes[i] == b;
      PoolHolds(clusters, inputs, i);
      var r :| r in clusters[i] && r.Right() == b.Right();
      var q :| q in clusters[i] && q.Bottom() == b.Bottom();
      assert Proper(r) && Proper(q) && Encloses(b, r);
    }
    forall r | r in inputs ensures CoveredIn(boxes, r) {
      assert r in Pool(clusters);
      var i := PoolFinds(clusters, r);
      assert Encloses(boxes[i], r);
    }
  }

  lemma {:induction false} PoolFinds(clusters: seq<seq<Rect>>, r: Rect) returns (i: nat)
    requires r in Pool(clusters)
    ensures i < |clusters| && r in clusters[i]
  {
    if r in clusters[0] {
      return 0;
    }
    i := PoolFinds(clusters[1..], r);
    i := i + 1;
  }

  lemma PoolHolds(clusters: seq<seq<Rect>>, inputs: seq<Rect>, i: nat)
    requires Pool(clusters) == multiset(inputs) && i < |clusters|
    ensures forall r :: r in clusters[i] ==> r in inputs
  {
    PoolSplit(clusters, i);
    forall r | r in clusters[i] ensures r in inputs {
      assert multiset(clusters[i])[r] > 0;
      assert multiset(inputs)[r] > 0;
    }
  }

  lemma {:induction false} PoolSingles(rects: seq<Rect>, singles: seq<seq<Rect>>)
    requires |singles| == |rects| && forall i :: 0 <= i < |rects| ==> singles[i] == Solid([rects[i]])
    ensures Pool(singles) == multiset(Solid(rects))
  {
    if rects != [] {
      PoolSingles(rects[1..], singles[1..]);
      assert rects == [rects[0]] + rects[1..];
      SolidAppend([rects[0]], rects[1..]);
    }
  }

  // ----- a condition on spans alone

  /** Sides of the bounding box of all inputs fit in an int32. */
  ghost predicate SpansFit(list: seq<Rect>) {
    forall a, b :: a in list && b in list && !a.IsEmpty() && !b.IsEmpty() ==>
      Inside(a) && a.Right() - b.x <= INT32_MAX && a.Bottom() - b.y <= INT32_MAX
  }

  lemma {:induction false} Least(list: seq<Rect>, key: Rect -> int) returns (m: Rect)
    requires list != []
    ensures m in list && forall r :: r in list ==> key(m) <= key(r)
  {
    m := list[0];
    if |list| > 1 {
      m := Least(list[1..], key);
      assert list == [list[0]] + list[1..];
      if key(list[0]) < key(m) {
        m := list[0];
      }
    }
  }

  lemma FindBox(list: seq<Rect>) returns (box: Rect)
    requires SpansFit(list) && list != [] && AllProper(list)
    ensures Proper(box) && forall r :: r in list ==> Encloses(box, r)
  {
    var l := Least(list, (r: Rect) => r.x);
    var t := Least(list, (r: Rect) => r.y);
    var r := Least(list, (r: Rect) => -r.Right());
    var b := Least(list, (r: Rect) => -r.Bottom());
    box := Rect(l.x, t.y, r.Right() - l.x, b.Bottom() - t.y);
  }

  /** Then one box separates all of them, whatever the relation. */
  lemma SpansFitSeparates(list: seq<Rect>, can: Relation)
    requires SpansFit(list)
    ensures Separable(SolidInputs(list), can) && !AllClipped(list) && SolidInputs(list) == NormalizedNonEmpty(list)
  {
    var rects := NormalizedNonEmpty(list);
    InsideUnchanged(list);
    SolidIsAll(rects);
    if rects == [] {
      assert SeparatedCover([], [], can);
    } else {
      var box := FindBox(rects);
      forall r | r in rects ensures CoveredIn([box], r) {
        assert box in [box];
      }
      assert SeparatedCover([box], rects, can);
    }
  }

  lemma InsideUnchanged(list: seq<Rect>)
    requires SpansFit(list)
    ensures SpansFit(NormalizedNonEmpty(list)) && AllProper(NormalizedNonEmpty(list))
    ensures forall r :: r in NormalizedNonEmpty(list) <==> r in list && !r.IsEmpty()
  {
    NormalizedMembers(list);
    forall r | r in list && !r.IsEmpty() ensures Normalize(r) == r && Proper(r) {
      NormalizeMeaning(r);
    }
    assert forall n :: n in NormalizedNonEmpty(list) ==> n in list && Proper(n);
  }
}
