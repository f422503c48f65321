/** GroupByRows: clustering rectangles by vertical extent. */
module RowGroups {
  import opened Basics
  import opened Rects
  import Merge = MergeRects
  import Sorting

  predicate OverlapOrAdjacent1D(a0: int, a1: int, b0: int, b1: int, tol: int32) {
    var aLo, aHi := Min(a0, a1), Max(a0, a1);
    var bLo, bHi := Min(b0, b1), Max(b0, b1);
    var t := Max(tol, 0);
    !(aHi + t < bLo || bHi + t < aLo)
  }

  /** At most the tolerance apart vertically; a negative tolerance counts as none. */
  predicate RowsMeet(a: Rect, b: Rect, tol: int32) {
    a.y <= b.Bottom() + Max(tol, 0) && b.y <= a.Bottom() + Max(tol, 0)
  }

  function NearRows(tol: int32): Merge.Relation { (a, b) => RowsMeet(a, b, tol) }

  lemma NearMeaning(a: Rect, b: Rect, tol: int32)
    requires a.height >= 0 && b.height >= 0
    ensures Near(a, b, tol) <==> RowsMeet(a, b, tol)
  {
  }

  predicate Near(a: Rect, b: Rect, tol: int32) {
    OverlapOrAdjacent1D(a.y, a.Bottom(), b.y, b.Bottom(), tol)
  }

  /** The order of SortByRow: top, then left, then height, then width. */
  predicate RowOrder(a: Rect, b: Rect) {
    if a.y != b.y then a.y < b.y else
    if a.x != b.x then a.x < b.x else
    if a.height != b.height then a.height < b.height else a.width <= b.width
  }

  /** The first of these that differs decides. */
  lemma RowOrderMeaning(a: Rect, b: Rect)
    ensures RowOrder(a, b) <==>
              || a.y < b.y
              || (a.y == b.y && a.x < b.x)
              || (a.y == b.y && a.x == b.x && a.height < b.height)
              || (a.y == b.y && a.x == b.x && a.height == b.height && a.width <= b.width)
  {
  }

  lemma RowOrderIsTotal()
    ensures Sorting.TotalPreorder(RowOrder)
  {
  }

  method SortByRow(list: seq<Rect>) returns (sorted: seq<Rect>)
    ensures Sorting.SortedBy(sorted, RowOrder) && multiset(sorted) == multiset(NormalizedNonEmpty(list))
  {
    RowOrderIsTotal();
    sorted := Sorting.Sort(NormalizedNonEmpty(list), RowOrder);
  }

  function UnionListBounds(list: seq<Rect>): Rect {
    if list == [] then EMPTY_RECT else
    if |list| == 1 then Normalize(list[0]) else
    UnionRect(UnionListBounds(list[..|list| - 1]), list[|list| - 1])
  }

  predicate Joins(rect: Rect, group: seq<Rect>, tol: int32) {
    group != [] && Near(UnionListBounds(group), rect, tol)
  }

  method FindRowGroup(rect: Rect, groups: seq<seq<Rect>>, tol: int32) returns (g: nat)
    ensures g <= |groups| && (g < |groups| ==> Joins(rect, groups[g], tol))
    ensures forall k :: 0 <= k < g ==> !Joins(rect, groups[k], tol)
  {
    g := 0;
    while g < |groups|
      invariant g <= |groups| && forall k :: 0 <= k < g ==> !Joins(rect, groups[k], tol)
    {
      if groups[g] == [] {
        g := g + 1;
        continue;
      }
      var bounds := ListBounds(groups[g]);
      if OverlapOrAdjacent1D(bounds.y, bounds.Bottom(), rect.y, rect.Bottom(), tol) {
        return;
      }
      g := g + 1;
    }
  }

  method ListBounds(list: seq<Rect>) returns (acc: Rect)
    ensures acc == UnionListBounds(list)
  {
    if list == [] {
      return EMPTY_RECT;
    }
    acc := Normalize(list[0]);
    for i := 1 to |list|
      invariant acc == UnionListBounds(list[..i])
    {
      assert list[..i + 1][..i] == list[..i];
      acc := UnionRect(acc, list[i]);
    }
    assert list[..|list|] == list;
  }

  ghost function Flatten(groups: seq<seq<Rect>>): seq<Rect> {
    if groups == [] then [] else Flatten(groups[..|groups| - 1]) + groups[|groups| - 1]
  }

  // ----- what the grouping achieves

  ghost predicate TouchesEarlier(group: seq<Rect>, k: nat, tol: int32)
    requires k < |group|
  {
    exists j :: 0 <= j < k && RowsMeet(group[j], group[k], tol)
  }

  /** Each member after the first lies within tolerance of an earlier one. */
  ghost predicate Chained(group: seq<Rect>, tol: int32) {
    group != [] && forall k :: 0 < k < |group| ==> TouchesEarlier(group, k, tol)
  }

  /** Rectangles of different groups are further apart than the tolerance. */
  ghost predicate GroupsApart(groups: seq<seq<Rect>>, tol: int32) {
    forall g, h, a: Rect, b: Rect :: 0 <= g < h < |groups| && a in groups[g] && b in groups[h] ==>
      a.Bottom() + Max(tol, 0) < b.y
  }

  ghost predicate RowGroups(groups: seq<seq<Rect>>, tol: int32) {
    (forall g :: 0 <= g < |groups| ==> Chained(groups[g], tol)) && GroupsApart(groups, tol)
  }

  // ----- bounds

  /** Proper rectangles that lie inside one int32 rectangle. */
  ghost predicate Holds(m: Rect, group: seq<Rect>) {
    Merge.Proper(m) && forall r :: r in group ==> Merge.Proper(r) && Encloses(m, r)
  }

  /** The folded bounds are the bounding box exactly when some int32 rectangle is around all. */
  lemma BoundsMeaning(list: seq<Rect>)
    requires list != [] && Merge.AllProper(list)
    ensures Merge.BoundingBoxOf(UnionListBounds(list), list) <==> exists m :: Holds(m, list)
  {
    var b := UnionListBounds(list);
    if Merge.BoundingBoxOf(b, list) {
      BoxHolds(b, list);
    }
    if m :| Holds(m, list) {
      BoundsInside(list, m);
    }
  }

  lemma BoxHolds(b: Rect, list: seq<Rect>)
    requires list != [] && Merge.AllProper(list) && Merge.BoundingBoxOf(b, list)
    ensures Holds(b, list)
  {
    assert list[0] in list;
  }

  lemma {:induction false} BoundsInside(list: seq<Rect>, m: Rect)
    requires list != [] && Holds(m, list)
    ensures Merge.BoundingBoxOf(UnionListBounds(list), list) && Merge.Proper(UnionListBounds(list))
    ensures Encloses(m, UnionListBounds(list))
  {
    var init, last := list[..|list| - 1], list[|list| - 1];
    assert list == init + [last] && last in list;
    if |list| == 1 {
      NormalForm(last);
    } else {
      BoundsInside(init, m);
      BoundsStep(UnionListBounds(init), init, last, m);
    }
  }

  lemma BoundsStep(acc: Rect, init: seq<Rect>, last: Rect, m: Rect)
    requires Merge.BoundingBoxOf(acc, init) && Merge.Proper(acc) && Encloses(m, acc)
    requires Merge.Proper(m) && Merge.Proper(last) && Encloses(m, last)
    ensures Merge.BoundingBoxOf(UnionRect(acc, last), init + [last])
    ensures Merge.Proper(UnionRect(acc, last)) && Encloses(m, UnionRect(acc, last))
  {
    Merge.UnionInside(m, acc, last);
    assert Merge.BoundingBoxOf(last, [last]) by { assert last in [last]; }
    Merge.BoxOfFused(UnionRect(acc, last), acc, last, init, [last]);
  }

  // ----- the loop keeps the groups chained and apart

  /** Each group lies inside a member of the family. */
  ghost predicate InMember(family: seq<Rect>, group: seq<Rect>) { exists m :: m in family && Holds(m, group) }

  ghost predicate Progress(groups: seq<seq<Rect>>, tol: int32, family: seq<Rect>) {
    && Merge.AllProper(family) && Merge.Apart(family, NearRows(tol)) && RowGroups(groups, tol)
    && forall g :: 0 <= g < |groups| ==> InMember(family, groups[g])
  }

  lemma GroupBounds(groups: seq<seq<Rect>>, tol: int32, family: seq<Rect>, g: nat)
    requires Progress(groups, tol, family) && g < |groups|
    ensures Merge.BoundingBoxOf(UnionListBounds(groups[g]), groups[g])
  {
    assert Chained(groups[g], tol) && InMember(family, groups[g]);
    var m :| m in family && Holds(m, groups[g]);
    BoundsInside(groups[g], m);
  }

  /** A rectangle that starts below everything so far joins no group but the last. */
  lemma JoinsLastOrNone(groups: seq<seq<Rect>>, rect: Rect, tol: int32, family: seq<Rect>, g: nat)
    requires Progress(groups, tol, family) && rect.height > 0 && g < |groups| && Joins(rect, groups[g], tol)
    requires forall h, r :: 0 <= h < |groups| && r in groups[h] ==> r.y <= rect.y
    ensures g == |groups| - 1
  {
    if g + 1 < |groups| {
      var last := groups[|groups| - 1];
      GroupBounds(groups, tol, family, g);
      var a :| a in groups[g] && a.Bottom() == UnionListBounds(groups[g]).Bottom();
      assert InMember(family, groups[g]) && Merge.Proper(a);
      assert Chained(last, tol) && last[0] in last;
      assert a.Bottom() + Max(tol, 0) < last[0].y;
      FarBelow(UnionListBounds(groups[g]), rect, tol, a, groups[g]);
    }
  }

  lemma FarBelow(bounds: Rect, rect: Rect, tol: int32, a: Rect, group: seq<Rect>)
    requires Merge.BoundingBoxOf(bounds, group) && a in group && a.Bottom() == bounds.Bottom()
    requires a.height >= 0 && a.y <= rect.y && rect.height > 0 && bounds.Bottom() + Max(tol, 0) < rect.y
    ensures !Near(bounds, rect, tol)
  {
    assert Encloses(bounds, a);
  }

  lemma NearMonotone(a: Rect, b: Rect, m: Rect, n: Rect, tol: int32)
    requires Merge.Proper(a) && Merge.Proper(b) && Encloses(m, a) && Encloses(n, b) && Near(a, b, tol)
    ensures RowsMeet(m, n, tol) && RowsMeet(n, m, tol)
  {
  }

  /** The newcomer lies in the same member of the family as the group it joins. */
  lemma SameRow(group: seq<Rect>, rect: Rect, tol: int32, family: seq<Rect>) returns (m: Rect)
    requires Merge.AllProper(family) && Merge.Apart(family, NearRows(tol)) && InMember(family, group)
    requires Merge.Proper(rect) && Merge.CoveredIn(family, rect) && Joins(rect, group, tol)
    ensures m in family && Holds(m, group) && Encloses(m, rect)
    ensures Merge.BoundingBoxOf(UnionListBounds(group), group)
  {
    m :| m in family && Holds(m, group);
    var n :| n in family && Encloses(n, rect);
    BoundsInside(group, m);
    NearMonotone(UnionListBounds(group), rect, m, n, tol);
    Merge.SameMember(family, m, n, NearRows(tol));
  }

  /** The member that sets the group's lower bound is the one the newcomer touches. */
  lemma Toucher(group: seq<Rect>, rect: Rect, tol: int32) returns (k: nat)
    requires Merge.BoundingBoxOf(UnionListBounds(group), group) && Joins(rect, group, tol)
    requires rect.height > 0 && forall r :: r in group ==> r.height > 0 && r.y <= rect.y
    ensures k < |group| && RowsMeet(group[k], rect, tol)
  {
    var a :| a in group && a.Bottom() == UnionListBounds(group).Bottom();
    k :| 0 <= k < |group| && group[k] == a;
    assert Encloses(UnionListBounds(group), a);
  }

  lemma ChainedSnoc(group: seq<Rect>, rect: Rect, tol: int32, m: nat)
    requires Chained(group, tol) && m < |group| && RowsMeet(group[m], rect, tol)
    ensures Chained(group + [rect], tol)
  {
    var longer := group + [rect];
    forall k | 0 < k < |longer| ensures TouchesEarlier(longer, k, tol) {
      var i: int := m;
      if k < |group| {
        assert TouchesEarlier(group, k, tol);
        i :| 0 <= i < k && RowsMeet(group[i], group[k], tol);
      }
      assert RowsMeet(longer[i], longer[k], tol);
    }
  }

  lemma LastGrows(groups: seq<seq<Rect>>, rect: Rect, tol: int32)
    requires RowGroups(groups, tol) && groups != []
    requires forall r :: r in groups[|groups| - 1] ==> r.y <= rect.y
    ensures GroupsApart(groups[|groups| - 1 := groups[|groups| - 1] + [rect]], tol)
  {
    var last := groups[|groups| - 1];
    var next := groups[|groups| - 1 := last + [rect]];
    assert Chained(last, tol) && last[0] in last;
    forall g, h, a: Rect, b: Rect | 0 <= g < h < |next| && a in next[g] && b in next[h]
      ensures a.Bottom() + Max(tol, 0) < b.y
    {
      assert a in groups[g];
      if h == |groups| - 1 {
        assert a.Bottom() + Max(tol, 0) < last[0].y <= rect.y;
      }
    }
  }

  lemma Extend(groups: seq<seq<Rect>>, rect: Rect, tol: int32, family: seq<Rect>)
    requires Progress(groups, tol, family) && Merge.Proper(rect) && Merge.CoveredIn(family, rect)
    requires groups != [] && Joins(rect, groups[|groups| - 1], tol)
    requires forall r :: r in groups[|groups| - 1] ==> r.y <= rect.y
    ensures Progress(groups[|groups| - 1 := groups[|groups| - 1] + [rect]], tol, family)
  {
    var last := groups[|groups| - 1];
    assert InMember(family, last) && Chained(last, tol);
    var longer := ExtendOne(last, rect, tol, family);
    LastGrows(groups, rect, tol);
    Regrouped(groups, |groups| - 1, longer, tol, family);
  }

  lemma Regrouped(groups: seq<seq<Rect>>, g: nat, longer: seq<Rect>, tol: int32, family: seq<Rect>)
    requires Progress(groups, tol, family) && g < |groups|
    requires InMember(family, longer) && Chained(longer, tol) && GroupsApart(groups[g := longer], tol)
    ensures Progress(groups[g := longer], tol, family)
  {
    var next := groups[g := longer];
    forall k | 0 <= k < |next| ensures Chained(next[k], tol) && InMember(family, next[k]) {
      if k != g { assert next[k] == groups[k]; }
    }
  }

  lemma ExtendOne(last: seq<Rect>, rect: Rect, tol: int32, family: seq<Rect>) returns (longer: seq<Rect>)
    requires Merge.AllProper(family) && Merge.Apart(family, NearRows(tol))
    requires Merge.Proper(rect) && Merge.CoveredIn(family, rect)
    requires InMember(family, last) && Chained(last, tol) && Joins(rect, last, tol)
    requires forall r :: r in last ==> r.y <= rect.y
    ensures longer == last + [rect] && InMember(family, longer) && Chained(longer, tol)
  {
    longer := last + [rect];
    var m := SameRow(last, rect, tol, family);
    var k := Toucher(last, rect, tol);
    ChainedSnoc(last, rect, tol, k);
    assert Holds(m, longer);
  }

  lemma Append(groups: seq<seq<Rect>>, rect: Rect, tol: int32, family: seq<Rect>)
    requires Progress(groups, tol, family) && Merge.Proper(rect) && Merge.CoveredIn(family, rect)
    requires forall g :: 0 <= g < |groups| ==> !Joins(rect, groups[g], tol)
    requires forall h, r :: 0 <= h < |groups| && r in groups[h] ==> r.y <= rect.y
    ensures Progress(groups + [[rect]], tol, family)
  {
    var next := groups + [[rect]];
    forall g | 0 <= g < |next| ensures Chained(next[g], tol) && InMember(family, next[g]) {
      if g < |groups| {
        assert Chained(groups[g], tol) && InMember(family, groups[g]);
      } else {
        var m :| m in family && Encloses(m, rect);
        assert Holds(m, [rect]);
      }
    }
    forall g, h, a: Rect, b: Rect | 0 <= g < h < |next| && a in next[g] && b in next[h]
      ensures a.Bottom() + Max(tol, 0) < b.y
    {
      if h == |groups| {
        assert Chained(groups[g], tol) && !Joins(rect, groups[g], tol);
        GroupBounds(groups, tol, family, g);
        NotNearIsBelow(UnionListBounds(groups[g]), groups[g], a, rect, tol);
      }
    }
  }

  lemma NotNearIsBelow(bounds: Rect, group: seq<Rect>, a: Rect, rect: Rect, tol: int32)
    requires Merge.BoundingBoxOf(bounds, group) && a in group && !Near(bounds, rect, tol)
    requires rect.height > 0 && forall r :: r in group ==> r.y <= rect.y
    ensures a.Bottom() + Max(tol, 0) < rect.y
  {
    var top :| top in group && top.y == bounds.y;
    assert Encloses(bounds, a);
  }

  lemma FlattenMembers(groups: seq<seq<Rect>>)
    ensures forall h, r :: 0 <= h < |groups| && r in groups[h] ==> r in Flatten(groups)
  {
    if groups != [] {
      FlattenMembers(groups[..|groups| - 1]);
    }
  }

  lemma {:induction false} FlattenAdd(groups: seq<seq<Rect>>, g: nat, rect: Rect)
    requires g < |groups|
    ensures multiset(Flatten(groups[g := groups[g] + [rect]])) == multiset(Flatten(groups)) + multiset{rect}
  {
    var n, next := |groups| - 1, groups[g := groups[g] + [rect]];
    if g < n {
      FlattenAdd(groups[..n], g, rect);
      assert next[..n] == groups[..n][g := groups[g] + [rect]] && next[n] == groups[n];
    } else {
      assert next[..n] == groups[..n];
      assert Flatten(groups[..n]) + (groups[n] + [rect]) == Flatten(groups) + [rect];
    }
  }

  function Placed(groups: seq<seq<Rect>>, idx: nat, rect: Rect): seq<seq<Rect>> {
    if idx >= |groups| then groups + [[rect]] else groups[idx := groups[idx] + [rect]]
  }

  lemma PlacedAdds(groups: seq<seq<Rect>>, idx: nat, rect: Rect)
    ensures multiset(Flatten(Placed(groups, idx, rect))) == multiset(Flatten(groups)) + multiset{rect}
  {
    if idx >= |groups| {
      assert (groups + [[rect]])[..|groups|] == groups;
    } else {
      FlattenAdd(groups, idx, rect);
    }
  }

  lemma FlattenLast(groups: seq<seq<Rect>>, rect: Rect)
    requires groups != []
    ensures Flatten(groups[|groups| - 1 := groups[|groups| - 1] + [rect]]) == Flatten(groups) + [rect]
  {
    var last := |groups| - 1;
    assert groups[last := groups[last] + [rect]][..last] == groups[..last];
  }

  // ----- the method

  /** Groups in row order that hold every rectangle not clipped to nothing. They are chained
      inside, apart from each other and framed by int32 boxes exactly when the inputs have a
      family of boxes with that distance between them; then they are also sorted by row. */
  method GroupByRows(list: seq<Rect>, rowTol: int32) returns (groups: seq<seq<Rect>>)
    ensures multiset(Flatten(groups)) == multiset(Merge.SolidInputs(list))
    ensures RowGroups(groups, rowTol) && Framed(groups) <==>
              Merge.Separable(Merge.SolidInputs(list), NearRows(rowTol))
    ensures RowGroups(groups, rowTol) && Framed(groups) ==> Sorting.SortedBy(Flatten(groups), RowOrder)
  {
    var sorted := SortByRow(list);
    ghost var family := FamilyOf(list, sorted, rowTol);
    groups := [];
    for i := 0 to |sorted|
      invariant RowsSoFar(groups, sorted, i, rowTol, family)
    {
      var rect := sorted[i];
      if rect.IsEmpty() {
        EmptyRow(groups, sorted, i, rowTol, family);
        continue;
      }
      var idx := FindRowGroup(rect, groups, rowTol);
      NextRow(groups, idx, sorted, i, rowTol, family);
      if idx >= |groups| {
        groups := groups + [[rect]];
      } else {
        groups := groups[idx := groups[idx] + [rect]];
      }
    }
    AllRows(groups, list, sorted, rowTol, family);
  }

  /** Some int32 rectangle is around each group. */
  ghost predicate Framed(groups: seq<seq<Rect>>) {
    forall g :: 0 <= g < |groups| ==> HasFrame(groups[g])
  }

  ghost predicate HasFrame(group: seq<Rect>) { exists m :: Holds(m, group) }

  ghost predicate SortsSolid(sorted: seq<Rect>, list: seq<Rect>) {
    Sorting.SortedBy(sorted, RowOrder) && multiset(sorted) == multiset(NormalizedNonEmpty(list))
  }

  /** What the loop has done; more if the family is a separated cover. */
  ghost predicate RowsSoFar(groups: seq<seq<Rect>>, sorted: seq<Rect>, i: nat, tol: int32, family: seq<Rect>) {
    && i <= |sorted| && Sorting.SortedBy(sorted, RowOrder) && Normal(sorted)
    && multiset(Flatten(groups)) == multiset(Merge.Solid(sorted[..i]))
    && (Merge.SeparatedCover(family, Merge.Solid(sorted), NearRows(tol)) ==>
          Progress(groups, tol, family) && Flatten(groups) == Merge.Solid(sorted[..i]))
  }

  lemma FamilyOf(list: seq<Rect>, sorted: seq<Rect>, tol: int32) returns (family: seq<Rect>)
    requires SortsSolid(sorted, list)
    ensures Merge.Separable(Merge.SolidInputs(list), NearRows(tol)) ==>
              Merge.SeparatedCover(family, Merge.Solid(sorted), NearRows(tol))
    ensures RowsSoFar([], sorted, 0, tol, family)
  {
    Sorting.SameElements(sorted, NormalizedNonEmpty(list));
    NormalizedIsNormal(list);
    family := [];
    if Merge.Separable(Merge.SolidInputs(list), NearRows(tol)) {
      Merge.SolidMembers(sorted);
      Merge.SolidMembers(NormalizedNonEmpty(list));
      family :| Merge.SeparatedCover(family, Merge.SolidInputs(list), NearRows(tol));
    }
  }

  lemma SolidNext(sorted: seq<Rect>, i: nat)
    requires i < |sorted|
    ensures Merge.Solid(sorted[..i + 1]) == Merge.Solid(sorted[..i]) + if sorted[i].IsEmpty() then [] else [sorted[i]]
  {
    assert sorted[..i + 1] == sorted[..i] + [sorted[i]];
    Merge.SolidAppend(sorted[..i], [sorted[i]]);
  }

  lemma EmptyRow(groups: seq<seq<Rect>>, sorted: seq<Rect>, i: nat, tol: int32, family: seq<Rect>)
    requires i < |sorted| && RowsSoFar(groups, sorted, i, tol, family) && sorted[i].IsEmpty()
    ensures RowsSoFar(groups, sorted, i + 1, tol, family)
  {
    SolidNext(sorted, i);
  }

  lemma NextRow(groups: seq<seq<Rect>>, idx: nat, sorted: seq<Rect>, i: nat, tol: int32, family: seq<Rect>)
    requires i < |sorted| && RowsSoFar(groups, sorted, i, tol, family) && !sorted[i].IsEmpty()
    requires idx <= |groups| && (idx < |groups| ==> Joins(sorted[i], groups[idx], tol))
    requires forall k :: 0 <= k < idx ==> !Joins(sorted[i], groups[k], tol)
    ensures RowsSoFar(Placed(groups, idx, sorted[i]), sorted, i + 1, tol, family)
  {
    SolidNext(sorted, i);
    PlacedAdds(groups, idx, sorted[i]);
    if Merge.SeparatedCover(family, Merge.Solid(sorted), NearRows(tol)) {
      EarlierStartHigher(sorted, i, groups);
      Merge.SolidMembers(sorted);
      assert sorted[i] in sorted && sorted[i] in Merge.Solid(sorted);
      assert Merge.CoveredIn(family, sorted[i]);
      GroupStep(groups, sorted[i], idx, tol, family);
    }
  }

  lemma GroupStep(groups: seq<seq<Rect>>, rect: Rect, idx: nat, tol: int32, family: seq<Rect>)
    requires Progress(groups, tol, family) && Merge.Proper(rect) && Merge.CoveredIn(family, rect)
    requires idx <= |groups| && (idx < |groups| ==> Joins(rect, groups[idx], tol))
    requires forall k :: 0 <= k < idx ==> !Joins(rect, groups[k], tol)
    requires forall h, r :: 0 <= h < |groups| && r in groups[h] ==> r.y <= rect.y
    ensures Progress(Placed(groups, idx, rect), tol, family)
    ensures Flatten(Placed(groups, idx, rect)) == Flatten(groups) + [rect]
  {
    if idx >= |groups| {
      Append(groups, rect, tol, family);
      FlattenNew(groups, rect);
    } else {
      JoinLast(groups, rect, idx, tol, family);
    }
  }

  lemma FlattenNew(groups: seq<seq<Rect>>, rect: Rect)
    ensures Flatten(groups + [[rect]]) == Flatten(groups) + [rect]
  {
    assert (groups + [[rect]])[..|groups|] == groups;
  }

  lemma JoinLast(groups: seq<seq<Rect>>, rect: Rect, idx: nat, tol: int32, family: seq<Rect>)
    requires Progress(groups, tol, family) && Merge.Proper(rect) && Merge.CoveredIn(family, rect)
    requires idx < |groups| && Joins(rect, groups[idx], tol)
    requires forall h, r :: 0 <= h < |groups| && r in groups[h] ==> r.y <= rect.y
    ensures Progress(groups[idx := groups[idx] + [rect]], tol, family)
    ensures Flatten(groups[idx := groups[idx] + [rect]]) == Flatten(groups) + [rect]
  {
    JoinsLastOrNone(groups, rect, tol, family, idx);
    Extend(groups, rect, tol, family);
    FlattenLast(groups, rect);
  }

  lemma EarlierStartHigher(sorted: seq<Rect>, i: nat, groups: seq<seq<Rect>>)
    requires i < |sorted| && Sorting.SortedBy(sorted, RowOrder) && Flatten(groups) == Merge.Solid(sorted[..i])
    ensures forall h, r :: 0 <= h < |groups| && r in groups[h] ==> r.y <= sorted[i].y
  {
    FlattenMembers(groups);
    Merge.SolidMembers(sorted[..i]);
    forall h, r: Rect | 0 <= h < |groups| && r in groups[h] ensures r.y <= sorted[i].y {
      assert r in sorted[..i];
      var k :| 0 <= k < i && sorted[k] == r;
      assert RowOrder(sorted[k], sorted[i]);
    }
  }

  lemma AllRows(groups: seq<seq<Rect>>, list: seq<Rect>, sorted: seq<Rect>, tol: int32, family: seq<Rect>)
    requires SortsSolid(sorted, list) && RowsSoFar(groups, sorted, |sorted|, tol, family)
    requires Merge.Separable(Merge.SolidInputs(list), NearRows(tol)) ==>
               Merge.SeparatedCover(family, Merge.Solid(sorted), NearRows(tol))
    ensures multiset(Flatten(groups)) == multiset(Merge.SolidInputs(list))
    ensures RowGroups(groups, tol) && Framed(groups) <==> Merge.Separable(Merge.SolidInputs(list), NearRows(tol))
    ensures RowGroups(groups, tol) && Framed(groups) ==> Sorting.SortedBy(Flatten(groups), RowOrder)
  {
    assert sorted[..|sorted|] == sorted;
    SolidPermuted(sorted, NormalizedNonEmpty(list));
    if Merge.Separable(Merge.SolidInputs(list), NearRows(tol)) {
      forall g | 0 <= g < |groups| ensures HasFrame(groups[g]) {
        assert InMember(family, groups[g]);
      }
      SolidSorted(sorted);
    }
    if RowGroups(groups, tol) && Framed(groups) {
      FramesSeparate(groups, tol, Merge.SolidInputs(list));
    }
  }

  lemma SolidPermuted(s: seq<Rect>, t: seq<Rect>)
    requires multiset(s) == multiset(t)
    ensures multiset(Merge.Solid(s)) == multiset(Merge.Solid(t))
  {
    SolidCount(s);
    SolidCount(t);
  }

  lemma {:induction false} SolidCount(s: seq<Rect>)
    ensures forall r :: multiset(Merge.Solid(s))[r] == if r.IsEmpty() then 0 else multiset(s)[r]
  {
    if s != [] {
      SolidCount(s[1..]);
      assert s == [s[0]] + s[1..];
    }
  }

  lemma {:induction false} SolidSorted(s: seq<Rect>)
    requires Sorting.SortedBy(s, RowOrder)
    ensures Sorting.SortedBy(Merge.Solid(s), RowOrder)
  {
    if s != [] {
      SolidSorted(s[1..]);
      Merge.SolidMembers(s[1..]);
      assert forall r :: r in s[1..] ==> RowOrder(s[0], r);
    }
  }

  /** The boxes of framed groups that are apart form a separated cover. */
  lemma FramesSeparate(groups: seq<seq<Rect>>, tol: int32, solid: seq<Rect>)
    requires RowGroups(groups, tol) && Framed(groups) && multiset(Flatten(groups)) == multiset(solid)
    ensures Merge.Separable(solid, NearRows(tol))
  {
    var boxes := GroupBoxes(groups, tol, |groups|);
    Sorting.SameElements(Flatten(groups), solid);
    BoxesSeparate(groups, boxes, tol, solid);
  }

  lemma {:induction false} GroupBoxes(groups: seq<seq<Rect>>, tol: int32, n: nat) returns (boxes: seq<Rect>)
    requires RowGroups(groups, tol) && Framed(groups) && n <= |groups|
    ensures |boxes| == n && forall g :: 0 <= g < n ==> IsBoxOf(boxes[g], groups[g])
  {
    boxes := [];
    if n > 0 {
      var group := groups[n - 1];
      boxes := GroupBoxes(groups, tol, n - 1);
      assert Chained(group, tol) && HasFrame(group);
      var m :| Holds(m, group);
      BoundsInside(group, m);
      assert IsBoxOf(UnionListBounds(group), group);
      boxes := boxes + [UnionListBounds(group)];
    }
  }

  ghost predicate IsBoxOf(box: Rect, group: seq<Rect>) { Merge.BoundingBoxOf(box, group) && Merge.Proper(box) }

  lemma BoxesSeparate(groups: seq<seq<Rect>>, boxes: seq<Rect>, tol: int32, solid: seq<Rect>)
    requires GroupsApart(groups, tol) && |boxes| == |groups|
    requires forall g :: 0 <= g < |groups| ==> IsBoxOf(boxes[g], groups[g])
    requires forall r :: r in solid ==> r in Flatten(groups)
    ensures Merge.SeparatedCover(boxes, solid, NearRows(tol))
  {
    forall g, h | 0 <= g < h < |boxes| ensures !RowsMeet(boxes[g], boxes[h], tol) {
      BoxesApart(groups, tol, g, h, boxes[g], boxes[h]);
    }
    BoxesCover(groups, boxes, solid);
    forall b | b in boxes ensures Merge.Proper(b) {
      var g :| 0 <= g < |boxes| && boxes[g] == b;
      assert IsBoxOf(boxes[g], groups[g]);
    }
  }

  lemma BoxesCover(groups: seq<seq<Rect>>, boxes: seq<Rect>, solid: seq<Rect>)
    requires |boxes| == |groups| && forall g :: 0 <= g < |groups| ==> IsBoxOf(boxes[g], groups[g])
    requires forall r :: r in solid ==> r in Flatten(groups)
    ensures Merge.Covers(boxes, solid)
  {
    forall r | r in solid ensures Merge.CoveredIn(boxes, r) {
      var g := GroupOf(groups, r);
      BoxCovers(boxes[g], groups[g], r);
      assert boxes[g] in boxes;
    }
  }

  lemma BoxCovers(box: Rect, group: seq<Rect>, r: Rect)
    requires IsBoxOf(box, group) && r in group
    ensures Encloses(box, r)
  {
  }

  lemma BoxesApart(groups: seq<seq<Rect>>, tol: int32, g: nat, h: nat, box: Rect, other: Rect)
    requires GroupsApart(groups, tol) && g < h < |groups|
    requires IsBoxOf(box, groups[g]) && IsBoxOf(other, groups[h])
    ensures !RowsMeet(box, other, tol)
  {
    var a :| a in groups[g] && a.Bottom() == box.Bottom();
    var b :| b in groups[h] && b.y == other.y;
    assert a.Bottom() + Max(tol, 0) < b.y;
  }

  // ----- the groups are the connected components

  ghost predicate Path(path: seq<Rect>, all: seq<Rect>, tol: int32) {
    && path != []
    && (forall k :: 0 <= k < |path| ==> path[k] in all)
    && (forall k :: 0 < k < |path| ==> RowsMeet(path[k - 1], path[k], tol))
  }

  ghost predicate Connected(a: Rect, b: Rect, all: seq<Rect>, tol: int32) {
    exists path :: Path(path, all, tol) && path[0] == a && path[|path| - 1] == b
  }

  /** In the result of GroupByRows two rectangles share a group exactly when a chain of near
      rectangles links them. */
  lemma GroupsAreComponents(groups: seq<seq<Rect>>, list: seq<Rect>, tol: int32, a: Rect, b: Rect)
    requires multiset(Flatten(groups)) == multiset(Merge.SolidInputs(list)) && RowGroups(groups, tol)
    requires a in Flatten(groups) && b in Flatten(groups)
    ensures (exists g :: 0 <= g < |groups| && a in groups[g] && b in groups[g]) <==>
              Connected(a, b, Flatten(groups), tol)
  {
    Sorting.SameElements(Flatten(groups), Merge.SolidInputs(list));
    Merge.SolidMembers(NormalizedNonEmpty(list));
    SolidComponents(groups, tol, a, b);
  }

  lemma SolidComponents(groups: seq<seq<Rect>>, tol: int32, a: Rect, b: Rect)
    requires RowGroups(groups, tol) && a in Flatten(groups) && b in Flatten(groups)
    requires forall r :: r in Flatten(groups) ==> r.height >= 0
    ensures (exists g :: 0 <= g < |groups| && a in groups[g] && b in groups[g]) <==>
              Connected(a, b, Flatten(groups), tol)
  {
    if g :| 0 <= g < |groups| && a in groups[g] && b in groups[g] {
      GroupConnected(groups, tol, g, a, b);
    }
    if Connected(a, b, Flatten(groups), tol) {
      var path :| Path(path, Flatten(groups), tol) && path[0] == a && path[|path| - 1] == b;
      var g := GroupOf(groups, a);
      PathStays(groups, tol, path, g, |path| - 1);
    }
  }

  lemma {:induction false} GroupOf(groups: seq<seq<Rect>>, r: Rect) returns (g: nat)
    requires r in Flatten(groups)
    ensures g < |groups| && r in groups[g]
  {
    if r in groups[|groups| - 1] {
      g := |groups| - 1;
    } else {
      g := GroupOf(groups[..|groups| - 1], r);
    }
  }

  lemma {:induction false} PathStays(groups: seq<seq<Rect>>, tol: int32, path: seq<Rect>, g: nat, k: nat)
    requires RowGroups(groups, tol) && Path(path, Flatten(groups), tol) && k < |path|
    requires forall r :: r in Flatten(groups) ==> r.height >= 0
    requires g < |groups| && path[0] in groups[g]
    ensures path[k] in groups[g]
  {
    if k > 0 {
      PathStays(groups, tol, path, g, k - 1);
      var h := GroupOf(groups, path[k]);
      assert RowsMeet(path[k - 1], path[k], tol);
      assert path[k - 1].height >= 0 && path[k].height >= 0;
    }
  }

  lemma {:induction false} PathToFirst(group: seq<Rect>, all: seq<Rect>, tol: int32, k: nat) returns (path: seq<Rect>)
    requires Chained(group, tol) && k < |group| && forall r :: r in group ==> r in all
    ensures Path(path, all, tol) && path[0] == group[k] && path[|path| - 1] == group[0]
  {
    path := [group[k]];
    if k > 0 {
      assert TouchesEarlier(group, k, tol);
      var j :| 0 <= j < k && RowsMeet(group[j], group[k], tol);
      var rest := PathToFirst(group, all, tol, j);
      path := path + rest;
    }
  }

  ghost function Reverse(path: seq<Rect>): (r: seq<Rect>)
    ensures |r| == |path| && forall k :: 0 <= k < |r| ==> r[k] == path[|path| - 1 - k]
  {
    if path == [] then [] else Reverse(path[1..]) + [path[0]]
  }

  lemma GroupConnected(groups: seq<seq<Rect>>, tol: int32, g: nat, a: Rect, b: Rect)
    requires RowGroups(groups, tol) && g < |groups| && a in groups[g] && b in groups[g]
    requires forall r :: r in Flatten(groups) ==> r.height >= 0
    ensures Connected(a, b, Flatten(groups), tol)
  {
    var group, all := groups[g], Flatten(groups);
    FlattenMembers(groups);
    assert Chained(group, tol);
    var i :| 0 <= i < |group| && group[i] == a;
    var j :| 0 <= j < |group| && group[j] == b;
    var there := PathToFirst(group, all, tol, i);
    var back := PathToFirst(group, all, tol, j);
    JoinPaths(there, back, all, tol);
  }

  lemma JoinPaths(there: seq<Rect>, back: seq<Rect>, all: seq<Rect>, tol: int32)
    requires Path(there, all, tol) && Path(back, all, tol) && there[|there| - 1] == back[|back| - 1]
    requires forall r :: r in all ==> r.height >= 0
    ensures Connected(there[0], back[0], all, tol)
  {
    var round := there + Reverse(back);
    forall k | 0 < k < |round| ensures RowsMeet(round[k - 1], round[k], tol) {
      if k == |there| {
        assert round[k - 1] in all;
      } else if k > |there| {
        var m := |back| - (k - |there|);
        assert RowsMeet(back[m - 1], back[m], tol);
      }
    }
    assert Path(round, all, tol);
  }
}
