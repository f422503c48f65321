/** RemoveContained: dropping the rectangles that lie in others. */
module RectLists {
  import opened Basics
  import opened Rects

  // ----- RemoveContained

  predicate Dominated(idx: nat, j: nat, list: seq<Rect>)
    requires idx < |list| && j < |list|
  {
    idx != j && if list[idx] == list[j] then j < idx else ContainsRect(list[j], list[idx])
  }

  predicate ContainedByAny(idx: nat, list: seq<Rect>)
    requires idx < |list|
  {
    exists j :: 0 <= j < |list| && Dominated(idx, j, list)
  }

  method IsContainedByAny(idx: nat, list: seq<Rect>) returns (contained: bool)
    requires idx < |list|
    ensures contained == ContainedByAny(idx, list)
  {
    for j := 0 to |list|
      invariant forall k :: 0 <= k < j ==> !Dominated(idx, k, list)
    {
      if idx == j {
        continue;
      }
      if list[idx] == list[j] {
        if j < idx {
          assert Dominated(idx, j, list);
          return true;
        }
        continue;
      }
      if ContainsRect(list[j], list[idx]) {
        assert Dominated(idx, j, list);
        return true;
      }
    }
    return false;
  }

  function KeptFrom(list: seq<Rect>, i: nat): seq<Rect>
    requires i <= |list|
    decreases |list| - i
  {
    if i == |list| then [] else
    if ContainedByAny(i, list) then KeptFrom(list, i + 1) else [list[i]] + KeptFrom(list, i + 1)
  }

  function Uncontained(list: seq<Rect>): seq<Rect> { KeptFrom(NormalizedNonEmpty(list), 0) }

  method RemoveContained(list: seq<Rect>) returns (result: seq<Rect>)
    ensures result == Uncontained(list)
  {
    var normed := NormalizedNonEmpty(list);
    result := [];
    for i := 0 to |normed|
      invariant result + KeptFrom(normed, i) == KeptFrom(normed, 0)
    {
      var contained := IsContainedByAny(i, normed);
      if !contained {
        assert result + KeptFrom(normed, i) == (result + [normed[i]]) + KeptFrom(normed, i + 1);
        result := result + [normed[i]];
      }
    }
  }

  lemma ContainsEncloses(outer: Rect, inner: Rect)
    requires outer.width >= 0 && outer.height >= 0 && Inside(outer)
    requires inner.width >= 0 && inner.height >= 0 && Inside(inner)
    ensures ContainsRect(outer, inner) <==> !outer.IsEmpty() && !inner.IsEmpty() && Encloses(outer, inner)
  {
    NormalForm(outer);
    NormalForm(inner);
  }

  /** Domination climbs to a rectangle that is kept. */
  lemma {:induction false} Keeper(list: seq<Rect>, i: nat) returns (k: nat)
    requires Normal(list) && i < |list|
    ensures k < |list| && !ContainedByAny(k, list) && Encloses(list[k], list[i])
    decreases 0x1_0000_0000 - list[i].width - list[i].height, i
  {
    if !ContainedByAny(i, list) {
      return i;
    }
    var j :| 0 <= j < |list| && Dominated(i, j, list);
    assert list[i] in list && list[j] in list;
    if list[i] != list[j] {
      ContainsEncloses(list[j], list[i]);
    }
    k := Keeper(list, j);
  }

  lemma {:induction false} KeptMembers(list: seq<Rect>, i: nat)
    requires i <= |list|
    ensures forall r :: r in KeptFrom(list, i) <==>
              exists k :: i <= k < |list| && !ContainedByAny(k, list) && list[k] == r
    decreases |list| - i
  {
    if i < |list| {
      KeptMembers(list, i + 1);
    }
  }

  ghost predicate Distinct(rs: seq<Rect>) { forall a, b :: 0 <= a < b < |rs| ==> rs[a] != rs[b] }

  lemma {:induction false} KeptDistinct(list: seq<Rect>, i: nat)
    requires i <= |list|
    ensures Distinct(KeptFrom(list, i))
    decreases |list| - i
  {
    if i < |list| {
      KeptDistinct(list, i + 1);
      FirstIsNew(list, i);
      DistinctCons(list[i], KeptFrom(list, i + 1));
    }
  }

  lemma FirstIsNew(list: seq<Rect>, i: nat)
    requires i < |list|
    ensures list[i] !in KeptFrom(list, i + 1)
  {
    KeptMembers(list, i + 1);
    forall k | i + 1 <= k < |list| && !ContainedByAny(k, list) ensures list[k] != list[i] {
      assert !Dominated(k, i, list);
    }
  }

  lemma DistinctCons(r: Rect, rest: seq<Rect>)
    requires Distinct(rest) && r !in rest
    ensures Distinct([r] + rest)
  {
  }

  ghost predicate Antichain(list: seq<Rect>) {
    forall i, j :: 0 <= i < |list| && 0 <= j < |list| && i != j ==>
      list[i] != list[j] && !ContainsRect(list[i], list[j])
  }

  lemma UncontainedIsAntichain(list: seq<Rect>)
    ensures Antichain(Uncontained(list))
  {
    var normed, kept := NormalizedNonEmpty(list), Uncontained(list);
    KeptDistinct(normed, 0);
    KeptMembers(normed, 0);
    forall i, j | 0 <= i < |kept| && 0 <= j < |kept| && i != j
      ensures kept[i] != kept[j] && !ContainsRect(kept[i], kept[j])
    {
      assert kept[i] in kept && kept[j] in kept;
      var k :| 0 <= k < |normed| && !ContainedByAny(k, normed) && normed[k] == kept[i];
      var m :| 0 <= m < |normed| && !ContainedByAny(m, normed) && normed[m] == kept[j];
      assert !Dominated(m, k, normed);
    }
  }

  ghost predicate LiesInSome(kept: seq<Rect>, r: Rect) { exists k :: k in kept && Encloses(k, r) }

  /** Every dropped rectangle lies in a kept one, so no covered cell is lost. */
  lemma UncontainedKeepsCells(list: seq<Rect>)
    ensures forall r :: r in NormalizedNonEmpty(list) ==> LiesInSome(Uncontained(list), r)
    ensures Visible(Uncontained(list)) == Visible(list)
  {
    var normed, kept := NormalizedNonEmpty(list), Uncontained(list);
    NormalizedIsNormal(list);
    KeptMembers(normed, 0);
    forall r | r in normed ensures LiesInSome(kept, r) {
      var i :| 0 <= i < |normed| && normed[i] == r;
      var k := Keeper(normed, i);
      assert normed[k] in kept;
    }
    NormalizedCoverage(list);
    SameCover(kept, normed);
  }

  lemma SameCover(kept: seq<Rect>, normed: seq<Rect>)
    requires Normal(normed) && forall r :: r in kept ==> r in normed
    requires forall r :: r in normed ==> LiesInSome(kept, r)
    ensures Visible(kept) == Covered(normed)
  {
    forall c ensures c in Visible(kept) <==> c in Covered(normed) {
      if c in Covered(normed) {
        CoverIsKept(kept, normed, c);
      }
      if c in Visible(kept) {
        var k :| k in kept && c in Cells(k);
      }
    }
  }

  lemma CoverIsKept(kept: seq<Rect>, normed: seq<Rect>, c: (int, int))
    requires Normal(normed) && c in Covered(normed)
    requires forall r :: r in normed ==> LiesInSome(kept, r)
    ensures c in Visible(kept)
  {
    var r :| r in normed && c in Cells(r);
    var k :| k in kept && Encloses(k, r);
    CellOfEnclosing(k, r, c);
    assert Representable(c);
  }

  lemma CellOfEnclosing(outer: Rect, inner: Rect, c: (int, int))
    requires Encloses(outer, inner) && c in Cells(inner)
    ensures c in Cells(outer)
  {
  }

  /** A second pass changes nothing exactly when no input is clipped to nothing. */
  lemma UncontainedTwice(list: seq<Rect>)
    ensures Uncontained(Uncontained(list)) == Uncontained(list) <==> forall r :: r in list ==> !Collapses(r)
  {
    if r :| r in list && Collapses(r) {
      var e := ClippedKept(list, r);
      NormalizedIsNormal(list);
      KeptMembers(NormalizedNonEmpty(list), 0);
      ClippedDropped(Uncontained(list), e);
    } else {
      SecondPassIdle(list);
    }
  }

  lemma ClippedDropped(kept: seq<Rect>, e: Rect)
    requires Normal(kept) && e.IsEmpty()
    ensures e !in Uncontained(kept)
  {
    var normed := NormalizedNonEmpty(kept);
    KeptMembers(normed, 0);
    NormalizedMembers(kept);
    if e in Uncontained(kept) {
      assert e in normed;
      var r :| r in kept && !r.IsEmpty() && e == Normalize(r);
      NormalForm(r);
    }
  }

  lemma SecondPassIdle(list: seq<Rect>)
    requires forall r :: r in list ==> !Collapses(r)
    ensures Uncontained(Uncontained(list)) == Uncontained(list)
  {
    var normed, kept := NormalizedNonEmpty(list), Uncontained(list);
    NormalizedIsNormal(list);
    KeptMembers(normed, 0);
    NormalizedIsSolid(list);
    SolidFixed(kept);
    UncontainedIsAntichain(list);
    AntichainKept(kept, 0);
  }

  lemma NormalizedIsSolid(list: seq<Rect>)
    requires forall r :: r in list ==> !Collapses(r)
    ensures forall n :: n in NormalizedNonEmpty(list) ==> !n.IsEmpty()
  {
    NormalizedMembers(list);
    forall n | n in NormalizedNonEmpty(list) ensures !n.IsEmpty() {
      var r :| r in list && !r.IsEmpty() && n == Normalize(r);
      NormalizeMeaning(r);
    }
  }

  lemma {:induction false} SolidFixed(list: seq<Rect>)
    requires Normal(list) && forall r :: r in list ==> !r.IsEmpty()
    ensures NormalizedNonEmpty(list) == list
  {
    if list != [] {
      SolidFixed(list[1..]);
      assert list[0] in list;
      NormalForm(list[0]);
    }
  }

  lemma {:induction false} AntichainKept(list: seq<Rect>, i: nat)
    requires Antichain(list) && i <= |list|
    ensures KeptFrom(list, i) == list[i..]
    decreases |list| - i
  {
    if i < |list| {
      AntichainKept(list, i + 1);
      assert forall j :: 0 <= j < |list| ==> !Dominated(i, j, list);
    }
  }

  /** A clipped-away rectangle survives the first pass and is dropped by the second. */
  lemma ClippedKept(list: seq<Rect>, r: Rect) returns (e: Rect)
    requires r in list && Collapses(r)
    ensures e in Uncontained(list) && e.IsEmpty() && Normalize(e) == e
  {
    var normed := NormalizedNonEmpty(list);
    NormalizedMembers(list);
    NormalizeMeaning(r);
    e := Normalize(r);
    assert e in normed;
    var i := FirstOf(normed, e);
    assert forall j :: 0 <= j < |normed| ==> !Dominated(i, j, normed);
    KeptMembers(normed, 0);
  }

  lemma FirstOf(list: seq<Rect>, e: Rect) returns (i: nat)
    requires e in list
    ensures i < |list| && list[i] == e && e !in list[..i]
  {
    i := 0;
    while list[i] != e
      decreases |list| - i
      invariant i < |list| && e !in list[..i] && e in list[i..]
    {
      assert list[i..] == [list[i]] + list[i + 1..];
      assert list[..i + 1] == list[..i] + [list[i]];
      i := i + 1;
    }
  }
}
