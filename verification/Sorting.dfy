/** The contracts of std::sort and std::unique: nothing more is assumed of them, so every
    result built on this module holds for whichever order std::sort leaves ties in. */
module Sorting {

  ghost predicate TotalPreorder<T(!new)>(le: (T, T) -> bool) {
    && (forall x, y :: le(x, y) || le(y, x))
    && (forall x, y, z :: le(x, y) && le(y, z) ==> le(x, z))
  }

  ghost predicate SortedBy<T>(s: seq<T>, le: (T, T) -> bool) {
    forall i, j :: 0 <= i < j < |s| ==> le(s[i], s[j])
  }

  lemma InsertFront<T(!new)>(x: T, s: seq<T>, le: (T, T) -> bool)
    requires TotalPreorder(le) && SortedBy(s, le) && s != [] && le(x, s[0])
    ensures SortedBy([x] + s, le)
  {
    var r := [x] + s;
    forall j | 1 <= j < |r| ensures le(x, r[j]) {
      assert r[j] == s[j - 1];
    }
  }

  lemma InsertLater<T(!new)>(x: T, s: seq<T>, rest: seq<T>, le: (T, T) -> bool)
    requires TotalPreorder(le) && SortedBy(s, le) && s != [] && !le(x, s[0])
    requires SortedBy(rest, le) && multiset(rest) == multiset(s[1..]) + multiset{x}
    ensures SortedBy([s[0]] + rest, le) && multiset([s[0]] + rest) == multiset(s) + multiset{x}
  {
    var r := [s[0]] + rest;
    assert s == [s[0]] + s[1..];
    forall j | 1 <= j < |r| ensures le(s[0], r[j]) {
      assert r[j] in multiset(rest);
      if r[j] != x {
        assert r[j] in multiset(s[1..]);
        var k :| 0 <= k < |s[1..]| && s[1..][k] == r[j];
        assert le(s[0], s[k + 1]);
      }
    }
  }

  function Insert<T(!new)>(x: T, s: seq<T>, le: (T, T) -> bool): (r: seq<T>)
    requires TotalPreorder(le) && SortedBy(s, le)
    ensures SortedBy(r, le) && multiset(r) == multiset(s) + multiset{x}
  {
    if s == [] then [x]
    else if le(x, s[0]) then InsertFront(x, s, le); [x] + s
    else
      var rest := Insert(x, s[1..], le);
      InsertLater(x, s, rest, le);
      [s[0]] + rest
  }

  /** Some sorted permutation of s. */
  method Sort<T(!new)>(s: seq<T>, le: (T, T) -> bool) returns (r: seq<T>)
    requires TotalPreorder(le)
    ensures SortedBy(r, le) && multiset(r) == multiset(s)
  {
    r := [];
    for i := 0 to |s|
      invariant SortedBy(r, le) && multiset(r) == multiset(s[..i])
    {
      assert s[..i + 1] == s[..i] + [s[i]];
      r := Insert(s[i], r, le);
    }
    assert s[..|s|] == s;
  }

  ghost predicate StrictlyAscending(s: seq<int>) {
    forall i, j :: 0 <= i < j < |s| ==> s[i] < s[j]
  }

  lemma SameElements<T>(s: seq<T>, t: seq<T>)
    requires multiset(s) == multiset(t)
    ensures forall x :: x in s <==> x in t
  {
    forall x ensures x in s <==> x in t {
      assert x in s <==> x in multiset(s);
      assert x in t <==> x in multiset(t);
    }
  }

  /** std::sort followed by std::unique and erase. */
  method SortUnique(s: seq<int>) returns (r: seq<int>)
    ensures StrictlyAscending(r)
    ensures forall x :: x in r <==> x in s
  {
    var le := (x: int, y: int) => x <= y;
    var sorted := Sort(s, le);
    SameElements(sorted, s);
    forall i, j | 0 <= i < j < |sorted| ensures sorted[i] <= sorted[j] {
      assert le(sorted[i], sorted[j]);
    }
    r := [];
    for i := 0 to |sorted|
      invariant StrictlyAscending(r)
      invariant forall x :: x in r <==> x in sorted[..i]
      invariant if i == 0 then r == [] else r != [] && r[|r| - 1] == sorted[i - 1]
    {
      assert sorted[..i + 1] == sorted[..i] + [sorted[i]];
      if r == [] || r[|r| - 1] != sorted[i] {
        assert forall k :: 0 <= k < |r| ==> r[k] <= r[|r| - 1] < sorted[i];
        r := r + [sorted[i]];
      }
    }
    assert sorted[..|sorted|] == sorted;
  }
}
