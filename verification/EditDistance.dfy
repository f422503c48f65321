/** StringDiffUtil: the dynamic-programming edit distance, proved minimal over all
    sequences of single-character edits, and a metric. */
module EditDistance {
  import opened Basics

  // ----- the recurrence of the table

  function Init(s: string): string
    requires s != []
  {
    s[..|s| - 1]
  }

  function Last(s: string): char
    requires s != []
  {
    s[|s| - 1]
  }

  function Distance(a: string, b: string): nat
    decreases |a| + |b|
  {
    if a == [] then |b| else
    if b == [] then |a| else
    if Last(a) == Last(b) then Distance(Init(a), Init(b)) else
    1 + Min(Min(Distance(Init(a), b), Distance(a, Init(b))), Distance(Init(a), Init(b)))
  }

  /** The table entry for two prefixes. */
  ghost function Cell(a: string, b: string, i: int, j: int): nat
    requires 0 <= i <= |a| && 0 <= j <= |b|
  {
    Distance(a[..i], b[..j])
  }

  lemma CellValue(a: string, b: string, i: int, j: int)
    requires 0 < i <= |a| && 0 < j <= |b|
    ensures Cell(a, b, i, j) ==
            if a[i - 1] == b[j - 1] then Cell(a, b, i - 1, j - 1)
            else 1 + Min(Min(Cell(a, b, i - 1, j), Cell(a, b, i, j - 1)), Cell(a, b, i - 1, j - 1))
  {
    assert Init(a[..i]) == a[..i - 1] && Init(b[..j]) == b[..j - 1];
  }

  lemma CellBorders(a: string, b: string)
    ensures forall i :: 0 <= i <= |a| ==> Cell(a, b, i, 0) == i
    ensures forall j :: 0 <= j <= |b| ==> Cell(a, b, 0, j) == j
    ensures Cell(a, b, |a|, |b|) == Distance(a, b)
  {
    assert a[..|a|] == a && b[..|b|] == b;
  }

  method NewTable(m: nat, n: nat) returns (dp: array2<nat>)
    ensures fresh(dp) && dp.Length0 == m + 1 && dp.Length1 == n + 1
    ensures forall i :: 0 <= i <= m ==> dp[i, 0] == i
    ensures forall j :: 0 <= j <= n ==> dp[0, j] == j
  {
    dp := new nat[m + 1, n + 1]((i, j) => 0);
    for i := 0 to m + 1
      invariant forall k :: 0 <= k < i ==> dp[k, 0] == k
    {
      dp[i, 0] := i;
    }
    for j := 0 to n + 1
      invariant forall k :: 0 <= k <= m ==> dp[k, 0] == k
      invariant forall k :: 0 <= k < j ==> dp[0, k] == k
    {
      dp[0, j] := j;
    }
  }

  ghost predicate RowFilled(dp: array2<nat>, a: string, b: string, i: int)
    requires dp.Length0 == |a| + 1 && dp.Length1 == |b| + 1 && 0 <= i <= |a|
    reads dp
  {
    forall j :: 0 <= j <= |b| ==> dp[i, j] == Cell(a, b, i, j)
  }

  method FillRow(dp: array2<nat>, a: string, b: string, i: nat)
    requires dp.Length0 == |a| + 1 && dp.Length1 == |b| + 1 && 0 < i <= |a|
    requires RowFilled(dp, a, b, i - 1) && dp[i, 0] == Cell(a, b, i, 0)
    modifies dp
    ensures RowFilled(dp, a, b, i)
    ensures forall k, j :: 0 <= k <= |a| && 0 <= j <= |b| && k != i ==> dp[k, j] == old(dp[k, j])
  {
    for j := 1 to |b| + 1
      invariant forall l :: 0 <= l < j ==> dp[i, l] == Cell(a, b, i, l)
      invariant forall k, l :: 0 <= k <= |a| && 0 <= l <= |b| && k != i ==> dp[k, l] == old(dp[k, l])
    {
      CellValue(a, b, i, j);
      if a[i - 1] == b[j - 1] {
        dp[i, j] := dp[i - 1, j - 1];
      } else {
        dp[i, j] := 1 + Min(Min(dp[i - 1, j], dp[i, j - 1]), dp[i - 1, j - 1]);
      }
    }
  }

  method ComputeEditDistance(a: string, b: string) returns (d: nat)
    ensures d == Distance(a, b)
  {
    CellBorders(a, b);
    var dp := NewTable(|a|, |b|);
    for i := 1 to |a| + 1
      invariant forall k :: i <= k <= |a| ==> dp[k, 0] == k
      invariant RowFilled(dp, a, b, i - 1)
    {
      FillRow(dp, a, b, i);
    }
    return dp[|a|, |b|];
  }

  // ----- neighbouring cells differ by at most one, so the greedy diagonal is optimal

  lemma {:induction false} Neighbours(a: string, b: string)
    ensures a != [] ==> Distance(Init(a), b) - 1 <= Distance(a, b) <= Distance(Init(a), b) + 1
    ensures b != [] ==> Distance(a, Init(b)) - 1 <= Distance(a, b) <= Distance(a, Init(b)) + 1
    decreases |a| + |b|
  {
    if a != [] {
      Neighbours(Init(a), b);
    }
    if b != [] {
      Neighbours(a, Init(b));
    }
    if a != [] && b != [] {
      Neighbours(Init(a), Init(b));
    }
  }

  function Mismatch(a: string, b: string): nat
    requires a != [] && b != []
  {
    if Last(a) == Last(b) then 0 else 1
  }

  /** No last step is cheaper than the one the table takes, match or no match ... */
  lemma NoBetterStep(a: string, b: string)
    requires a != [] && b != []
    ensures Distance(a, b) <= Distance(Init(a), b) + 1
    ensures Distance(a, b) <= Distance(a, Init(b)) + 1
    ensures Distance(a, b) <= Distance(Init(a), Init(b)) + Mismatch(a, b)
  {
    Neighbours(a, b);
    Neighbours(Init(a), b);
    Neighbours(a, Init(b));
  }

  /** ... and some last step attains it. */
  lemma StepAttained(a: string, b: string)
    requires a != [] && b != []
    ensures || Distance(a, b) == Distance(Init(a), b) + 1
            || Distance(a, b) == Distance(a, Init(b)) + 1
            || Distance(a, b) == Distance(Init(a), Init(b)) + Mismatch(a, b)
  {
  }

  // ----- a metric

  lemma {:induction false} DistanceBounds(a: string, b: string)
    ensures Max(|a| - |b|, |b| - |a|) <= Distance(a, b) <= Max(|a|, |b|)
    decreases |a| + |b|
  {
    if a != [] && b != [] {
      DistanceBounds(Init(a), Init(b));
      DistanceBounds(Init(a), b);
      DistanceBounds(a, Init(b));
    }
  }

  lemma {:induction false} DistanceZero(a: string, b: string)
    ensures Distance(a, b) == 0 <==> a == b
    decreases |a| + |b|
  {
    if a != [] && b != [] {
      assert a == Init(a) + [Last(a)] && b == Init(b) + [Last(b)];
      DistanceZero(Init(a), Init(b));
    }
  }

  lemma {:induction false} DistanceSymmetric(a: string, b: string)
    ensures Distance(a, b) == Distance(b, a)
    decreases |a| + |b|
  {
    if a != [] && b != [] {
      DistanceSymmetric(Init(a), Init(b));
      DistanceSymmetric(Init(a), b);
      DistanceSymmetric(a, Init(b));
    }
  }

  lemma {:induction false} Triangle(a: string, b: string, c: string)
    ensures Distance(a, c) <= Distance(a, b) + Distance(b, c)
    decreases |a| + |b| + |c|
  {
    if a == [] {
      DistanceBounds(b, c);
    } else if c == [] {
      DistanceBounds(a, b);
    } else if b == [] {
      DistanceBounds(a, c);
    } else {
      StepAttained(a, b);
      StepAttained(b, c);
      NoBetterStep(a, c);
      Triangle(Init(a), b, c);
      Triangle(a, b, Init(c));
      Triangle(a, Init(b), c);
      Triangle(a, Init(b), Init(c));
      Triangle(Init(a), Init(b), c);
      Triangle(Init(a), Init(b), Init(c));
    }
  }

  // ----- minimality over edit scripts

  datatype Edit = Insert(at: nat, c: char) | Delete(at: nat) | Replace(at: nat, c: char)

  predicate Applies(e: Edit, s: string) {
    match e
    case Insert(at, _) => at <= |s|
    case Delete(at) => at < |s|
    case Replace(at, _) => at < |s|
  }

  function Apply(e: Edit, s: string): string
    requires Applies(e, s)
  {
    match e
    case Insert(at, c) => s[..at] + [c] + s[at..]
    case Delete(at) => s[..at] + s[at + 1..]
    case Replace(at, c) => s[..at] + [c] + s[at + 1..]
  }

  /** The edits, applied in order, turn a into b. */
  predicate Turns(script: seq<Edit>, a: string, b: string) {
    if script == [] then a == b else Applies(script[0], a) && Turns(script[1..], Apply(script[0], a), b)
  }

  /** Appending the same character to both strings cannot increase the distance. */
  lemma {:induction false} SameSuffix(a: string, b: string, suffix: string)
    ensures Distance(a + suffix, b + suffix) <= Distance(a, b)
  {
    if suffix == [] {
      assert a + suffix == a && b + suffix == b;
    } else {
      var x, y := a + suffix, b + suffix;
      assert Init(x) == a + Init(suffix) && Init(y) == b + Init(suffix);
      NoBetterStep(x, y);
      SameSuffix(a, b, Init(suffix));
    }
  }

  lemma AppendCost(front: string, c: char)
    ensures Distance(front, front + [c]) <= 1 && Distance(front + [c], front) <= 1
  {
    DistanceZero(front, front);
    assert Init(front + [c]) == front;
    Neighbours(front, front + [c]);
    Neighbours(front + [c], front);
  }

  lemma ReplaceCost(front: string, x: char, y: char)
    ensures Distance(front + [x], front + [y]) <= 1
  {
    DistanceZero(front, front);
    assert Init(front + [x]) == front && Init(front + [y]) == front;
    NoBetterStep(front + [x], front + [y]);
  }

  /** One edit moves a string by at most one. */
  lemma EditCost(e: Edit, s: string)
    requires Applies(e, s)
    ensures Distance(s, Apply(e, s)) <= 1
  {
    var front := s[..e.at];
    if e.Insert? {
      AppendCost(front, e.c);
      SameSuffix(front, front + [e.c], s[e.at..]);
      assert s == front + s[e.at..];
    } else {
      var before, rest := front + [s[e.at]], s[e.at + 1..];
      assert s == before + rest;
      if e.Delete? {
        AppendCost(front, s[e.at]);
        SameSuffix(before, front, rest);
      } else {
        ReplaceCost(front, s[e.at], e.c);
        SameSuffix(before, front + [e.c], rest);
      }
    }
  }

  /** No script is shorter than the distance. */
  lemma {:induction false} ScriptsAreNoShorter(script: seq<Edit>, a: string, b: string)
    requires Turns(script, a, b)
    ensures Distance(a, b) <= |script|
  {
    if script == [] {
      DistanceZero(a, b);
    } else {
      var next := Apply(script[0], a);
      EditCost(script[0], a);
      ScriptsAreNoShorter(script[1..], next, b);
      Triangle(a, next, b);
    }
  }

  lemma {:induction false} TurnsConcat(p: seq<Edit>, q: seq<Edit>, a: string, b: string, c: string)
    requires Turns(p, a, b) && Turns(q, b, c)
    ensures Turns(p + q, a, c)
  {
    if p == [] {
      assert p + q == q;
    } else {
      assert (p + q)[1..] == p[1..] + q;
      TurnsConcat(p[1..], q, Apply(p[0], a), b, c);
    }
  }

  /** A script for the fronts is a script for the strings with one more character. */
  lemma {:induction false} TurnsExtended(script: seq<Edit>, a: string, b: string, x: char)
    requires Turns(script, a, b)
    ensures Turns(script, a + [x], b + [x])
  {
    if script != [] {
      var e := script[0];
      TurnsExtended(script[1..], Apply(e, a), b, x);
      assert Apply(e, a + [x]) == Apply(e, a) + [x];
    }
  }

  lemma OneEdit(e: Edit, a: string, b: string)
    requires Applies(e, a) && Apply(e, a) == b
    ensures Turns([e], a, b)
  {
    assert [e][1..] == [];
  }

  /** Some script is exactly as long as the distance. */
  lemma {:induction false} ShortestScript(a: string, b: string) returns (script: seq<Edit>)
    ensures Turns(script, a, b) && |script| == Distance(a, b)
    decreases |a| + |b|
  {
    if a == [] && b == [] {
      return [];
    }
    if a != [] && b != [] {
      StepAttained(a, b);
    }
    if b != [] && (a == [] || Distance(a, b) == Distance(a, Init(b)) + 1) {
      script := ShortestScript(a, Init(b));
      script := FinishInsert(script, a, b);
    } else if a != [] && (b == [] || Distance(a, b) == Distance(Init(a), b) + 1) {
      script := ShortestScript(Init(a), b);
      script := StartDelete(script, a, b);
    } else {
      script := ShortestScript(Init(a), Init(b));
      script := FinishReplace(script, a, b);
    }
  }

  lemma FinishInsert(script: seq<Edit>, a: string, b: string) returns (longer: seq<Edit>)
    requires b != [] && Turns(script, a, Init(b))
    ensures Turns(longer, a, b) && |longer| == |script| + 1
  {
    var e := Insert(|b| - 1, Last(b));
    assert Apply(e, Init(b)) == b;
    OneEdit(e, Init(b), b);
    TurnsConcat(script, [e], a, Init(b), b);
    longer := script + [e];
  }

  lemma StartDelete(script: seq<Edit>, a: string, b: string) returns (longer: seq<Edit>)
    requires a != [] && Turns(script, Init(a), b)
    ensures Turns(longer, a, b) && |longer| == |script| + 1
  {
    var e := Delete(|a| - 1);
    assert Apply(e, a) == Init(a);
    OneEdit(e, a, Init(a));
    TurnsConcat([e], script, a, Init(a), b);
    longer := [e] + script;
  }

  lemma ReplaceLast(s: string, x: char, y: char) returns (e: Edit)
    ensures Turns([e], s + [x], s + [y])
  {
    e := Replace(|s|, y);
    assert Apply(e, s + [x]) == s + [y];
    OneEdit(e, s + [x], s + [y]);
  }

  lemma FinishReplace(script: seq<Edit>, a: string, b: string) returns (longer: seq<Edit>)
    requires a != [] && b != [] && Turns(script, Init(a), Init(b))
    ensures Turns(longer, a, b) && |longer| == |script| + Mismatch(a, b)
  {
    longer := script;
    var mid := Init(b) + [Last(a)];
    assert a == Init(a) + [Last(a)] && b == Init(b) + [Last(b)];
    TurnsExtended(script, Init(a), Init(b), Last(a));
    if Last(a) != Last(b) {
      var e := ReplaceLast(Init(b), Last(a), Last(b));
      TurnsConcat(script, [e], a, mid, b);
      longer := script + [e];
    }
  }

  /** The distance is the least number of single-character edits that turn a into b. */
  lemma DistanceIsMinimal(a: string, b: string)
    ensures exists script :: Turns(script, a, b) && |script| == Distance(a, b)
    ensures forall script :: Turns(script, a, b) ==> Distance(a, b) <= |script|
  {
    var script := ShortestScript(a, b);
    forall s | Turns(s, a, b) ensures Distance(a, b) <= |s| {
      ScriptsAreNoShorter(s, a, b);
    }
  }

  // ----- similarity

  method ComputeSimilarity(a: string, b: string) returns (ratio: real)
    ensures 0.0 <= ratio <= 1.0
    ensures ratio == 1.0 <==> a == b
    ensures a != b ==> ratio == 1.0 - Distance(a, b) as real / Max(|a|, |b|) as real
  {
    var distance := ComputeEditDistance(a, b);
    DistanceZero(a, b);
    DistanceBounds(a, b);
    var maxLen := Max(|a|, |b|);
    if maxLen == 0 {
      return 1.0;
    }
    RatioBounds(distance as real, maxLen as real);
    ratio := 1.0 - distance as real / maxLen as real;
  }

  lemma RatioBounds(d: real, n: real)
    requires 0.0 <= d <= n && n > 0.0
    ensures 0.0 <= d / n <= 1.0 && (d / n == 0.0 <==> d == 0.0)
  {
  }
}
