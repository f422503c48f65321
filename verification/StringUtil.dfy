/** Searching, replacing, splitting and joining strings. */
module StringUtil {

  // ----- searching

  predicate OccursAt(s: string, sub: string, k: int) { 0 <= k && k + |sub| <= |s| && s[k..k + |sub|] == sub }

  /** The first occurrence from pos on, or -1. */
  function Find(s: string, sub: string, pos: nat): (k: int)
    ensures k == -1 || (pos <= k && k + |sub| <= |s|)
    decreases |s| - pos
  {
    if pos + |sub| > |s| then -1 else if OccursAt(s, sub, pos) then pos else Find(s, sub, pos + 1)
  }

  lemma {:induction false} FindMeaning(s: string, sub: string, pos: nat)
    ensures var k := Find(s, sub, pos);
            (k != -1 ==> OccursAt(s, sub, k)) && forall i :: pos <= i && (k == -1 || i < k) ==> !OccursAt(s, sub, i)
    decreases |s| - pos
  {
    if pos + |sub| <= |s| && !OccursAt(s, sub, pos) {
      FindMeaning(s, sub, pos + 1);
    }
  }

  /** Searching looks only at what is from pos on. */
  lemma {:induction false} FindSame(s: string, i: nat, t: string, j: nat, sub: string)
    requires i <= |s| && j <= |t| && s[i..] == t[j..] && sub != ""
    ensures Find(s, sub, i) == -1 <==> Find(t, sub, j) == -1
    ensures Find(s, sub, i) != -1 ==> Find(s, sub, i) - i == Find(t, sub, j) - j
    decreases |s| - i
  {
    assert |s| - i == |t| - j;
    if i + |sub| <= |s| {
      assert s[i..i + |sub|] == s[i..][..|sub|] && t[j..j + |sub|] == t[j..][..|sub|];
      assert s[i + 1..] == s[i..][1..] && t[j + 1..] == t[j..][1..];
      FindSame(s, i + 1, t, j + 1, sub);
    }
  }

  // ----- cutting

  /** The pieces of s from pos on between the occurrences of sub, taken from the left without
      overlap. */
  function Cut(s: string, sub: string, pos: nat): (ps: seq<string>)
    requires sub != "" && pos <= |s|
    ensures ps != []
    decreases |s| - pos
  {
    var k := Find(s, sub, pos);
    if k == -1 then [s[pos..]] else [s[pos..k]] + Cut(s, sub, k + |sub|)
  }

  function Pieces(s: string, sub: string): seq<string>
    requires sub != ""
  {
    Cut(s, sub, 0)
  }

  function Joined(ps: seq<string>, sep: string): string {
    if ps == [] then "" else if |ps| == 1 then ps[0] else ps[0] + sep + Joined(ps[1..], sep)
  }

  lemma JoinedCons(p: string, ps: seq<string>, sep: string)
    requires ps != []
    ensures Joined([p] + ps, sep) == p + sep + Joined(ps, sep)
  {
    assert ([p] + ps)[1..] == ps;
  }

  lemma {:induction false} JoinOfCut(s: string, sub: string, pos: nat)
    requires sub != "" && pos <= |s|
    ensures Joined(Cut(s, sub, pos), sub) == s[pos..]
    decreases |s| - pos
  {
    var k := Find(s, sub, pos);
    FindMeaning(s, sub, pos);
    if k != -1 {
      JoinOfCut(s, sub, k + |sub|);
      PartsAt(s, pos, k, sub);
      FrontJoined(Cut(s, sub, pos), s[pos..k], Cut(s, sub, k + |sub|), sub, s[pos..], s[k + |sub|..]);
    }
  }

  lemma FrontJoined(ps: seq<string>, piece: string, rest: seq<string>, to: string, text: string, tail: string)
    requires ps == [piece] + rest && rest != [] && text == piece + to + tail && tail == Joined(rest, to)
    ensures text == Joined(ps, to)
  {
    JoinedCons(piece, rest, to);
  }

  lemma PartsAt(s: string, pos: nat, k: nat, sub: string)
    requires pos <= k && OccursAt(s, sub, k)
    ensures s[pos..] == s[pos..k] + sub + s[k + |sub|..]
  {
    assert s[k..] == s[k..k + |sub|] + s[k + |sub|..];
  }

  /** Each piece ends at the first occurrence of sub after it begins, and the last has none. */
  ghost predicate CutLeftmost(ps: seq<string>, sub: string)
    requires sub != ""
  {
    forall i :: 0 <= i < |ps| ==>
      if i < |ps| - 1 then FirstAtEnd(ps[i], sub) else forall k :: !OccursAt(ps[i], sub, k)
  }

  /** Put before sub, the piece holds no occurrence but the one that follows it. */
  ghost predicate FirstAtEnd(piece: string, sub: string) {
    forall k :: 0 <= k < |piece| ==> !OccursAt(piece + sub, sub, k)
  }

  /** The pieces are cut at the occurrences found from the left, none overlooked. */
  lemma {:induction false} CutIsLeftmost(s: string, sub: string, pos: nat)
    requires sub != "" && pos <= |s|
    ensures CutLeftmost(Cut(s, sub, pos), sub)
    decreases |s| - pos
  {
    var k := Find(s, sub, pos);
    FindMeaning(s, sub, pos);
    if k == -1 {
      NoOccurrence(s, sub, pos);
    } else {
      CutIsLeftmost(s, sub, k + |sub|);
      PieceEnds(s, sub, pos, k);
      LeftmostCons(s[pos..k], Cut(s, sub, k + |sub|), sub);
    }
  }

  lemma NoOccurrence(s: string, sub: string, pos: nat)
    requires sub != "" && pos <= |s| && forall i :: pos <= i ==> !OccursAt(s, sub, i)
    ensures forall k :: !OccursAt(s[pos..], sub, k)
  {
    assert s[pos..] == s[pos..|s|];
    forall k ensures !OccursAt(s[pos..], sub, k) {
      if k >= 0 {
        OccursWithin(s, sub, pos, |s|, k);
      }
    }
  }

  lemma PieceEnds(s: string, sub: string, pos: nat, k: nat)
    requires sub != "" && pos <= k && OccursAt(s, sub, k) && forall i :: pos <= i < k ==> !OccursAt(s, sub, i)
    ensures FirstAtEnd(s[pos..k], sub)
  {
    var t := s[pos..k] + sub;
    assert s[pos..k + |sub|] == s[pos..k] + s[k..k + |sub|];
    assert t == s[pos..k + |sub|];
    forall j | 0 <= j < k - pos ensures !OccursAt(t, sub, j) {
      OccursWithin(s, sub, pos, k + |sub|, j);
    }
  }

  lemma OccursWithin(s: string, sub: string, lo: nat, hi: nat, j: nat)
    requires lo <= hi <= |s|
    ensures OccursAt(s[lo..hi], sub, j) ==> OccursAt(s, sub, lo + j)
  {
    if OccursAt(s[lo..hi], sub, j) {
      SliceOfSlice(s, lo, hi, j, |sub|);
    }
  }

  lemma SliceOfSlice(s: string, lo: nat, hi: nat, j: nat, n: nat)
    requires lo <= hi <= |s| && j + n <= hi - lo
    ensures s[lo..hi][j..j + n] == s[lo + j..lo + j + n]
  {
    var mid := s[lo..hi];
    var a, b := mid[j..j + n], s[lo + j..lo + j + n];
    forall i | 0 <= i < n ensures a[i] == b[i] {
      assert mid[j + i] == s[lo + (j + i)];
    }
  }

  lemma LeftmostCons(piece: string, rest: seq<string>, sub: string)
    requires sub != "" && FirstAtEnd(piece, sub) && CutLeftmost(rest, sub) && rest != []
    ensures CutLeftmost([piece] + rest, sub)
  {
    var ps := [piece] + rest;
    forall i | 0 <= i < |ps|
      ensures if i < |ps| - 1 then FirstAtEnd(ps[i], sub) else forall k :: !OccursAt(ps[i], sub, k)
    {
      if i > 0 {
        assert ps[i] == rest[i - 1];
      }
    }
  }

  function Total(ps: seq<string>): nat { if ps == [] then 0 else |ps[0]| + Total(ps[1..]) }

  lemma {:induction false} JoinedLength(ps: seq<string>, sep: string)
    requires ps != []
    ensures |Joined(ps, sep)| == Total(ps) + (|ps| - 1) * |sep|
  {
    if |ps| > 1 {
      JoinedLength(ps[1..], sep);
      assert (|ps| - 1) * |sep| == (|ps| - 2) * |sep| + |sep|;
    } else {
      assert Total(ps[1..]) == 0;
    }
  }

  // ----- counting and replacing

  function Occurrences(s: string, sub: string): nat { if sub == "" then 0 else |Pieces(s, sub)| - 1 }

  ghost predicate Counted(s: string, sub: string, pos: nat, count: nat, goal: nat) {
    sub != "" && pos <= |s| && count + |Cut(s, sub, pos)| == goal + 1
  }

  lemma CountFirst(s: string, sub: string) returns (goal: nat)
    requires sub != ""
    ensures goal == Occurrences(s, sub) && Counted(s, sub, 0, 0, goal)
  {
    goal := Occurrences(s, sub);
  }

  lemma CountNext(s: string, sub: string, pos: nat, count: nat, goal: nat, k: nat)
    requires Counted(s, sub, pos, count, goal) && k == Find(s, sub, pos)
    ensures pos <= k && k + |sub| <= |s| && Counted(s, sub, k + |sub|, count + 1, goal)
  {
  }

  lemma CountLast(s: string, sub: string, pos: nat, count: nat, goal: nat)
    requires Counted(s, sub, pos, count, goal) && Find(s, sub, pos) == -1
    ensures count == goal
  {
  }

  method CountOccurrences(str: string, sub: string) returns (count: nat)
    ensures count == Occurrences(str, sub)
  {
    if sub == "" {
      return 0;
    }
    count := 0;
    var pos: nat := 0;
    ghost var goal := CountFirst(str, sub);
    var next := Find(str, sub, pos);
    while next != -1
      invariant Counted(str, sub, pos, count, goal) && next == Find(str, sub, pos)
      decreases |str| - pos
    {
      CountNext(str, sub, pos, count, goal, next);
      count := count + 1;
      pos := next + |sub|;
      next := Find(str, sub, pos);
    }
    CountLast(str, sub, pos, count, goal);
  }

  function Replaced(s: string, from: string, to: string): string {
    if from == "" then s else Joined(Pieces(s, from), to)
  }

  /** What becomes of s from p on. */
  function ReplacedFrom(s: string, from: string, to: string, p: nat): string
    requires from != "" && p <= |s|
    decreases |s| - p
  {
    var k := Find(s, from, p);
    if k == -1 then s[p..] else s[p..k] + to + ReplacedFrom(s, from, to, k + |from|)
  }

  lemma {:induction false} ReplacedIsJoined(s: string, from: string, to: string, p: nat)
    requires from != "" && p <= |s|
    ensures ReplacedFrom(s, from, to, p) == Joined(Cut(s, from, p), to)
    decreases |s| - p
  {
    var k := Find(s, from, p);
    if k != -1 {
      ReplacedIsJoined(s, from, to, k + |from|);
      JoinedNext(s, from, to, p, k + |from|);
    }
  }

  lemma JoinedNext(s: string, from: string, to: string, p: nat, q: nat)
    requires from != "" && p <= |s| && Find(s, from, p) != -1 && q == Find(s, from, p) + |from|
    requires ReplacedFrom(s, from, to, q) == Joined(Cut(s, from, q), to)
    ensures ReplacedFrom(s, from, to, p) == Joined(Cut(s, from, p), to)
  {
    var piece := s[p..q - |from|];
    FrontJoined(Cut(s, from, p), piece, Cut(s, from, q), to, ReplacedFrom(s, from, to, p),
        ReplacedFrom(s, from, to, q));
  }

  /** The rest of the original is found where it stands behind what is done. */
  lemma FindBehind(done: string, s: string, p: nat, sub: string)
    requires p <= |s| && sub != ""
    ensures var next, k := Find(done + s[p..], sub, |done|), Find(s, sub, p);
            (next == -1 <==> k == -1) && (next != -1 ==> next - |done| == k - p)
  {
    assert (done + s[p..])[|done|..] == s[p..];
    FindSame(done + s[p..], |done|, s, p, sub);
  }

  /** What one turn does to the result. */
  lemma SplicedAt(done: string, s: string, p: nat, k: nat, n: nat, to: string, more: string, result: string, next: nat)
    requires p <= k && k + n <= |s| && result == done + s[p..] && next == |done| + (k - p)
    requires more == done + s[p..k] + to
    ensures next + n <= |result| && |more| == next + |to|
    ensures result[..next] + to + result[next + n..] == more + s[k + n..]
  {
    assert result[..next] == done + s[p..k];
    assert result[next + n..] == s[k + n..];
  }

  /** Between two turns: what is done in front of what becomes of the rest is the goal. */
  ghost predicate Turning(s: string, from: string, to: string, p: nat, done: string, goal: string) {
    from != "" && p <= |s| && done + ReplacedFrom(s, from, to, p) == goal
  }

  lemma TurnFirst(s: string, from: string, to: string) returns (goal: string)
    requires from != ""
    ensures goal == Replaced(s, from, to) && Turning(s, from, to, 0, "", goal) && s == "" + s[0..]
  {
    ReplacedIsJoined(s, from, to, 0);
    goal := Replaced(s, from, to);
    assert "" + ReplacedFrom(s, from, to, 0) == ReplacedFrom(s, from, to, 0);
  }

  lemma TurnLast(s: string, from: string, to: string, p: nat, done: string, goal: string, result: string)
    requires Turning(s, from, to, p, done, goal) && result == done + s[p..] && Find(result, from, |done|) == -1
    ensures result == goal
  {
    FindBehind(done, s, p, from);
  }

  lemma TurnNext(s: string, from: string, to: string, p: nat, done: string, goal: string, k: nat)
    requires Turning(s, from, to, p, done, goal) && k == Find(s, from, p)
    ensures p <= k && k + |from| <= |s| && Turning(s, from, to, k + |from|, done + s[p..k] + to, goal)
  {
    ReplacedNext(s, from, to, p, k);
    FrontReplaced(done, s[p..k], to, ReplacedFrom(s, from, to, k + |from|), ReplacedFrom(s, from, to, p));
  }

  lemma ReplacedNext(s: string, from: string, to: string, p: nat, k: nat)
    requires from != "" && p <= k && k + |from| <= |s| && k == Find(s, from, p)
    ensures ReplacedFrom(s, from, to, p) == s[p..k] + to + ReplacedFrom(s, from, to, k + |from|)
  {
  }

  lemma FrontReplaced(done: string, piece: string, to: string, tail: string, text: string)
    requires text == piece + to + tail
    ensures done + text == (done + piece + to) + tail
  {
  }

  /** One turn of ReplaceAll: what is done grows, and the result is it and the rest of s. */
  lemma Turn(s: string, from: string, to: string, p: nat, done: string, goal: string, result: string, next: int)
    returns (q: nat, more: string)
    requires Turning(s, from, to, p, done, goal) && result == done + s[p..] && next == Find(result, from, |done|) != -1
    ensures p < q && Turning(s, from, to, q, more, goal)
    ensures next + |from| <= |result| && |more| == next + |to|
    ensures result[..next] + to + result[next + |from|..] == more + s[q..]
  {
    var k := Advance(s, from, to, p, done, goal, next);
    q, more := k + |from|, done + s[p..k] + to;
    SplicedAt(done, s, p, k, |from|, to, more, result, next);
  }

  /** The place k in the original of the occurrence found in the result. */
  lemma Advance(s: string, from: string, to: string, p: nat, done: string, goal: string, next: int) returns (k: nat)
    requires Turning(s, from, to, p, done, goal) && next == Find(done + s[p..], from, |done|) != -1
    ensures p <= k && k + |from| <= |s| && next == |done| + (k - p)
    ensures Turning(s, from, to, k + |from|, done + s[p..k] + to, goal)
  {
    FindBehind(done, s, p, from);
    k := Find(s, from, p);
    TurnNext(s, from, to, p, done, goal, k);
  }

  method ReplaceAll(str: string, from: string, to: string) returns (result: string)
    ensures result == Replaced(str, from, to)
  {
    if from == "" {
      return str;
    }
    result := str;
    var pos: nat := 0;
    ghost var p: nat, done := 0, "";
    ghost var goal := TurnFirst(str, from, to);
    var next := Find(result, from, pos);
    while next != -1
      invariant Turning(str, from, to, p, done, goal) && result == done + str[p..]
      invariant pos == |done| && next == Find(result, from, pos)
      decreases |str| - p
    {
      p, done := Turn(str, from, to, p, done, goal, result, next);
      result := result[..next] + to + result[next + |from|..];
      pos := next + |to|;
      next := Find(result, from, pos);
    }
    TurnLast(str, from, to, p, done, goal, result);
  }

  /** Replacing trades the length of each counted occurrence, and replacing a text by itself
      changes nothing. */
  lemma ReplaceMeaning(s: string, from: string, to: string)
    ensures |Replaced(s, from, to)| - Occurrences(s, from) * |to| == |s| - Occurrences(s, from) * |from|
    ensures Replaced(s, from, from) == s
  {
    if from != "" {
      JoinOfCut(s, from, 0);
      assert s[0..] == s;
      JoinedLength(Pieces(s, from), from);
      JoinedLength(Pieces(s, from), to);
    }
  }

  // ----- splitting at a character and joining

  function NonEmpty(ps: seq<string>): (r: seq<string>)
    ensures |r| <= |ps|
  {
    if ps == [] then [] else if ps[0] == "" then NonEmpty(ps[1..]) else [ps[0]] + NonEmpty(ps[1..])
  }

  predicate NoneEmpty(ps: seq<string>) { forall i :: 0 <= i < |ps| ==> ps[i] != "" }

  lemma {:induction false} NonEmptyMeaning(ps: seq<string>)
    ensures NoneEmpty(NonEmpty(ps)) && forall p :: p in NonEmpty(ps) ==> p in ps
    ensures NonEmpty(ps) == ps <==> NoneEmpty(ps)
    ensures |NonEmpty(ps)| == |ps| <==> NoneEmpty(ps)
    ensures Total(NonEmpty(ps)) == Total(ps)
  {
    if ps != [] {
      NonEmptyMeaning(ps[1..]);
      NoneEmptyCons(ps[0], ps[1..]);
      assert ps == [ps[0]] + ps[1..];
      if ps[0] != "" {
        var r := NonEmpty(ps);
        assert r[0] == ps[0] && r[1..] == NonEmpty(ps[1..]);
      }
    }
  }

  lemma NoneEmptyCons(p: string, ps: seq<string>)
    ensures NoneEmpty([p] + ps) <==> p != "" && NoneEmpty(ps)
  {
    if NoneEmpty([p] + ps) {
      assert ([p] + ps)[0] == p;
      assert forall i :: 0 <= i < |ps| ==> ([p] + ps)[i + 1] == ps[i];
    }
  }

  function Split(s: string, delim: char): seq<string> { NonEmpty(Pieces(s, [delim])) }

  /** The parts still to come from pos on. */
  function SplitFrom(s: string, delim: char, pos: nat): seq<string>
    requires pos <= |s|
  {
    NonEmpty(Cut(s, [delim], pos))
  }

  function Part(s: string, from: nat, to: nat): seq<string>
    requires from <= to <= |s|
  {
    if to > from then [s[from..to]] else []
  }

  lemma SplitStep(s: string, delim: char, pos: nat)
    requires pos <= |s|
    ensures var k := Find(s, [delim], pos);
            SplitFrom(s, delim, pos) ==
              if k == -1 then Part(s, pos, |s|) else Part(s, pos, k) + SplitFrom(s, delim, k + 1)
  {
    var k, ps := Find(s, [delim], pos), Cut(s, [delim], pos);
    if k == -1 {
      assert ps[1..] == [] && s[pos..] == s[pos..|s|];
    } else {
      assert ps[0] == s[pos..k] && ps[1..] == Cut(s, [delim], k + 1);
    }
  }

  ghost predicate Splitting(s: string, delim: char, pos: nat, elems: seq<string>, goal: seq<string>) {
    pos <= |s| && elems + SplitFrom(s, delim, pos) == goal
  }

  lemma SplitStart(s: string, delim: char) returns (goal: seq<string>)
    ensures goal == Split(s, delim) && Splitting(s, delim, 0, [], goal)
  {
    goal := Split(s, delim);
    assert [] + SplitFrom(s, delim, 0) == SplitFrom(s, delim, 0);
  }

  lemma SplitNext(s: string, delim: char, pos: nat, elems: seq<string>, goal: seq<string>, k: nat)
    requires Splitting(s, delim, pos, elems, goal) && k == Find(s, [delim], pos)
    ensures pos <= k < |s| && Splitting(s, delim, k + 1, elems + Part(s, pos, k), goal)
  {
    SplitStep(s, delim, pos);
    FrontElems(elems, Part(s, pos, k), SplitFrom(s, delim, k + 1), SplitFrom(s, delim, pos));
  }

  lemma FrontElems(elems: seq<string>, part: seq<string>, rest: seq<string>, all: seq<string>)
    requires all == part + rest
    ensures elems + all == (elems + part) + rest
  {
  }

  lemma SplitLast(s: string, delim: char, pos: nat, elems: seq<string>, goal: seq<string>)
    requires Splitting(s, delim, pos, elems, goal) && Find(s, [delim], pos) == -1
    ensures elems + Part(s, pos, |s|) == goal
  {
    SplitStep(s, delim, pos);
  }

  method StringSplit(str: string, delim: char) returns (elems: seq<string>)
    ensures elems == Split(str, delim)
  {
    elems := [];
    var previous: nat := 0;
    ghost var goal := SplitStart(str, delim);
    var current := Find(str, [delim], previous);
    while current != -1
      invariant Splitting(str, delim, previous, elems, goal) && current == Find(str, [delim], previous)
      decreases |str| - previous
    {
      SplitNext(str, delim, previous, elems, goal, current);
      if current > previous {
        elems := elems + [str[previous..current]];
      }
      previous := current + 1;
      current := Find(str, [delim], previous);
    }
    SplitLast(str, delim, previous, elems, goal);
    if previous != |str| {
      elems := elems + [str[previous..]];
    }
  }

  method JoinString(parts: seq<string>, delimiter: string) returns (text: string)
    ensures text == Joined(parts, delimiter)
  {
    if parts == [] {
      return "";
    }
    text := parts[0];
    for i := 1 to |parts|
      invariant text == Joined(parts[..i], delimiter)
    {
      JoinedSnoc(parts[..i], parts[i], delimiter);
      assert parts[..i + 1] == parts[..i] + [parts[i]];
      text := text + delimiter + parts[i];
    }
    assert parts[..|parts|] == parts;
  }

  lemma {:induction false} JoinedSnoc(ps: seq<string>, p: string, sep: string)
    requires ps != []
    ensures Joined(ps + [p], sep) == Joined(ps, sep) + sep + p
  {
    if |ps| > 1 {
      JoinedSnoc(ps[1..], p, sep);
      assert (ps + [p])[1..] == ps[1..] + [p];
    } else {
      assert (ps + [p])[1..] == [p];
    }
  }

  predicate AllPlain(ps: seq<string>, delim: char) { forall i :: 0 <= i < |ps| ==> delim !in ps[i] }

  lemma {:induction false} FindChar(s: string, delim: char, pos: nat, k: nat)
    requires pos <= k <= |s| && delim !in s[pos..k]
    ensures Find(s, [delim], pos) == if k == |s| then -1 else if s[k] == delim then k else Find(s, [delim], k)
    decreases k - pos
  {
    if pos < k {
      assert s[pos..k][0] == s[pos] && s[pos + 1..k] == s[pos..k][1..];
      assert s[pos..pos + 1] == [s[pos]];
      FindChar(s, delim, pos + 1, k);
    } else if k < |s| {
      assert s[k..k + 1] == [s[k]];
    }
  }

  lemma {:induction false} CutIsPlain(s: string, delim: char, pos: nat)
    requires pos <= |s|
    ensures AllPlain(Cut(s, [delim], pos), delim)
    decreases |s| - pos
  {
    var k := Find(s, [delim], pos);
    FindMeaning(s, [delim], pos);
    var end := if k == -1 then |s| else k;
    forall i | pos <= i < end ensures s[i] != delim {
      assert !OccursAt(s, [delim], i);
      assert s[i..i + 1] == [s[i]];
    }
    if k != -1 {
      CutIsPlain(s, delim, k + 1);
    }
  }

  lemma {:induction false} CutOfJoined(ps: seq<string>, delim: char, s: string, pos: nat)
    requires ps != [] && AllPlain(ps, delim) && pos <= |s| && s[pos..] == Joined(ps, [delim])
    ensures Cut(s, [delim], pos) == ps
    decreases |ps|
  {
    var k := pos + |ps[0]|;
    assert s[pos..][..|ps[0]|] == ps[0];
    assert s[pos..k] == ps[0];
    FindChar(s, delim, pos, k);
    if |ps| > 1 {
      assert s[k] == s[pos..][|ps[0]|] == delim;
      assert s[k + 1..] == s[pos..][|ps[0]| + 1..] == Joined(ps[1..], [delim]);
      CutOfJoined(ps[1..], delim, s, k + 1);
    }
  }

  /** Splitting undoes joining exactly for parts that are not empty and do not hold the delimiter. */
  lemma SplitUndoesJoinExactly(ps: seq<string>, delim: char)
    ensures Split(Joined(ps, [delim]), delim) == ps <==> NoneEmpty(ps) && AllPlain(ps, delim)
  {
    var s := Joined(ps, [delim]);
    assert s[0..] == s;
    CutIsPlain(s, delim, 0);
    NonEmptyMeaning(Pieces(s, [delim]));
    if ps == [] {
      SplitStep("", delim, 0);
    } else if AllPlain(ps, delim) {
      CutOfJoined(ps, delim, s, 0);
    } else {
      PlainSubset(Pieces(s, [delim]), Split(s, delim), delim);
    }
  }

  lemma PlainSubset(ps: seq<string>, qs: seq<string>, delim: char)
    requires AllPlain(ps, delim) && forall q :: q in qs ==> q in ps
    ensures AllPlain(qs, delim)
  {
    forall i | 0 <= i < |qs| ensures delim !in qs[i] {
      assert qs[i] in ps;
    }
  }

  /** Joining undoes splitting exactly when no piece between delimiters is empty, or there is
      no text at all. */
  lemma JoinUndoesSplitExactly(s: string, delim: char)
    ensures Joined(Split(s, delim), [delim]) == s <==> s == "" || NoneEmpty(Pieces(s, [delim]))
  {
    var ps, kept := Pieces(s, [delim]), Split(s, delim);
    JoinOfCut(s, [delim], 0);
    assert s[0..] == s;
    JoinedLength(ps, [delim]);
    NonEmptyMeaning(ps);
    if kept == [] {
      assert Total(kept) == 0;
    } else {
      JoinedLength(kept, [delim]);
    }
  }
}
