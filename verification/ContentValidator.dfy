/** The scanners of the content validator, on the units their input is cut into. */
module ContentValidator {
  import opened Basics
  import opened Utf8

  // ----- one scan

  /** The unit at pos: a character, or a byte where none starts. */
  function UnitAt(content: Bytes, pos: nat): (u: Bytes)
    requires pos < |content|
    ensures |u| == if CharLen(content, pos) == 0 then 1 else CharLen(content, pos)
  {
    content[pos..pos + if CharLen(content, pos) == 0 then 1 else CharLen(content, pos)]
  }

  lemma FirstUnit(content: Bytes, pos: nat)
    requires pos < |content|
    ensures var u := UnitAt(content, pos);
            Units(content[pos..]) == [u] + Units(content[pos + |u|..]) && (CharLen(content, pos) > 0 <==> Good(u))
  {
    var rest, u := content[pos..], UnitAt(content, pos);
    SliceLen(content, pos);
    PrefixLen(rest);
    assert rest[..|u|] == u && rest[|u|..] == content[pos + |u|..];
  }

  lemma JoinSnoc(us: seq<Bytes>, u: Bytes)
    ensures Join(us + [u]) == Join(us) + u
  {
    assert (us + [u])[..|us|] == us;
  }

  function CodePoint(u: Bytes): nat
    requires Good(u)
  {
    DecodeCodePoint(u, 0, |u|)
  }

  lemma DecodeSlice(s: Bytes, pos: nat)
    requires pos < |s| && CharLen(s, pos) > 0
    ensures Good(UnitAt(s, pos)) && CodePoint(UnitAt(s, pos)) == DecodeCodePoint(s, pos, CharLen(s, pos))
    ensures |UnitAt(s, pos)| == CharLen(s, pos) && UnitAt(s, pos) == s[pos..pos + CharLen(s, pos)]
  {
    var u, n := UnitAt(s, pos), CharLen(s, pos);
    FirstUnit(s, pos);
    assert forall i :: 0 <= i < n ==> u[i] == s[pos + i];
    assert forall i :: pos <= i < pos + n ==> s[i] == u[i - pos];
  }

  /** At pos the first k units have been read. */
  ghost predicate Rest(content: Bytes, us: seq<Bytes>, k: nat, pos: nat) {
    k <= |us| && pos <= |content| && us[k..] == Units(content[pos..])
  }

  lemma RestUnit(content: Bytes, us: seq<Bytes>, k: nat, pos: nat)
    requires Rest(content, us, k, pos)
    ensures pos < |content| <==> k < |us|
    ensures k < |us| ==> us[k] == UnitAt(content, pos) && Rest(content, us, k + 1, pos + |us[k]|)
  {
    assert content[pos..] == [] <==> pos == |content|;
    assert us[k..] == [] <==> k == |us|;
    if pos < |content| {
      FirstUnit(content, pos);
      HeadTail(us, k, UnitAt(content, pos), Units(content[pos + |UnitAt(content, pos)|..]));
    }
  }

  lemma HeadTail<T>(s: seq<T>, k: nat, x: T, rest: seq<T>)
    requires k <= |s| && s[k..] == [x] + rest
    ensures k < |s| && s[k] == x && s[k + 1..] == rest
  {
    assert s[k..][0] == x && s[k..][1..] == rest;
  }

  /** Where unit k starts. */
  function Offset(us: seq<Bytes>, k: nat): nat
    requires k <= |us|
  {
    if k == 0 then 0 else Offset(us, k - 1) + |us[k - 1]|
  }

  lemma {:induction false} OffsetRest(content: Bytes, us: seq<Bytes>, k: nat)
    requires us == Units(content) && k <= |us|
    ensures Offset(us, k) <= |content| && Rest(content, us, k, Offset(us, k))
  {
    if k == 0 {
      assert content[0..] == content && us[0..] == us;
    } else {
      OffsetRest(content, us, k - 1);
      RestStep(content, us, k - 1, Offset(us, k - 1), k, Offset(us, k));
    }
  }

  lemma RestStep(content: Bytes, us: seq<Bytes>, k: nat, pos: nat, next: nat, nextPos: nat)
    requires Rest(content, us, k, pos) && k < |us| && next == k + 1 && nextPos == pos + |us[k]|
    ensures nextPos <= |content| && Rest(content, us, next, nextPos)
  {
    RestUnit(content, us, k, pos);
  }

  ghost predicate Scanning(us: seq<Bytes>, k: nat, pos: nat) { k <= |us| && pos == Offset(us, k) }

  lemma ScanEnd(content: Bytes, us: seq<Bytes>, k: nat, pos: nat)
    requires us == Units(content) && Scanning(us, k, pos)
    ensures pos <= |content| && (pos < |content| <==> k < |us|)
  {
    OffsetRest(content, us, k);
    RestUnit(content, us, k, pos);
  }

  /** One turn of a scanner: a character, or a byte to skip. */
  lemma ScanStep(content: Bytes, us: seq<Bytes>, k: nat, pos: nat)
    requires us == Units(content) && Scanning(us, k, pos) && pos < |content|
    ensures k < |us| && Scanning(us, k + 1, pos + |us[k]|) && us[k] == UnitAt(content, pos)
    ensures CharLen(content, pos) > 0 <==> Good(us[k])
  {
    OffsetRest(content, us, k);
    RestUnit(content, us, k, pos);
    FirstUnit(content, pos);
  }

  /** How every scanner starts a turn: the length of the character at pos, or 0. */
  method NextLen(content: Bytes, pos: nat, ghost us: seq<Bytes>, ghost k: nat) returns (len: nat)
    requires us == Units(content) && Scanning(us, k, pos) && pos < |content|
    ensures k < |us| && Scanning(us, k + 1, pos + |us[k]|)
    ensures len == CharLen(content, pos) && (len == 0 ==> !Good(us[k]) && |us[k]| == 1)
    ensures len != 0 ==> Good(us[k]) && |us[k]| == len && content[pos..pos + len] == us[k]
  {
    ScanStep(content, us, k, pos);
    len := GetUtf8SequenceLength(content[pos]);
    if len != 0 {
      var ok := ValidateUtf8Sequence(content, pos, len);
      if !ok {
        len := 0;
      }
    }
  }

  method ContainsInvalidUtf8(content: Bytes) returns (invalid: bool)
    ensures invalid == !Valid(content)
  {
    ghost var us, k: nat := Units(content), 0;
    var pos: nat := 0;
    while pos < |content|
      invariant Scanning(us, k, pos) && pos <= |content|
      invariant forall i :: 0 <= i < k ==> Good(us[i])
      decreases |content| - pos
    {
      var len := NextLen(content, pos, us, k);
      if len == 0 {
        assert us[k] in us;
        return true;
      }
      pos := pos + len;
      k := k + 1;
    }
    ScanEnd(content, us, k, pos);
    return false;
  }

  // ----- sanitize

  predicate Keeps(u: Bytes) { Good(u) && !(|u| == 1 && IsControl(u[0])) }

  /** The characters kept of the first k units. */
  function Kept(us: seq<Bytes>, k: nat): seq<Bytes>
    requires k <= |us|
  {
    if k == 0 then [] else if Keeps(us[k - 1]) then Kept(us, k - 1) + [us[k - 1]] else Kept(us, k - 1)
  }

  function AllKept(us: seq<Bytes>): seq<Bytes> { Kept(us, |us|) }

  function Sanitized(s: Bytes): Bytes { Join(AllKept(Units(s))) }

  ghost predicate Sanitizing(us: seq<Bytes>, k: nat, out: Bytes) { k <= |us| && out == Join(Kept(us, k)) }

  lemma SanitizeStep(us: seq<Bytes>, k: nat, out: Bytes)
    requires k < |us| && Sanitizing(us, k, out)
    ensures Sanitizing(us, k + 1, if Keeps(us[k]) then out + us[k] else out)
  {
    JoinSnoc(Kept(us, k), us[k]);
  }

  method Sanitize(content: Bytes) returns (out: Bytes)
    ensures out == Sanitized(content)
  {
    out := [];
    var pos: nat := 0;
    ghost var us, k: nat := Units(content), 0;
    while pos < |content|
      invariant Scanning(us, k, pos) && pos <= |content|
      invariant Sanitizing(us, k, out)
      decreases |content| - pos
    {
      var lead := content[pos];
      var len := NextLen(content, pos, us, k);
      SanitizeStep(us, k, out);
      k := k + 1;
      if len == 0 {
        pos := pos + 1;
        continue;
      }
      if len == 1 && IsControl(lead) {
        assert us[k - 1] == [lead];
        pos := pos + 1;
        continue;
      }
      assert len == 1 ==> us[k - 1] == [lead];
      out := out + content[pos..pos + len];
      pos := pos + len;
    }
    ScanEnd(content, us, k, pos);
  }

  lemma {:induction false} KeptMeaning(us: seq<Bytes>, k: nat)
    requires k <= |us|
    ensures |Kept(us, k)| <= k
    ensures forall i :: 0 <= i < |Kept(us, k)| ==> Keeps(Kept(us, k)[i])
    ensures Kept(us, k) == us[..k] <==> forall i :: 0 <= i < k ==> Keeps(us[i])
  {
    if k > 0 {
      KeptMeaning(us, k - 1);
      assert us[..k] == us[..k - 1] + [us[k - 1]];
      if Keeps(us[k - 1]) && Kept(us, k) == us[..k] {
        assert Kept(us, k)[..k - 1] == us[..k][..k - 1];
      }
    }
  }

  predicate NoControls(s: Bytes) { forall i :: 0 <= i < |s| ==> !IsControl(s[i]) }

  lemma UnitControls(u: Bytes)
    requires Good(u)
    ensures Keeps(u) <==> NoControls(u)
  {
    if |u| == 1 {
    } else {
      assert u[0] >= 0x80 && forall i :: 1 <= i < |u| ==> IsContinuation(u[i]);
    }
  }

  lemma {:induction false} JoinedControls(us: seq<Bytes>)
    requires AllGood(us)
    ensures NoControls(Join(us)) <==> forall u :: u in us ==> Keeps(u)
  {
    if us != [] {
      var n := |us| - 1;
      JoinedControls(us[..n]);
      UnitControls(us[n]);
      assert us == us[..n] + [us[n]];
      NoControlsAppend(Join(us[..n]), us[n]);
    }
  }

  lemma NoControlsAppend(a: Bytes, b: Bytes)
    ensures NoControls(a + b) <==> NoControls(a) && NoControls(b)
  {
    if NoControls(a + b) {
      assert forall i :: 0 <= i < |a| ==> (a + b)[i] == a[i];
      assert forall i :: 0 <= i < |b| ==> (a + b)[|a| + i] == b[i];
    }
  }

  /** The output is cut into exactly the kept characters, is valid and free of disallowed
      controls, is left alone by a second pass, and is the input just when that was clean. */
  lemma SanitizeMeaning(s: Bytes)
    ensures Units(Sanitized(s)) == AllKept(Units(s))
    ensures Valid(Sanitized(s)) && NoControls(Sanitized(s))
    ensures Sanitized(Sanitized(s)) == Sanitized(s)
    ensures Sanitized(s) == s <==> Valid(s) && NoControls(s)
  {
    var us, kept := Units(s), AllKept(Units(s));
    KeptMeaning(us, |us|);
    UnitsOfJoin(kept);
    JoinedControls(kept);
    KeptMeaning(kept, |kept|);
    assert kept[..|kept|] == kept && us[..|us|] == us;
    JoinOfUnits(s);
    CleanUnits(s);
  }

  lemma CleanUnits(s: Bytes)
    ensures Valid(s) && NoControls(s) <==> forall i :: 0 <= i < |Units(s)| ==> Keeps(Units(s)[i])
  {
    var us := Units(s);
    JoinOfUnits(s);
    if Valid(s) {
      JoinedControls(us);
    }
    if forall i :: 0 <= i < |us| ==> Keeps(us[i]) {
      assert forall u :: u in us ==> Keeps(u);
      JoinedControls(us);
    }
  }

  // ----- runs of equal characters

  /** How many equal characters the first k units end with; an invalid byte ends a streak. */
  function Streak(us: seq<Bytes>, k: nat): (n: nat)
    requires k <= |us|
    ensures n <= k
  {
    if k == 0 || !Good(us[k - 1]) then 0
    else if k > 1 && us[k - 2] == us[k - 1] then Streak(us, k - 1) + 1
    else 1
  }

  function Squeezed(us: seq<Bytes>, k: nat, maxRepeat: nat): seq<Bytes>
    requires k <= |us|
  {
    if k == 0 then []
    else if Good(us[k - 1]) && Streak(us, k) <= maxRepeat then Squeezed(us, k - 1, maxRepeat) + [us[k - 1]]
    else Squeezed(us, k - 1, maxRepeat)
  }

  function Compressed(s: Bytes, maxRepeat: nat): Bytes {
    if maxRepeat == 0 then s else Join(Squeezed(Units(s), |Units(s)|, maxRepeat))
  }

  /** UINT32_MAX, which is no code point. */
  const NO_CODE_POINT := 0xFFFF_FFFF

  /** What the scanner remembers of the last unit. */
  ghost predicate Remembers(us: seq<Bytes>, k: nat, lastCp: nat, lastLen: nat)
    requires k <= |us|
  {
    if k == 0 || !Good(us[k - 1]) then lastCp == NO_CODE_POINT
    else lastLen == |us[k - 1]| && lastCp == CodePoint(us[k - 1])
  }

  lemma SameAsLast(us: seq<Bytes>, k: nat, lastCp: nat, lastLen: nat)
    requires k < |us| && Good(us[k]) && Remembers(us, k, lastCp, lastLen)
    ensures CodePoint(us[k]) == lastCp && |us[k]| == lastLen <==> k > 0 && us[k - 1] == us[k]
  {
    if k > 0 && Good(us[k - 1]) && CodePoint(us[k]) == lastCp && |us[k]| == lastLen {
      DecodeIsInjective(us[k], us[k - 1]);
    }
  }

  ghost predicate Compressing(us: seq<Bytes>, k: nat, m: nat, out: Bytes, lastCp: nat, lastLen: nat, consecutive: nat) {
    k <= |us| && out == Join(Squeezed(us, k, m)) && Remembers(us, k, lastCp, lastLen) && consecutive == Streak(us, k)
  }

  lemma CompressBad(us: seq<Bytes>, k: nat, m: nat, out: Bytes, lastCp: nat, lastLen: nat, consecutive: nat)
    requires k < |us| && !Good(us[k]) && Compressing(us, k, m, out, lastCp, lastLen, consecutive)
    ensures Compressing(us, k + 1, m, out, NO_CODE_POINT, lastLen, 0)
  {
  }

  lemma CompressGood(us: seq<Bytes>, k: nat, m: nat, out: Bytes, lastCp: nat, lastLen: nat, consecutive: nat)
    requires k < |us| && Good(us[k]) && Compressing(us, k, m, out, lastCp, lastLen, consecutive)
    ensures var now := if CodePoint(us[k]) == lastCp && |us[k]| == lastLen then consecutive + 1 else 1;
            Compressing(us, k + 1, m, if now <= m then out + us[k] else out, CodePoint(us[k]), |us[k]|, now)
  {
    JoinSnoc(Squeezed(us, k, m), us[k]);
    SameAsLast(us, k, lastCp, lastLen);
  }

  lemma CharHere(content: Bytes, us: seq<Bytes>, k: nat, pos: nat)
    requires us == Units(content) && Scanning(us, k, pos) && pos < |content| && CharLen(content, pos) > 0
    ensures var len := CharLen(content, pos);
            && k < |us| && Good(us[k]) && |us[k]| == len && us[k] == content[pos..pos + len]
            && CodePoint(us[k]) == DecodeCodePoint(content, pos, len)
  {
    ScanStep(content, us, k, pos);
    DecodeSlice(content, pos);
  }

  /** The part of CompressRepeats that handles one character. */
  method CompressChar(content: Bytes, pos: nat, len: nat, m: nat, out: Bytes, lastCp: nat, lastLen: nat,
                      consecutive: nat,
                      ghost us: seq<Bytes>, ghost k: nat)
    returns (newOut: Bytes, cp: nat, now: nat)
    requires us == Units(content) && Scanning(us, k, pos) && pos < |content| && len == CharLen(content, pos) > 0
    requires k < |us| && Compressing(us, k, m, out, lastCp, lastLen, consecutive)
    ensures Compressing(us, k + 1, m, newOut, cp, len, now)
  {
    CharHere(content, us, k, pos);
    CompressGood(us, k, m, out, lastCp, lastLen, consecutive);
    cp := DecodeCodePoint(content, pos, len);
    now := if cp == lastCp && len == lastLen then consecutive + 1 else 1;
    newOut := if now <= m then out + content[pos..pos + len] else out;
  }

  method CompressRepeats(content: Bytes, maxRepeat: nat) returns (out: Bytes)
    ensures out == Compressed(content, maxRepeat)
  {
    if maxRepeat == 0 {
      return content;
    }
    out := [];
    var pos: nat, consecutive: nat, lastLen: nat := 0, 0, 0;
    var lastCp: nat := NO_CODE_POINT;
    ghost var us, k: nat := Units(content), 0;
    while pos < |content|
      invariant Scanning(us, k, pos) && pos <= |content|
      invariant Compressing(us, k, maxRepeat, out, lastCp, lastLen, consecutive)
      decreases |content| - pos
    {
      var len := NextLen(content, pos, us, k);
      if len == 0 {
        CompressBad(us, k, maxRepeat, out, lastCp, lastLen, consecutive);
        pos := pos + 1;
        consecutive := 0;
        lastCp := NO_CODE_POINT;
        k := k + 1;
        continue;
      }
      out, lastCp, consecutive := CompressChar(content, pos, len, maxRepeat, out, lastCp, lastLen, consecutive, us, k);
      lastLen := len;
      pos := pos + len;
      k := k + 1;
    }
    ScanEnd(content, us, k, pos);
  }

  datatype Run = Run(unit: Bytes, count: nat)

  function Last(rs: seq<Run>): Run
    requires rs != []
  {
    rs[|rs| - 1]
  }

  /** One more unit: the last run grows or a new one starts. */
  function Pushed(rs: seq<Run>, u: Bytes): (r: seq<Run>)
    ensures r != [] && Last(r).unit == u
  {
    if rs != [] && Last(rs).unit == u then rs[|rs| - 1 := Run(u, Last(rs).count + 1)] else rs + [Run(u, 1)]
  }

  /** The first k units as runs of equal units. */
  function Runs(us: seq<Bytes>, k: nat): seq<Run>
    requires k <= |us|
  {
    if k == 0 then [] else Pushed(Runs(us, k - 1), us[k - 1])
  }

  function AllRuns(us: seq<Bytes>): seq<Run> { Runs(us, |us|) }

  function Clip(r: Run, m: nat): Run { Run(r.unit, if r.count <= m then r.count else m) }

  function Clipped(rs: seq<Run>, m: nat): (c: seq<Run>)
    ensures |c| == |rs| && forall i :: 0 <= i < |rs| ==> c[i] == Clip(rs[i], m)
  {
    seq(|rs|, i requires 0 <= i < |rs| => Clip(rs[i], m))
  }

  function Repeat(u: Bytes, n: nat): seq<Bytes> { if n == 0 then [] else Repeat(u, n - 1) + [u] }

  function Expanded(rs: seq<Run>): seq<Bytes> {
    if rs == [] then [] else Expanded(rs[..|rs| - 1]) + Repeat(rs[|rs| - 1].unit, rs[|rs| - 1].count)
  }

  /** Runs is run-length encoding: expanding gives the units back, neighbours differ and counts
      are positive. */
  lemma RunsEncode(us: seq<Bytes>)
    ensures Expanded(AllRuns(us)) == us && Proper(AllRuns(us))
  {
    RunsExpand(us, |us|);
    RunsProper(us, |us|);
    assert us[..|us|] == us;
  }

  lemma {:induction false} RunsExpand(us: seq<Bytes>, k: nat)
    requires k <= |us|
    ensures Expanded(Runs(us, k)) == us[..k]
  {
    if k > 0 {
      RunsExpand(us, k - 1);
      PushedExpands(Runs(us, k - 1), us[k - 1]);
      PrefixSnoc(us, k);
    }
  }

  lemma PrefixSnoc(us: seq<Bytes>, k: nat)
    requires 0 < k <= |us|
    ensures us[..k] == us[..k - 1] + [us[k - 1]]
  {
  }

  lemma {:induction false} RunsProper(us: seq<Bytes>, k: nat)
    requires k <= |us|
    ensures Proper(Runs(us, k))
  {
    if k > 0 {
      RunsProper(us, k - 1);
      PushedProper(Runs(us, k - 1), us[k - 1]);
    }
  }

  predicate Proper(rs: seq<Run>) {
    (forall i :: 0 <= i < |rs| ==> rs[i].count > 0) && forall i :: 0 < i < |rs| ==> rs[i - 1].unit != rs[i].unit
  }

  lemma PushedProper(rs: seq<Run>, u: Bytes)
    requires Proper(rs)
    ensures Proper(Pushed(rs, u))
  {
  }

  lemma PushedExpands(rs: seq<Run>, u: Bytes)
    ensures Expanded(Pushed(rs, u)) == Expanded(rs) + [u]
  {
    if rs != [] && Last(rs).unit == u {
      assert Pushed(rs, u)[..|rs| - 1] == rs[..|rs| - 1];
    } else {
      assert (rs + [Run(u, 1)])[..|rs|] == rs;
      assert Repeat(u, 1) == [u] by { assert Repeat(u, 0) == []; }
    }
  }

  lemma RunsSnoc(us: seq<Bytes>, u: Bytes)
    ensures AllRuns(us + [u]) == Pushed(AllRuns(us), u)
  {
    RunsPrefix(us, us + [u], |us|);
  }

  lemma {:induction false} RunsPrefix(us: seq<Bytes>, vs: seq<Bytes>, k: nat)
    requires k <= |us| <= |vs| && vs[..|us|] == us
    ensures Runs(us, k) == Runs(vs, k)
  {
    if k > 0 {
      assert vs[k - 1] == vs[..|us|][k - 1];
      RunsPrefix(us, vs, k - 1);
    }
  }

  // ----- compressing, on any text

  /** The characters among the first k units: stray bytes left out. */
  function Goods(us: seq<Bytes>, k: nat): seq<Bytes>
    requires k <= |us|
  {
    if k == 0 then [] else if Good(us[k - 1]) then Goods(us, k - 1) + [us[k - 1]] else Goods(us, k - 1)
  }

  function AllGoods(us: seq<Bytes>): seq<Bytes> { Goods(us, |us|) }

  /** A run of equal characters, in the pieces that stray bytes cut it into. */
  datatype Pieces = One(last: nat) | More(before: Pieces, last: nat)

  /** The runs one after the other, the last one outermost. */
  datatype Groups = NoGroups | Add(before: Groups, unit: Bytes, pieces: Pieces)

  function Longer(gs: Groups): Groups
    requires gs.Add?
  {
    gs.(pieces := gs.pieces.(last := gs.pieces.last + 1))
  }

  /** Start a new piece. */
  function Opened(gs: Groups, u: Bytes): Groups {
    if gs.Add? && gs.unit == u then gs.(pieces := More(gs.pieces, 1)) else Add(gs, u, One(1))
  }

  function GroupsOf(us: seq<Bytes>, k: nat): (gs: Groups)
    requires k <= |us|
    ensures k > 0 && Good(us[k - 1]) ==> gs.Add? && gs.unit == us[k - 1] && gs.pieces.last == Streak(us, k)
  {
    if k == 0 then NoGroups else
    var gs := GroupsOf(us, k - 1);
    if !Good(us[k - 1]) then gs
    else if k > 1 && us[k - 2] == us[k - 1] then Longer(gs)
    else Opened(gs, us[k - 1])
  }

  function AllGroups(us: seq<Bytes>): Groups { GroupsOf(us, |us|) }

  function Cut(n: nat, m: nat): nat { if n <= m then n else m }

  /** The pieces added up, each cut to m. */
  function CutTotal(p: Pieces, m: nat): nat {
    match p
    case One(n) => Cut(n, m)
    case More(before, n) => CutTotal(before, m) + Cut(n, m)
  }

  function Total(p: Pieces): nat {
    match p
    case One(n) => n
    case More(before, n) => Total(before) + n
  }

  function CutRuns(gs: Groups, m: nat): seq<Run> {
    if gs.NoGroups? then [] else CutRuns(gs.before, m) + [Run(gs.unit, CutTotal(gs.pieces, m))]
  }

  function FullRuns(gs: Groups): seq<Run> {
    if gs.NoGroups? then [] else FullRuns(gs.before) + [Run(gs.unit, Total(gs.pieces))]
  }

  lemma PushedSame(rs: seq<Run>, u: Bytes, n: nat)
    ensures Pushed(rs + [Run(u, n)], u) == rs + [Run(u, n + 1)]
  {
  }

  lemma PushedOther(rs: seq<Run>, v: Bytes, n: nat, u: Bytes)
    requires u != v
    ensures Pushed(rs + [Run(v, n)], u) == rs + [Run(v, n)] + [Run(u, 1)]
  {
  }

  lemma LongerRuns(gs: Groups, m: nat)
    requires gs.Add?
    ensures FullRuns(Longer(gs)) == Pushed(FullRuns(gs), gs.unit)
    ensures CutRuns(Longer(gs), m) ==
              if gs.pieces.last < m then Pushed(CutRuns(gs, m), gs.unit) else CutRuns(gs, m)
  {
    PushedSame(FullRuns(gs.before), gs.unit, Total(gs.pieces));
    PushedSame(CutRuns(gs.before, m), gs.unit, CutTotal(gs.pieces, m));
  }

  lemma OpenedRuns(gs: Groups, u: Bytes, m: nat)
    requires m > 0
    ensures FullRuns(Opened(gs, u)) == Pushed(FullRuns(gs), u)
    ensures CutRuns(Opened(gs, u), m) == Pushed(CutRuns(gs, m), u)
  {
    if gs.Add? && gs.unit == u {
      PushedSame(FullRuns(gs.before), u, Total(gs.pieces));
      PushedSame(CutRuns(gs.before, m), u, CutTotal(gs.pieces, m));
    } else if gs.Add? {
      PushedOther(FullRuns(gs.before), gs.unit, Total(gs.pieces), u);
      PushedOther(CutRuns(gs.before, m), gs.unit, CutTotal(gs.pieces, m), u);
    }
  }

  /** The groups are the runs of the characters, and squeezing cuts their pieces one by one. */
  lemma {:induction false} SqueezedRuns(us: seq<Bytes>, k: nat, m: nat)
    requires k <= |us| && m > 0
    ensures AllRuns(Squeezed(us, k, m)) == CutRuns(GroupsOf(us, k), m)
    ensures AllRuns(Goods(us, k)) == FullRuns(GroupsOf(us, k))
  {
    if k > 0 {
      SqueezedRuns(us, k - 1, m);
      if Good(us[k - 1]) {
        SqueezedNext(us, k, m, Squeezed(us, k - 1, m), Goods(us, k - 1), GroupsOf(us, k - 1));
      }
    }
  }

  lemma SqueezedNext(us: seq<Bytes>, k: nat, m: nat, sq: seq<Bytes>, goods: seq<Bytes>, gs: Groups)
    requires 0 < k <= |us| && m > 0 && Good(us[k - 1]) && gs == GroupsOf(us, k - 1)
    requires AllRuns(sq) == CutRuns(gs, m) && AllRuns(goods) == FullRuns(gs)
    ensures AllRuns(if Streak(us, k) <= m then sq + [us[k - 1]] else sq) == CutRuns(GroupsOf(us, k), m)
    ensures AllRuns(goods + [us[k - 1]]) == FullRuns(GroupsOf(us, k))
  {
    RunsSnoc(sq, us[k - 1]);
    RunsSnoc(goods, us[k - 1]);
    if k > 1 && us[k - 2] == us[k - 1] {
      LongerRuns(gs, m);
    } else {
      OpenedRuns(gs, us[k - 1], m);
    }
  }

  lemma {:induction false} SqueezedGood(us: seq<Bytes>, k: nat, m: nat)
    requires k <= |us|
    ensures AllGood(Squeezed(us, k, m))
  {
    if k > 0 {
      SqueezedGood(us, k - 1, m);
    }
  }

  /** For every text: the output has the runs of the text without its stray bytes, in which each
      piece between stray bytes is cut to maxRepeat by itself. */
  lemma CompressRuns(s: Bytes, m: nat)
    requires m > 0
    ensures var gs, out := AllGroups(Units(s)), Compressed(s, m);
            && AllRuns(AllGoods(Units(s))) == FullRuns(gs)
            && Valid(out) && AllRuns(Units(out)) == CutRuns(gs, m) && Units(out) == Expanded(CutRuns(gs, m))
  {
    var us, sq := Units(s), Squeezed(Units(s), |Units(s)|, m);
    SqueezedRuns(us, |us|, m);
    SqueezedGood(us, |us|, m);
    UnitsOfJoin(sq);
    RunsEncode(sq);
  }

  ghost predicate RunsUpTo(us: seq<Bytes>, m: nat) { forall r :: r in AllRuns(us) ==> r.count <= m }

  /** In every run the pieces, each cut to m, add up to at most m. */
  predicate PiecesFit(gs: Groups, m: nat) {
    gs.Add? ==> PiecesFit(gs.before, m) && CutTotal(gs.pieces, m) <= m
  }

  /** No run of the output is longer than maxRepeat exactly when the pieces of every run fit;
      exactly then the output is the text with every run cut, and a second pass changes nothing.
      The text itself is left alone just when it is valid and has no longer run. */
  lemma CompressBoundsRuns(s: Bytes, m: nat)
    requires m > 0
    ensures var us, out, fit := Units(s), Compressed(s, m), PiecesFit(AllGroups(Units(s)), m);
            && (RunsUpTo(Units(out), m) <==> fit)
            && (AllRuns(Units(out)) == Clipped(AllRuns(AllGoods(us)), m) <==> fit)
            && (Compressed(out, m) == out <==> fit)
            && (out == s <==> Valid(s) && RunsUpTo(us, m))
  {
    var out := Compressed(s, m);
    CompressRuns(s, m);
    FitMeaning(AllGroups(Units(s)), m);
    CompressedSame(out, m);
    CompressedSame(s, m);
  }

  lemma CompressedSame(s: Bytes, m: nat)
    requires m > 0
    ensures Compressed(s, m) == s <==> Valid(s) && RunsUpTo(Units(s), m)
  {
    CompressRuns(s, m);
    if Valid(s) {
      CompressOnValid(s, m);
      ClippedMeaning(AllRuns(Units(s)), m);
      RunsEncode(Units(s));
      RunsEncode(Units(Compressed(s, m)));
      JoinOfUnits(s);
      JoinOfUnits(Compressed(s, m));
    }
  }

  lemma {:induction false} FitMeaning(gs: Groups, m: nat)
    ensures (forall r :: r in CutRuns(gs, m) ==> r.count <= m) <==> PiecesFit(gs, m)
    ensures CutRuns(gs, m) == Clipped(FullRuns(gs), m) <==> PiecesFit(gs, m)
  {
    if gs.Add? {
      FitMeaning(gs.before, m);
      CutBounds(gs.pieces, m);
      ClippedSnoc(FullRuns(gs.before), Run(gs.unit, Total(gs.pieces)), m);
      SameSnoc(CutRuns(gs.before, m), Run(gs.unit, CutTotal(gs.pieces, m)),
        Clipped(FullRuns(gs.before), m), Clip(Run(gs.unit, Total(gs.pieces)), m));
      CountsSnoc(CutRuns(gs.before, m), Run(gs.unit, CutTotal(gs.pieces, m)), m);
    }
  }

  lemma ClippedSnoc(rs: seq<Run>, r: Run, m: nat)
    ensures Clipped(rs + [r], m) == Clipped(rs, m) + [Clip(r, m)]
  {
  }

  lemma SameSnoc(a: seq<Run>, x: Run, b: seq<Run>, y: Run)
    ensures a + [x] == b + [y] <==> a == b && x == y
  {
    if a + [x] == b + [y] {
      assert (a + [x])[..|a|] == a && (b + [y])[..|b|] == b;
      assert (a + [x])[|a|] == (b + [y])[|b|];
    }
  }

  lemma CountsSnoc(rs: seq<Run>, x: Run, m: nat)
    ensures (forall r :: r in rs + [x] ==> r.count <= m) <==> (forall r :: r in rs ==> r.count <= m) && x.count <= m
  {
    if forall r :: r in rs + [x] ==> r.count <= m {
      assert x in rs + [x];
      assert forall r :: r in rs ==> r in rs + [x];
    }
  }

  /** Cutting the pieces keeps at least what cutting the whole would. */
  lemma {:induction false} CutBounds(p: Pieces, m: nat)
    ensures Cut(Total(p), m) <= CutTotal(p, m) <= Total(p)
  {
    if p.More? {
      CutBounds(p.before, m);
    }
  }

  lemma ClippedMeaning(rs: seq<Run>, m: nat)
    ensures Clipped(rs, m) == rs <==> forall r :: r in rs ==> r.count <= m
  {
    if Clipped(rs, m) == rs {
      assert forall i :: 0 <= i < |rs| ==> rs[i] == Clip(rs[i], m);
    }
  }

  /** On a valid text no run is in pieces, so every run is cut to maxRepeat. */
  lemma CompressOnValid(s: Bytes, m: nat)
    requires Valid(s) && m > 0
    ensures var out := Compressed(s, m);
            && Valid(out) && AllRuns(Units(out)) == Clipped(AllRuns(Units(s)), m)
            && Units(out) == Expanded(Clipped(AllRuns(Units(s)), m))
  {
    var us := Units(s);
    CompressRuns(s, m);
    assert forall i :: 0 <= i < |us| ==> us[i] in us;
    InOnePiece(us, |us|);
    assert us[..|us|] == us;
    FitMeaning(AllGroups(us), m);
    OnePieceFits(AllGroups(us), m);
  }

  predicate OnePieceEach(gs: Groups) { gs.Add? ==> OnePieceEach(gs.before) && gs.pieces.One? }

  lemma OnePieceFits(gs: Groups, m: nat)
    requires OnePieceEach(gs)
    ensures PiecesFit(gs, m)
  {
  }

  lemma {:induction false} InOnePiece(us: seq<Bytes>, k: nat)
    requires k <= |us| && forall i :: 0 <= i < k ==> Good(us[i])
    ensures Goods(us, k) == us[..k] && OnePieceEach(GroupsOf(us, k))
  {
    if k > 0 {
      InOnePiece(us, k - 1);
      assert us[..k] == us[..k - 1] + [us[k - 1]];
    }
  }

  /** A character n times, each followed by a byte that starts none. */
  function Interleaved(u: Bytes, b: Byte, n: nat): Bytes {
    if n == 0 then [] else u + [b] + Interleaved(u, b, n - 1)
  }

  /** The byte is dropped and resets the count, so whatever maxRepeat is, all of them stay. */
  lemma InvalidByteResets(u: Bytes, b: Byte, n: nat, m: nat)
    requires Good(u) && GetUtf8SequenceLength(b) == 0 && m > 0
    ensures Units(Compressed(Interleaved(u, b, n), m)) == Repeat(u, n)
  {
    var us := Units(Interleaved(u, b, n));
    InterleavedUnits(u, b, n);
    SqueezedPairs(us, u, n, n, m);
    SqueezedGood(us, |us|, m);
    UnitsOfJoin(Squeezed(us, |us|, m));
  }

  ghost predicate Pairs(us: seq<Bytes>, u: Bytes, n: nat) {
    |us| == 2 * n && forall i :: 0 <= i < n ==> us[2 * i] == u && !Good(us[2 * i + 1])
  }

  lemma {:induction false} InterleavedUnits(u: Bytes, b: Byte, n: nat)
    requires Good(u) && GetUtf8SequenceLength(b) == 0
    ensures Pairs(Units(Interleaved(u, b, n)), u, n)
  {
    if n > 0 {
      var rest := Interleaved(u, b, n - 1);
      InterleavedUnits(u, b, n - 1);
      CharThenByte(u, b, rest);
      PairsFront(Units(u + [b] + rest), u, [b], Units(rest), n);
    }
  }

  lemma PairsFront(us: seq<Bytes>, u: Bytes, b: Bytes, rest: seq<Bytes>, n: nat)
    requires n > 0 && us == [u, b] + rest && !Good(b) && Pairs(rest, u, n - 1)
    ensures Pairs(us, u, n)
  {
    forall i | 0 <= i < n ensures us[2 * i] == u && !Good(us[2 * i + 1]) {
      if i > 0 {
        assert us[2 * i] == rest[2 * (i - 1)] && us[2 * i + 1] == rest[2 * (i - 1) + 1];
      }
    }
  }

  lemma {:induction false} SqueezedPairs(us: seq<Bytes>, u: Bytes, n: nat, k: nat, m: nat)
    requires Pairs(us, u, n) && Good(u) && k <= n && m > 0
    ensures Squeezed(us, 2 * k, m) == Repeat(u, k)
  {
    if k > 0 {
      var i := k - 1;
      SqueezedPairs(us, u, n, i, m);
      assert us[2 * i] == u && !Good(us[2 * i + 1]);
      assert k > 1 ==> !Good(us[2 * (k - 2) + 1]);
      assert Streak(us, 2 * i + 1) == 1;
      assert Squeezed(us, 2 * i + 1, m) == Repeat(u, i) + [u];
      assert 2 * k == 2 * i + 2;
    }
  }

  lemma CharThenByte(u: Bytes, b: Byte, rest: Bytes)
    requires Good(u) && GetUtf8SequenceLength(b) == 0
    ensures !Good([b]) && Units(u + [b] + rest) == [u, [b]] + Units(rest)
  {
    CharFirst(u, [b] + rest);
    ByteFirst(b, rest);
    assert u + [b] + rest == u + ([b] + rest);
    assert [u] + ([[b]] + Units(rest)) == [u, [b]] + Units(rest);
  }

  lemma CharFirst(u: Bytes, t: Bytes)
    requires Good(u)
    ensures Units(u + t) == [u] + Units(t)
  {
    var s := u + t;
    GoodExtends(u, t);
    assert s[..|u|] == u && s[|u|..] == t;
  }

  lemma ByteFirst(b: Byte, t: Bytes)
    requires GetUtf8SequenceLength(b) == 0
    ensures !Good([b]) && Units([b] + t) == [[b]] + Units(t)
  {
    var s := [b] + t;
    assert s[..1] == [b] && s[1..] == t;
  }

  // ----- sanitize by configuration

  const SPACE: Bytes := [0x20]
  const LINE_FEED: Bytes := [0x0A]

  datatype ValidatorConfig = ValidatorConfig(stripBom: bool, dropZeroWidth: bool, dropControlChars: bool,
                                             normalizeWhitespace: bool, maxRepeat: nat)

  datatype SanitizeAction = KEEP | DROP | REPLACE_SPACE | REPLACE_NEWLINE

  predicate IsZeroWidth(cp: nat) { 0x200B <= cp <= 0x200F || cp == 0x2060 || cp == 0xFEFF }

  function DecideSanitizeAction(cp: nat, lead: Byte, len: nat, cfg: ValidatorConfig): SanitizeAction {
    if cfg.dropZeroWidth && IsZeroWidth(cp) then DROP
    else if cfg.dropControlChars && len == 1 && IsControl(lead) then DROP
    else if cfg.normalizeWhitespace && (cp == 0x20 || cp == 0x09) then REPLACE_SPACE
    else if cfg.normalizeWhitespace && (cp == 0x0A || cp == 0x0D) then REPLACE_NEWLINE
    else KEEP
  }

  function ActionOf(u: Bytes, cfg: ValidatorConfig): SanitizeAction
    requires Good(u)
  {
    DecideSanitizeAction(CodePoint(u), u[0], |u|, cfg)
  }

  datatype Filter = Filter(out: seq<Bytes>, prevIsWs: bool)

  function Blank(f: Filter, ws: Bytes): Filter { if f.prevIsWs then f else Filter(f.out + [ws], true) }

  /** What the first k units become before runs are compressed. */
  function Filtered(us: seq<Bytes>, k: nat, cfg: ValidatorConfig): Filter
    requires k <= |us|
  {
    if k == 0 then Filter([], false) else
    var f, u := Filtered(us, k - 1, cfg), us[k - 1];
    if !Good(u) then f.(prevIsWs := false) else
    match ActionOf(u, cfg)
    case DROP => f
    case REPLACE_SPACE => Blank(f, SPACE)
    case REPLACE_NEWLINE => Blank(f, LINE_FEED)
    case KEEP => Filter(f.out + [u], false)
  }

  predicate HasBom(content: Bytes) { |content| >= 3 && content[0] == 0xEF && content[1] == 0xBB && content[2] == 0xBF }

  function WithoutBom(s: Bytes, cfg: ValidatorConfig): Bytes { if cfg.stripBom && HasBom(s) then s[3..] else s }

  /** A byte order mark in front goes if asked to, and nothing else. */
  lemma BomMeaning(s: Bytes, cfg: ValidatorConfig)
    ensures var bom: Bytes := [0xEF, 0xBB, 0xBF];
            if cfg.stripBom && bom <= s then s == bom + WithoutBom(s, cfg) else WithoutBom(s, cfg) == s
  {
    var bom: Bytes := [0xEF, 0xBB, 0xBF];
    if HasBom(s) {
      assert s[..3] == bom && s == s[..3] + s[3..];
    }
  }

  function FilteredUnits(s: Bytes, cfg: ValidatorConfig): seq<Bytes> {
    var us := Units(WithoutBom(s, cfg));
    Filtered(us, |us|, cfg).out
  }

  function Configured(s: Bytes, cfg: ValidatorConfig): Bytes { Compressed(Join(FilteredUnits(s, cfg)), cfg.maxRepeat) }

  ghost predicate Filtering(us: seq<Bytes>, k: nat, cfg: ValidatorConfig, out: Bytes, prevIsWs: bool) {
    k <= |us| && out == Join(Filtered(us, k, cfg).out) && prevIsWs == Filtered(us, k, cfg).prevIsWs
  }

  lemma FilterBad(us: seq<Bytes>, k: nat, cfg: ValidatorConfig, out: Bytes, prevIsWs: bool)
    requires k < |us| && Filtering(us, k, cfg, out, prevIsWs) && !Good(us[k])
    ensures Filtering(us, k + 1, cfg, out, false)
  {
  }

  lemma FilterGood(us: seq<Bytes>, k: nat, cfg: ValidatorConfig, out: Bytes, prevIsWs: bool)
    requires k < |us| && Filtering(us, k, cfg, out, prevIsWs) && Good(us[k])
    ensures match ActionOf(us[k], cfg)
            case DROP => Filtering(us, k + 1, cfg, out, prevIsWs)
            case REPLACE_SPACE => Filtering(us, k + 1, cfg, if prevIsWs then out else out + SPACE, true)
            case REPLACE_NEWLINE => Filtering(us, k + 1, cfg, if prevIsWs then out else out + LINE_FEED, true)
            case KEEP => Filtering(us, k + 1, cfg, out + us[k], false)
  {
    var f := Filtered(us, k, cfg);
    JoinSnoc(f.out, SPACE);
    JoinSnoc(f.out, LINE_FEED);
    JoinSnoc(f.out, us[k]);
  }

  /** The part of SanitizeWithConfig that handles one character. */
  method FilterChar(content: Bytes, pos: nat, len: nat, cfg: ValidatorConfig, out: Bytes, prevIsWs: bool,
                    ghost us: seq<Bytes>, ghost k: nat)
    returns (newOut: Bytes, ws: bool)
    requires us == Units(content) && Scanning(us, k, pos) && pos < |content| && len == CharLen(content, pos) > 0
    requires k < |us| && Filtering(us, k, cfg, out, prevIsWs)
    ensures Filtering(us, k + 1, cfg, newOut, ws)
  {
    CharHere(content, us, k, pos);
    FilterGood(us, k, cfg, out, prevIsWs);
    newOut, ws := out, prevIsWs;
    match DecideSanitizeAction(DecodeCodePoint(content, pos, len), content[pos], len, cfg) {
      case DROP =>
      case REPLACE_SPACE =>
        if !prevIsWs {
          newOut, ws := out + SPACE, true;
        }
      case REPLACE_NEWLINE =>
        if !prevIsWs {
          newOut, ws := out + LINE_FEED, true;
        }
      case KEEP =>
        newOut, ws := out + content[pos..pos + len], false;
    }
  }

  /** The loop of SanitizeWithConfig. */
  method FilterContent(content: Bytes, cfg: ValidatorConfig) returns (out: Bytes)
    ensures out == Join(Filtered(Units(content), |Units(content)|, cfg).out)
  {
    out := [];
    var pos: nat := 0;
    var prevIsWs := false;
    ghost var us, k: nat := Units(content), 0;
    while pos < |content|
      invariant Scanning(us, k, pos) && pos <= |content|
      invariant Filtering(us, k, cfg, out, prevIsWs)
      decreases |content| - pos
    {
      var len := NextLen(content, pos, us, k);
      if len == 0 {
        FilterBad(us, k, cfg, out, prevIsWs);
        pos := pos + 1;
        prevIsWs := false;
        k := k + 1;
        continue;
      }
      out, prevIsWs := FilterChar(content, pos, len, cfg, out, prevIsWs, us, k);
      pos := pos + len;
      k := k + 1;
    }
    ScanEnd(content, us, k, pos);
  }

  method SanitizeWithConfig(text: Bytes, cfg: ValidatorConfig) returns (out: Bytes)
    ensures out == Configured(text, cfg)
  {
    var content := text;
    if cfg.stripBom && HasBom(content) {
      content := content[3..];
    }
    out := FilterContent(content, cfg);
    if cfg.maxRepeat > 0 {
      out := CompressRepeats(out, cfg.maxRepeat);
    }
  }

  // ----- the actions, on bytes

  /** The UTF-8 encoding, short or overlong, of that code point. */
  predicate Spells(u: Bytes, cp: nat) { Encodable(cp, |u|) && u == Encoded(cp, |u|) }

  lemma SpellsCodePoint(u: Bytes, cp: nat)
    requires Good(u)
    ensures CodePoint(u) == cp <==> Spells(u, cp)
  {
    EncodeUndoesDecode(u);
    if Spells(u, cp) {
      DecodeUndoesEncode(cp, |u|);
    }
  }

  /** U+200B to U+200F, U+2060 and U+FEFF, in three bytes or overlong in four. */
  predicate ZeroWidthBytes(u: Bytes) {
    || (|u| == 3 && u[0] == 0xE2 && u[1] == 0x80 && 0x8B <= u[2] <= 0x8F)
    || u == [0xE2, 0x81, 0xA0] || u == [0xEF, 0xBB, 0xBF]
    || (|u| == 4 && u[..3] == [0xF0, 0x82, 0x80] && 0x8B <= u[3] <= 0x8F)
    || u == [0xF0, 0x82, 0x81, 0xA0] || u == [0xF0, 0x8F, 0xBB, 0xBF]
  }

  lemma ZeroWidthOnBytes(u: Bytes)
    requires Good(u)
    ensures IsZeroWidth(CodePoint(u)) <==> ZeroWidthBytes(u)
  {
    if IsZeroWidth(CodePoint(u)) {
      SpellsCodePoint(u, CodePoint(u));
      ZeroWidthSpelled(CodePoint(u), |u|);
    }
    if ZeroWidthBytes(u) {
      SpellsZeroWidth(u);
    }
  }

  lemma ZeroWidthSpelled(cp: nat, len: nat)
    requires IsZeroWidth(cp) && Encodable(cp, len)
    ensures ZeroWidthBytes(Encoded(cp, len))
  {
    ZeroWidthDigits(cp);
  }

  /** The six-bit digits of the zero-width code points. */
  lemma ZeroWidthDigits(cp: nat)
    requires IsZeroWidth(cp)
    ensures cp == 0x2060 ==> cp / 64 == 0x81 && cp % 64 == 0x20
    ensures cp == 0xFEFF ==> cp / 64 == 0x3FB && cp % 64 == 0x3F && cp / 64 / 64 == 15 && cp / 64 % 64 == 0x3B
    ensures cp < 0x2060 ==> cp / 64 == 0x80 && cp % 64 == cp - 0x2000
  {
  }

  lemma SpellsZeroWidth(u: Bytes)
    requires Good(u) && ZeroWidthBytes(u)
    ensures IsZeroWidth(CodePoint(u))
  {
    var n := |u|;
    if n == 3 {
      assert CodePoint(u) == Decode3(u[0], u[1], u[2]);
    } else {
      assert u[..3] == [u[0], u[1], u[2]];
      assert CodePoint(u) == Decode4(u[0], u[1], u[2], u[3]);
    }
  }

  /** What happens to each character: zero-width ones and control characters go if asked to, spaces
      and tabs become a space, line feeds and carriage returns a line feed, the rest stays. */
  lemma ActionOnBytes(u: Bytes, cfg: ValidatorConfig)
    requires Good(u)
    ensures ActionOf(u, cfg) ==
              if (cfg.dropZeroWidth && ZeroWidthBytes(u))
                 || (cfg.dropControlChars && |u| == 1
                     && (u[0] <= 8 || u[0] == 11 || u[0] == 12 || 14 <= u[0] <= 31 || u[0] == 127)) then DROP
              else if cfg.normalizeWhitespace && (Spells(u, 32) || Spells(u, 9)) then REPLACE_SPACE
              else if cfg.normalizeWhitespace && (Spells(u, 10) || Spells(u, 13)) then REPLACE_NEWLINE
              else KEEP
  {
    ZeroWidthOnBytes(u);
    SpellsCodePoint(u, 32);
    SpellsCodePoint(u, 9);
    SpellsCodePoint(u, 10);
    SpellsCodePoint(u, 13);
  }

  predicate Fits(u: Bytes, cfg: ValidatorConfig) {
    && Good(u)
    && (cfg.dropControlChars ==> Keeps(u))
    && (cfg.dropZeroWidth ==> !IsZeroWidth(CodePoint(u)))
  }

  lemma {:induction false} FilteredFits(us: seq<Bytes>, k: nat, cfg: ValidatorConfig)
    requires k <= |us|
    ensures forall u :: u in Filtered(us, k, cfg).out ==> Fits(u, cfg)
  {
    if k > 0 {
      FilteredFits(us, k - 1, cfg);
      BlankFits(cfg);
    }
  }

  lemma BlankFits(cfg: ValidatorConfig)
    ensures Fits(SPACE, cfg) && Fits(LINE_FEED, cfg)
  {
  }

  lemma {:induction false} SqueezedSubset(us: seq<Bytes>, k: nat, m: nat)
    requires k <= |us|
    ensures forall u :: u in Squeezed(us, k, m) ==> u in us
  {
    if k > 0 {
      SqueezedSubset(us, k - 1, m);
    }
  }

  /** The compressed text consists of characters of the text. */
  lemma CompressedUnits(us: seq<Bytes>, m: nat)
    requires AllGood(us)
    ensures Units(Compressed(Join(us), m)) == if m == 0 then us else Squeezed(us, |us|, m)
    ensures forall u :: u in Units(Compressed(Join(us), m)) ==> u in us
  {
    UnitsOfJoin(us);
    SqueezedGood(us, |us|, m);
    UnitsOfJoin(Squeezed(us, |us|, m));
    SqueezedSubset(us, |us|, m);
  }

  /** Whatever the input, valid or not: the output is valid, holds what the configuration asks
      for, and has no run longer than maxRepeat. */
  lemma ConfiguredOutput(s: Bytes, cfg: ValidatorConfig)
    ensures var out := Configured(s, cfg);
            && Valid(out) && (forall u :: u in Units(out) ==> Fits(u, cfg))
            && (cfg.dropControlChars ==> NoControls(out))
            && (cfg.dropZeroWidth ==> forall u :: u in Units(out) ==> !ZeroWidthBytes(u))
            && (cfg.maxRepeat > 0 ==> RunsUpTo(Units(out), cfg.maxRepeat))
  {
    var us, fs, out := Units(WithoutBom(s, cfg)), FilteredUnits(s, cfg), Configured(s, cfg);
    FilteredFits(us, |us|, cfg);
    CompressedUnits(fs, cfg.maxRepeat);
    JoinedControls(Units(out));
    JoinOfUnits(out);
    forall u | u in Units(out) ensures cfg.dropZeroWidth ==> !ZeroWidthBytes(u) {
      ZeroWidthOnBytes(u);
    }
    if cfg.maxRepeat > 0 {
      UnitsOfJoin(fs);
      CompressOnValid(Join(fs), cfg.maxRepeat);
    }
  }

  /** With control characters dropped and nothing else asked for, it is Sanitize. */
  lemma ConfiguredAsSanitize(s: Bytes)
    ensures Configured(s, ValidatorConfig(false, false, true, false, 0)) == Sanitized(s)
  {
    FilteredAsKept(Units(s), |Units(s)|, ValidatorConfig(false, false, true, false, 0));
  }

  lemma {:induction false} FilteredAsKept(us: seq<Bytes>, k: nat, cfg: ValidatorConfig)
    requires k <= |us| && !cfg.dropZeroWidth && cfg.dropControlChars && !cfg.normalizeWhitespace
    ensures Filtered(us, k, cfg).out == Kept(us, k)
  {
    if k > 0 {
      FilteredAsKept(us, k - 1, cfg);
    }
  }

  // ----- spacing

  predicate IsWs(u: Bytes) { u == SPACE || u == LINE_FEED }

  predicate Spaced(us: seq<Bytes>) { forall i :: 0 < i < |us| ==> !(IsWs(us[i - 1]) && IsWs(us[i])) }

  /** White space that is to become a blank. */
  predicate Whitespace(u: Bytes, cfg: ValidatorConfig) {
    Good(u) && (ActionOf(u, cfg) == REPLACE_SPACE || ActionOf(u, cfg) == REPLACE_NEWLINE)
  }

  function BlankOf(u: Bytes, cfg: ValidatorConfig): Bytes
    requires Whitespace(u, cfg)
  {
    if ActionOf(u, cfg) == REPLACE_SPACE then SPACE else LINE_FEED
  }

  predicate Dropped(u: Bytes, cfg: ValidatorConfig) { Good(u) && ActionOf(u, cfg) == DROP }

  /** Only dropped characters since some white space. */
  ghost predicate AfterWs(us: seq<Bytes>, k: nat, cfg: ValidatorConfig)
    requires k <= |us|
  {
    exists a :: 0 <= a < k && SinceWs(us, a, k, cfg)
  }

  ghost predicate SinceWs(us: seq<Bytes>, a: nat, k: nat, cfg: ValidatorConfig)
    requires a < k <= |us|
  {
    Whitespace(us[a], cfg) && forall j :: a < j < k ==> Dropped(us[j], cfg)
  }

  /** White space whose blank is written. */
  ghost predicate Written(us: seq<Bytes>, k: nat, cfg: ValidatorConfig)
    requires k < |us|
  {
    Whitespace(us[k], cfg) && !AfterWs(us, k, cfg)
  }

  /** A unit for which nothing is written. */
  ghost predicate Silent(us: seq<Bytes>, k: nat, cfg: ValidatorConfig)
    requires k < |us|
  {
    !Good(us[k]) || Dropped(us[k], cfg) || (Whitespace(us[k], cfg) && !Written(us, k, cfg))
  }

  /** Two blanks written one right after the other. */
  ghost predicate Clash(us: seq<Bytes>, a: nat, b: nat, cfg: ValidatorConfig)
    requires a < b < |us|
  {
    Written(us, a, cfg) && Written(us, b, cfg) && forall j :: a < j < b ==> Silent(us, j, cfg)
  }

  /** Equal blanks merge when repeats are cut to one. */
  predicate Merges(x: Bytes, y: Bytes, m: nat) { m == 1 && x == y }

  predicate Fine(x: Bytes, y: Bytes, m: nat) { IsWs(x) && IsWs(y) ==> Merges(x, y, m) }

  predicate PairsFine(us: seq<Bytes>, k: nat, m: nat)
    requires k <= |us|
  {
    forall i :: 0 < i < k ==> Fine(us[i - 1], us[i], m)
  }

  lemma {:induction false} PrevIsWsMeaning(us: seq<Bytes>, k: nat, cfg: ValidatorConfig)
    requires k <= |us|
    ensures Filtered(us, k, cfg).prevIsWs <==> AfterWs(us, k, cfg)
  {
    if k > 0 {
      PrevIsWsMeaning(us, k - 1, cfg);
      if Whitespace(us[k - 1], cfg) {
        assert SinceWs(us, k - 1, k, cfg);
      } else if Dropped(us[k - 1], cfg) && AfterWs(us, k - 1, cfg) {
        var a :| 0 <= a < k - 1 && SinceWs(us, a, k - 1, cfg);
        assert SinceWs(us, a, k, cfg);
      } else if AfterWs(us, k, cfg) {
        var a :| 0 <= a < k && SinceWs(us, a, k, cfg);
        AfterWsShorter(us, a, k, cfg);
      }
    }
  }

  lemma AfterWsShorter(us: seq<Bytes>, a: nat, k: nat, cfg: ValidatorConfig)
    requires a < k <= |us| && SinceWs(us, a, k, cfg) && !Whitespace(us[k - 1], cfg)
    ensures Dropped(us[k - 1], cfg) && AfterWs(us, k - 1, cfg)
  {
    assert a < k - 1 && SinceWs(us, a, k - 1, cfg);
  }

  /** What one more unit adds to the output. */
  lemma FilteredNext(us: seq<Bytes>, k: nat, cfg: ValidatorConfig)
    requires k < |us|
    ensures var was, now := Filtered(us, k, cfg).out, Filtered(us, k + 1, cfg).out;
            if Silent(us, k, cfg) then now == was
            else if Written(us, k, cfg) then now == was + [BlankOf(us[k], cfg)]
            else Good(us[k]) && ActionOf(us[k], cfg) == KEEP && now == was + [us[k]]
  {
    PrevIsWsMeaning(us, k, cfg);
  }

  /** What is written for the first k units: nothing for the silent ones, a blank for white space
      that follows no other, everything else as it is. */
  ghost function Emitted(us: seq<Bytes>, k: nat, cfg: ValidatorConfig): seq<Bytes>
    requires k <= |us|
  {
    if k == 0 then [] else
    Emitted(us, k - 1, cfg) +
      if Silent(us, k - 1, cfg) then [] else if Written(us, k - 1, cfg) then [BlankOf(us[k - 1], cfg)] else [us[k - 1]]
  }

  lemma {:induction false} FilteredIsEmitted(us: seq<Bytes>, k: nat, cfg: ValidatorConfig)
    requires k <= |us|
    ensures Filtered(us, k, cfg).out == Emitted(us, k, cfg)
  {
    if k > 0 {
      FilteredIsEmitted(us, k - 1, cfg);
      FilteredNext(us, k - 1, cfg);
    }
  }

  /** The output is cut into what is written for each unit, in order, its runs cut to maxRepeat. */
  lemma ConfiguredIsEmitted(s: Bytes, cfg: ValidatorConfig)
    ensures var us := Units(WithoutBom(s, cfg));
            var written := Emitted(us, |us|, cfg);
            Units(Configured(s, cfg)) ==
              if cfg.maxRepeat == 0 then written else Expanded(Clipped(AllRuns(written), cfg.maxRepeat))
  {
    var us, fs := Units(WithoutBom(s, cfg)), FilteredUnits(s, cfg);
    FilteredIsEmitted(us, |us|, cfg);
    FilteredFits(us, |us|, cfg);
    CompressedUnits(fs, cfg.maxRepeat);
    if cfg.maxRepeat > 0 {
      UnitsOfJoin(fs);
      CompressOnValid(Join(fs), cfg.maxRepeat);
    }
  }

  /** Where the last unit written came from. */
  ghost predicate WroteLast(us: seq<Bytes>, w: nat, k: nat, last: Bytes, cfg: ValidatorConfig)
    requires w < k <= |us|
  {
    && !Silent(us, w, cfg) && (forall j :: w < j < k ==> Silent(us, j, cfg))
    && (if Written(us, w, cfg) then last == BlankOf(us[w], cfg) else !IsWs(last))
  }

  lemma {:induction false} LastWriter(us: seq<Bytes>, k: nat, cfg: ValidatorConfig) returns (w: nat)
    requires k <= |us| && cfg.normalizeWhitespace && Filtered(us, k, cfg).out != []
    ensures var out := Filtered(us, k, cfg).out; w < k && WroteLast(us, w, k, out[|out| - 1], cfg)
  {
    FilteredNext(us, k - 1, cfg);
    if Silent(us, k - 1, cfg) {
      w := LastWriter(us, k - 1, cfg);
    } else {
      w := k - 1;
      if !Written(us, w, cfg) {
        KeptIsNoWs(us[w], cfg);
      }
    }
  }

  lemma {:induction false} NothingWritten(us: seq<Bytes>, k: nat, cfg: ValidatorConfig)
    requires k <= |us| && Filtered(us, k, cfg).out == []
    ensures forall j :: 0 <= j < k ==> Silent(us, j, cfg)
  {
    if k > 0 {
      FilteredNext(us, k - 1, cfg);
      NothingWritten(us, k - 1, cfg);
    }
  }

  lemma KeptIsNoWs(u: Bytes, cfg: ValidatorConfig)
    requires Good(u) && cfg.normalizeWhitespace && ActionOf(u, cfg) == KEEP
    ensures !IsWs(u)
  {
  }

  ghost predicate ClashFine(us: seq<Bytes>, a: nat, b: nat, cfg: ValidatorConfig)
    requires a < b < |us|
  {
    Clash(us, a, b, cfg) ==> Merges(BlankOf(us[a], cfg), BlankOf(us[b], cfg), cfg.maxRepeat)
  }

  ghost predicate ClashesFine(us: seq<Bytes>, k: nat, cfg: ValidatorConfig)
    requires k <= |us|
  {
    forall a, b :: 0 <= a < b < k ==> ClashFine(us, a, b, cfg)
  }

  /** The new unit forms a bad pair with the last one written just when its unit clashes. */
  lemma NewPair(us: seq<Bytes>, k: nat, cfg: ValidatorConfig)
    requires k < |us| && cfg.normalizeWhitespace && Filtered(us, k, cfg).out != [] && !Silent(us, k, cfg)
    ensures var was, now := Filtered(us, k, cfg).out, Filtered(us, k + 1, cfg).out;
            Fine(was[|was| - 1], now[|now| - 1], cfg.maxRepeat) <==> forall a :: 0 <= a < k ==> ClashFine(us, a, k, cfg)
  {
    FilteredNext(us, k, cfg);
    var was := Filtered(us, k, cfg).out;
    var w := LastWriter(us, k, cfg);
    if Written(us, k, cfg) {
      forall a | 0 <= a < k && a != w ensures !Clash(us, a, k, cfg) {
        if a < w { assert !Silent(us, w, cfg); } else { assert Silent(us, a, cfg); }
      }
      assert Clash(us, w, k, cfg) <==> Written(us, w, cfg);
      assert ClashFine(us, w, k, cfg) <==>
        (Written(us, w, cfg) ==> Merges(BlankOf(us[w], cfg), BlankOf(us[k], cfg), cfg.maxRepeat));
    } else {
      KeptIsNoWs(us[k], cfg);
      forall a | 0 <= a < k ensures ClashFine(us, a, k, cfg) {
      }
    }
  }

  lemma NoClashAt(us: seq<Bytes>, k: nat, cfg: ValidatorConfig)
    requires k < |us| && (Silent(us, k, cfg) || forall j :: 0 <= j < k ==> Silent(us, j, cfg))
    ensures forall a :: 0 <= a < k ==> ClashFine(us, a, k, cfg)
  {
    forall a | 0 <= a < k ensures !Clash(us, a, k, cfg) {
      assert Silent(us, a, cfg) || Silent(us, k, cfg);
    }
  }

  lemma ClashesStep(us: seq<Bytes>, k: nat, cfg: ValidatorConfig)
    requires k < |us|
    ensures ClashesFine(us, k + 1, cfg) <==>
              ClashesFine(us, k, cfg) && forall a :: 0 <= a < k ==> ClashFine(us, a, k, cfg)
  {
  }

  lemma PairsStep(out: seq<Bytes>, u: Bytes, m: nat)
    ensures PairsFine(out + [u], |out| + 1, m) <==>
              PairsFine(out, |out|, m) && (out != [] ==> Fine(out[|out| - 1], u, m))
  {
    var longer := out + [u];
    assert forall i :: 0 <= i < |out| ==> longer[i] == out[i];
    if PairsFine(longer, |longer|, m) {
      assert forall i :: 0 < i < |out| ==> Fine(longer[i - 1], longer[i], m);
      assert out != [] ==> Fine(longer[|out| - 1], longer[|out|], m);
    }
  }

  lemma {:induction false} FilteredPairs(us: seq<Bytes>, k: nat, cfg: ValidatorConfig)
    requires k <= |us| && cfg.normalizeWhitespace
    ensures var out := Filtered(us, k, cfg).out;
            PairsFine(out, |out|, cfg.maxRepeat) <==> ClashesFine(us, k, cfg)
  {
    if k > 0 {
      var n := k - 1;
      var was := Filtered(us, n, cfg).out;
      FilteredPairs(us, n, cfg);
      FilteredNext(us, n, cfg);
      ClashesStep(us, n, cfg);
      if Silent(us, n, cfg) {
        NoClashAt(us, n, cfg);
      } else {
        var u := Filtered(us, k, cfg).out[|was|];
        PairsStep(was, u, cfg.maxRepeat);
        if was == [] {
          NothingWritten(us, n, cfg);
          NoClashAt(us, n, cfg);
        } else {
          NewPair(us, n, cfg);
        }
      }
    }
  }

  /** Squeezing keeps the pairs that are fine, and no others. */
  lemma {:induction false} SqueezedPairsFine(us: seq<Bytes>, k: nat, m: nat)
    requires k <= |us| && m > 0 && AllGood(us)
    ensures var sq := Squeezed(us, k, m);
            && (Spaced(sq) <==> PairsFine(us, k, m)) && (k > 0 ==> sq != [] && sq[|sq| - 1] == us[k - 1])
  {
    if k > 0 {
      var n := k - 1;
      SqueezedPairsFine(us, n, m);
      assert us[n] in us;
      PairsFineStep(us, n, m);
      if Streak(us, k) <= m {
        SpacedSnoc(Squeezed(us, n, m), us[n]);
      }
    }
  }

  lemma PairsFineStep(us: seq<Bytes>, n: nat, m: nat)
    requires n < |us|
    ensures PairsFine(us, n + 1, m) <==> PairsFine(us, n, m) && (n > 0 ==> Fine(us[n - 1], us[n], m))
    ensures n > 1 && us[n - 2] == us[n - 1] && IsWs(us[n - 1]) && m != 1 ==> !PairsFine(us, n, m)
  {
    if n > 1 && us[n - 2] == us[n - 1] && IsWs(us[n - 1]) && m != 1 {
      assert !Fine(us[n - 2], us[n - 1], m);
    }
  }

  lemma SpacedSnoc(us: seq<Bytes>, u: Bytes)
    ensures Spaced(us + [u]) <==> Spaced(us) && (us != [] ==> !(IsWs(us[|us| - 1]) && IsWs(u)))
  {
    var longer := us + [u];
    assert forall i :: 0 <= i < |us| ==> longer[i] == us[i];
    if Spaced(longer) {
      assert forall i :: 0 < i < |us| ==> !(IsWs(longer[i - 1]) && IsWs(longer[i]));
      assert us != [] ==> !(IsWs(longer[|us| - 1]) && IsWs(longer[|us|]));
    }
  }

  /** Normalising leaves no two neighbouring white space characters exactly when no two blanks
      are written one right after the other, but for equal blanks that maxRepeat 1 merges. */
  lemma NormalizedSpacing(s: Bytes, cfg: ValidatorConfig)
    requires cfg.normalizeWhitespace
    ensures var us := Units(WithoutBom(s, cfg));
            Spaced(Units(Configured(s, cfg))) <==> ClashesFine(us, |us|, cfg)
  {
    var us, fs := Units(WithoutBom(s, cfg)), FilteredUnits(s, cfg);
    FilteredPairs(us, |us|, cfg);
    FilteredFits(us, |us|, cfg);
    CompressedUnits(fs, cfg.maxRepeat);
    if cfg.maxRepeat > 0 {
      SqueezedPairsFine(fs, |fs|, cfg.maxRepeat);
    }
  }

  /** Blanks clash only over a stray byte: between them every unit is dropped, stray or white
      space, and at least one is stray. */
  lemma ClashNeedsStrayByte(us: seq<Bytes>, a: nat, b: nat, cfg: ValidatorConfig)
    requires a < b < |us| && Clash(us, a, b, cfg)
    ensures exists j :: a < j < b && !Good(us[j])
    ensures forall j :: a < j < b ==> !Good(us[j]) || Dropped(us[j], cfg) || Whitespace(us[j], cfg)
  {
    forall j | a < j < b ensures !Good(us[j]) || Dropped(us[j], cfg) || Whitespace(us[j], cfg) {
      assert Silent(us, j, cfg);
    }
    if forall j :: a < j < b ==> Good(us[j]) {
      SilentRemembers(us, a, b, cfg);
    }
  }

  lemma {:induction false} SilentRemembers(us: seq<Bytes>, a: nat, k: nat, cfg: ValidatorConfig)
    requires a < k <= |us| && Whitespace(us[a], cfg)
    requires forall j :: a < j < k ==> Good(us[j]) && Silent(us, j, cfg)
    ensures AfterWs(us, k, cfg)
    decreases k
  {
    if k == a + 1 || Whitespace(us[k - 1], cfg) {
      assert SinceWs(us, k - 1, k, cfg);
    } else {
      SilentRemembers(us, a, k - 1, cfg);
      assert Silent(us, k - 1, cfg);
      var c :| 0 <= c < k - 1 && SinceWs(us, c, k - 1, cfg);
      assert SinceWs(us, c, k, cfg);
    }
  }

  /** So a valid text is always left well spaced. */
  lemma ValidIsSpaced(s: Bytes, cfg: ValidatorConfig)
    requires Valid(s) && cfg.normalizeWhitespace
    ensures Spaced(Units(Configured(s, cfg)))
  {
    var us := Units(WithoutBom(s, cfg));
    if cfg.stripBom && HasBom(s) {
      BomIsOneCharacter(s);
    }
    assert forall i :: 0 <= i < |us| ==> us[i] in us;
    NormalizedSpacing(s, cfg);
    forall a, b | 0 <= a < b < |us| ensures ClashFine(us, a, b, cfg) {
      if Clash(us, a, b, cfg) {
        ClashNeedsStrayByte(us, a, b, cfg);
      }
    }
  }

  lemma BomIsOneCharacter(s: Bytes)
    requires Valid(s) && HasBom(s)
    ensures Valid(s[3..])
  {
    assert CharLen(s, 0) == 3;
    ValidTail(s);
  }

  /** An invalid byte, though dropped, makes the scanner forget the space before it; what comes
      out is a space and a line feed, for every maxRepeat. */
  lemma InvalidByteSplitsSpaces(b: Byte, cfg: ValidatorConfig)
    requires GetUtf8SequenceLength(b) == 0 && cfg.normalizeWhitespace
    ensures var out := Units(Configured(SPACE + [b] + LINE_FEED, cfg)); out == [SPACE, LINE_FEED] && !Spaced(out)
  {
    var us, fs := [SPACE, [b], LINE_FEED], [SPACE, LINE_FEED];
    CharThenByte(SPACE, b, LINE_FEED);
    OneUnit(LINE_FEED);
    assert [SPACE, [b]] + [LINE_FEED] == us;
    FilteredThree(us, b, cfg);
    BlanksStay(fs, cfg.maxRepeat);
    CompressedUnits(fs, cfg.maxRepeat);
    assert IsWs(fs[0]) && IsWs(fs[1]);
  }

  lemma FilteredThree(us: seq<Bytes>, b: Byte, cfg: ValidatorConfig)
    requires us == [SPACE, [b], LINE_FEED] && !Good([b]) && cfg.normalizeWhitespace
    ensures Filtered(us, 3, cfg).out == [SPACE, LINE_FEED]
  {
    assert Good(SPACE) && ActionOf(SPACE, cfg) == REPLACE_SPACE;
    assert Good(LINE_FEED) && ActionOf(LINE_FEED, cfg) == REPLACE_NEWLINE;
    assert Filtered(us, 0, cfg) == Filter([], false);
    assert Filtered(us, 1, cfg) == Filter([SPACE], true);
    assert Filtered(us, 2, cfg) == Filter([SPACE], false);
  }

  lemma BlanksStay(fs: seq<Bytes>, m: nat)
    requires fs == [SPACE, LINE_FEED] && AllGood(fs)
    ensures m > 0 ==> Squeezed(fs, 2, m) == fs
  {
    assert SPACE in fs && LINE_FEED in fs && SPACE != LINE_FEED;
    assert Squeezed(fs, 0, m) == [];
    assert m > 0 ==> Squeezed(fs, 1, m) == [SPACE];
  }

  lemma OneUnit(u: Bytes)
    requires Good(u)
    ensures Units(u) == [u]
  {
    assert u[..|u|] == u && u[|u|..] == [];
  }
}
