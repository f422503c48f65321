/** Cutting a text at a byte limit, written twice, and converting between byte and character offsets. */
module ContentTruncation {
  import opened Basics
  import opened Utf8
  import opened ContentValidator

  /** Back from k to a byte that is no continuation, or to the start. */
  function CutBack(content: Bytes, k: nat): (e: nat)
    requires k < |content|
    ensures e <= k && (e == 0 || !IsContinuation(content[e]))
    ensures forall i :: e < i <= k ==> IsContinuation(content[i])
  {
    if k > 0 && IsContinuation(content[k]) then CutBack(content, k - 1) else k
  }

  function Truncated(content: Bytes, maxBytes: nat): Bytes {
    if maxBytes >= |content| then content else content[..CutBack(content, maxBytes)]
  }

  method TruncateUtf8Safe(content: Bytes, maxBytes: uint32) returns (out: Bytes)
    ensures out == Truncated(content, maxBytes)
  {
    if maxBytes >= |content| {
      return content;
    }
    var end: nat := maxBytes;
    while end > 0 && IsContinuation(content[end])
      invariant end <= maxBytes && CutBack(content, end) == CutBack(content, maxBytes)
    {
      end := end - 1;
    }
    return content[..end];
  }

  ghost predicate LongestValidPrefix(t: Bytes, s: Bytes, maxBytes: nat) {
    && t <= s && |t| <= maxBytes && Valid(t)
    && forall k :: 0 <= k <= |s| && k <= maxBytes && Valid(s[..k]) ==> k <= |t|
  }

  /** On a valid text truncation gives the longest valid prefix within the limit. */
  lemma TruncatedIsLongest(s: Bytes, maxBytes: nat)
    requires Valid(s)
    ensures LongestValidPrefix(Truncated(s, maxBytes), s, maxBytes)
  {
    if maxBytes < |s| {
      var e := CutBack(s, maxBytes);
      CutPoints(s, e);
      assert e == 0 ==> s[..e] == [];
      forall k | 0 <= k <= |s| && k <= maxBytes && Valid(s[..k]) ensures k <= e {
        CutPoints(s, k);
      }
    } else {
      assert s[..|s|] == s;
    }
  }

  // ----- the trimmer of the event bus

  function Utf8CharExpectedLen(first: Byte): (len: nat)
    ensures len == if GetUtf8SequenceLength(first) == 0 then 1 else GetUtf8SequenceLength(first)
  {
    if first < 0x80 then 1
    else if 0xC0 <= first <= 0xDF then 2
    else if 0xE0 <= first <= 0xEF then 3
    else if 0xF0 <= first <= 0xF7 then 4
    else 1
  }

  /** The boundary, below the limit: the character at the cut, if it fits, is not dropped. */
  function Boundary(content: Bytes, maxBytes: nat): (b: nat)
    requires maxBytes < |content|
    ensures b <= maxBytes
  {
    var pos := CutBack(content, maxBytes);
    if pos == 0 || pos + Utf8CharExpectedLen(content[pos]) > maxBytes then pos else maxBytes
  }

  function SafeBoundary(content: Bytes, maxBytes: nat): (b: nat)
    ensures b <= |content|
  {
    if content == [] || maxBytes == 0 then 0
    else if maxBytes >= |content| % UINT32 then |content| % UINT32
    else Boundary(content, maxBytes)
  }

  method FindSafeUtf8Boundary(content: Bytes, maxBytes: uint32) returns (b: nat)
    ensures b == SafeBoundary(content, maxBytes)
  {
    if content == [] || maxBytes == 0 {
      return 0;
    }
    var len := |content| % UINT32;
    if maxBytes >= len {
      return len;
    }
    var pos: nat := maxBytes;
    while pos > 0 && IsContinuation(content[pos])
      invariant pos <= maxBytes && CutBack(content, pos) == CutBack(content, maxBytes)
    {
      pos := pos - 1;
    }
    if pos == 0 {
      return 0;
    }
    var expectedLen := Utf8CharExpectedLen(content[pos]);
    return if pos + expectedLen > maxBytes then pos else maxBytes;
  }

  function Trimmed(content: Bytes, maxBytes: nat): Bytes {
    if |content| <= maxBytes then content else content[..SafeBoundary(content, maxBytes)]
  }

  method TrimToLimit(content: Bytes, maxBytes: uint32) returns (out: Bytes)
    ensures out == Trimmed(content, maxBytes)
  {
    if |content| <= maxBytes {
      return content;
    }
    var b := FindSafeUtf8Boundary(content, maxBytes);
    return content[..b];
  }

  /** When the two cut alike: the character before the limit must reach it, no stray
      continuation bytes following, and the length must not have lost its upper half. */
  predicate CutsAlike(s: Bytes, maxBytes: nat) {
    maxBytes < |s| ==>
      var e := CutBack(s, maxBytes);
      if maxBytes >= |s| % UINT32 then e == |s| % UINT32
      else e == maxBytes || e == 0 || e + Utf8CharExpectedLen(s[e]) > maxBytes
  }

  lemma TrimmersAgreeExactly(s: Bytes, maxBytes: nat)
    ensures Trimmed(s, maxBytes) == Truncated(s, maxBytes) <==> CutsAlike(s, maxBytes)
  {
    if maxBytes < |s| {
      var e, b := CutBack(s, maxBytes), SafeBoundary(s, maxBytes);
      assert |s[..e]| == e && |s[..b]| == b;
    }
  }

  /** The length, cut to 32 bits, is out of play or lies where the other truncator cuts. */
  predicate LengthHarmless(s: Bytes, maxBytes: nat) {
    |s| % UINT32 <= maxBytes < |s| ==> CutBack(s, maxBytes) == |s| % UINT32
  }

  /** On a valid text they cut alike, and the trimmer too gives the longest valid prefix, unless
      the length is cut to 32 bits. */
  lemma TrimmersAgree(s: Bytes, maxBytes: nat)
    requires Valid(s)
    ensures Trimmed(s, maxBytes) == Truncated(s, maxBytes) <==> LengthHarmless(s, maxBytes)
    ensures LongestValidPrefix(Trimmed(s, maxBytes), s, maxBytes) <==> LengthHarmless(s, maxBytes)
  {
    TruncatedIsLongest(s, maxBytes);
    TrimmersAgreeExactly(s, maxBytes);
    if LongestValidPrefix(Trimmed(s, maxBytes), s, maxBytes) {
      LongestIsUnique(Trimmed(s, maxBytes), Truncated(s, maxBytes), s, maxBytes);
    }
    if maxBytes < |s| {
      WholeCharacter(s, maxBytes);
    }
  }

  lemma LongestIsUnique(t: Bytes, u: Bytes, s: Bytes, maxBytes: nat)
    requires LongestValidPrefix(t, s, maxBytes) && LongestValidPrefix(u, s, maxBytes)
    ensures t == u
  {
    assert t == s[..|t|] && u == s[..|u|];
  }

  /** The character that starts before the limit reaches it. */
  lemma WholeCharacter(s: Bytes, maxBytes: nat)
    requires Valid(s) && maxBytes < |s|
    ensures var e := CutBack(s, maxBytes); 0 < e < maxBytes ==> e + Utf8CharExpectedLen(s[e]) > maxBytes
  {
    var e := CutBack(s, maxBytes);
    if 0 < e < maxBytes {
      CharacterReaches(s, e, maxBytes);
    }
  }

  /** In a valid text continuation bytes belong to the character before them. */
  lemma {:induction false} CharacterReaches(s: Bytes, e: nat, k: nat)
    requires Valid(s) && e < k < |s| && !IsContinuation(s[e]) && forall i :: e < i <= k ==> IsContinuation(s[i])
    ensures e + Utf8CharExpectedLen(s[e]) > k
  {
    var n := UnitLen(s);
    ValidTail(s);
    if e >= n {
      CharacterReaches(s[n..], e - n, k - n);
    } else if e > 0 {
      CutInside(s, e);
    } else if n <= k {
      assert IsContinuation(s[n..][0]);
      ValidTail(s[n..]);
    }
  }

  // ----- byte offsets and character offsets

  /** Where character k starts, or the end. */
  function StartOf(content: Bytes, k: nat): nat {
    var us := Units(content);
    Offset(us, if k <= |us| then k else |us|)
  }

  method CharOffsetToByteOffset(content: Bytes, charOffset: nat) returns (pos: nat)
    ensures pos == StartOf(content, charOffset)
  {
    pos := 0;
    var count: nat := 0;
    ghost var us := Units(content);
    while pos < |content| && count < charOffset
      invariant Scanning(us, count, pos) && pos <= |content| && count <= charOffset
      decreases |content| - pos
    {
      var len := NextLen(content, pos, us, count);
      pos := pos + if len == 0 then 1 else len;
      count := count + 1;
    }
    ScanEnd(content, us, count, pos);
  }

  /** The first character that starts at or after the byte, or the end. */
  ghost predicate IsCharOffset(content: Bytes, byteOffset: nat, k: nat) {
    && k <= |Units(content)|
    && (byteOffset <= |content| ==> byteOffset <= StartOf(content, k))
    && (byteOffset > |content| ==> k == |Units(content)|)
    && (k > 0 ==> StartOf(content, k - 1) < byteOffset)
  }

  method ByteOffsetToCharOffset(content: Bytes, byteOffset: nat) returns (charOffset: nat)
    ensures IsCharOffset(content, byteOffset, charOffset)
  {
    charOffset := 0;
    var pos: nat := 0;
    var target := if byteOffset < |content| then byteOffset else |content|;
    ghost var us := Units(content);
    while pos < target
      invariant Scanning(us, charOffset, pos) && pos <= |content|
      invariant charOffset > 0 ==> Offset(us, charOffset - 1) < byteOffset
      decreases |content| - pos
    {
      var len := NextLen(content, pos, us, charOffset);
      pos := pos + if len == 0 then 1 else len;
      charOffset := charOffset + 1;
      ScanEnd(content, us, charOffset, pos);
    }
    ScanEnd(content, us, charOffset, pos);
  }

  lemma {:induction false} OffsetGrows(us: seq<Bytes>, j: nat, k: nat)
    requires j <= k <= |us| && forall i :: 0 <= i < |us| ==> us[i] != []
    ensures Offset(us, j) <= Offset(us, k) && (j < k ==> Offset(us, j) < Offset(us, k))
  {
    if j < k {
      OffsetGrows(us, j, k - 1);
    }
  }

  lemma {:induction false} UnitsNonEmpty(s: Bytes)
    ensures forall i :: 0 <= i < |Units(s)| ==> Units(s)[i] != []
  {
    if s != [] {
      UnitsNonEmpty(s[UnitLen(s)..]);
    }
  }

  /** The two conversions are adjoint: a byte offset is at most where character j starts just
      when its character offset is at most j. */
  lemma OffsetsAreAdjoint(content: Bytes, byteOffset: nat, k: nat, j: nat)
    requires IsCharOffset(content, byteOffset, k) && byteOffset <= |content|
    ensures k <= j <==> byteOffset <= StartOf(content, j)
  {
    var us := Units(content);
    UnitsNonEmpty(content);
    var top := if j <= |us| then j else |us|;
    if k <= j {
      OffsetGrows(us, k, top);
    } else {
      OffsetGrows(us, top, k - 1);
    }
  }

  /** So converting a character offset there and back gives it, up to the number of characters. */
  lemma CharOffsetRoundTrip(content: Bytes, j: nat, k: nat)
    requires IsCharOffset(content, StartOf(content, j), k)
    ensures k == if j <= |Units(content)| then j else |Units(content)|
  {
    var us := Units(content);
    var top := if j <= |us| then j else |us|;
    UnitsNonEmpty(content);
    OffsetRest(content, us, top);
    OffsetsAreAdjoint(content, StartOf(content, j), k, top);
    if k < top {
      OffsetGrows(us, k, top);
    }
  }
}
