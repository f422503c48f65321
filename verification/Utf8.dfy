/** The byte classifiers of the content validator, and the segmentation all its scanners share. */
module Utf8 {
  import opened Basics

  /** The masks of the source, on byte values, as the ranges used below. */
  lemma MasksAreRanges(b: bv8)
    ensures b & 0x80 == 0 <==> b < 0x80
    ensures b & 0xC0 == 0x80 <==> 0x80 <= b <= 0xBF
    ensures b & 0xE0 == 0xC0 <==> 0xC0 <= b <= 0xDF
    ensures b & 0xF0 == 0xE0 <==> 0xE0 <= b <= 0xEF
    ensures b & 0xF8 == 0xF0 <==> 0xF0 <= b <= 0xF7
  {
  }

  // ----- classifiers

  function GetUtf8SequenceLength(firstByte: Byte): (len: nat)
    ensures len <= 4
    ensures len == 1 <==> firstByte < 0x80
    ensures len == 0 <==> IsContinuation(firstByte) || firstByte >= 0xF8
  {
    if firstByte < 0x80 then 1
    else if 0xC0 <= firstByte <= 0xDF then 2
    else if 0xE0 <= firstByte <= 0xEF then 3
    else if 0xF0 <= firstByte <= 0xF7 then 4
    else 0
  }

  predicate IsContinuation(b: Byte) { 0x80 <= b <= 0xBF }

  /** Tab, line feed and carriage return are allowed. */
  predicate IsControl(b: Byte) { !(b == 0x09 || b == 0x0A || b == 0x0D) && (b < 0x20 || b == 0x7F) }

  predicate SequenceOk(content: Bytes, pos: nat, len: nat)
    requires pos < |content|
  {
    && 0 < len && pos + len <= |content|
    && var lead := content[pos];
       if len == 1 then lead < 0x80 else
       && (len == 2 ==> 0xC2 <= lead <= 0xDF)
       && (len == 3 ==> 0xE0 <= lead <= 0xEF)
       && (len == 4 ==> 0xF0 <= lead <= 0xF4)
       && forall i :: pos < i < pos + len ==> IsContinuation(content[i])
  }

  method ValidateUtf8Sequence(content: Bytes, pos: nat, len: nat) returns (ok: bool)
    requires pos < |content|
    ensures ok == SequenceOk(content, pos, len)
  {
    if len == 0 || pos + len > |content| {
      return false;
    }
    var lead := content[pos];
    if len == 1 {
      return lead < 0x80;
    }
    if len == 2 && (lead < 0xC2 || lead > 0xDF) {
      return false;
    }
    if len == 3 && (lead < 0xE0 || lead > 0xEF) {
      return false;
    }
    if len == 4 && (lead < 0xF0 || lead > 0xF4) {
      return false;
    }
    for i := 1 to len
      invariant forall j :: pos < j < pos + i ==> IsContinuation(content[j])
    {
      if !IsContinuation(content[pos + i]) {
        return false;
      }
    }
    return true;
  }

  /** Length of the character at pos, or 0 if the byte there starts none. */
  function CharLen(content: Bytes, pos: nat): (n: nat)
    requires pos < |content|
    ensures n <= 4 && pos + n <= |content|
  {
    var len := GetUtf8SequenceLength(content[pos]);
    if len != 0 && SequenceOk(content, pos, len) then len else 0
  }

  // The payload bits do not overlap, so the shifted parts add up.

  function Decode2(b0: Byte, b1: Byte): nat { b0 % 32 * 64 + b1 % 64 }

  function Decode3(b0: Byte, b1: Byte, b2: Byte): nat { b0 % 16 * 4096 + b1 % 64 * 64 + b2 % 64 }

  function Decode4(b0: Byte, b1: Byte, b2: Byte, b3: Byte): nat {
    b0 % 8 * 262144 + b1 % 64 * 4096 + b2 % 64 * 64 + b3 % 64
  }

  function DecodeCodePoint(content: Bytes, pos: nat, len: nat): (cp: nat)
    requires pos < |content| && len <= 4
    ensures cp < 0x200000
  {
    if !SequenceOk(content, pos, len) then 0
    else if len == 1 then content[pos]
    else if len == 2 then Decode2(content[pos], content[pos + 1])
    else if len == 3 then Decode3(content[pos], content[pos + 1], content[pos + 2])
    else Decode4(content[pos], content[pos + 1], content[pos + 2], content[pos + 3])
  }

  // ----- segmentation

  /** A single whole character. */
  predicate Good(u: Bytes) { u != [] && CharLen(u, 0) == |u| }

  function UnitLen(s: Bytes): (n: nat)
    requires s != []
    ensures 0 < n <= |s|
  {
    if CharLen(s, 0) == 0 then 1 else CharLen(s, 0)
  }

  /** A text cut into characters and, where none starts, single bytes. */
  function Units(s: Bytes): seq<Bytes> {
    if s == [] then [] else [s[..UnitLen(s)]] + Units(s[UnitLen(s)..])
  }

  predicate Valid(s: Bytes) { forall u :: u in Units(s) ==> Good(u) }

  function Join(us: seq<Bytes>): Bytes {
    if us == [] then [] else Join(us[..|us| - 1]) + us[|us| - 1]
  }

  ghost predicate AllGood(us: seq<Bytes>) { forall u :: u in us ==> Good(u) }

  lemma SliceLen(s: Bytes, pos: nat)
    requires pos < |s|
    ensures CharLen(s, pos) == CharLen(s[pos..], 0)
  {
    var t := s[pos..];
    assert t[0] == s[pos];
    assert forall i :: pos <= i < |s| ==> s[i] == t[i - pos];
    assert forall i :: 0 <= i < |t| ==> t[i] == s[pos + i];
  }

  lemma GoodExtends(u: Bytes, t: Bytes)
    requires Good(u)
    ensures CharLen(u + t, 0) == |u|
  {
    assert forall i :: 0 <= i < |u| ==> (u + t)[i] == u[i];
  }

  lemma PrefixLen(s: Bytes)
    requires s != []
    ensures CharLen(s, 0) > 0 <==> Good(s[..UnitLen(s)])
  {
    var u := s[..UnitLen(s)];
    assert forall i :: 0 <= i < |u| ==> u[i] == s[i];
  }

  lemma {:induction false} JoinAppend(a: seq<Bytes>, b: seq<Bytes>)
    ensures Join(a + b) == Join(a) + Join(b)
    decreases |b|
  {
    if b == [] {
      assert a + b == a;
    } else {
      var n := |b| - 1;
      JoinAppend(a, b[..n]);
      assert (a + b)[..|a + b| - 1] == a + b[..n];
    }
  }

  lemma JoinOne(u: Bytes)
    ensures Join([u]) == u
  {
    assert [u][..0] == [];
    assert [] + u == u;
  }

  lemma JoinCons(u: Bytes, us: seq<Bytes>)
    ensures Join([u] + us) == u + Join(us)
  {
    JoinAppend([u], us);
    JoinOne(u);
  }

  /** Nothing is lost by cutting. */
  lemma {:induction false} JoinOfUnits(s: Bytes)
    ensures Join(Units(s)) == s
  {
    if s != [] {
      JoinOfUnits(s[UnitLen(s)..]);
      JoinCons(s[..UnitLen(s)], Units(s[UnitLen(s)..]));
    }
  }

  /** Characters put next to each other are cut apart again as they were. */
  lemma {:induction false} UnitsOfJoin(us: seq<Bytes>)
    requires AllGood(us)
    ensures Units(Join(us)) == us
    decreases |us|
  {
    if us != [] {
      var u, rest := us[0], us[1..];
      assert us == [u] + rest;
      UnitsOfJoin(rest);
      JoinCons(u, rest);
      GoodExtends(u, Join(rest));
      var s := u + Join(rest);
      assert s[..|u|] == u && s[|u|..] == Join(rest);
    }
  }

  lemma Digit(q: int, r: int, q': int, r': int)
    requires 0 <= r < 64 && 0 <= r' < 64 && q * 64 + r == q' * 64 + r'
    ensures q == q' && r == r'
  {
  }

  lemma SameLead(a: Byte, b: Byte, len: nat)
    requires GetUtf8SequenceLength(a) == GetUtf8SequenceLength(b) == len > 1
    requires len == 2 ==> a % 32 == b % 32
    requires len == 3 ==> a % 16 == b % 16
    requires len == 4 ==> a % 8 == b % 8
    ensures a == b
  {
  }

  lemma SameTail(a: Byte, b: Byte)
    requires IsContinuation(a) && IsContinuation(b) && a % 64 == b % 64
    ensures a == b
  {
  }

  /** The code point and the length determine the bytes. */
  lemma DecodeIsInjective(a: Bytes, b: Bytes)
    requires Good(a) && Good(b) && |a| == |b| && DecodeCodePoint(a, 0, |a|) == DecodeCodePoint(b, 0, |b|)
    ensures a == b
  {
    if |a| == 2 {
      Inject2(a[0], a[1], b[0], b[1]);
    } else if |a| == 3 {
      Inject3(a[0], a[1], a[2], b[0], b[1], b[2]);
    } else if |a| == 4 {
      Inject4(a[0], a[1], a[2], a[3], b[0], b[1], b[2], b[3]);
    }
  }

  lemma Inject2(a0: Byte, a1: Byte, b0: Byte, b1: Byte)
    requires GetUtf8SequenceLength(a0) == GetUtf8SequenceLength(b0) == 2 && IsContinuation(a1) && IsContinuation(b1)
    requires Decode2(a0, a1) == Decode2(b0, b1)
    ensures a0 == b0 && a1 == b1
  {
    Digit(a0 % 32, a1 % 64, b0 % 32, b1 % 64);
    SameLead(a0, b0, 2);
    SameTail(a1, b1);
  }

  lemma Inject3(a0: Byte, a1: Byte, a2: Byte, b0: Byte, b1: Byte, b2: Byte)
    requires GetUtf8SequenceLength(a0) == GetUtf8SequenceLength(b0) == 3
    requires IsContinuation(a1) && IsContinuation(b1) && IsContinuation(a2) && IsContinuation(b2)
    requires Decode3(a0, a1, a2) == Decode3(b0, b1, b2)
    ensures a0 == b0 && a1 == b1 && a2 == b2
  {
    Digit(a0 % 16 * 64 + a1 % 64, a2 % 64, b0 % 16 * 64 + b1 % 64, b2 % 64);
    Digit(a0 % 16, a1 % 64, b0 % 16, b1 % 64);
    SameLead(a0, b0, 3);
    SameTail(a1, b1);
    SameTail(a2, b2);
  }

  lemma Inject4(a0: Byte, a1: Byte, a2: Byte, a3: Byte, b0: Byte, b1: Byte, b2: Byte, b3: Byte)
    requires GetUtf8SequenceLength(a0) == GetUtf8SequenceLength(b0) == 4 && IsContinuation(a1) && IsContinuation(b1)
    requires IsContinuation(a2) && IsContinuation(b2) && IsContinuation(a3) && IsContinuation(b3)
    requires Decode4(a0, a1, a2, a3) == Decode4(b0, b1, b2, b3)
    ensures a0 == b0 && a1 == b1 && a2 == b2 && a3 == b3
  {
    Digit((a0 % 8 * 64 + a1 % 64) * 64 + a2 % 64, a3 % 64, (b0 % 8 * 64 + b1 % 64) * 64 + b2 % 64, b3 % 64);
    Digit(a0 % 8 * 64 + a1 % 64, a2 % 64, b0 % 8 * 64 + b1 % 64, b2 % 64);
    Digit(a0 % 8, a1 % 64, b0 % 8, b1 % 64);
    SameLead(a0, b0, 4);
    SameTail(a1, b1);
    SameTail(a2, b2);
    SameTail(a3, b3);
  }

  // ----- the encoder, as reference

  /** Fits in a character of that many bytes whose lead byte is accepted. */
  predicate Encodable(cp: nat, len: nat) {
    || (len == 1 && cp < 0x80)
    || (len == 2 && 0x80 <= cp < 0x800)
    || (len == 3 && cp < 0x10000)
    || (len == 4 && cp < 0x140000)
  }

  /** UTF-8 as section 3 of RFC 3629 lays out the bits, six to a continuation byte. */
  function Encoded(cp: nat, len: nat): Bytes
    requires Encodable(cp, len)
  {
    if len == 1 then [cp]
    else if len == 2 then [0xC0 + cp / 64, 0x80 + cp % 64]
    else if len == 3 then [0xE0 + cp / 64 / 64, 0x80 + cp / 64 % 64, 0x80 + cp % 64]
    else [0xF0 + cp / 64 / 64 / 64, 0x80 + cp / 64 / 64 % 64, 0x80 + cp / 64 % 64, 0x80 + cp % 64]
  }

  lemma SixBits(cp: nat)
    ensures cp == cp / 64 * 64 + cp % 64 && cp % 64 < 64
  {
  }

  lemma LowBits(r: nat)
    ensures r < 64 ==> (0x80 + r) % 64 == r
    ensures r < 32 ==> (0xC0 + r) % 32 == r
    ensures r < 16 ==> (0xE0 + r) % 16 == r
    ensures r < 8 ==> (0xF0 + r) % 8 == r
  {
  }

  lemma DecodeDigits(h: nat, k: nat, m: nat, l: nat)
    requires k < 64 && m < 64 && l < 64
    ensures h < 32 ==> Decode2(0xC0 + h, 0x80 + l) == h * 64 + l
    ensures h < 16 ==> Decode3(0xE0 + h, 0x80 + m, 0x80 + l) == (h * 64 + m) * 64 + l
    ensures h < 8 ==> Decode4(0xF0 + h, 0x80 + k, 0x80 + m, 0x80 + l) == ((h * 64 + k) * 64 + m) * 64 + l
  {
    LowBits(h);
    LowBits(k);
    LowBits(m);
    LowBits(l);
  }

  /** Decoding undoes encoding, at every length. */
  lemma DecodeUndoesEncode(cp: nat, len: nat)
    requires Encodable(cp, len)
    ensures var u := Encoded(cp, len); |u| == len && Good(u) && DecodeCodePoint(u, 0, len) == cp
  {
    var a := cp / 64;
    var b := a / 64;
    EncodedIsGood(cp, len);
    SixBits(cp);
    SixBits(a);
    SixBits(b);
    DecodeDigits(if len == 2 then a else if len == 3 then b else b / 64, b % 64, a % 64, cp % 64);
  }

  lemma EncodedIsGood(cp: nat, len: nat)
    requires Encodable(cp, len)
    ensures |Encoded(cp, len)| == len && Good(Encoded(cp, len))
  {
    var u := Encoded(cp, len);
    assert forall i :: 0 < i < len ==> IsContinuation(u[i]);
  }

  /** And encoding undoes decoding: a character is the encoding of its code point at its length. */
  lemma EncodeUndoesDecode(u: Bytes)
    requires Good(u)
    ensures var cp := DecodeCodePoint(u, 0, |u|); Encodable(cp, |u|) && Encoded(cp, |u|) == u
  {
    var cp := DecodeCodePoint(u, 0, |u|);
    CodePointFits(u);
    DecodeUndoesEncode(cp, |u|);
    DecodeIsInjective(Encoded(cp, |u|), u);
  }

  lemma CodePointFits(u: Bytes)
    requires Good(u)
    ensures Encodable(DecodeCodePoint(u, 0, |u|), |u|)
  {
    if |u| == 2 {
      assert 2 <= u[0] % 32;
    }
  }

  /** Inside a valid text the places to cut are the end and the bytes that are no continuation. */
  lemma {:induction false} CutPoints(s: Bytes, k: nat)
    requires Valid(s) && k <= |s|
    ensures Valid(s[..k]) <==> k == |s| || !IsContinuation(s[k])
  {
    if s == [] {
      assert s[..k] == s;
    } else {
      var n := UnitLen(s);
      ValidTail(s);
      if k == 0 {
        assert s[..0] == [];
      } else if k < n {
        CutInside(s, k);
      } else {
        CutPoints(s[n..], k - n);
        CutAfter(s, n, k);
      }
    }
  }

  lemma CutAfter(s: Bytes, n: nat, k: nat)
    requires n <= k <= |s| && Good(s[..n])
    ensures Valid(s[..k]) <==> Valid(s[n..][..k - n])
    ensures k < |s| ==> s[k] == s[n..][k - n]
  {
    ValidCons(s[..n], s[n..][..k - n]);
    assert s[..k] == s[..n] + s[n..][..k - n];
  }

  lemma ValidTail(s: Bytes)
    requires s != [] && Valid(s)
    ensures Good(s[..UnitLen(s)]) && CharLen(s, 0) == UnitLen(s) && Valid(s[UnitLen(s)..])
  {
    assert Units(s)[0] == s[..UnitLen(s)];
    PrefixLen(s);
    forall u | u in Units(s[UnitLen(s)..]) ensures u in Units(s) {
    }
  }

  lemma ValidCons(u: Bytes, t: Bytes)
    requires Good(u)
    ensures Valid(u + t) <==> Valid(t)
  {
    GoodExtends(u, t);
    assert (u + t)[..|u|] == u && (u + t)[|u|..] == t;
    assert Units(u + t) == [u] + Units(t);
    assert forall v :: v in Units(u + t) <==> v == u || v in Units(t);
  }

  /** A character cut short is no character. */
  lemma CutInside(s: Bytes, k: nat)
    requires s != [] && 0 < k < CharLen(s, 0)
    ensures IsContinuation(s[k]) && !Valid(s[..k])
  {
    var t := s[..k];
    assert t[0] == s[0] && CharLen(t, 0) == 0;
    PrefixLen(t);
    assert Units(t)[0] == t[..1] && t[..1] in Units(t);
  }
}
