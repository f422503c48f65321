/** Base64 (section 4 of RFC 4648): two encoders and two decoders, written independently. */
module Base64 {
  import opened Basics

  const PAD := '='

  // ----- the alphabet

  function Letter(index: int): char
    requires 0 <= index < 64
  {
    if index < 26 then ('A' as int + index) as char
    else if index < 52 then ('a' as int + (index - 26)) as char
    else if index < 62 then ('0' as int + (index - 52)) as char
    else if index == 62 then '+'
    else '/'
  }

  /** DecodeBase64Char, and the decode table of the other decoder; -1 for no letter. */
  function LetterIndex(c: char): (v: int)
    ensures -1 <= v < 64
    ensures v != -1 ==> Letter(v) == c
  {
    if 'A' <= c <= 'Z' then c as int - 'A' as int
    else if 'a' <= c <= 'z' then c as int - 'a' as int + 26
    else if '0' <= c <= '9' then c as int - '0' as int + 52
    else if c == '+' then 62
    else if c == '/' then 63
    else -1
  }

  lemma LetterRoundTrip(index: int)
    requires 0 <= index < 64
    ensures LetterIndex(Letter(index)) == index && Letter(index) != PAD
  {
  }

  /** The table of section 4 of RFC 4648, in its four ranges. */
  const CAPITALS := "ABCDEFGHIJKLMNOPQRSTUVWXYZ"
  const SMALL := "abcdefghijklmnopqrstuvwxyz"
  const DIGITS := "0123456789"

  lemma AlphabetOfTheStandard(index: int)
    requires 0 <= index < 64
    ensures |CAPITALS| == 26 && |SMALL| == 26 && |DIGITS| == 10
    ensures Letter(index) ==
              if index < 26 then CAPITALS[index] else if index < 52 then SMALL[index - 26]
              else if index < 62 then DIGITS[index - 52] else "+/"[index - 62]
  {
    if index < 26 {
      assert CAPITALS[index] as int == 'A' as int + index;
    } else if index < 52 {
      assert SMALL[index - 26] as int == 'a' as int + (index - 26);
    } else if index < 62 {
      assert DIGITS[index - 52] as int == '0' as int + (index - 52);
    }
  }

  // ----- encoding

  /** Bytes past the end count as zeros. */
  function ByteAt(s: Bytes, i: nat): (b: int)
    ensures 0 <= b < 256
  {
    if i < |s| then s[i] else 0
  }

  /** The 24 bits from byte i on. */
  function TripleAt(s: Bytes, i: nat): (v: int)
    ensures 0 <= v < 0x100_0000
  {
    ByteAt(s, i) * 65536 + ByteAt(s, i + 1) * 256 + ByteAt(s, i + 2)
  }

  /** Sextet j of a triple, counted from the right. */
  function Sextet(triple: int, j: int): (index: int)
    requires 0 <= triple < 0x100_0000 && 0 <= j < 4
    ensures 0 <= index < 64
  {
    (if j == 3 then triple / 262144 else if j == 2 then triple / 4096 else if j == 1 then triple / 64 else triple) % 64
  }

  /** One character for each six bits that hold data of the count bytes, then padding. */
  function Group(triple: int, count: int): (s: string)
    requires 0 <= triple < 0x100_0000
    ensures |s| == 4
  {
    [ Letter(Sextet(triple, 3)), Letter(Sextet(triple, 2)),
      if count < 2 then PAD else Letter(Sextet(triple, 1)),
      if count < 3 then PAD else Letter(Sextet(triple, 0)) ]
  }

  /** The text of s from byte i on. */
  function EncodedFrom(s: Bytes, i: nat): string
    decreases |s| - i
  {
    if i >= |s| then "" else Group(TripleAt(s, i), |s| - i) + EncodedFrom(s, i + 3)
  }

  /** Four letters for every three bytes begun. */
  lemma {:induction false} EncodedLength(s: Bytes, i: nat)
    requires i <= |s|
    ensures |EncodedFrom(s, i)| == (|s| - i + 2) / 3 * 4
    decreases |s| - i
  {
    if i < |s| {
      GroupLength(s, i);
      if i + 3 <= |s| {
        EncodedLength(s, i + 3);
      } else {
        assert EncodedFrom(s, i + 3) == "";
      }
      Thirds(|s| - i);
    }
  }

  lemma GroupLength(s: Bytes, i: nat)
    requires i < |s|
    ensures |EncodedFrom(s, i)| == 4 + |EncodedFrom(s, i + 3)|
  {
  }

  lemma Thirds(n: nat)
    requires n > 0
    ensures (n + 2) / 3 == if n >= 3 then (n - 3 + 2) / 3 + 1 else 1
  {
  }

  function Encoded(s: Bytes): string { EncodedFrom(s, 0) }

  /** Reads three bytes into a triple, counting what is missing. */
  method PackTriple(src: Bytes, start: nat) returns (triple: int, padding: nat)
    requires start < |src|
    ensures triple == TripleAt(src, start)
    ensures padding == if |src| - start >= 3 then 0 else 3 - (|src| - start)
  {
    triple, padding := 0, 0;
    var i := start;
    for j := 0 to 3
      invariant start <= i <= |src| && i - start + padding == j && (padding > 0 ==> i == |src|)
      invariant triple == if j == 0 then 0 else if j == 1 then ByteAt(src, start)
                          else if j == 2 then ByteAt(src, start) * 256 + ByteAt(src, start + 1)
                          else TripleAt(src, start)
    {
      triple := triple * 256;
      if i < |src| {
        triple := triple + src[i];
        i := i + 1;
      } else {
        padding := padding + 1;
      }
    }
  }

  method EmitGroup(triple: int, padding: nat) returns (text: string)
    requires 0 <= triple < 0x100_0000 && padding <= 2
    ensures text == Group(triple, 3 - padding)
  {
    text := "";
    var j := 3;
    while j >= 0
      invariant -1 <= j <= 3 && text == Group(triple, 3 - padding)[..3 - j]
    {
      if padding > 0 && j < padding {
        text := text + [PAD];
      } else {
        text := text + [Letter(Sextet(triple, j))];
      }
      j := j - 1;
    }
  }

  lemma GroupIgnoresMore(triple: int, count: int)
    requires 0 <= triple < 0x100_0000 && count >= 3
    ensures Group(triple, count) == Group(triple, 3)
  {
  }

  method Base64Encode(input: Bytes) returns (output: string)
    ensures output == Encoded(input)
  {
    output := "";
    var i: nat := 0;
    while i < |input|
      invariant output + EncodedFrom(input, i) == Encoded(input)
      decreases |input| - i
    {
      var triple, padding := PackTriple(input, i);
      var text := EmitGroup(triple, padding);
      if padding == 0 {
        GroupIgnoresMore(triple, |input| - i);
      }
      output := output + text;
      i := i + 3;
    }
  }

  /** The other encoder packs with a count instead of padding. */
  method EncodeBase64Triple(src: Bytes, i: nat, count: nat) returns (text: string)
    requires 1 <= count <= 3 && i + count <= |src| && (count < 3 ==> i + count == |src|)
    ensures text == Group(TripleAt(src, i), count)
  {
    var value: int := src[i] as int * 65536;
    if count >= 2 {
      value := value + src[i + 1] as int * 256;
    }
    if count >= 3 {
      value := value + src[i + 2];
    }
    text := [Letter(value / 262144 % 64)] + [Letter(value / 4096 % 64)];
    text := text + if count >= 2 then [Letter(value / 64 % 64)] else [PAD];
    text := text + if count >= 3 then [Letter(value % 64)] else [PAD];
  }

  method ToBase64(bytes: Bytes) returns (result: string)
    ensures result == Encoded(bytes)
  {
    result := "";
    var i: nat := 0;
    while i < |bytes|
      invariant result + EncodedFrom(bytes, i) == Encoded(bytes)
      decreases |bytes| - i
    {
      var remaining := |bytes| - i;
      var count := if remaining >= 3 then 3 else remaining;
      var text := EncodeBase64Triple(bytes, i, count);
      if count == 3 {
        GroupIgnoresMore(TripleAt(bytes, i), remaining);
      }
      result := result + text;
      i := i + 3;
    }
  }

  // ----- decoding

  /** The value of one character: padding counts as zero. */
  function CharValue(c: char): (v: int)
    ensures -1 <= v < 64
  {
    if c == PAD then 0 else LetterIndex(c)
  }

  predicate ReadableIn(s: string, from: nat, to: nat)
    requires from <= to <= |s|
  {
    forall j :: from <= j < to ==> CharValue(s[j]) != -1
  }

  predicate Readable(s: string) { forall j :: 0 <= j < |s| ==> CharValue(s[j]) != -1 }

  function Pads(c: char): int { if c == PAD then 1 else 0 }

  function PadCount(s: string, i: nat): (n: int)
    requires i + 4 <= |s|
    ensures 0 <= n <= 4
  {
    Pads(s[i]) + Pads(s[i + 1]) + Pads(s[i + 2]) + Pads(s[i + 3])
  }

  /** The padding of a group is counted wherever it stands. */
  lemma PadsAreCounted(s: string, i: nat)
    requires i + 4 <= |s|
    ensures PadCount(s, i) == multiset(s[i..i + 4])['=']
  {
    assert s[i..i + 4] == [s[i], s[i + 1], s[i + 2], s[i + 3]];
  }

  function ValueAt(s: string, i: nat): (v: int)
    requires Readable(s) && i + 4 <= |s|
    ensures 0 <= v < 0x100_0000
  {
    CharValue(s[i]) * 262144 + CharValue(s[i + 1]) * 4096 + CharValue(s[i + 2]) * 64 + CharValue(s[i + 3])
  }

  function FirstBytes(v: int, pads: int): Bytes
    requires 0 <= v < 0x100_0000
  {
    [v / 65536] + (if pads < 2 then [v / 256 % 256] else []) + if pads < 1 then [v % 256] else []
  }

  /** The bytes of the groups from i on. */
  function DecodedFrom(s: string, i: nat): Bytes
    requires Readable(s)
    decreases |s| - i
  {
    if i + 4 > |s| then [] else FirstBytes(ValueAt(s, i), PadCount(s, i)) + DecodedFrom(s, i + 4)
  }

  /** A text that is no base64 gives the empty string. */
  function Decoded(s: string): Bytes {
    if |s| % 4 != 0 || !Readable(s) then [] else DecodedFrom(s, 0)
  }

  method DecodeBase64Group(input: string, pos: nat) returns (ok: bool, vals: seq<int>, padCount: int)
    requires pos + 4 <= |input|
    ensures ok ==> ReadableIn(input, pos, pos + 4) && |vals| == 4 && padCount == PadCount(input, pos)
    ensures ok ==> vals[0] == CharValue(input[pos]) && vals[1] == CharValue(input[pos + 1])
    ensures ok ==> vals[2] == CharValue(input[pos + 2]) && vals[3] == CharValue(input[pos + 3])
    ensures !ok ==> !Readable(input)
  {
    vals, padCount := [], 0;
    for j := 0 to 4
      invariant ReadableIn(input, pos, pos + j)
      invariant |vals| == j && forall i :: 0 <= i < j ==> vals[i] == CharValue(input[pos + i])
      invariant padCount == (if j > 0 then Pads(input[pos]) else 0) + (if j > 1 then Pads(input[pos + 1]) else 0)
                            + (if j > 2 then Pads(input[pos + 2]) else 0) + (if j > 3 then Pads(input[pos + 3]) else 0)
    {
      var c := input[pos + j];
      if c == PAD {
        vals := vals + [0];
        padCount := padCount + 1;
        continue;
      }
      if LetterIndex(c) == -1 {
        return false, vals, padCount;
      }
      vals := vals + [LetterIndex(c)];
    }
    return true, vals, padCount;
  }

  /** The groups before i are read; what is left decodes to the rest. */
  ghost predicate Decoding(s: string, i: nat, output: Bytes, goal: Bytes) {
    && i <= |s| && (|s| - i) % 4 == 0 && ReadableIn(s, 0, i)
    && (Readable(s) ==> output + DecodedFrom(s, i) == goal)
  }

  lemma DecodedFirst(s: string) returns (goal: Bytes)
    requires |s| % 4 == 0 && s != ""
    ensures goal == Decoded(s) && Decoding(s, 0, [], goal)
  {
    goal := Decoded(s);
    if Readable(s) {
      assert [] + DecodedFrom(s, 0) == DecodedFrom(s, 0);
    }
  }

  lemma DecodedNext(s: string, i: nat, output: Bytes, goal: Bytes, triple: int, padCount: int)
    requires Decoding(s, i, output, goal) && i < |s| && padCount == PadCount(s, i) && 0 <= triple < 0x100_0000
    requires Readable(s) ==> triple == ValueAt(s, i)
    requires ReadableIn(s, 0, i + 4)
    ensures Decoding(s, i + 4, output + FirstBytes(triple, padCount), goal)
  {
    if Readable(s) {
      FrontBytes(output, FirstBytes(triple, padCount), DecodedFrom(s, i + 4));
    }
  }

  lemma FrontBytes(output: Bytes, bytes: Bytes, rest: Bytes)
    ensures output + (bytes + rest) == (output + bytes) + rest
  {
  }

  lemma DecodedLast(s: string, i: nat, output: Bytes, goal: Bytes)
    requires Decoding(s, i, output, goal) && i == |s|
    ensures output == goal
  {
    assert Readable(s) && DecodedFrom(s, i) == [];
  }

  lemma ReadableNext(s: string, i: nat)
    requires i + 4 <= |s| && ReadableIn(s, 0, i) && ReadableIn(s, i, i + 4)
    ensures ReadableIn(s, 0, i + 4)
  {
  }

  method Base64Decode(input: string) returns (output: Bytes)
    ensures output == Decoded(input)
  {
    output := [];
    if |input| == 0 || |input| % 4 != 0 {
      return [];
    }
    var i: nat := 0;
    ghost var goal := DecodedFirst(input);
    while i < |input|
      invariant Decoding(input, i, output, goal)
      decreases |input| - i
    {
      var ok, vals, padCount := DecodeBase64Group(input, i);
      if !ok {
        return [];
      }
      var triple := vals[0] * 262144 + vals[1] * 4096 + vals[2] * 64 + vals[3];
      ReadableNext(input, i);
      DecodedNext(input, i, output, goal, triple, padCount);
      output := output + FirstBytes(triple, padCount);
      i := i + 4;
    }
    DecodedLast(input, i, output, goal);
  }

  /** One character of the other decoder: padding and strange characters do not even shift. */
  function Shifted(value: int, c: char): int {
    if c == PAD || LetterIndex(c) == -1 then value else value * 64 + LetterIndex(c)
  }

  function QuartetValue(c0: char, c1: char, c2: char, c3: char): (v: int)
    ensures 0 <= v < 0x100_0000
  {
    Shifted(Shifted(Shifted(Shifted(0, c0), c1), c2), c3)
  }

  function QuartetBytes(c0: char, c1: char, c2: char, c3: char): Bytes {
    var v := QuartetValue(c0, c1, c2, c3);
    [v / 65536 % 256] + (if c2 != PAD then [v / 256 % 256] else []) + if c3 != PAD then [v % 256] else []
  }

  /** The whole groups from i on. */
  function ReadFrom(s: string, i: nat): Bytes
    decreases |s| - i
  {
    if i + 3 >= |s| then [] else QuartetBytes(s[i], s[i + 1], s[i + 2], s[i + 3]) + ReadFrom(s, i + 4)
  }

  method DecodeBase64Quartet(result: Bytes, base64: string, pos: nat) returns (out: Bytes)
    requires pos + 4 <= |base64|
    ensures out == result + QuartetBytes(base64[pos], base64[pos + 1], base64[pos + 2], base64[pos + 3])
  {
    var value := 0;
    for j := 0 to 4
      invariant value == if j == 0 then 0 else if j == 1 then Shifted(0, base64[pos])
                         else if j == 2 then Shifted(Shifted(0, base64[pos]), base64[pos + 1])
                         else if j == 3 then Shifted(Shifted(Shifted(0, base64[pos]), base64[pos + 1]), base64[pos + 2])
                         else QuartetValue(base64[pos], base64[pos + 1], base64[pos + 2], base64[pos + 3])
    {
      if base64[pos + j] == PAD {
        continue;
      }
      var decoded := LetterIndex(base64[pos + j]);
      if decoded >= 0 {
        value := value * 64 + decoded;
      }
    }
    out := result + [value / 65536 % 256];
    if base64[pos + 2] != PAD {
      out := out + [value / 256 % 256];
    }
    if base64[pos + 3] != PAD {
      out := out + [value % 256];
    }
  }

  lemma ReadStep(result: Bytes, s: string, i: nat)
    requires i + 3 < |s|
    ensures result + ReadFrom(s, i) == result + QuartetBytes(s[i], s[i + 1], s[i + 2], s[i + 3]) + ReadFrom(s, i + 4)
  {
  }

  method FromBase64(base64: string) returns (result: Bytes)
    ensures result == ReadFrom(base64, 0)
  {
    result := [];
    var i: nat := 0;
    while i + 3 < |base64|
      invariant result + ReadFrom(base64, i) == ReadFrom(base64, 0)
      decreases |base64| - i
    {
      ReadStep(result, base64, i);
      result := DecodeBase64Quartet(result, base64, i);
      i := i + 4;
    }
  }

  // ----- round trip

  lemma SextetsAddUp(triple: int)
    requires 0 <= triple < 0x100_0000
    ensures Sextet(triple, 3) * 262144 + Sextet(triple, 2) * 4096 + Sextet(triple, 1) * 64 + Sextet(triple, 0) == triple
  {
    assert triple / 4096 == triple / 64 / 64 && triple / 262144 == triple / 4096 / 64;
  }

  lemma LowByteZero(triple: int)
    requires 0 <= triple < 0x100_0000 && triple % 256 == 0
    ensures Sextet(triple, 0) == 0
  {
  }

  lemma LowBytesZero(triple: int)
    requires 0 <= triple < 0x100_0000 && triple % 65536 == 0
    ensures Sextet(triple, 0) == 0 && Sextet(triple, 1) == 0
  {
    var k := triple / 65536;
    assert triple == 65536 * k;
    assert triple / 64 == 1024 * k && 1024 * k % 64 == 0;
  }

  /** Four characters are the group of n bytes with value v. */
  predicate IsGroup(v: int, n: int, c0: char, c1: char, c2: char, c3: char)
    requires 0 <= v < 0x100_0000
  {
    && c0 == Letter(Sextet(v, 3)) && c1 == Letter(Sextet(v, 2))
    && c2 == (if n < 2 then PAD else Letter(Sextet(v, 1)))
    && c3 == (if n < 3 then PAD else Letter(Sextet(v, 0)))
  }

  lemma GroupChars(v: int, n: int, c0: char, c1: char, c2: char, c3: char)
    requires 0 <= v < 0x100_0000 && IsGroup(v, n, c0, c1, c2, c3)
    ensures LetterIndex(c0) == Sextet(v, 3) && LetterIndex(c1) == Sextet(v, 2) && c0 != PAD && c1 != PAD
    ensures n >= 2 ==> LetterIndex(c2) == Sextet(v, 1) && c2 != PAD
    ensures n >= 3 ==> LetterIndex(c3) == Sextet(v, 0) && c3 != PAD
  {
    LetterRoundTrip(Sextet(v, 3));
    LetterRoundTrip(Sextet(v, 2));
    LetterRoundTrip(Sextet(v, 1));
    LetterRoundTrip(Sextet(v, 0));
  }

  /** The bits of n bytes: what lies beyond them is zero. */
  predicate HasBytes(v: int, n: int) {
    0 <= v < 0x100_0000 && (n < 3 ==> v % 256 == 0) && (n < 2 ==> v % 65536 == 0)
  }

  lemma GroupValue(v: int, n: int, c0: char, c1: char, c2: char, c3: char)
    requires HasBytes(v, n) && IsGroup(v, n, c0, c1, c2, c3)
    ensures CharValue(c0) * 262144 + CharValue(c1) * 4096 + CharValue(c2) * 64 + CharValue(c3) == v
    ensures Pads(c0) + Pads(c1) + Pads(c2) + Pads(c3) == if n < 2 then 2 else if n < 3 then 1 else 0
  {
    GroupChars(v, n, c0, c1, c2, c3);
    SextetsAddUp(v);
    if n < 2 {
      LowBytesZero(v);
    } else if n < 3 {
      LowByteZero(v);
    }
  }

  /** The other decoder gets the bits shifted down by what the padding stands for. */
  lemma QuartetIsShifted(v: int, n: int, c0: char, c1: char, c2: char, c3: char)
    requires HasBytes(v, n) && IsGroup(v, n, c0, c1, c2, c3)
    ensures QuartetValue(c0, c1, c2, c3) * (if n < 2 then 4096 else if n < 3 then 64 else 1) == v
  {
    GroupChars(v, n, c0, c1, c2, c3);
    SextetsAddUp(v);
    if n < 2 {
      LowBytesZero(v);
    } else if n < 3 {
      LowByteZero(v);
    }
  }

  /** How many of the three bytes at i there are. */
  function Count(s: Bytes, i: nat): nat
    requires i < |s|
  {
    if |s| - i >= 3 then 3 else |s| - i
  }

  lemma TripleHasBytes(s: Bytes, i: nat)
    requires i < |s|
    ensures HasBytes(TripleAt(s, i), Count(s, i))
  {
  }

  lemma TripleParts(b0: int, b1: int, b2: int)
    requires 0 <= b0 < 256 && 0 <= b1 < 256 && 0 <= b2 < 256
    ensures var v := b0 * 65536 + b1 * 256 + b2; v / 65536 == b0 && v / 256 % 256 == b1 && v % 256 == b2
  {
    var v := b0 * 65536 + b1 * 256 + b2;
    ByteOff(b0 * 256 + b1, b2);
    ByteOff(b0, b1);
    TwoBytesOff(b0, b1 * 256 + b2);
    assert v == (b0 * 256 + b1) * 256 + b2 && v == b0 * 65536 + (b1 * 256 + b2);
  }

  lemma ByteOff(q: int, r: int)
    requires 0 <= r < 256
    ensures (q * 256 + r) / 256 == q && (q * 256 + r) % 256 == r
  {
  }

  lemma TwoBytesOff(q: int, r: int)
    requires 0 <= r < 65536
    ensures (q * 65536 + r) / 65536 == q
  {
  }

  lemma TripleBytes(s: Bytes, i: nat)
    requires i < |s|
    ensures FirstBytes(TripleAt(s, i), 3 - Count(s, i)) == s[i..i + Count(s, i)]
  {
    TripleParts(ByteAt(s, i), ByteAt(s, i + 1), ByteAt(s, i + 2));
  }

  lemma {:induction false} EncodedReadable(s: Bytes, i: nat)
    ensures Readable(EncodedFrom(s, i))
    decreases |s| - i
  {
    if i < |s| {
      EncodedReadable(s, i + 3);
      var v := TripleAt(s, i);
      LetterRoundTrip(Sextet(v, 3));
      LetterRoundTrip(Sextet(v, 2));
      LetterRoundTrip(Sextet(v, 1));
      LetterRoundTrip(Sextet(v, 0));
      assert Readable(Group(v, |s| - i));
    }
  }

  /** The text t goes on at p with the encoding of s from i on. */
  ghost predicate Continues(s: Bytes, i: nat, t: string, p: nat) { p <= |t| && t[p..] == EncodedFrom(s, i) }

  lemma SplitText(s: Bytes, i: nat, t: string, p: nat)
    requires i < |s| && Continues(s, i, t, p)
    ensures p + 4 <= |t| && IsGroup(TripleAt(s, i), Count(s, i), t[p], t[p + 1], t[p + 2], t[p + 3])
    ensures Continues(s, i + 3, t, p + 4)
  {
    var g, rest := Group(TripleAt(s, i), |s| - i), EncodedFrom(s, i + 3);
    assert t[p..] == g + rest;
    assert t[p..][..4] == g && t[p + 4..] == t[p..][4..];
    assert t[p] == g[0] && t[p + 1] == g[1] && t[p + 2] == g[2] && t[p + 3] == g[3];
  }

  lemma {:induction false} GroupStands(s: Bytes, i: nat, t: string, p: nat, k: nat)
    requires i + 3 * k < |s| && Continues(s, i, t, p)
    ensures p + 4 * k + 4 <= |t| && Continues(s, i + 3 * k, t, p + 4 * k)
    ensures IsGroup(TripleAt(s, i + 3 * k), Count(s, i + 3 * k), t[p + 4 * k], t[p + 4 * k + 1], t[p + 4 * k + 2],
              t[p + 4 * k + 3])
    decreases k
  {
    SplitText(s, i, t, p);
    if k > 0 {
      GroupStands(s, i + 3, t, p + 4, k - 1);
    }
  }

  /** The four characters of group k, as digits of base 64, are the 24 bits of its three bytes;
      missing bytes count as zero, and as many characters as bytes are missing are padding. */
  lemma GroupSpellsBytes(s: Bytes, k: nat)
    requires 3 * k < |s|
    ensures var t, p, n := Encoded(s), 4 * k, |s| - 3 * k;
            && p + 4 <= |t|
            && ((CharValue(t[p]) * 64 + CharValue(t[p + 1])) * 64 + CharValue(t[p + 2])) * 64 + CharValue(t[p + 3]) ==
                 ByteAt(s, 3 * k) * 65536 + ByteAt(s, 3 * k + 1) * 256 + ByteAt(s, 3 * k + 2)
            && t[p] != PAD && t[p + 1] != PAD && (t[p + 2] == PAD <==> n < 2) && (t[p + 3] == PAD <==> n < 3)
  {
    var t, p, i := Encoded(s), 4 * k, 3 * k;
    assert t[0..] == t;
    GroupStands(s, 0, t, 0, k);
    TripleHasBytes(s, i);
    GroupValue(TripleAt(s, i), Count(s, i), t[p], t[p + 1], t[p + 2], t[p + 3]);
    GroupChars(TripleAt(s, i), Count(s, i), t[p], t[p + 1], t[p + 2], t[p + 3]);
  }

  function Rest(s: Bytes, i: nat): Bytes { if i <= |s| then s[i..] else [] }

  lemma RestSplit(s: Bytes, i: nat)
    requires i < |s|
    ensures s[i..i + Count(s, i)] + Rest(s, i + 3) == Rest(s, i)
  {
  }

  lemma DecodeGroup(s: Bytes, i: nat, t: string, p: nat)
    requires i < |s| && Readable(t) && Continues(s, i, t, p)
    ensures p + 4 <= |t| && FirstBytes(ValueAt(t, p), PadCount(t, p)) == s[i..i + Count(s, i)]
  {
    SplitText(s, i, t, p);
    TripleHasBytes(s, i);
    GroupValue(TripleAt(s, i), Count(s, i), t[p], t[p + 1], t[p + 2], t[p + 3]);
    TripleBytes(s, i);
  }

  lemma {:induction false} DecodeBack(s: Bytes, i: nat, t: string, p: nat)
    requires Readable(t) && Continues(s, i, t, p)
    ensures DecodedFrom(t, p) == Rest(s, i)
    decreases |s| - i
  {
    if i < |s| {
      SplitText(s, i, t, p);
      DecodeBack(s, i + 3, t, p + 4);
      DecodeGroup(s, i, t, p);
      RestSplit(s, i);
    }
  }

  lemma WholeGroups(s: Bytes)
    ensures |Encoded(s)| % 4 == 0
  {
    EncodedLength(s, 0);
  }

  /** Decoding undoes encoding, for every byte string. */
  lemma DecodeUndoesEncode(s: Bytes)
    ensures Decoded(Encoded(s)) == s
  {
    var t := Encoded(s);
    WholeGroups(s);
    EncodedReadable(s, 0);
    assert t[0..] == t;
    DecodeBack(s, 0, t, 0);
  }

  /** What the other decoder makes of an encoded text: whole groups are right, a trailing group
      comes out shifted right. */
  function ReadBack(s: Bytes, i: nat): Bytes
    decreases |s| - i
  {
    if i >= |s| then []
    else if |s| - i == 1 then [0]
    else if |s| - i == 2 then [s[i] / 64, (s[i] as int * 4 + s[i + 1] as int / 64) % 256]
    else [s[i], s[i + 1], s[i + 2]] + ReadBack(s, i + 3)
  }

  lemma QuartetReads(s: Bytes, i: nat, t: string, p: nat)
    requires i < |s| && Continues(s, i, t, p)
    ensures p + 4 <= |t|
    ensures QuartetBytes(t[p], t[p + 1], t[p + 2], t[p + 3]) ==
              if Count(s, i) == 3 then [s[i], s[i + 1], s[i + 2]] else ReadBack(s, i)
  {
    var v, n := TripleAt(s, i), Count(s, i);
    SplitText(s, i, t, p);
    TripleHasBytes(s, i);
    GroupChars(v, n, t[p], t[p + 1], t[p + 2], t[p + 3]);
    QuartetIsShifted(v, n, t[p], t[p + 1], t[p + 2], t[p + 3]);
    QuartetParts(QuartetValue(t[p], t[p + 1], t[p + 2], t[p + 3]), n, ByteAt(s, i), ByteAt(s, i + 1), ByteAt(s, i + 2));
  }

  lemma QuartetParts(w: int, n: int, b0: int, b1: int, b2: int)
    requires 0 <= b0 < 256 && 0 <= b1 < 256 && 0 <= b2 < 256
    requires w * (if n < 2 then 4096 else if n < 3 then 64 else 1) == b0 * 65536 + b1 * 256 + b2
    requires (n < 3 ==> b2 == 0) && (n < 2 ==> b1 == 0)
    ensures n < 2 ==> w / 65536 % 256 == 0
    ensures n == 2 ==> w / 65536 % 256 == b0 / 64 && w / 256 % 256 == (b0 * 4 + b1 / 64) % 256
    ensures n >= 3 ==> w / 65536 % 256 == b0 && w / 256 % 256 == b1 && w % 256 == b2
  {
    if n < 2 {
      assert w == b0 * 16;
    } else if n == 2 {
      assert w == b0 * 1024 + b1 * 4;
    } else {
      TripleParts(b0, b1, b2);
    }
  }

  lemma {:induction false} ReadsBack(s: Bytes, i: nat, t: string, p: nat)
    requires Continues(s, i, t, p)
    ensures ReadFrom(t, p) == ReadBack(s, i)
    decreases |s| - i
  {
    if i < |s| {
      SplitText(s, i, t, p);
      QuartetReads(s, i, t, p);
      ReadsBack(s, i + 3, t, p + 4);
      if Count(s, i) < 3 {
        assert ReadBack(s, i + 3) == [];
        assert ReadBack(s, i) + [] == ReadBack(s, i);
      }
    }
  }

  predicate TailIsZero(s: Bytes) { forall i :: |s| - |s| % 3 <= i < |s| ==> s[i] == 0 }

  lemma {:induction false} ReadBackExactly(s: Bytes, i: nat)
    requires i % 3 == 0 && i <= |s|
    ensures ReadBack(s, i) == s[i..] <==> TailIsZero(s)
    decreases |s| - i
  {
    if |s| - i >= 3 {
      ReadBackExactly(s, i + 3);
      WholeTriple(s, i, [s[i], s[i + 1], s[i + 2]], ReadBack(s, i + 3));
    } else {
      assert |s| - |s| % 3 == i;
      ShortTail(s, i);
    }
  }

  lemma WholeTriple(s: Bytes, i: nat, triple: Bytes, rest: Bytes)
    requires i + 3 <= |s| && triple == [s[i], s[i + 1], s[i + 2]]
    ensures triple + rest == s[i..] <==> rest == s[i + 3..]
  {
    assert s[i..] == triple + s[i + 3..];
    SameTail(triple, rest, s[i + 3..]);
  }

  lemma SameTail(a: Bytes, b: Bytes, c: Bytes)
    ensures a + b == a + c <==> b == c
  {
    assert (a + b)[|a|..] == b && (a + c)[|a|..] == c;
  }

  lemma ShortTail(s: Bytes, i: nat)
    requires i <= |s| < i + 3
    ensures ReadBack(s, i) == s[i..] <==> forall k :: i <= k < |s| ==> s[k] == 0
  {
    if |s| == i {
      assert s[i..] == [];
    } else if |s| == i + 1 {
      assert s[i..] == [s[i]];
    } else {
      assert s[i..] == [s[i], s[i + 1]];
    }
  }

  /** FromBase64 undoes ToBase64 exactly when the bytes after the last whole group of three are
      all zero, in particular when there are none. */
  lemma FromUndoesToExactly(s: Bytes)
    ensures ReadFrom(Encoded(s), 0) == s <==> TailIsZero(s)
  {
    var t := Encoded(s);
    assert t[0..] == t && s[0..] == s;
    ReadsBack(s, 0, t, 0);
    ReadBackExactly(s, 0);
  }
}
