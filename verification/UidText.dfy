/** The uid parameter: a decimal text, and the check that guards its conversion. */
module UidText {
  import opened Basics

  predicate IsDigit(c: char) { '0' <= c <= '9' }

  predicate AllDigits(s: string) { forall i :: 0 <= i < |s| ==> IsDigit(s[i]) }

  function Digit(c: char): (d: int)
    requires IsDigit(c)
    ensures 0 <= d < 10
  {
    c as int - '0' as int
  }

  function DigitChar(d: int): (c: char)
    requires 0 <= d < 10
    ensures IsDigit(c) && Digit(c) == d
  {
    ('0' as int + d) as char
  }

  function Value(s: string): (v: nat)
    requires AllDigits(s)
  {
    if s == "" then 0 else Value(s[..|s| - 1]) * 10 + Digit(s[|s| - 1])
  }

  function Decimal(n: nat): (s: string)
    ensures s != "" && AllDigits(s)
  {
    if n < 10 then [DigitChar(n)] else Decimal(n / 10) + [DigitChar(n % 10)]
  }

  /** std::to_string. */
  function ToText(v: int): string { if v < 0 then ['-'] + Decimal(-v) else Decimal(v) }

  predicate HasSign(s: string) { s != "" && (s[0] == '+' || s[0] == '-') }

  predicate IsNumber(s: string) {
    && s != ""
    && !(HasSign(s) && |s| == 1)
    && AllDigits(if HasSign(s) then s[1..] else s)
  }

  /** std::stoi, where it does not throw. */
  function Stoi(s: string): (v: int)
    requires IsNumber(s)
  {
    if s[0] == '-' then -(Value(s[1..]) as int) else if s[0] == '+' then Value(s[1..]) else Value(s)
  }

  /** Comparison of two strings of one length. */
  predicate Above(a: string, b: string)
    requires |a| == |b|
  {
    exists k :: 0 <= k < |a| && a[..k] == b[..k] && a[k] > b[k]
  }

  const MAX_TEXT := "2147483647"
  const MIN_TEXT := "-2147483648"

  predicate InRange(s: string)
    requires IsNumber(s)
  {
    var maxLen := if s[0] == '-' then 11 else 10;
    && |s| <= maxLen
    && (|s| == maxLen ==> !(s[0] != '-' && Above(s, MAX_TEXT)) && !(s[0] == '-' && Above(s, MIN_TEXT)))
  }

  /** SysSelectionConfigRepository::GetUid: -1 for what is no number or out of range. */
  function GetUid(s: string): (uid: int32) {
    if !IsNumber(s) then -1
    else if !InRange(s) then -1
    else StoiIsSafe(s); Stoi(s)
  }

  // ----- size of decimal texts

  function Pow10(k: nat): (p: nat)
    ensures p > 0
  {
    if k == 0 then 1 else 10 * Pow10(k - 1)
  }

  lemma {:induction false} ValueBound(s: string)
    requires AllDigits(s)
    ensures Value(s) < Pow10(|s|)
  {
    if s != "" {
      ValueBound(s[..|s| - 1]);
    }
  }

  lemma {:induction false} ValueOfDecimal(n: nat)
    ensures Value(Decimal(n)) == n
  {
    var s := Decimal(n);
    if n < 10 {
      assert s[..0] == "";
      assert Value("") == 0;
    } else {
      ValueOfDecimal(n / 10);
      assert s[..|s| - 1] == Decimal(n / 10);
    }
  }

  lemma {:induction false} DecimalLength(n: nat, k: nat)
    requires k > 0
    ensures |Decimal(n)| <= k <==> n < Pow10(k)
  {
    if k == 1 {
      assert Pow10(k) == 10 * Pow10(0) == 10;
    } else if n >= 10 {
      DecimalLength(n / 10, k - 1);
    } else {
      PowAtLeast(k);
    }
  }

  lemma {:induction false} PowAtLeast(k: nat)
    requires k > 0
    ensures Pow10(k) >= 10
  {
    if k > 1 {
      PowAtLeast(k - 1);
    } else {
      assert Pow10(0) == 1;
    }
  }

  lemma PowValues()
    ensures Pow10(9) == 1000000000 && Pow10(10) == 10000000000
  {
    assert Pow10(3) == 1000;
    assert Pow10(6) == 1000000;
  }

  // ----- comparing texts is comparing numbers

  lemma AboveSnoc(a: string, b: string)
    requires |a| == |b| > 0
    ensures var n := |a| - 1;
            Above(a, b) <==> Above(a[..n], b[..n]) || (a[..n] == b[..n] && a[n] > b[n])
  {
    var n := |a| - 1;
    var a', b' := a[..n], b[..n];
    forall k | 0 <= k < n ensures a'[..k] == a[..k] && b'[..k] == b[..k] && a'[k] == a[k] && b'[k] == b[k] {
    }
    if Above(a, b) {
      var k :| 0 <= k < |a| && a[..k] == b[..k] && a[k] > b[k];
      if k < n {
        assert a'[..k] == b'[..k] && a'[k] > b'[k];
      }
    }
    if Above(a', b') {
      var k :| 0 <= k < n && a'[..k] == b'[..k] && a'[k] > b'[k];
      assert a[..k] == b[..k] && a[k] > b[k];
    }
    if a' == b' && a[n] > b[n] {
      assert a[..n] == b[..n] && a[n] > b[n];
    }
  }

  lemma {:induction false} AboveIsGreater(a: string, b: string)
    requires |a| == |b| && AllDigits(a) && AllDigits(b)
    ensures Above(a, b) <==> Value(a) > Value(b)
    ensures a == b <==> Value(a) == Value(b)
    decreases |a|
  {
    if a == "" {
    } else {
      var n := |a| - 1;
      AboveSnoc(a, b);
      AboveIsGreater(a[..n], b[..n]);
      assert a == a[..n] + [a[n]] && b == b[..n] + [b[n]];
    }
  }

  lemma ValueSnoc(s: string, c: char, t: string)
    requires AllDigits(s) && IsDigit(c) && t == s + [c]
    ensures AllDigits(t) && Value(t) == Value(s) * 10 + Digit(c)
  {
    assert t[..|t| - 1] == s;
  }

  lemma LimitTexts()
    ensures AllDigits(MAX_TEXT) && Value(MAX_TEXT) == INT32_MAX
    ensures AllDigits("2147483648") && Value("2147483648") == -INT32_MIN
  {
    assert Value("") == 0;
    ValueSnoc("", '2', "2");
    ValueSnoc("2", '1', "21");
    ValueSnoc("21", '4', "214");
    ValueSnoc("214", '7', "2147");
    ValueSnoc("2147", '4', "21474");
    ValueSnoc("21474", '8', "214748");
    ValueSnoc("214748", '3', "2147483");
    ValueSnoc("2147483", '6', "21474836");
    ValueSnoc("21474836", '4', "214748364");
    ValueSnoc("214748364", '7', "2147483647");
    ValueSnoc("214748364", '8', "2147483648");
  }

  lemma AboveCons(c: char, a: string, b: string)
    requires |a| == |b|
    ensures Above([c] + a, [c] + b) <==> Above(a, b)
  {
    if Above([c] + a, [c] + b) {
      AboveTail(c, a, b, [c] + a, [c] + b);
    }
    if Above(a, b) {
      AboveFront(c, a, b, [c] + a, [c] + b);
    }
  }

  lemma AboveTail(c: char, a: string, b: string, longA: string, longB: string)
    requires |a| == |b| && longA == [c] + a && longB == [c] + b && Above(longA, longB)
    ensures Above(a, b)
  {
    var k :| 0 <= k < |longA| && longA[..k] == longB[..k] && longA[k] > longB[k];
    assert k > 0;
    forall i | 0 <= i < k - 1 ensures a[i] == b[i] {
      assert longA[..k][i + 1] == longB[..k][i + 1];
    }
    assert a[..k - 1] == b[..k - 1] && a[k - 1] > b[k - 1];
  }

  lemma AboveFront(c: char, a: string, b: string, longA: string, longB: string)
    requires |a| == |b| && longA == [c] + a && longB == [c] + b && Above(a, b)
    ensures Above(longA, longB)
  {
    var k :| 0 <= k < |a| && a[..k] == b[..k] && a[k] > b[k];
    forall i | 0 <= i < k + 1 ensures longA[i] == longB[i] {
      if i > 0 { assert a[..k][i - 1] == b[..k][i - 1]; }
    }
    assert longA[..k + 1] == longB[..k + 1] && longA[k + 1] > longB[k + 1];
  }

  /** For a text that is not too long, the textual check is the numeric one ... */
  lemma RangeCheckIsExact(s: string)
    requires IsNumber(s)
    ensures InRange(s) <==> |s| <= (if s[0] == '-' then 11 else 10) && INT32_MIN <= Stoi(s) <= INT32_MAX
  {
    LimitTexts();
    PowValues();
    if s[0] == '-' {
      var d := s[1..];
      assert s == ['-'] + d && MIN_TEXT == ['-'] + "2147483648";
      if |d| == 10 {
        AboveCons('-', d, "2147483648");
        AboveIsGreater(d, "2147483648");
      } else if |d| < 10 {
        ShortValue(d);
      }
    } else if s[0] == '+' {
      if |s| <= 10 {
        ShortValue(s[1..]);
        PlusIsBelow(s);
      }
    } else if |s| == 10 {
      AboveIsGreater(s, MAX_TEXT);
    } else if |s| < 10 {
      ShortValue(s);
    }
  }

  lemma {:induction false} PowGrows(j: nat, k: nat)
    requires j <= k
    ensures Pow10(j) <= Pow10(k)
  {
    if j < k {
      PowGrows(j, k - 1);
    }
  }

  lemma ShortValue(d: string)
    requires AllDigits(d) && |d| <= 9
    ensures Value(d) < 1000000000
  {
    ValueBound(d);
    PowGrows(|d|, 9);
    PowValues();
  }

  lemma PlusIsBelow(s: string)
    requires s != "" && s[0] == '+'
    ensures |s| == 10 ==> !Above(s, MAX_TEXT)
  {
    if |s| == 10 {
      forall k | 0 <= k < 10 && s[k] > MAX_TEXT[k] ensures s[..k] != MAX_TEXT[..k] {
        assert k > 0 ==> s[..k][0] == '+' && MAX_TEXT[..k][0] == '2';
      }
    }
  }

  /** ... so the conversion is reached only with the text of an int32, and never throws. */
  lemma StoiIsSafe(s: string)
    requires IsNumber(s) && InRange(s)
    ensures INT32_MIN <= Stoi(s) <= INT32_MAX
  {
    RangeCheckIsExact(s);
  }

  lemma DecimalFits(n: nat)
    requires n <= -INT32_MIN
    ensures |Decimal(n)| <= 10
  {
    PowValues();
    DecimalLength(n, 10);
  }

  lemma SignedText(v: int)
    ensures IsNumber(ToText(v)) && Stoi(ToText(v)) == v
    ensures |ToText(v)| == if v < 0 then |Decimal(-v)| + 1 else |Decimal(v)|
    ensures ToText(v)[0] == '-' <==> v < 0
  {
    var n: nat := if v < 0 then -v else v;
    var d := Decimal(n);
    ValueOfDecimal(n);
    assert IsDigit(d[0]);
    if v < 0 {
      assert ToText(v)[1..] == d;
    }
  }

  /** GetUid undoes SetUid, for every int32. */
  lemma UidRoundTrip(v: int32)
    ensures GetUid(ToText(v)) == v
  {
    SignedText(v);
    DecimalFits(if v < 0 then -(v as int) else v);
    RangeCheckIsExact(ToText(v));
  }
}
