/** Escaping and unescaping of the contents of JSON strings. */
module JsonString {
  import opened Json

  const BACKSPACE := 8 as char
  const FORMFEED := 12 as char

  /** The letter of a two-character escape. */
  function Letter(c: char): (e: char)
    requires IsShort(c)
  {
    if c == BACKSPACE then 'b' else if c == FORMFEED then 'f' else if c == '\n' then 'n'
    else if c == '\r' then 'r' else if c == '\t' then 't' else c
  }

  predicate IsShort(c: char) {
    c == '"' || c == '\\' || c == '/' || c == BACKSPACE || c == FORMFEED || c == '\n' || c == '\r' || c == '\t'
  }

  predicate IsLetter(e: char) {
    e == '"' || e == '\\' || e == '/' || e == 'b' || e == 'f' || e == 'n' || e == 'r' || e == 't'
  }

  function Meant(e: char): (c: char)
    requires IsLetter(e)
    ensures IsShort(c) && Letter(c) == e
  {
    if e == 'b' then BACKSPACE else if e == 'f' then FORMFEED else if e == 'n' then '\n'
    else if e == 'r' then '\r' else if e == 't' then '\t' else e
  }

  predicate IsControl(c: char) { c < ' ' }

  function HexDigit(n: int): char
    requires 0 <= n < 16
  {
    "0123456789abcdef"[n]
  }

  function EscapedChar(c: char): string {
    if IsShort(c) then ['\\', Letter(c)]
    else if IsControl(c) then ['\\', 'u', '0', '0', HexDigit(c as int / 16), HexDigit(c as int % 16)]
    else [c]
  }

  function Escaped(s: string): string {
    if s == "" then "" else EscapedChar(s[0]) + Escaped(s[1..])
  }

  method EscapeJSON(str: string) returns (out: string)
    ensures out == Escaped(str)
  {
    out := "";
    for i := 0 to |str|
      invariant out + Escaped(str[i..]) == Escaped(str)
    {
      assert str[i..][0] == str[i] && str[i..][1..] == str[i + 1..];
      out := out + EscapedChar(str[i]);
    }
  }

  function Unescaped(s: string): string
    decreases |s|, 1
  {
    if s == "" then "" else if s[0] == '\\' then AfterBackslash(s[1..]) else [s[0]] + Unescaped(s[1..])
  }

  function AfterBackslash(s: string): string
    decreases |s|, 2
  {
    if s == "" then ""
    else if IsLetter(s[0]) then [Meant(s[0])] + Unescaped(s[1..])
    else if s[0] == 'u' then Unescaped(if |s| > 4 then s[5..] else s[1..])
    else [s[0]] + Unescaped(s[1..])
  }

  /** What is still to come, at index i, after a backslash or not. */
  function Rest(escape: bool, s: string, i: nat): string
    requires i <= |s|
  {
    if escape then AfterBackslash(s[i..]) else Unescaped(s[i..])
  }

  lemma RestPlain(s: string, i: nat)
    requires i < |s|
    ensures Rest(false, s, i) == if s[i] == '\\' then Rest(true, s, i + 1) else [s[i]] + Rest(false, s, i + 1)
  {
    assert s[i..][0] == s[i] && s[i..][1..] == s[i + 1..];
  }

  lemma RestEscaped(s: string, i: nat)
    requires i < |s|
    ensures Rest(true, s, i) ==
              if IsLetter(s[i]) then [Meant(s[i])] + Rest(false, s, i + 1)
              else if s[i] == 'u' then Rest(false, s, if i + 4 < |s| then i + 5 else i + 1)
              else [s[i]] + Rest(false, s, i + 1)
  {
    var rest := s[i..];
    assert rest[0] == s[i] && rest[1..] == s[i + 1..];
    assert |rest| > 4 ==> rest[5..] == s[i + 5..];
  }

  lemma Assoc(a: string, b: string, c: string)
    ensures a + (b + c) == (a + b) + c
  {
  }

  method UnescapeJSON(str: string) returns (result: string)
    ensures result == Unescaped(str)
  {
    result := "";
    var escape := false;
    var i := 0;
    assert str[0..] == str;
    while i < |str|
      invariant 0 <= i <= |str| && result + Rest(escape, str, i) == Unescaped(str)
    {
      ghost var before := result;
      if !escape {
        RestPlain(str, i);
        if str[i] == '\\' {
          escape := true;
        } else {
          result := result + [str[i]];
          Assoc(before, [str[i]], Rest(false, str, i + 1));
        }
      } else {
        RestEscaped(str, i);
        escape := false;
        if IsLetter(str[i]) {
          result := result + [Meant(str[i])];
          Assoc(before, [Meant(str[i])], Rest(false, str, i + 1));
        } else if str[i] == 'u' {
          if i + 4 < |str| {
            i := i + 4;
          }
        } else {
          result := result + [str[i]];
          Assoc(before, [str[i]], Rest(false, str, i + 1));
        }
      }
      i := i + 1;
    }
    assert Rest(escape, str, |str|) == "";
  }

  /** Control characters without a two-character escape: their code is written but not read. */
  predicate Lost(c: char) { IsControl(c) && !IsShort(c) }

  function Readable(s: string): (r: string)
    ensures r == s <==> forall c :: c in s ==> !Lost(c)
    ensures |r| <= |s|
  {
    if s == "" then "" else
    var rest := Readable(s[1..]);
    if Lost(s[0]) then rest else [s[0]] + rest
  }

  lemma UnescapeOne(c: char, tail: string)
    ensures Unescaped(EscapedChar(c) + tail) == (if Lost(c) then "" else [c]) + Unescaped(tail)
  {
    var e := EscapedChar(c);
    var s := e + tail;
    assert s[0] == e[0] && s[1..] == e[1..] + tail;
    if IsShort(c) {
      assert s[1..][0] == Letter(c) && s[1..][1..] == tail;
    } else if IsControl(c) {
      var t := s[1..];
      assert t[0] == 'u' && |t| > 4 && t[5..] == tail;
      assert "" + Unescaped(tail) == Unescaped(tail);
    } else {
      assert s[1..] == tail;
    }
  }

  lemma {:induction false} UnescapeEscape(s: string)
    ensures Unescaped(Escaped(s)) == Readable(s)
  {
    if s != "" {
      UnescapeOne(s[0], Escaped(s[1..]));
      UnescapeEscape(s[1..]);
    }
  }

  /** Unescaping gives back everything but the lost characters, so it undoes escaping exactly
      when there are none. */
  lemma {:induction false} UnescapeUndoesEscape(s: string)
    ensures Unescaped(Escaped(s)) == Readable(s)
    ensures Unescaped(Escaped(s)) == s <==> forall c :: c in s ==> !Lost(c)
  {
    UnescapeEscape(s);
  }

  // ----- what the escapes are

  /** The value of a hexadecimal digit. */
  function DigitValue(d: char): int {
    if '0' <= d <= '9' then d as int - '0' as int
    else if 'a' <= d <= 'f' then d as int - 'a' as int + 10
    else -1
  }

  /** The value that four digits spell. */
  function Spelled(d: string): int
    requires |d| == 4
  {
    ((DigitValue(d[0]) * 16 + DigitValue(d[1])) * 16 + DigitValue(d[2])) * 16 + DigitValue(d[3])
  }

  /** The code of any other control character is spelled by the four digits after the u. */
  lemma CodeIsSpelled(c: char)
    requires Lost(c)
    ensures var e := EscapedChar(c);
            && |e| == 6 && e[..2] == ['\\', 'u'] && (forall k :: 2 <= k < 6 ==> 0 <= DigitValue(e[k]) < 16)
            && Spelled(e[2..]) == c as int
  {
    HexDigitValue(c as int / 16);
    HexDigitValue(c as int % 16);
  }

  lemma HexDigitValue(n: int)
    requires 0 <= n < 16
    ensures DigitValue(HexDigit(n)) == n
  {
  }

  /** The letters of section 7 of RFC 8259, both ways. */
  lemma LettersOfTheStandard()
    ensures EscapedChar('"') == "\\\"" && EscapedChar('\\') == "\\\\" && EscapedChar('/') == "\\/"
    ensures EscapedChar(8 as char) == "\\b" && EscapedChar(12 as char) == "\\f" && EscapedChar(10 as char) == "\\n"
    ensures EscapedChar(13 as char) == "\\r" && EscapedChar(9 as char) == "\\t"
    ensures forall c :: EscapedChar(c) == [c] <==> c >= ' ' && c != '"' && c != '\\' && c != '/'
    ensures Unescaped("\\b") == [8 as char] && Unescaped("\\f") == [12 as char] && Unescaped("\\n") == [10 as char]
    ensures Unescaped("\\r") == [13 as char] && Unescaped("\\t") == [9 as char]
  {
    UnescapedPair('b');
    UnescapedPair('f');
    UnescapedPair('n');
    UnescapedPair('r');
    UnescapedPair('t');
  }

  lemma UnescapedPair(e: char)
    requires IsLetter(e)
    ensures Unescaped(['\\', e]) == [Meant(e)]
  {
    var s := ['\\', e];
    assert s[1..] == [e] && [e][1..] == "";
    assert Unescaped("") == "" && [Meant(e)] + "" == [Meant(e)];
    assert Unescaped(s) == AfterBackslash([e]) == [Meant(e)] + Unescaped("");
  }

  const IN_STRING := Lex(true, false)

  /** The scanner never sees the end of the string. */
  predicate StaysInside(l: Lex, s: string)
    decreases s
  {
    l.inString && (s == "" || StaysInside(Next(l, s[0]), s[1..]))
  }

  lemma {:induction false} StaysAppend(l: Lex, a: string, b: string)
    requires StaysInside(l, a) && StaysInside(End(l, a), b)
    ensures StaysInside(l, a + b) && End(l, a + b) == End(End(l, a), b)
    decreases a
  {
    if a == "" {
      assert a + b == b;
    } else {
      assert (a + b)[0] == a[0] && (a + b)[1..] == a[1..] + b;
      StaysAppend(Next(l, a[0]), a[1..], b);
    }
  }

  lemma EscapedCharStays(c: char)
    ensures StaysInside(IN_STRING, EscapedChar(c)) && End(IN_STRING, EscapedChar(c)) == IN_STRING
  {
    var e := EscapedChar(c);
    if IsShort(c) {
      BackslashStays([Letter(c)], "");
      assert e == ['\\'] + [Letter(c)] + "";
    } else if IsControl(c) {
      PlainStays(e[2..]);
      BackslashStays(['u'], e[2..]);
      assert e == ['\\'] + ['u'] + e[2..];
    } else {
      PlainStays(e);
    }
  }

  lemma {:induction false} PlainStays(s: string)
    requires forall i :: 0 <= i < |s| ==> s[i] != '"' && s[i] != '\\'
    ensures StaysInside(IN_STRING, s) && End(IN_STRING, s) == IN_STRING
  {
    if s != "" {
      assert s[0] != '"' && s[0] != '\\';
      PlainStays(s[1..]);
    }
  }

  lemma BackslashStays(e: string, rest: string)
    requires |e| == 1 && StaysInside(IN_STRING, rest) && End(IN_STRING, rest) == IN_STRING
    ensures StaysInside(IN_STRING, ['\\'] + e + rest) && End(IN_STRING, ['\\'] + e + rest) == IN_STRING
  {
    var s, after := ['\\'] + e + rest, Lex(true, true);
    assert Next(IN_STRING, s[0]) == after && Next(after, s[1]) == IN_STRING;
    assert s[1..][0] == s[1] && s[1..][1..] == rest;
  }

  /** An escaped text between quotes is one string to the scanner of the JSON tools: no quote
      inside it ends the string, and the closing quote does. */
  lemma {:induction false} EscapedStays(s: string)
    ensures StaysInside(IN_STRING, Escaped(s)) && End(IN_STRING, Escaped(s)) == IN_STRING
  {
    if s != "" {
      EscapedCharStays(s[0]);
      EscapedStays(s[1..]);
      StaysAppend(IN_STRING, EscapedChar(s[0]), Escaped(s[1..]));
    }
  }

  lemma {:induction false} InsideIsKept(l: Lex, s: string)
    requires StaysInside(l, s)
    ensures Minified(l, s) == s
    decreases s
  {
    if s != "" {
      InsideIsKept(Next(l, s[0]), s[1..]);
    }
  }

  lemma {:induction false} InsideIsPrinted(l: Lex, indent: nat, level: int, s: string)
    requires StaysInside(l, s)
    ensures Printed(l, indent, level, s) == Outcome.Text(s)
    decreases s
  {
    if s != "" {
      InsideIsPrinted(Next(l, s[0]), indent, level, s[1..]);
    }
  }

  /** So any text can be quoted, minified and printed with nothing in it touched. */
  lemma QuotedTextIsOpaque(s: string, indent: nat)
    ensures var q := ['"'] + Escaped(s);
            Minified(OUTSIDE, q) == q && Printed(OUTSIDE, indent, 0, q) == Outcome.Text(q)
                && End(OUTSIDE, q + ['"']) == OUTSIDE
  {
    var q := ['"'] + Escaped(s);
    assert q[0] == '"' && q[1..] == Escaped(s);
    EscapedStays(s);
    InsideIsKept(IN_STRING, Escaped(s));
    InsideIsPrinted(IN_STRING, indent, 0, Escaped(s));
    EndAppend(OUTSIDE, q, ['"']);
    OneChar(IN_STRING, '"');
  }
}
