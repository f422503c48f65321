/** JSON text: the pretty printer, the minifier and the bracket check share one scanner. */
module Json {

  /** Indenting below level zero asks for a string of almost 2^64 characters. */
  datatype Outcome = Text(text: string) | LengthError {
    function Prepend(s: string): Outcome { if Text? then Text(s + text) else LengthError }
  }

  // ----- the scanner

  datatype Lex = Lex(inString: bool, escapeNext: bool)

  const OUTSIDE := Lex(false, false)

  predicate Handled(l: Lex, c: char) { l.escapeNext || l.inString || c == '"' }

  function Next(l: Lex, c: char): Lex {
    if l.escapeNext then l.(escapeNext := false)
    else if c == '\\' && l.inString then l.(escapeNext := true)
    else if c == '"' then l.(inString := !l.inString)
    else l
  }

  function End(l: Lex, s: string): Lex
    decreases s
  {
    if s == "" then l else End(Next(l, s[0]), s[1..])
  }

  predicate IsSpace(c: char) { c == ' ' || '\t' <= c <= '\r' }

  method HandleScanCharInString(result: string, c: char, inString: bool, escapeNext: bool)
    returns (text: string, quoted: bool, escape: bool, handled: bool)
    ensures handled == Handled(Lex(inString, escapeNext), c)
    ensures Lex(quoted, escape) == Next(Lex(inString, escapeNext), c)
    ensures text == if handled then result + [c] else result
  {
    if escapeNext {
      return result + [c], inString, false, true;
    }
    if c == '\\' && inString {
      return result + [c], inString, true, true;
    }
    if c == '"' {
      return result + [c], !inString, false, true;
    }
    if inString {
      return result + [c], inString, escapeNext, true;
    }
    return result, inString, escapeNext, false;
  }

  // ----- minify

  function Minified(l: Lex, s: string): string
    decreases s
  {
    if s == "" then "" else
    (if !Handled(l, s[0]) && IsSpace(s[0]) then "" else [s[0]]) + Minified(Next(l, s[0]), s[1..])
  }

  /** What is still to come of the minified text at index i. */
  function MinifiedFrom(l: Lex, s: string, i: nat): string
    requires i <= |s|
  {
    Minified(l, s[i..])
  }

  lemma MinifiedStep(done: string, l: Lex, s: string, i: nat)
    requires i < |s|
    ensures var keep := Handled(l, s[i]) || !IsSpace(s[i]);
            done + MinifiedFrom(l, s, i) ==
              (if keep then done + [s[i]] else done) + MinifiedFrom(Next(l, s[i]), s, i + 1)
  {
    assert s[i..][0] == s[i] && s[i..][1..] == s[i + 1..];
  }

  method Minify(json: string) returns (result: string)
    ensures result == Minified(OUTSIDE, json)
  {
    result := "";
    var inString, escapeNext, handled := false, false, false;
    assert json[0..] == json;
    for i := 0 to |json|
      invariant result + MinifiedFrom(Lex(inString, escapeNext), json, i) == Minified(OUTSIDE, json)
    {
      MinifiedStep(result, Lex(inString, escapeNext), json, i);
      result, inString, escapeNext, handled := HandleScanCharInString(result, json[i], inString, escapeNext);
      if handled {
        continue;
      }
      if !IsSpace(json[i]) {
        result := result + [json[i]];
      }
    }
    assert MinifiedFrom(Lex(inString, escapeNext), json, |json|) == "";
  }

  // ----- pretty print

  predicate Opens(c: char) { c == '{' || c == '[' }

  predicate Closes(c: char) { c == '}' || c == ']' }

  function Blanks(n: int): string { if n <= 0 then "" else Blanks(n - 1) + [' '] }

  function LevelAfter(c: char, level: int): int {
    if Opens(c) then level + 1 else if Closes(c) then level - 1 else level
  }

  predicate Indents(c: char) { Opens(c) || Closes(c) || c == ',' }

  /** What a character outside strings becomes; level is the nesting after it. */
  function Piece(c: char, indent: nat, level: int): Outcome {
    if Indents(c) && level < 0 && indent > 0 then LengthError
    else if Opens(c) || c == ',' then Text([c, '\n'] + Blanks(level * indent))
    else if Closes(c) then Text(['\n'] + Blanks(level * indent) + [c])
    else if c == ':' then Text([c, ' '])
    else Text(if IsSpace(c) then "" else [c])
  }

  function Printed(l: Lex, indent: nat, level: int, s: string): Outcome
    decreases s
  {
    if s == "" then Text("") else
    var c, rest := s[0], s[1..];
    if Handled(l, c) then Printed(Next(l, c), indent, level, rest).Prepend([c]) else
    match Piece(c, indent, LevelAfter(c, level))
    case LengthError => LengthError
    case Text(piece) => Printed(Next(l, c), indent, LevelAfter(c, level), rest).Prepend(piece)
  }

  method MakeBlanks(n: int) returns (s: string)
    ensures s == Blanks(n)
  {
    s := "";
    var k := 0;
    while k < n
      invariant s == Blanks(k) && (0 <= k <= n || k == 0)
    {
      s := s + [' '];
      k := k + 1;
    }
  }

  method AppendStructChar(result: string, c: char, indent: nat, level: int) returns (out: Outcome, newLevel: int)
    ensures newLevel == LevelAfter(c, level)
    ensures out == Piece(c, indent, newLevel).Prepend(result)
  {
    newLevel := level;
    if Opens(c) {
      newLevel := level + 1;
      if newLevel < 0 && indent > 0 {
        return LengthError, newLevel;
      }
      var blanks := MakeBlanks(newLevel * indent);
      out := Text(result + ([c, '\n'] + blanks));
    } else if Closes(c) {
      newLevel := level - 1;
      if newLevel < 0 && indent > 0 {
        return LengthError, newLevel;
      }
      var blanks := MakeBlanks(newLevel * indent);
      out := Text(result + (['\n'] + blanks + [c]));
    } else if c == ',' {
      if level < 0 && indent > 0 {
        return LengthError, newLevel;
      }
      var blanks := MakeBlanks(level * indent);
      out := Text(result + ([c, '\n'] + blanks));
    } else if c == ':' {
      out := Text(result + [c, ' ']);
    } else if !IsSpace(c) {
      out := Text(result + [c]);
    } else {
      out := Text(result + "");
    }
  }

  method PrettyPrint(json: string, indent: nat) returns (out: Outcome)
    ensures out == Printed(OUTSIDE, indent, 0, json)
  {
    var result, level := "", 0;
    var inString, escapeNext, handled := false, false, false;
    for i := 0 to |json|
      invariant Printed(Lex(inString, escapeNext), indent, level, json[i..]).Prepend(result) ==
                  Printed(OUTSIDE, indent, 0, json)
    {
      ghost var before, l, rest := result, Lex(inString, escapeNext), json[i + 1..];
      assert json[i..][0] == json[i] && json[i..][1..] == rest;
      result, inString, escapeNext, handled := HandleScanCharInString(result, json[i], inString, escapeNext);
      if handled {
        PrependTwice(before, [json[i]], Printed(Next(l, json[i]), indent, level, rest));
        continue;
      }
      var step;
      step, level := AppendStructChar(result, json[i], indent, level);
      if step.LengthError? {
        return LengthError;
      }
      PrependTwice(before, Piece(json[i], indent, level).text, Printed(Next(l, json[i]), indent, level, rest));
      result := step.text;
    }
    out := Text(result);
  }

  lemma PrependTwice(a: string, b: string, o: Outcome)
    ensures o.Prepend(b).Prepend(a) == o.Prepend(a + b)
  {
    if o.Text? {
      assert a + (b + o.text) == (a + b) + o.text;
    }
  }

  // ----- the bracket check

  datatype Count = Count(brace: int, bracket: int, lex: Lex)

  function Bump(n: Count, c: char): Count {
    var m := n.(lex := Next(n.lex, c));
    if Handled(n.lex, c) then m
    else if c == '{' then m.(brace := n.brace + 1)
    else if c == '}' then m.(brace := n.brace - 1)
    else if c == '[' then m.(bracket := n.bracket + 1)
    else if c == ']' then m.(bracket := n.bracket - 1)
    else m
  }

  function Counted(n: Count, s: string): Count
    decreases s
  {
    if s == "" then n else Counted(Bump(n, s[0]), s[1..])
  }

  predicate Balanced(s: string) {
    var n := Counted(Count(0, 0, OUTSIDE), s);
    n.brace == 0 && n.bracket == 0 && !n.lex.inString
  }

  method IsValid(json: string) returns (valid: bool)
    ensures valid == Balanced(json)
  {
    var braceCount, bracketCount, inString, escapeNext := 0, 0, false, false;
    for i := 0 to |json|
      invariant Counted(Count(braceCount, bracketCount, Lex(inString, escapeNext)), json[i..]) ==
                  Counted(Count(0, 0, OUTSIDE), json)
    {
      var c := json[i];
      assert json[i..][0] == c && json[i..][1..] == json[i + 1..];
      if escapeNext {
        escapeNext := false;
        continue;
      }
      if c == '\\' && inString {
        escapeNext := true;
        continue;
      }
      if c == '"' {
        inString := !inString;
        continue;
      }
      if inString {
        continue;
      }
      if c == '{' {
        braceCount := braceCount + 1;
      } else if c == '}' {
        braceCount := braceCount - 1;
      } else if c == '[' {
        bracketCount := bracketCount + 1;
      } else if c == ']' {
        bracketCount := bracketCount - 1;
      }
    }
    return braceCount == 0 && bracketCount == 0 && !inString;
  }

  // ----- laws

  lemma {:induction false} MinifiedAppend(l: Lex, a: string, b: string)
    ensures Minified(l, a + b) == Minified(l, a) + Minified(End(l, a), b)
    decreases a
  {
    if a == "" {
      assert a + b == b;
    } else {
      assert (a + b)[0] == a[0] && (a + b)[1..] == a[1..] + b;
      MinifiedAppend(Next(l, a[0]), a[1..], b);
    }
  }

  lemma {:induction false} BlanksVanish(n: int)
    ensures Minified(OUTSIDE, Blanks(n)) == "" && End(OUTSIDE, Blanks(n)) == OUTSIDE
  {
    if n > 0 {
      BlanksVanish(n - 1);
      SpaceVanishes(Blanks(n - 1), ' ');
    }
  }

  lemma {:induction false} EndAppend(l: Lex, a: string, b: string)
    ensures End(l, a + b) == End(End(l, a), b)
    decreases a
  {
    if a == "" {
      assert a + b == b;
    } else {
      assert (a + b)[0] == a[0] && (a + b)[1..] == a[1..] + b;
      EndAppend(Next(l, a[0]), a[1..], b);
    }
  }

  lemma OneChar(l: Lex, c: char)
    ensures End(l, [c]) == Next(l, c)
    ensures Minified(l, [c]) == if !Handled(l, c) && IsSpace(c) then "" else [c]
  {
    assert [c][1..] == "";
  }

  lemma SpaceVanishes(s: string, c: char)
    requires End(OUTSIDE, s) == OUTSIDE && IsSpace(c)
    ensures Minified(OUTSIDE, s + [c]) == Minified(OUTSIDE, s) && End(OUTSIDE, s + [c]) == OUTSIDE
  {
    MinifiedAppend(OUTSIDE, s, [c]);
    EndAppend(OUTSIDE, s, [c]);
    OneChar(OUTSIDE, c);
  }

  /** Around a structural character the printer only adds white space. */
  lemma PieceMeaning(c: char, indent: nat, level: int)
    requires c != '"' && Piece(c, indent, level).Text?
    ensures var p := Piece(c, indent, level).text;
            End(OUTSIDE, p) == OUTSIDE && Minified(OUTSIDE, p) == if IsSpace(c) then "" else [c]
  {
    OneChar(OUTSIDE, c);
    if Indents(c) {
      var b := Blanks(level * indent);
      BlanksVanish(level * indent);
      OneChar(OUTSIDE, '\n');
      if Closes(c) {
        Glue(['\n'], b);
        Glue(['\n'] + b, [c]);
      } else {
        Glue([c], ['\n']);
        assert [c] + ['\n'] == [c, '\n'];
        Glue([c, '\n'], b);
      }
    } else if c == ':' {
      SpaceVanishes([c], ' ');
      assert [c] + [' '] == [c, ' '];
    }
  }

  lemma Glue(a: string, b: string)
    requires End(OUTSIDE, a) == OUTSIDE && End(OUTSIDE, b) == OUTSIDE
    ensures End(OUTSIDE, a + b) == OUTSIDE && Minified(OUTSIDE, a + b) == Minified(OUTSIDE, a) + Minified(OUTSIDE, b)
  {
    MinifiedAppend(OUTSIDE, a, b);
    EndAppend(OUTSIDE, a, b);
  }

  lemma {:induction false} PrintedMinified(l: Lex, indent: nat, level: int, s: string)
    requires Printed(l, indent, level, s).Text?
    ensures Minified(l, Printed(l, indent, level, s).text) == Minified(l, s)
    decreases s
  {
    if s != "" {
      var c, rest := s[0], s[1..];
      var level' := if Handled(l, c) then level else LevelAfter(c, level);
      var tail := Printed(Next(l, c), indent, level', rest);
      PrintedMinified(Next(l, c), indent, level', rest);
      OneChar(l, c);
      if Handled(l, c) {
        MinifiedAppend(l, [c], tail.text);
      } else {
        PieceMeaning(c, indent, level');
        MinifiedAppend(l, Piece(c, indent, level').text, tail.text);
      }
    }
  }

  /** Pretty printing adds nothing that minifying does not remove. */
  lemma MinifyUndoesPrettyPrint(json: string, indent: nat)
    requires Printed(OUTSIDE, indent, 0, json).Text?
    ensures Minified(OUTSIDE, Printed(OUTSIDE, indent, 0, json).text) == Minified(OUTSIDE, json)
  {
    PrintedMinified(OUTSIDE, indent, 0, json);
  }

  /** White space outside strings does not matter to the printer. */
  lemma {:induction false} PrintedOfMinified(l: Lex, indent: nat, level: int, s: string)
    ensures Printed(l, indent, level, Minified(l, s)) == Printed(l, indent, level, s)
    decreases s
  {
    if s != "" {
      var c, rest := s[0], s[1..];
      var level' := if Handled(l, c) then level else LevelAfter(c, level);
      PrintedOfMinified(Next(l, c), indent, level', rest);
      if !Handled(l, c) && IsSpace(c) {
        assert Minified(l, s) == Minified(l, rest);
        PrependNothing(Printed(l, indent, level, rest));
      } else {
        var m := Minified(l, s);
        assert m[0] == c && m[1..] == Minified(Next(l, c), rest);
      }
    }
  }

  lemma PrependNothing(o: Outcome)
    ensures o.Prepend("") == o
  {
    if o.Text? {
      assert "" + o.text == o.text;
    }
  }

  /** The printed text is a canonical form: two texts print alike exactly when they minify
      alike, and printing again changes nothing. */
  lemma PrettyPrintIsCanonical(a: string, b: string, indent: nat)
    requires Printed(OUTSIDE, indent, 0, a).Text?
    ensures Printed(OUTSIDE, indent, 0, a) == Printed(OUTSIDE, indent, 0, b) <==>
              Minified(OUTSIDE, a) == Minified(OUTSIDE, b)
    ensures Printed(OUTSIDE, indent, 0, Printed(OUTSIDE, indent, 0, a).text) == Printed(OUTSIDE, indent, 0, a)
  {
    var printed := Printed(OUTSIDE, indent, 0, a);
    MinifyUndoesPrettyPrint(a, indent);
    PrintedOfMinified(OUTSIDE, indent, 0, a);
    PrintedOfMinified(OUTSIDE, indent, 0, b);
    PrintedOfMinified(OUTSIDE, indent, 0, printed.text);
    if printed == Printed(OUTSIDE, indent, 0, b) {
      MinifyUndoesPrettyPrint(b, indent);
    }
  }

  lemma {:induction false} MinifiedTwice(l: Lex, s: string)
    ensures Minified(l, Minified(l, s)) == Minified(l, s)
    decreases s
  {
    if s != "" {
      var c, rest := s[0], s[1..];
      MinifiedTwice(Next(l, c), rest);
      var m := Minified(l, s);
      if !Handled(l, c) && IsSpace(c) {
        assert m == Minified(l, rest);
      } else {
        assert m[0] == c && m[1..] == Minified(Next(l, c), rest);
      }
    }
  }

  lemma {:induction false} CountedOfMinified(n: Count, s: string)
    ensures Counted(n, Minified(n.lex, s)) == Counted(n, s)
    decreases s
  {
    if s != "" {
      var c, rest := s[0], s[1..];
      CountedOfMinified(Bump(n, c), rest);
      var m := Minified(n.lex, s);
      if !Handled(n.lex, c) && IsSpace(c) {
        assert m == Minified(n.lex, rest) && Bump(n, c) == n;
      } else {
        assert m[0] == c && m[1..] == Minified(Next(n.lex, c), rest);
      }
    }
  }

  /** Neither minifying nor pretty printing makes a text valid or invalid. */
  lemma ValidityIsKept(json: string, indent: nat)
    ensures Balanced(Minified(OUTSIDE, json)) == Balanced(json)
    ensures var p := Printed(OUTSIDE, indent, 0, json); p.Text? ==> Balanced(p.text) == Balanced(json)
  {
    CountedOfMinified(Count(0, 0, OUTSIDE), json);
    var p := Printed(OUTSIDE, indent, 0, json);
    if p.Text? {
      MinifyUndoesPrettyPrint(json, indent);
      CountedOfMinified(Count(0, 0, OUTSIDE), p.text);
    }
  }

  // ----- when the printer fails

  /** Opening minus closing brackets outside strings. */
  function Depth(l: Lex, s: string): int
    decreases s
  {
    if s == "" then 0 else
    (if Handled(l, s[0]) then 0 else LevelAfter(s[0], 0)) + Depth(Next(l, s[0]), s[1..])
  }

  ghost predicate Sinks(l: Lex, level: int, s: string) { exists k :: 0 <= k <= |s| && level + Depth(l, s[..k]) < 0 }

  lemma {:induction false} FailsWhenSinking(l: Lex, indent: nat, level: nat, s: string)
    requires indent > 0
    ensures Printed(l, indent, level, s).LengthError? <==> Sinks(l, level, s)
    decreases s
  {
    if s == "" {
      assert level + Depth(l, s[..0]) == level;
    } else {
      var c, rest := s[0], s[1..];
      var level' := if Handled(l, c) then level else LevelAfter(c, level);
      SinksStep(l, level, s);
      if level' >= 0 {
        FailsWhenSinking(Next(l, c), indent, level', rest);
      } else {
        assert level' + Depth(Next(l, c), rest[..0]) == level';
      }
    }
  }

  lemma SinksStep(l: Lex, level: nat, s: string)
    requires s != ""
    ensures var level' := (if Handled(l, s[0]) then level else LevelAfter(s[0], level));
            Sinks(l, level, s) <==> Sinks(Next(l, s[0]), level', s[1..])
  {
    var l', level', rest := Next(l, s[0]), if Handled(l, s[0]) then level else LevelAfter(s[0], level), s[1..];
    forall k | 0 < k <= |s| ensures level + Depth(l, s[..k]) == level' + Depth(l', rest[..k - 1]) {
      assert s[..k][0] == s[0] && s[..k][1..] == rest[..k - 1];
    }
    assert Depth(l, s[..0]) == 0;
    if Sinks(l, level, s) {
      var k :| 0 <= k <= |s| && level + Depth(l, s[..k]) < 0;
      assert level' + Depth(l', rest[..k - 1]) < 0;
    }
    if Sinks(l', level', rest) {
      var k :| 0 <= k <= |rest| && level' + Depth(l', rest[..k]) < 0;
      assert level + Depth(l, s[..k + 1]) < 0;
    }
  }

  lemma {:induction false} ZeroIndentNeverFails(l: Lex, level: int, s: string)
    ensures Printed(l, 0, level, s).Text?
    decreases s
  {
    if s != "" {
      ZeroIndentNeverFails(Next(l, s[0]), if Handled(l, s[0]) then level else LevelAfter(s[0], level), s[1..]);
    }
  }

  /** Pretty printing fails exactly when there is an indent and some prefix closes more than
      it opens; IsValid does not notice such prefixes. */
  lemma PrettyPrintFailsExactly(json: string, indent: nat)
    ensures Printed(OUTSIDE, indent, 0, json).LengthError? <==> indent > 0 && Sinks(OUTSIDE, 0, json)
  {
    if indent > 0 {
      FailsWhenSinking(OUTSIDE, indent, 0, json);
    } else {
      ZeroIndentNeverFails(OUTSIDE, 0, json);
    }
  }

  lemma ValidMaySink(indent: nat)
    requires indent > 0
    ensures Balanced("}{") && Printed(OUTSIDE, indent, 0, "}{").LengthError?
  {
    var s := "}{";
    assert s[1..] == "{" && s[1..][1..] == "";
    var zero := Count(0, 0, OUTSIDE);
    assert Counted(zero, s) == Counted(Bump(zero, '}'), "{") == Bump(Bump(zero, '}'), '{');
  }

  // ----- where the printer puts things

  lemma {:induction false} DepthAppend(l: Lex, a: string, b: string)
    ensures Depth(l, a + b) == Depth(l, a) + Depth(End(l, a), b)
    decreases a
  {
    if a == "" {
      assert a + b == b;
    } else {
      assert (a + b)[0] == a[0] && (a + b)[1..] == a[1..] + b;
      DepthAppend(Next(l, a[0]), a[1..], b);
    }
  }

  /** Nesting of the first k characters, and whether they end inside a string. */
  function DepthAt(s: string, k: nat): int
    requires k <= |s|
  {
    Depth(OUTSIDE, s[..k])
  }

  function LexAt(s: string, k: nat): Lex
    requires k <= |s|
  {
    End(OUTSIDE, s[..k])
  }

  lemma PrefixStep(s: string, k: nat)
    requires k < |s|
    ensures LexAt(s, k + 1) == Next(LexAt(s, k), s[k])
    ensures DepthAt(s, k + 1) == if Handled(LexAt(s, k), s[k]) then DepthAt(s, k) else LevelAfter(s[k], DepthAt(s, k))
  {
    assert s[..k + 1] == s[..k] + [s[k]];
    EndAppend(OUTSIDE, s[..k], [s[k]]);
    DepthAppend(OUTSIDE, s[..k], [s[k]]);
    OneChar(LexAt(s, k), s[k]);
    assert [s[k]][1..] == "";
    assert Depth(LexAt(s, k), [s[k]]) == if Handled(LexAt(s, k), s[k]) then 0 else LevelAfter(s[k], 0);
  }

  /** The first k characters laid out one by one: each by itself, at the nesting of the text up
      to and including it. */
  function Layout(s: string, indent: nat, k: nat): string
    requires k <= |s|
  {
    if k == 0 then "" else
    var c, i := s[k - 1], k - 1;
    var piece := if Handled(LexAt(s, i), c) then Text([c]) else Piece(c, indent, DepthAt(s, k));
    Layout(s, indent, i) + if piece.Text? then piece.text else ""
  }

  ghost predicate LaidOut(s: string, indent: nat, k: nat)
    requires k <= |s|
  {
    var whole, rest := Printed(OUTSIDE, indent, 0, s), Printed(LexAt(s, k), indent, DepthAt(s, k), s[k..]);
    whole.Text? && rest.Text? && whole.text == Layout(s, indent, k) + rest.text
  }

  lemma {:induction false} LaidOutTo(s: string, indent: nat, k: nat)
    requires k <= |s| && Printed(OUTSIDE, indent, 0, s).Text?
    ensures LaidOut(s, indent, k)
  {
    if k == 0 {
      assert s[..0] == "" && s[0..] == s;
    } else {
      LaidOutTo(s, indent, k - 1);
      LayoutStep(s, indent, k - 1, Layout(s, indent, k - 1));
    }
  }

  lemma LayoutStep(s: string, indent: nat, k: nat, done: string)
    requires k < |s| && Printed(LexAt(s, k), indent, DepthAt(s, k), s[k..]).Text?
    ensures var l, c := LexAt(s, k), s[k];
            var piece := if Handled(l, c) then Text([c]) else Piece(c, indent, DepthAt(s, k + 1));
            var rest := Printed(l, indent, DepthAt(s, k), s[k..]);
            var next := Printed(LexAt(s, k + 1), indent, DepthAt(s, k + 1), s[k + 1..]);
            piece.Text? && next.Text? && done + rest.text == done + piece.text + next.text
  {
    PrefixStep(s, k);
    assert s[k..][0] == s[k] && s[k..][1..] == s[k + 1..];
  }

  /** A printed text is the layout of its characters, whose indentation is the nesting depth. */
  lemma LayoutFollowsDepth(json: string, indent: nat)
    requires Printed(OUTSIDE, indent, 0, json).Text?
    ensures Printed(OUTSIDE, indent, 0, json).text == Layout(json, indent, |json|)
  {
    LaidOutTo(json, indent, |json|);
    assert json[|json|..] == "";
  }

  /** What a character outside strings becomes at nesting `level`: after an opener or a comma, and
      before a closer, a line break and indent * level spaces; a space after a colon; no white space;
      anything else alone. */
  lemma PieceLayout(c: char, indent: nat, level: nat)
    ensures var p, n := Piece(c, indent, level), level * indent;
            && p.Text?
            && (c == '{' || c == '[' || c == ',' ==>
                  && |p.text| == n + 2 && p.text[0] == c && p.text[1] == '\n'
                  && forall k :: 2 <= k < n + 2 ==> p.text[k] == ' ')
            && (c == '}' || c == ']' ==>
                  && |p.text| == n + 2 && p.text[0] == '\n' && p.text[n + 1] == c
                  && forall k :: 1 <= k < n + 1 ==> p.text[k] == ' ')
            && (c == ':' ==> p.text == ": ")
            && (c in " \t\n\r" || c as int == 11 || c as int == 12 ==> p.text == "")
            && (c !in "{}[],: \t\n\r" && c as int != 11 && c as int != 12 ==> p.text == [c])
  {
    BlanksAre(level * indent);
  }

  lemma {:induction false} BlanksAre(n: nat)
    ensures |Blanks(n)| == n && forall k :: 0 <= k < n ==> Blanks(n)[k] == ' '
  {
    if n > 0 {
      BlanksAre(n - 1);
    }
  }

  // ----- what IsValid counts

  /** A character that no string takes in: outside of strings, and no quote. */
  predicate Bare(s: string, k: nat)
    requires k < |s|
  {
    !LexAt(s, k).inString && s[k] != '"'
  }

  /** How often c occurs bare among the first k characters. */
  function BareCount(s: string, c: char, k: nat): nat
    requires k <= |s|
  {
    if k == 0 then 0 else BareCount(s, c, k - 1) + if s[k - 1] == c && Bare(s, k - 1) then 1 else 0
  }

  /** The backslashes right before position k. */
  function Backslashes(s: string, k: nat): nat
    requires k <= |s|
  {
    if k > 0 && s[k - 1] == '\\' then Backslashes(s, k - 1) + 1 else 0
  }

  /** A quote that begins or ends a string: any outside, and inside one after an even number of
      backslashes. */
  predicate Delimits(s: string, k: nat)
    requires k < |s|
  {
    s[k] == '"' && (!LexAt(s, k).inString || Backslashes(s, k) % 2 == 0)
  }

  function Delimiters(s: string, k: nat): nat
    requires k <= |s|
  {
    if k == 0 then 0 else Delimiters(s, k - 1) + if Delimits(s, k - 1) then 1 else 0
  }

  /** Inside a string: after an odd number of delimiting quotes. The next character is escaped
      there: after an odd number of backslashes. */
  lemma {:induction false} LexMeaning(s: string, k: nat)
    requires k <= |s|
    ensures LexAt(s, k).inString <==> Delimiters(s, k) % 2 == 1
    ensures LexAt(s, k).escapeNext <==> LexAt(s, k).inString && Backslashes(s, k) % 2 == 1
  {
    if k > 0 {
      LexMeaning(s, k - 1);
      PrefixStep(s, k - 1);
    } else {
      assert s[..0] == "";
    }
  }

  /** What the counters hold after k characters. */
  lemma {:induction false} CountsBare(s: string, k: nat)
    requires k <= |s|
    ensures Counted(Count(0, 0, OUTSIDE), s[..k]) ==
              Count(BareCount(s, '{', k) - BareCount(s, '}', k), BareCount(s, '[', k) - BareCount(s, ']', k),
                LexAt(s, k))
  {
    if k > 0 {
      CountsBare(s, k - 1);
      LexMeaning(s, k - 1);
      assert s[..k] == s[..k - 1] + [s[k - 1]];
      CountedAppend(Count(0, 0, OUTSIDE), s[..k - 1], s[k - 1]);
      PrefixStep(s, k - 1);
    } else {
      assert s[..0] == "";
    }
  }

  lemma {:induction false} CountedAppend(n: Count, a: string, c: char)
    ensures Counted(n, a + [c]) == Bump(Counted(n, a), c)
    decreases a
  {
    if a == "" {
      assert a + [c] == [c] && [c][1..] == "";
    } else {
      assert (a + [c])[0] == a[0] && (a + [c])[1..] == a[1..] + [c];
      CountedAppend(Bump(n, a[0]), a[1..], c);
    }
  }

  /** Accepted exactly when outside strings there are as many closing as opening braces, and
      brackets, and no string is left open. */
  lemma BalancedMeaning(s: string)
    ensures Balanced(s) <==>
              && BareCount(s, '{', |s|) == BareCount(s, '}', |s|) && BareCount(s, '[', |s|) == BareCount(s, ']', |s|)
              && Delimiters(s, |s|) % 2 == 0
  {
    CountsBare(s, |s|);
    LexMeaning(s, |s|);
    assert s[..|s|] == s;
  }

  /** The nesting by which the printer indents: bare openers less bare closers so far. */
  lemma {:induction false} DepthMeaning(s: string, k: nat)
    requires k <= |s|
    ensures DepthAt(s, k) ==
              BareCount(s, '{', k) + BareCount(s, '[', k) - BareCount(s, '}', k) - BareCount(s, ']', k)
  {
    if k > 0 {
      DepthMeaning(s, k - 1);
      LexMeaning(s, k - 1);
      PrefixStep(s, k - 1);
    } else {
      assert s[..0] == "";
    }
  }
}
