/** CSV: escaping, the parser and the formatter, and what a table looks like after both. */
module Csv {

  type Row = seq<string>
  type Table = seq<Row>

  const QUOTE := '"'
  const NEWLINE := '\n'

  datatype CsvOptions = CsvOptions(delimiter: char, quoteChar: char, trimFields: bool)

  /** The delimiter and quote that EscapeCSV escapes for. */
  predicate Usual(o: CsvOptions) { o.delimiter == ',' && o.quoteChar == QUOTE }

  /** Delimiter, quote and line break can be told apart. */
  predicate Separated(o: CsvOptions) {
    o.delimiter != o.quoteChar && o.delimiter != NEWLINE && o.quoteChar != NEWLINE
  }

  /** EscapeCSV takes care of the field: always for the usual options, and for others if there is
      nothing to take care of. */
  predicate Suits(o: CsvOptions, f: string) {
    Usual(o) || (!Special(f) && o.delimiter !in f && o.quoteChar !in f)
  }

  predicate SuitsRow(o: CsvOptions, row: Row) { forall i :: 0 <= i < |row| ==> Suits(o, row[i]) }

  predicate SuitsTable(o: CsvOptions, data: Table) { forall i :: 0 <= i < |data| ==> SuitsRow(o, data[i]) }

  // ----- one field

  predicate Special(s: string) { ',' in s || QUOTE in s || NEWLINE in s }

  function Doubled(s: string): string {
    if s == "" then "" else (if s[0] == QUOTE then [QUOTE, QUOTE] else [s[0]]) + Doubled(s[1..])
  }

  function Escaped(s: string): string { if Special(s) then [QUOTE] + Doubled(s) + [QUOTE] else s }

  method EscapeCSV(str: string) returns (escaped: string)
    ensures escaped == Escaped(str)
  {
    if Special(str) {
      escaped := [QUOTE];
      assert str[0..] == str;
      for i := 0 to |str|
        invariant escaped + Doubled(str[i..]) == [QUOTE] + Doubled(str)
      {
        DoubledAt(str, i, escaped);
        escaped := escaped + if str[i] == QUOTE then [QUOTE, QUOTE] else [str[i]];
      }
      return escaped + [QUOTE];
    }
    return str;
  }

  lemma DoubledAt(str: string, i: nat, escaped: string)
    requires i < |str|
    ensures escaped + Doubled(str[i..]) ==
              (escaped + if str[i] == QUOTE then [QUOTE, QUOTE] else [str[i]]) + Doubled(str[i + 1..])
  {
    assert str[i..][0] == str[i] && str[i..][1..] == str[i + 1..];
  }

  function Paired(s: string): string {
    if s == "" then ""
    else if |s| > 1 && s[0] == QUOTE && s[1] == QUOTE then [QUOTE] + Paired(s[2..])
    else [s[0]] + Paired(s[1..])
  }

  lemma PairedAt(s: string, i: nat, done: string)
    requires i < |s|
    ensures var pair := i + 1 < |s| && s[i] == QUOTE && s[i + 1] == QUOTE;
            done + Paired(s[i..]) == (done + [s[i]]) + Paired(s[i + if pair then 2 else 1..])
  {
    var rest := s[i..];
    assert |rest| > 1 ==> rest[1] == s[i + 1] && rest[2..] == s[i + 2..];
    assert rest[0] == s[i] && rest[1..] == s[i + 1..];
  }

  function Unescaped(s: string): string {
    if |s| >= 2 && s[0] == QUOTE && s[|s| - 1] == QUOTE then Paired(s[1..|s| - 1]) else s
  }

  method UnescapeCSV(str: string) returns (unescaped: string)
    ensures unescaped == Unescaped(str)
  {
    if |str| >= 2 && str[0] == QUOTE && str[|str| - 1] == QUOTE {
      var result := str[1..|str| - 1];
      unescaped := "";
      var i := 0;
      assert result[0..] == result;
      while i < |result|
        invariant 0 <= i <= |result| && unescaped + Paired(result[i..]) == Paired(result)
      {
        PairedAt(result, i, unescaped);
        if result[i] == QUOTE && i + 1 < |result| && result[i + 1] == QUOTE {
          unescaped := unescaped + [QUOTE];
          i := i + 1;
        } else {
          unescaped := unescaped + [result[i]];
        }
        i := i + 1;
      }
      return unescaped;
    }
    return str;
  }

  /** Unescaping undoes escaping, on every string. */
  lemma UnescapeUndoesEscape(s: string)
    ensures Unescaped(Escaped(s)) == s
  {
    if Special(s) {
      PairedUndoesDoubled(s);
      var e := Escaped(s);
      assert e[1..|e| - 1] == Doubled(s);
    }
  }

  lemma {:induction false} PairedUndoesDoubled(s: string)
    ensures Paired(Doubled(s)) == s
  {
    if s != "" {
      PairedUndoesDoubled(s[1..]);
      var d := Doubled(s);
      if s[0] == QUOTE {
        assert d[2..] == Doubled(s[1..]);
      } else {
        assert d[1..] == Doubled(s[1..]);
      }
    }
  }

  // ----- trimming

  /** std::isspace in the C locale. */
  predicate IsSpace(c: char) { c == ' ' || '\t' <= c <= '\r' }

  /** Space, tab, line feed, vertical tab, form feed, carriage return. */
  lemma SpacesAre(c: char)
    ensures IsSpace(c) <==> c as int in {32, 9, 10, 11, 12, 13}
  {
  }

  function TrimmedLeft(s: string): string { if s != "" && IsSpace(s[0]) then TrimmedLeft(s[1..]) else s }

  function TrimmedRight(s: string): string {
    if s != "" && IsSpace(s[|s| - 1]) then TrimmedRight(s[..|s| - 1]) else s
  }

  function Trimmed(s: string): string { TrimmedRight(TrimmedLeft(s)) }

  /** Trim for TrimType::BOTH. */
  method Trim(input: string) returns (result: string)
    ensures result == Trimmed(input)
  {
    result := input;
    while result != "" && IsSpace(result[0])
      invariant TrimmedLeft(result) == TrimmedLeft(input)
      decreases |result|
    {
      result := result[1..];
    }
    while result != "" && IsSpace(result[|result| - 1])
      invariant TrimmedRight(result) == Trimmed(input)
      decreases |result|
    {
      result := result[..|result| - 1];
    }
  }

  ghost predicate CutsSpaces(s: string, t: string, i: nat, j: nat)
    requires i <= j <= |s|
  {
    t == s[i..j] && forall k :: 0 <= k < i || j <= k < |s| ==> IsSpace(s[k])
  }

  /** Trimming leaves no space at either end, cuts only spaces, and is idle just on such texts. */
  lemma TrimMeaning(s: string)
    ensures var t := Trimmed(s);
            && (t != "" ==> !IsSpace(t[0]) && !IsSpace(t[|t| - 1]))
            && (exists i, j :: 0 <= i <= j <= |s| && CutsSpaces(s, t, i, j))
            && (t == s <==> s == "" || (!IsSpace(s[0]) && !IsSpace(s[|s| - 1])))
  {
    var left, t := TrimmedLeft(s), Trimmed(s);
    var i := TrimLeftMeaning(s);
    var j := TrimRightMeaning(left);
    assert t == s[i..i + j];
    assert forall k :: 0 <= k < |left| ==> left[k] == s[i + k];
    assert forall k :: i + j <= k < |s| ==> s[k] == left[k - i];
    assert CutsSpaces(s, t, i, i + j);
  }

  lemma {:induction false} TrimLeftMeaning(s: string) returns (i: nat)
    ensures i <= |s| && TrimmedLeft(s) == s[i..] && (forall k :: 0 <= k < i ==> IsSpace(s[k]))
    ensures i < |s| ==> !IsSpace(s[i])
  {
    i := 0;
    if s != "" && IsSpace(s[0]) {
      i := TrimLeftMeaning(s[1..]);
      assert s[1..][i..] == s[i + 1..];
      assert forall k :: 1 <= k <= i ==> s[k] == s[1..][k - 1];
      i := i + 1;
    }
  }

  lemma {:induction false} TrimRightMeaning(s: string) returns (j: nat)
    ensures j <= |s| && TrimmedRight(s) == s[..j] && (forall k :: j <= k < |s| ==> IsSpace(s[k]))
    ensures j > 0 ==> !IsSpace(s[j - 1])
  {
    j := |s|;
    if s != "" && IsSpace(s[|s| - 1]) {
      var init := s[..|s| - 1];
      j := TrimRightMeaning(init);
      assert init[..j] == s[..j];
      assert forall k :: 0 <= k < |init| ==> init[k] == s[k];
    }
  }

  lemma TrimmedTwice(s: string)
    ensures Trimmed(Trimmed(s)) == Trimmed(s) && |Trimmed(s)| <= |s|
    ensures forall c :: c in Trimmed(s) ==> c in s
  {
    TrimMeaning(s);
    TrimMeaning(Trimmed(s));
  }

  // ----- the parser as a machine over characters

  datatype Scan = Scan(rows: Table, row: Row, field: string, inQuotes: bool)

  const START := Scan([], [], "", false)

  function Finalized(o: CsvOptions, field: string): string {
    if o.trimFields then Trimmed(Unescaped(field)) else Unescaped(field)
  }

  /** Whether a row is added is decided on the field before it is trimmed. */
  function FinishRow(o: CsvOptions, s: Scan): Scan {
    var row := if s.field != "" || s.row != [] then s.row + [Finalized(o, s.field)] else s.row;
    Scan(if row != [] then s.rows + [row] else s.rows, [], "", s.inQuotes)
  }

  function Step(o: CsvOptions, s: Scan, c: char): Scan {
    if c == o.quoteChar then s.(inQuotes := !s.inQuotes)
    else if c == o.delimiter && !s.inQuotes then s.(row := s.row + [Finalized(o, s.field)], field := "")
    else if c == NEWLINE && !s.inQuotes then FinishRow(o, s)
    else s.(field := s.field + [c])
  }

  function Run(o: CsvOptions, s: Scan, text: string): Scan
    decreases text
  {
    if text == "" then s else Run(o, Step(o, s, text[0]), text[1..])
  }

  function Parsed(o: CsvOptions, text: string): Table { FinishRow(o, Run(o, START, text)).rows }

  method FinalizeCsvField(field: string, options: CsvOptions) returns (final: string)
    ensures final == Finalized(options, field)
  {
    final := UnescapeCSV(field);
    if options.trimFields {
      final := Trim(final);
    }
  }

  method FinishCsvRow(result: Table, currentRow: Row, currentField: string, options: CsvOptions) returns (rows: Table)
    ensures forall q :: rows == FinishRow(options, Scan(result, currentRow, currentField, q)).rows
  {
    var row := currentRow;
    if currentField != "" || row != [] {
      var last := FinalizeCsvField(currentField, options);
      row := row + [last];
    }
    rows := if row != [] then result + [row] else result;
  }

  /** The scanner after i characters, from where the rest leads to the same end. */
  ghost predicate Reading(o: CsvOptions, s: Scan, text: string, i: nat) {
    i <= |text| && Run(o, s, text[i..]) == Run(o, START, text)
  }

  lemma ReadOne(o: CsvOptions, s: Scan, text: string, i: nat)
    requires Reading(o, s, text, i) && i < |text|
    ensures Reading(o, Step(o, s, text[i]), text, i + 1)
  {
    assert text[i..][0] == text[i] && text[i..][1..] == text[i + 1..];
  }

  method Parse(csv: string, options: CsvOptions) returns (result: Table)
    ensures result == Parsed(options, csv)
  {
    result := [];
    var currentRow: Row, currentField, inQuotes := [], "", false;
    assert csv[0..] == csv;
    for i := 0 to |csv|
      invariant Reading(options, Scan(result, currentRow, currentField, inQuotes), csv, i)
    {
      var c := csv[i];
      ReadOne(options, Scan(result, currentRow, currentField, inQuotes), csv, i);
      if c == options.quoteChar {
        inQuotes := !inQuotes;
      } else if c == options.delimiter && !inQuotes {
        var last := FinalizeCsvField(currentField, options);
        currentRow := currentRow + [last];
        currentField := "";
      } else if c == NEWLINE && !inQuotes {
        result := FinishCsvRow(result, currentRow, currentField, options);
        currentRow, currentField := [], "";
      } else {
        currentField := currentField + [c];
      }
    }
    result := FinishCsvRow(result, currentRow, currentField, options);
  }

  // ----- the formatter

  /** A row from column col on. */
  function RowFrom(o: CsvOptions, row: Row, col: nat): string
    requires col <= |row|
    decreases |row| - col
  {
    if col == |row| then "" else
    (if col > 0 then [o.delimiter] else "") + Escaped(row[col]) + RowFrom(o, row, col + 1)
  }

  function TableFrom(o: CsvOptions, data: Table, row: nat): string
    requires row <= |data|
    decreases |data| - row
  {
    if row == |data| then "" else
    RowFrom(o, data[row], 0) + (if row < |data| - 1 then [NEWLINE] else "") + TableFrom(o, data, row + 1)
  }

  function Formatted(o: CsvOptions, data: Table): string { TableFrom(o, data, 0) }

  method FormatRow(row: Row, options: CsvOptions) returns (text: string)
    ensures text == RowFrom(options, row, 0)
  {
    text := "";
    for col := 0 to |row|
      invariant text + RowFrom(options, row, col) == RowFrom(options, row, 0)
    {
      if col > 0 {
        text := text + [options.delimiter];
      }
      var escaped := EscapeCSV(row[col]);
      text := text + escaped;
    }
  }

  method Format(data: Table, options: CsvOptions) returns (text: string)
    ensures text == Formatted(options, data)
  {
    text := "";
    for row := 0 to |data|
      invariant text + TableFrom(options, data, row) == Formatted(options, data)
    {
      var line := FormatRow(data[row], options);
      text := text + line;
      if row < |data| - 1 {
        text := text + [NEWLINE];
      }
    }
  }

  // ----- what is left of a table

  function Strip(s: string): (r: string)
    ensures QUOTE !in r
    ensures r == s <==> QUOTE !in s
    ensures |r| <= |s| && (QUOTE in s ==> |r| < |s|)
  {
    if s == "" then "" else
    var rest := Strip(s[1..]);
    if s[0] == QUOTE then rest else [s[0]] + rest
  }

  /** A field as it comes back: without quote characters, and trimmed if asked for. */
  function Reread(o: CsvOptions, f: string): string { if o.trimFields then Trimmed(Strip(f)) else Strip(f) }

  function RereadRow(o: CsvOptions, row: Row): (r: Row)
    ensures |r| == |row| && forall i :: 0 <= i < |row| ==> r[i] == Reread(o, row[i])
  {
    seq(|row|, i requires 0 <= i < |row| => Reread(o, row[i]))
  }

  /** A line the parser does not see. */
  predicate Unseen(row: Row) { row == [] || (|row| == 1 && Strip(row[0]) == "") }

  function Line(o: CsvOptions, row: Row): Table { if Unseen(row) then [] else [RereadRow(o, row)] }

  function Survivors(o: CsvOptions, data: Table): Table {
    if data == [] then [] else Line(o, data[0]) + Survivors(o, data[1..])
  }

  /** A field that comes back as it is. */
  predicate CleanField(o: CsvOptions, f: string) { QUOTE !in f && (o.trimFields ==> Trimmed(f) == f) }

  predicate CleanFields(o: CsvOptions, row: Row) { forall f :: f in row ==> CleanField(o, f) }

  predicate Blank(row: Row) { row == [] || row == [""] }

  predicate CleanRow(o: CsvOptions, row: Row) { !Blank(row) && CleanFields(o, row) }

  predicate Clean(o: CsvOptions, data: Table) { forall row :: row in data ==> CleanRow(o, row) }

  lemma RereadMeaning(o: CsvOptions, f: string)
    ensures CleanField(o, Reread(o, f)) && (Reread(o, f) == f <==> CleanField(o, f))
  {
    TrimmedTwice(Strip(f));
    TrimmedTwice(f);
  }

  lemma {:induction false} RunAppend(o: CsvOptions, s: Scan, a: string, b: string)
    ensures Run(o, s, a + b) == Run(o, Run(o, s, a), b)
    decreases a
  {
    if a == "" {
      assert a + b == b;
    } else {
      RunAppend(o, Step(o, s, a[0]), a[1..], b);
      assert (a + b)[0] == a[0] && (a + b)[1..] == a[1..] + b;
    }
  }

  lemma {:induction false} ScanPlain(o: CsvOptions, s: Scan, f: string)
    requires !s.inQuotes && o.quoteChar !in f && o.delimiter !in f && NEWLINE !in f
    ensures Run(o, s, f) == s.(field := s.field + f)
    decreases f
  {
    if f == "" {
      assert s.field + f == s.field;
    } else {
      ScanPlain(o, s.(field := s.field + [f[0]]), f[1..]);
      assert s.field + [f[0]] + f[1..] == s.field + f;
    }
  }

  lemma {:induction false} ScanQuoted(o: CsvOptions, s: Scan, f: string)
    requires Usual(o) && s.inQuotes
    ensures Run(o, s, Doubled(f)) == s.(field := s.field + Strip(f))
    decreases f
  {
    if f == "" {
      assert s.field + Strip(f) == s.field;
    } else {
      var t := if f[0] == QUOTE then s else s.(field := s.field + [f[0]]);
      ScanDoubled(o, s, f[0], Doubled(f[1..]));
      ScanQuoted(o, t, f[1..]);
      StripStep(s.field, f);
    }
  }

  lemma StripStep(prefix: string, f: string)
    requires f != ""
    ensures prefix + Strip(f) == (if f[0] == QUOTE then prefix else prefix + [f[0]]) + Strip(f[1..])
  {
  }

  lemma ScanDoubled(o: CsvOptions, s: Scan, c: char, tail: string)
    requires Usual(o) && s.inQuotes
    ensures Run(o, s, (if c == QUOTE then [QUOTE, QUOTE] else [c]) + tail) ==
              Run(o, if c == QUOTE then s else s.(field := s.field + [c]), tail)
  {
    if c == QUOTE {
      RunAppend(o, s, [QUOTE, QUOTE], tail);
      TwoQuotes(o, s);
    } else {
      RunAppend(o, s, [c], tail);
      OneChar(o, s, c);
    }
  }

  lemma TwoQuotes(o: CsvOptions, s: Scan)
    requires Usual(o)
    ensures Run(o, s, [QUOTE, QUOTE]) == s
  {
    var t := Step(o, s, QUOTE);
    assert [QUOTE, QUOTE][1..] == [QUOTE];
    assert Run(o, t, [QUOTE]) == Run(o, Step(o, t, QUOTE), []);
  }

  lemma OneChar(o: CsvOptions, s: Scan, c: char)
    ensures Run(o, s, [c]) == Step(o, s, c)
  {
    assert [c][1..] == [];
  }

  /** Reading back an escaped field appends the field without its quote characters. */
  lemma ScanField(o: CsvOptions, s: Scan, f: string)
    requires Suits(o, f) && !s.inQuotes
    ensures Run(o, s, Escaped(f)) == s.(field := s.field + Strip(f))
  {
    if Special(f) {
      var q := s.(inQuotes := true);
      RunAppend(o, s, [QUOTE] + Doubled(f), [QUOTE]);
      RunAppend(o, s, [QUOTE], Doubled(f));
      OneChar(o, s, QUOTE);
      ScanQuoted(o, q, f);
      OneChar(o, q.(field := q.field + Strip(f)), QUOTE);
    } else {
      ScanPlain(o, s, f);
    }
  }

  lemma FinalizedPlain(o: CsvOptions, f: string)
    ensures Finalized(o, Strip(f)) == Reread(o, f)
    ensures QUOTE !in f ==> Finalized(o, f) == Reread(o, f)
  {
  }

  /** The scanner inside a line, after its first col fields. */
  function Inside(o: CsvOptions, rows: Table, row: Row, col: nat): Scan
    requires 0 < col <= |row|
  {
    Scan(rows, RereadRow(o, row[..col - 1]), Strip(row[col - 1]), false)
  }

  lemma RereadSnoc(o: CsvOptions, row: Row, col: nat)
    requires 0 < col <= |row|
    ensures RereadRow(o, row[..col - 1]) + [Reread(o, row[col - 1])] == RereadRow(o, row[..col])
  {
  }

  lemma ScanCell(o: CsvOptions, rows: Table, row: Row, col: nat, tail: string)
    requires Separated(o) && 0 < col < |row| && Suits(o, row[col])
    ensures Run(o, Inside(o, rows, row, col), [o.delimiter] + Escaped(row[col]) + tail) ==
              Run(o, Inside(o, rows, row, col + 1), tail)
  {
    var s, t := Inside(o, rows, row, col), Scan(rows, RereadRow(o, row[..col]), "", false);
    RunAppend(o, s, [o.delimiter] + Escaped(row[col]), tail);
    RunAppend(o, s, [o.delimiter], Escaped(row[col]));
    OneChar(o, s, o.delimiter);
    FinalizedPlain(o, row[col - 1]);
    RereadSnoc(o, row, col);
    ScanField(o, t, row[col]);
    assert "" + Strip(row[col]) == Strip(row[col]);
  }

  lemma {:induction false} ScanRest(o: CsvOptions, rows: Table, row: Row, col: nat)
    requires Separated(o) && 0 < col <= |row| && SuitsRow(o, row)
    ensures Run(o, Inside(o, rows, row, col), RowFrom(o, row, col)) == Inside(o, rows, row, |row|)
    decreases |row| - col
  {
    if col < |row| {
      ScanCell(o, rows, row, col, RowFrom(o, row, col + 1));
      ScanRest(o, rows, row, col + 1);
    }
  }

  /** The scanner between lines. */
  function Between(rows: Table): Scan { Scan(rows, [], "", false) }

  lemma ScanFirst(o: CsvOptions, rows: Table, row: Row, tail: string)
    requires row != [] && Suits(o, row[0])
    ensures Run(o, Between(rows), Escaped(row[0]) + tail) == Run(o, Inside(o, rows, row, 1), tail)
  {
    RunAppend(o, Between(rows), Escaped(row[0]), tail);
    ScanField(o, Between(rows), row[0]);
    assert "" + Strip(row[0]) == Strip(row[0]);
  }

  /** Reading back a line leaves its last field pending ... */
  lemma ScanRow(o: CsvOptions, rows: Table, row: Row)
    requires Separated(o) && row != [] && SuitsRow(o, row)
    ensures Run(o, Between(rows), RowFrom(o, row, 0)) == Inside(o, rows, row, |row|)
  {
    var tail := RowFrom(o, row, 1);
    assert RowFrom(o, row, 0) == Escaped(row[0]) + tail;
    ScanFirst(o, rows, row, tail);
    ScanRest(o, rows, row, 1);
  }

  /** ... and finishing the row adds the line, unless it is not seen. */
  lemma ScanLine(o: CsvOptions, rows: Table, row: Row)
    requires Separated(o) && SuitsRow(o, row)
    ensures var t := Run(o, Between(rows), RowFrom(o, row, 0));
            !t.inQuotes && FinishRow(o, t) == Between(rows + Line(o, row))
  {
    if row != [] {
      ScanRow(o, rows, row);
      FinishInside(o, rows, row);
    }
  }

  lemma FinishInside(o: CsvOptions, rows: Table, row: Row)
    requires row != []
    ensures FinishRow(o, Inside(o, rows, row, |row|)) == Between(rows + Line(o, row))
  {
    FinalizedPlain(o, row[|row| - 1]);
    RereadSnoc(o, row, |row|);
    assert row[..|row|] == row;
  }

  lemma NextLine(o: CsvOptions, rows: Table, row: Row, tail: string)
    requires Separated(o) && SuitsRow(o, row)
    ensures Run(o, Between(rows), RowFrom(o, row, 0) + [NEWLINE] + tail) == Run(o, Between(rows + Line(o, row)), tail)
  {
    var head := RowFrom(o, row, 0);
    ScanLine(o, rows, row);
    RunAppend(o, Between(rows), head + [NEWLINE], tail);
    RunAppend(o, Between(rows), head, [NEWLINE]);
    OneChar(o, Run(o, Between(rows), head), NEWLINE);
  }

  lemma {:induction false} ScanTable(o: CsvOptions, rows: Table, data: Table, i: nat)
    requires Separated(o) && SuitsTable(o, data) && i <= |data|
    ensures FinishRow(o, Run(o, Between(rows), TableFrom(o, data, i))).rows == rows + Survivors(o, data[i..])
    decreases |data| - i
  {
    if i < |data| {
      SurvivorsStep(o, rows, data, i);
      if i < |data| - 1 {
        NextLine(o, rows, data[i], TableFrom(o, data, i + 1));
        ScanTable(o, rows + Line(o, data[i]), data, i + 1);
      } else {
        LastLine(o, data, i);
        ScanLine(o, rows, data[i]);
      }
    }
  }

  lemma LastLine(o: CsvOptions, data: Table, i: nat)
    requires i + 1 == |data|
    ensures TableFrom(o, data, i) == RowFrom(o, data[i], 0)
  {
    assert TableFrom(o, data, i + 1) == "";
  }

  lemma SurvivorsStep(o: CsvOptions, rows: Table, data: Table, i: nat)
    requires i < |data|
    ensures rows + Survivors(o, data[i..]) == rows + Line(o, data[i]) + Survivors(o, data[i + 1..])
    ensures i + 1 == |data| ==> rows + Survivors(o, data[i..]) == rows + Line(o, data[i])
  {
    assert data[i..][1..] == data[i + 1..];
  }

  /** Parsing a formatted table gives it back without quote characters and without unseen rows,
      and with its fields trimmed if asked for. */
  lemma ParseOfFormat(o: CsvOptions, data: Table)
    requires Separated(o) && SuitsTable(o, data)
    ensures Parsed(o, Formatted(o, data)) == Survivors(o, data)
  {
    ScanTable(o, [], data, 0);
    assert data[0..] == data;
  }

  /** So the round trip is exact just for the tables of clean fields without blank rows. */
  lemma RoundTripExactly(o: CsvOptions, data: Table)
    requires Separated(o) && SuitsTable(o, data)
    ensures Parsed(o, Formatted(o, data)) == data <==> Clean(o, data)
  {
    ParseOfFormat(o, data);
    SurvivorsSame(o, data);
  }

  lemma {:induction false} SurvivorsSame(o: CsvOptions, data: Table)
    ensures |Survivors(o, data)| <= |data|
    ensures Survivors(o, data) == data <==> Clean(o, data)
  {
    if data != [] {
      var row, rest := data[0], data[1..];
      SurvivorsSame(o, rest);
      assert data == [row] + rest;
      RereadRowSame(o, row);
      CleanCons(o, row, rest);
      if Unseen(row) {
        assert |Survivors(o, data)| < |data|;
      } else {
        SameHeadTail(RereadRow(o, row), Survivors(o, rest), row, rest);
      }
    }
  }

  lemma SameHeadTail(a: Row, s: Table, b: Row, t: Table)
    ensures [a] + s == [b] + t <==> a == b && s == t
  {
    if [a] + s == [b] + t {
      assert ([a] + s)[0] == ([b] + t)[0] && ([a] + s)[1..] == ([b] + t)[1..];
    }
  }

  lemma CleanCons(o: CsvOptions, row: Row, rest: Table)
    ensures Clean(o, [row] + rest) <==> CleanRow(o, row) && Clean(o, rest)
  {
    assert forall r :: r in [row] + rest <==> r == row || r in rest;
  }

  lemma RereadRowSame(o: CsvOptions, row: Row)
    ensures RereadRow(o, row) == row <==> CleanFields(o, row)
    ensures CleanRow(o, row) <==> !Unseen(row) && RereadRow(o, row) == row
  {
    forall i | 0 <= i < |row| ensures Reread(o, row[i]) == row[i] <==> CleanField(o, row[i]) {
      RereadMeaning(o, row[i]);
    }
    if RereadRow(o, row) == row {
      assert forall i :: 0 <= i < |row| ==> RereadRow(o, row)[i] == row[i];
    }
    if |row| == 1 && CleanFields(o, row) {
      assert row[0] in row;
    }
  }

  // ----- what a parser returns

  /** Rows that exist, made of clean fields; a single empty field is a row only when trimming. */
  predicate ParsedRow(o: CsvOptions, row: Row) {
    row != [] && CleanFields(o, row) && (!o.trimFields ==> row != [""])
  }

  ghost predicate Tidy(o: CsvOptions, s: Scan) {
    && (forall row :: row in s.rows ==> ParsedRow(o, row))
    && QUOTE !in s.field && CleanFields(o, s.row)
  }

  lemma {:induction false} RunTidy(o: CsvOptions, s: Scan, text: string)
    requires Usual(o) && Tidy(o, s)
    ensures Tidy(o, Run(o, s, text))
    decreases text
  {
    if text != "" {
      StepTidy(o, s, text[0]);
      RunTidy(o, Step(o, s, text[0]), text[1..]);
    }
  }

  lemma StepTidy(o: CsvOptions, s: Scan, c: char)
    requires Usual(o) && Tidy(o, s)
    ensures Tidy(o, Step(o, s, c))
  {
    FinishTidy(o, s);
    FinalizedPlain(o, s.field);
    RereadMeaning(o, s.field);
  }

  lemma FinishTidy(o: CsvOptions, s: Scan)
    requires Tidy(o, s)
    ensures Tidy(o, FinishRow(o, s))
  {
    FinalizedPlain(o, s.field);
    RereadMeaning(o, s.field);
    if s.field != "" || s.row != [] {
      var row := s.row + [Finalized(o, s.field)];
      assert row[|s.row|] == Finalized(o, s.field);
      RowsSnoc(o, s.rows, row);
    }
  }

  lemma RowsSnoc(o: CsvOptions, rows: Table, row: Row)
    requires ParsedRow(o, row) && forall r :: r in rows ==> ParsedRow(o, r)
    ensures forall r :: r in rows + [row] ==> ParsedRow(o, r)
  {
  }

  lemma ParsedRows(o: CsvOptions, text: string)
    requires Usual(o)
    ensures forall row :: row in Parsed(o, text) ==> ParsedRow(o, row)
  {
    RunTidy(o, START, text);
    FinishTidy(o, Run(o, START, text));
  }

  /** Formatting a parsed table and parsing again changes nothing exactly when the table has no
      row of a single empty field; without trimming it never has. */
  lemma ParseIsStable(o: CsvOptions, text: string)
    requires Usual(o)
    ensures var table := Parsed(o, text);
            && (Parsed(o, Formatted(o, table)) == table <==> [""] !in table)
            && (!o.trimFields ==> [""] !in table)
  {
    var table := Parsed(o, text);
    ParsedRows(o, text);
    RoundTripExactly(o, table);
    if [""] in table {
      assert !CleanRow(o, [""]);
    }
  }

  // ----- one field of a text

  function FieldAt(data: Table, row: nat, col: nat): string {
    if row < |data| && col < |data[row]| then data[row][col] else ""
  }

  method GetField(csv: string, row: nat, col: nat, options: CsvOptions) returns (field: string)
    ensures field == FieldAt(Parsed(options, csv), row, col)
  {
    var parsedData := Parse(csv, options);
    if row < |parsedData| && col < |parsedData[row]| {
      return parsedData[row][col];
    }
    return "";
  }

  function Repeat<T>(x: T, n: int): (r: seq<T>)
    ensures |r| == if n < 0 then 0 else n
    ensures forall i :: 0 <= i < |r| ==> r[i] == x
  {
    if n <= 0 then [] else Repeat(x, n - 1) + [x]
  }

  /** The table grown to have the given field, with that field set. */
  function Placed(data: Table, row: nat, col: nat, value: string): Table {
    var grown := data + Repeat([], row + 1 - |data|);
    var wide := grown[row] + Repeat("", col + 1 - |grown[row]|);
    grown[row := wide[col := value]]
  }

  method PadTo<T>(s: seq<T>, x: T, n: nat) returns (r: seq<T>)
    ensures r == s + Repeat(x, n - |s|)
  {
    r := s;
    while |r| < n
      invariant |s| <= |r| && (|r| <= n || r == s) && r == s + Repeat(x, |r| - |s|)
    {
      r := r + [x];
    }
  }

  method SetField(csv: string, row: nat, col: nat, value: string, options: CsvOptions) returns (text: string)
    ensures text == Formatted(options, Placed(Parsed(options, csv), row, col, value))
  {
    var parsedData := Parse(csv, options);
    parsedData := PadTo(parsedData, [], row + 1);
    var wide := PadTo(parsedData[row], "", col + 1);
    parsedData := parsedData[row := wide[col := value]];
    text := Format(parsedData, options);
  }

  /** The rows of a single empty field among the first n. */
  function BlankRows(data: Table, n: nat): nat
    requires n <= |data|
  {
    if n == 0 then 0 else BlankRows(data, n - 1) + if data[n - 1] == [""] then 1 else 0
  }

  function NonBlank(data: Table): Table {
    if data == [] then [] else (if Blank(data[0]) then [] else [data[0]]) + NonBlank(data[1..])
  }

  /** The rows after the given one. */
  function RowsAfter(data: Table, row: nat): Table { if row < |data| then data[row + 1..] else [] }

  /** The row was there or the next one, and the value is clean; as many rows of a single empty
      field as stand before it are lost, and so many rows further down is the field then read. */
  ghost predicate Retrieved(o: CsvOptions, data: Table, row: nat, col: nat, value: string) {
    && row <= |data| && CleanField(o, value)
    && (var lost := BlankRows(data, row);
        lost > 0 ==> FieldAt(NonBlank(RowsAfter(data, row)), lost - 1, col) == value)
  }

  /** Reading back a field just set gives its value exactly in that case; without trimming there
      are no rows of a single empty field. */
  lemma SetThenGet(o: CsvOptions, csv: string, row: nat, col: nat, value: string)
    requires Usual(o) && value != ""
    ensures var data := Parsed(o, csv);
            FieldAt(Parsed(o, Formatted(o, Placed(data, row, col, value))), row, col) == value <==>
              Retrieved(o, data, row, col, value)
    ensures !o.trimFields && row <= |Parsed(o, csv)| ==> BlankRows(Parsed(o, csv), row) == 0
  {
    ParsedRows(o, csv);
    SetInTable(o, Parsed(o, csv), row, col, value);
    if !o.trimFields && row <= |Parsed(o, csv)| {
      NoBlankRows(Parsed(o, csv), row);
    }
  }

  lemma SetInTable(o: CsvOptions, data: Table, row: nat, col: nat, value: string)
    requires Usual(o) && value != "" && forall r :: r in data ==> ParsedRow(o, r)
    ensures FieldAt(Parsed(o, Formatted(o, Placed(data, row, col, value))), row, col) == value <==>
              Retrieved(o, data, row, col, value)
  {
    ParsedRows(o, Formatted(o, Placed(data, row, col, value)));
    ParseOfFormat(o, Placed(data, row, col, value));
    GetAfterSet(o, data, row, col, value);
  }

  lemma GetAfterSet(o: CsvOptions, data: Table, row: nat, col: nat, value: string)
    requires value != "" && forall r :: r in data ==> ParsedRow(o, r)
    requires forall r :: r in Survivors(o, Placed(data, row, col, value)) ==> ParsedRow(o, r)
    ensures FieldAt(Survivors(o, Placed(data, row, col, value)), row, col) == value <==>
              Retrieved(o, data, row, col, value)
  {
    if !CleanField(o, value) {
      GottenIsClean(o, Survivors(o, Placed(data, row, col, value)), row, col);
    } else if row <= |data| {
      PlacedSurvivors(o, data, row, col, value);
      GetPlaced(o, data, row, col, value, BlankRows(data, row));
    } else {
      PlacedFar(o, data, row, col, value);
    }
  }

  lemma {:induction false} NoBlankRows(data: Table, n: nat)
    requires n <= |data| && [""] !in data
    ensures BlankRows(data, n) == 0
  {
    if n > 0 {
      NoBlankRows(data, n - 1);
    }
  }

  lemma GottenIsClean(o: CsvOptions, data: Table, row: nat, col: nat)
    requires forall r :: r in data ==> ParsedRow(o, r)
    ensures CleanField(o, FieldAt(data, row, col))
  {
    if row < |data| && col < |data[row]| {
      assert ParsedRow(o, data[row]) && data[row][col] in data[row];
    } else {
      TrimMeaning("");
    }
  }

  lemma {:induction false} SurvivorsAppend(o: CsvOptions, a: Table, b: Table)
    ensures Survivors(o, a + b) == Survivors(o, a) + Survivors(o, b)
  {
    if a == [] {
      assert a + b == b;
    } else {
      assert (a + b)[1..] == a[1..] + b;
      SurvivorsAppend(o, a[1..], b);
    }
  }

  lemma {:induction false} SurvivorsOfParsed(o: CsvOptions, data: Table)
    requires forall r :: r in data ==> ParsedRow(o, r)
    ensures Survivors(o, data) == NonBlank(data)
  {
    if data != [] {
      assert data[0] in data;
      SurvivorsOfParsed(o, data[1..]);
      RereadRowSame(o, data[0]);
    }
  }

  lemma {:induction false} NonBlankAppend(a: Table, b: Table)
    ensures NonBlank(a + b) == NonBlank(a) + NonBlank(b)
  {
    if a == [] {
      assert a + b == b;
    } else {
      assert (a + b)[1..] == a[1..] + b;
      NonBlankAppend(a[1..], b);
    }
  }

  lemma {:induction false} NonBlankLength(data: Table, n: nat)
    requires n <= |data| && forall r :: r in data ==> r != []
    ensures |NonBlank(data[..n])| == n - BlankRows(data, n)
  {
    if n > 0 {
      NonBlankLength(data, n - 1);
      assert data[..n] == data[..n - 1] + [data[n - 1]];
      NonBlankAppend(data[..n - 1], [data[n - 1]]);
      NonBlankOne(data[n - 1]);
      assert data[n - 1] in data;
    }
  }

  lemma NonBlankOne(row: Row)
    ensures NonBlank([row]) == if Blank(row) then [] else [row]
  {
    assert [row][1..] == [];
  }

  /** The row with the field set. */
  function SetRow(data: Table, row: nat, col: nat, value: string): (r: Row)
    ensures col < |r| && r[col] == value
  {
    var before := if row < |data| then data[row] else [];
    (before + Repeat("", col + 1 - |before|))[col := value]
  }

  lemma PlacedParts(data: Table, row: nat, col: nat, value: string)
    requires row <= |data|
    ensures Placed(data, row, col, value) == data[..row] + [SetRow(data, row, col, value)] + RowsAfter(data, row)
  {
    if row < |data| {
      assert data + Repeat([], row + 1 - |data|) == data;
    } else {
      var none: Row := [];
      assert Repeat(none, 1) == [none];
      assert (data + [none])[row] == none;
    }
  }

  lemma SetRowIsClean(o: CsvOptions, data: Table, row: nat, col: nat, value: string)
    requires value != "" && CleanField(o, value) && forall r :: r in data ==> ParsedRow(o, r)
    ensures CleanRow(o, SetRow(data, row, col, value))
  {
    var before, r := if row < |data| then data[row] else [], SetRow(data, row, col, value);
    assert row < |data| ==> ParsedRow(o, before);
    forall f | f in r ensures CleanField(o, f) {
      var j :| 0 <= j < |r| && r[j] == f;
      assert f == value || f == "" || f in before;
    }
    assert r[col] == value;
  }

  lemma PlacedSurvivors(o: CsvOptions, data: Table, row: nat, col: nat, value: string)
    requires row <= |data| && value != "" && CleanField(o, value) && forall r :: r in data ==> ParsedRow(o, r)
    ensures Survivors(o, Placed(data, row, col, value)) ==
              NonBlank(data[..row]) + [SetRow(data, row, col, value)] + NonBlank(RowsAfter(data, row))
  {
    var mine := SetRow(data, row, col, value);
    PlacedParts(data, row, col, value);
    SetRowIsClean(o, data, row, col, value);
    RereadRowSame(o, mine);
    SurvivorsAppend(o, data[..row] + [mine], RowsAfter(data, row));
    SurvivorsAppend(o, data[..row], [mine]);
    assert [mine][1..] == [] && Survivors(o, [mine]) == [mine];
    SurvivorsOfParsed(o, data[..row]);
    SurvivorsOfParsed(o, RowsAfter(data, row));
  }

  lemma GetPlaced(o: CsvOptions, data: Table, row: nat, col: nat, value: string, lost: nat)
    requires row <= |data| && lost == BlankRows(data, row) && forall r :: r in data ==> ParsedRow(o, r)
    ensures var after := NonBlank(RowsAfter(data, row));
            FieldAt(NonBlank(data[..row]) + [SetRow(data, row, col, value)] + after, row, col) ==
              if lost == 0 then value else FieldAt(NonBlank(RowsAfter(data, row)), lost - 1, col)
  {
    NonBlankLength(data, row);
    FieldPast(NonBlank(data[..row]), SetRow(data, row, col, value), NonBlank(RowsAfter(data, row)), row, col, lost);
  }

  lemma FieldPast(before: Table, mine: Row, after: Table, row: nat, col: nat, lost: nat)
    requires |before| == row - lost && col < |mine|
    ensures FieldAt(before + [mine] + after, row, col) == if lost == 0 then mine[col] else FieldAt(after, lost - 1, col)
  {
  }

  lemma PlacedFar(o: CsvOptions, data: Table, row: nat, col: nat, value: string)
    requires row > |data|
    ensures |Survivors(o, Placed(data, row, col, value))| <= row
  {
    var placed := Placed(data, row, col, value);
    assert placed[|data|] == [];
    SurvivorsDrop(o, placed, |data|);
  }

  lemma {:induction false} SurvivorsDrop(o: CsvOptions, data: Table, i: nat)
    requires i < |data| && data[i] == []
    ensures |Survivors(o, data)| < |data|
  {
    SurvivorsSame(o, data[1..]);
    if i > 0 {
      SurvivorsDrop(o, data[1..], i - 1);
    }
  }
}
