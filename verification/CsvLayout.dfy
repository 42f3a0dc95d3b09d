/** Every text layout of a table that section 2 of RFC 4180 allows, and that the parser reads it back. */
module CsvLayout {
  import opened CsvParser

  /** A cell as written: quoting is optional unless the value needs it. */
  datatype Cell = Cell(value: string, quoted: bool)

  datatype Break = CRLF | LF | CR

  predicate IsSpecial(c: char) { c == ',' || c == '"' || c == '\n' || c == '\r' }

  predicate NeedsQuotes(v: string) {
    exists i :: 0 <= i < |v| && IsSpecial(v[i])
  }

  predicate ValidRow(row: seq<Cell>) {
    forall i :: 0 <= i < |row| ==> NeedsQuotes(row[i].value) ==> row[i].quoted
  }

  /** value.replace(/"/g, '""'). */
  function DoubleQuotes(v: string): string {
    if v == "" then "" else (if v[0] == '"' then "\"\"" else [v[0]]) + DoubleQuotes(v[1..])
  }

  function CellText(c: Cell): string {
    if c.quoted then "\"" + DoubleQuotes(c.value) + "\"" else c.value
  }

  function RowText(row: seq<Cell>): string {
    if row == [] then "" else if |row| == 1 then CellText(row[0]) else CellText(row[0]) + "," + RowText(row[1..])
  }

  function BreakText(b: Break): string {
    match b case CRLF => "\r\n" case LF => "\n" case CR => "\r"
  }

  /** The rows with a break after each, the last of which may be missing. */
  function TableText(rows: seq<seq<Cell>>, breaks: seq<Break>): string
    requires |rows| == |breaks| || |rows| == |breaks| + 1
  {
    if rows == [] then ""
    else if breaks == [] then RowText(rows[0])
    else RowText(rows[0]) + BreakText(breaks[0]) + TableText(rows[1..], breaks[1..])
  }

  /** A CR before an empty line that ends in LF would read as one CRLF. One kind of break per file avoids it. */
  predicate NoMergedBreaks(rows: seq<seq<Cell>>, breaks: seq<Break>)
    requires |rows| == |breaks| || |rows| == |breaks| + 1
  {
    forall i :: 0 <= i < |breaks| - 1 ==> breaks[i] == CR && breaks[i + 1] == LF ==> RowText(rows[i + 1]) != ""
  }

  /** A row as the parser can report it: a line without cells has one empty cell. */
  function RowValues(row: seq<Cell>): seq<string> {
    if row == [] then [""] else seq(|row|, i requires 0 <= i < |row| => row[i].value)
  }

  function TableValues(rows: seq<seq<Cell>>): seq<seq<string>> {
    seq(|rows|, i requires 0 <= i < |rows| => RowValues(rows[i]))
  }

  predicate EndsCell(rest: string) {
    rest == "" || rest[0] == ',' || rest[0] == '\r' || rest[0] == '\n'
  }

  lemma {:induction false} ScanPlain(v: string, rest: string, st: State)
    requires !NeedsQuotes(v) && !st.inQuotes
    ensures Scan(v + rest, st) == Scan(rest, st.(field := st.field + v))
    decreases |v|
  {
    if v == "" {
      assert v + rest == rest && st.field + v == st.field;
    } else {
      assert (v + rest)[1..] == v[1..] + rest;
      assert !IsSpecial(v[0]);
      assert forall i :: 0 <= i < |v[1..]| ==> v[1..][i] == v[i + 1];
      var next := st.(field := st.field + [v[0]]);
      ScanPlain(v[1..], rest, next);
      assert next.field + v[1..] == st.field + v;
    }
  }

  lemma QuotedQuote(rest: string, st: State)
    requires st.inQuotes
    ensures Scan("\"\"" + rest, st) == Scan(rest, st.(field := st.field + "\""))
  {
    var text := "\"\"" + rest;
    assert text[0] == '"' && text[1] == '"' && text[2..] == rest;
  }

  lemma QuotedChar(c: char, rest: string, st: State)
    requires st.inQuotes && c != '"'
    ensures Scan([c] + rest, st) == Scan(rest, st.(field := st.field + [c]))
  {
    var text := [c] + rest;
    assert text[0] == c && text[1..] == rest;
  }

  lemma QuotedHead(v: string, rest: string, st: State)
    requires v != "" && st.inQuotes
    ensures Scan(DoubleQuotes(v) + rest, st) == Scan(DoubleQuotes(v[1..]) + rest, st.(field := st.field + [v[0]]))
  {
    var others := DoubleQuotes(v[1..]);
    if v[0] == '"' {
      assert "\"\"" + others + rest == "\"\"" + (others + rest);
      QuotedQuote(others + rest, st);
    } else {
      assert [v[0]] + others + rest == [v[0]] + (others + rest);
      QuotedChar(v[0], others + rest, st);
    }
  }

  lemma ClosingQuote(rest: string, st: State)
    requires st.inQuotes && EndsCell(rest)
    ensures Scan("\"" + rest, st) == Scan(rest, st.(inQuotes := false))
  {
    assert ("\"" + rest)[1..] == rest;
  }

  lemma {:induction false} ScanQuoted(v: string, rest: string, st: State)
    requires st.inQuotes && EndsCell(rest)
    ensures Scan(DoubleQuotes(v) + ("\"" + rest), st) == Scan(rest, st.(field := st.field + v, inQuotes := false))
    decreases |v|
  {
    if v == "" {
      assert "" + ("\"" + rest) == "\"" + rest && st.field + v == st.field;
      ClosingQuote(rest, st);
    } else {
      QuotedHead(v, "\"" + rest, st);
      ScanQuoted(v[1..], rest, st.(field := st.field + [v[0]]));
      assert st.field + [v[0]] + v[1..] == st.field + v;
    }
  }

  lemma ScanCell(c: Cell, rest: string, st: State)
    requires (NeedsQuotes(c.value) ==> c.quoted) && EndsCell(rest) && !st.inQuotes && st.field == ""
    ensures Scan(CellText(c) + rest, st) == Scan(rest, st.(field := c.value))
  {
    assert st.field + c.value == c.value;
    if c.quoted {
      var text := CellText(c) + rest;
      assert text[1..] == DoubleQuotes(c.value) + ("\"" + rest);
      ScanQuoted(c.value, rest, st.(inQuotes := true));
    } else {
      ScanPlain(c.value, rest, st);
    }
  }

  predicate EndsRow(rest: string) {
    rest == "" || rest[0] == '\r' || rest[0] == '\n'
  }

  lemma Regroup(a: string, b: string, c: string, d: string)
    ensures a + b + c + d == a + (b + (c + d))
  {
    var text := a + b + c + d;
    assert text == a + b + (c + d);
    assert a + b + (c + d) == a + (b + (c + d));
  }

  lemma RegroupRow(row: seq<Cell>, rest: string)
    requires |row| > 1
    ensures RowText(row) + rest == CellText(row[0]) + ("," + (RowText(row[1..]) + rest))
  {
    Regroup(CellText(row[0]), ",", RowText(row[1..]), rest);
  }

  lemma ScanComma(rest: string, st: State)
    requires !st.inQuotes
    ensures Scan("," + rest, st) == Scan(rest, PushField(st))
  {
    assert ("," + rest)[1..] == rest;
  }

  lemma ScanFirstCell(row: seq<Cell>, rest: string, st: State)
    requires |row| > 1 && ValidRow(row) && !st.inQuotes && st.field == ""
    ensures Scan(RowText(row) + rest, st) == Scan(RowText(row[1..]) + rest, PushField(st.(field := row[0].value)))
  {
    RegroupRow(row, rest);
    var others := RowText(row[1..]) + rest;
    ScanCell(row[0], "," + others, st);
    ScanComma(others, st.(field := row[0].value));
  }

  /** The state after a row's text: all cells but the last are pushed. */
  function AfterRow(row: seq<Cell>, st: State): State {
    var values := RowValues(row);
    st.(current := st.current + values[..|values| - 1], field := values[|values| - 1])
  }

  lemma AfterFirstCell(row: seq<Cell>, st: State)
    requires |row| > 1
    ensures AfterRow(row[1..], PushField(st.(field := row[0].value))) == AfterRow(row, st)
  {
    var values, tail := RowValues(row), RowValues(row[1..]);
    assert values == [row[0].value] + tail;
    assert st.current + [row[0].value] + tail[..|tail| - 1] == st.current + values[..|values| - 1];
  }

  lemma {:induction false} ScanRow(row: seq<Cell>, rest: string, st: State)
    requires ValidRow(row) && EndsRow(rest) && !st.inQuotes && st.field == ""
    ensures Scan(RowText(row) + rest, st) == Scan(rest, AfterRow(row, st))
    decreases |row|
  {
    if row == [] {
      assert RowText(row) + rest == rest;
      assert st.current + [""][..0] == st.current;
    } else if |row| == 1 {
      assert RowValues(row)[..0] == [] && st.current + [] == st.current;
      ScanCell(row[0], rest, st);
    } else {
      ScanFirstCell(row, rest, st);
      ScanRow(row[1..], rest, PushField(st.(field := row[0].value)));
      AfterFirstCell(row, st);
    }
  }

  lemma ScanBreak(b: Break, rest: string, st: State)
    requires !st.inQuotes && (b == CR ==> rest == "" || rest[0] != '\n')
    ensures Scan(BreakText(b) + rest, st) == Scan(rest, PushRow(st))
  {
    var text := BreakText(b) + rest;
    if b == CRLF {
      assert text[0] == '\r' && text[1] == '\n' && text[2..] == rest;
    } else {
      assert text[1..] == rest;
      if rest != "" { assert text[1] == rest[0]; }
    }
  }

  lemma RowStart(row: seq<Cell>)
    requires ValidRow(row)
    ensures RowText(row) != "" ==> RowText(row)[0] != '\n'
  {
    if row != [] {
      var c := row[0];
      if !c.quoted && c.value != "" { assert !IsSpecial(c.value[0]); }
    }
  }

  predicate ValidTable(rows: seq<seq<Cell>>) {
    forall i :: 0 <= i < |rows| ==> ValidRow(rows[i])
  }

  /** Unless breaks merge, the text after a CR does not start with LF. */
  lemma NoLineFeedAfterCR(rows: seq<seq<Cell>>, breaks: seq<Break>)
    requires |rows| == |breaks| || |rows| == |breaks| + 1
    requires breaks != [] && breaks[0] == CR && ValidTable(rows) && NoMergedBreaks(rows, breaks)
    ensures var rest := TableText(rows[1..], breaks[1..]); rest == "" || rest[0] != '\n'
  {
    if |rows| > 1 { RowStart(rows[1]); }
  }

  lemma {:induction false} ScanTable(rows: seq<seq<Cell>>, breaks: seq<Break>, st: State)
    requires |rows| == |breaks| || |rows| == |breaks| + 1
    requires ValidTable(rows) && NoMergedBreaks(rows, breaks)
    requires !st.inQuotes && st.field == "" && st.current == []
    ensures var end := Scan(TableText(rows, breaks), st);
            StripBlankEnd(LastRow(end)) == StripBlankEnd(st.rows + TableValues(rows))
    decreases |rows|
  {
    if rows == [] {
      assert st.rows + [] == st.rows;
    } else if breaks == [] {
      ScanLastRow(rows, st);
    } else {
      if breaks[0] == CR { NoLineFeedAfterCR(rows, breaks); }
      ScanLine(rows[0], breaks[0], TableText(rows[1..], breaks[1..]), st);
      PushedRow(rows[0], st);
      TailKeepsLayout(rows, breaks);
      ScanTable(rows[1..], breaks[1..], PushRow(AfterRow(rows[0], st)));
      PrependRow(rows, st.rows);
    }
  }

  lemma TailKeepsLayout(rows: seq<seq<Cell>>, breaks: seq<Break>)
    requires |rows| == |breaks| || |rows| == |breaks| + 1
    requires breaks != [] && ValidTable(rows) && NoMergedBreaks(rows, breaks)
    ensures ValidTable(rows[1..]) && NoMergedBreaks(rows[1..], breaks[1..])
  {
    assert forall i :: 0 <= i < |rows| - 1 ==> rows[1..][i] == rows[i + 1];
  }

  lemma PrependRow(rows: seq<seq<Cell>>, before: seq<seq<string>>)
    requires rows != []
    ensures before + [RowValues(rows[0])] + TableValues(rows[1..]) == before + TableValues(rows)
  {
    assert TableValues(rows) == [RowValues(rows[0])] + TableValues(rows[1..]);
  }

  lemma ScanLastRow(rows: seq<seq<Cell>>, st: State)
    requires |rows| == 1 && ValidTable(rows) && !st.inQuotes && st.field == "" && st.current == []
    ensures StripBlankEnd(LastRow(Scan(TableText(rows, []), st))) == StripBlankEnd(st.rows + TableValues(rows))
  {
    assert RowText(rows[0]) + "" == RowText(rows[0]);
    ScanRow(rows[0], "", st);
    UnbrokenRow(rows[0], st);
    assert TableValues(rows) == [RowValues(rows[0])];
  }

  lemma ScanLine(row: seq<Cell>, b: Break, rest: string, st: State)
    requires ValidRow(row) && !st.inQuotes && st.field == ""
    requires b == CR ==> rest == "" || rest[0] != '\n'
    ensures Scan(RowText(row) + BreakText(b) + rest, st) == Scan(rest, PushRow(AfterRow(row, st)))
  {
    assert RowText(row) + BreakText(b) + rest == RowText(row) + (BreakText(b) + rest);
    ScanRow(row, BreakText(b) + rest, st);
    ScanBreak(b, rest, AfterRow(row, st));
  }

  lemma PushedRow(row: seq<Cell>, st: State)
    requires st.current == []
    ensures PushRow(AfterRow(row, st)) == State(st.rows + [RowValues(row)], [], "", st.inQuotes)
  {
    var values := RowValues(row);
    assert [] + values[..|values| - 1] + [values[|values| - 1]] == values;
  }

  lemma DropBlankLine(rows: seq<seq<string>>)
    ensures StripBlankEnd(rows + [[""]]) == StripBlankEnd(rows)
  {
    var all := rows + [[""]];
    assert all[..|all| - 1] == rows && Blank(all[|all| - 1]);
  }

  /** A last line without a break is a row too; if it is a single empty cell it is dropped, as a blank row would be. */
  lemma UnbrokenRow(row: seq<Cell>, st: State)
    requires st.current == []
    ensures StripBlankEnd(LastRow(AfterRow(row, st))) == StripBlankEnd(st.rows + [RowValues(row)])
  {
    PushedRow(row, st);
    DropBlankLine(st.rows);
    var after := AfterRow(row, st);
    assert LastRow(after) == st.rows + [RowValues(row)] || RowValues(row) == [""];
  }

  /** The parser recovers every table from every one of its layouts, up to trailing blank rows. */
  lemma ParseRecoversTable(rows: seq<seq<Cell>>, breaks: seq<Break>)
    requires |rows| == |breaks| || |rows| == |breaks| + 1
    requires ValidTable(rows) && NoMergedBreaks(rows, breaks)
    ensures Parse(TableText(rows, breaks)) == FromRows(StripBlankEnd(TableValues(rows)))
  {
    ScanTable(rows, breaks, START);
    assert [] + TableValues(rows) == TableValues(rows);
  }

  ghost predicate HasText(row: seq<string>) {
    exists cell :: cell in row && cell != ""
  }

  /** Just the first `k` rows are left when trailing rows of empty cells are dropped. */
  ghost predicate EndsAt(values: seq<seq<string>>, k: nat) {
    k <= |values| &&
    (forall i, j :: k <= i < |values| && 0 <= j < |values[i]| ==> values[i][j] == "") &&
    (k > 0 ==> HasText(values[k - 1]))
  }

  lemma StrippedEndsAt(values: seq<seq<string>>)
    ensures EndsAt(values, |StripBlankEnd(values)|)
    ensures StripBlankEnd(values) == values[..|StripBlankEnd(values)|]
  {
    var kept := StripBlankEnd(values);
    if kept != [] {
      var last := kept[|kept| - 1];
      assert last == values[|kept| - 1];
      var j :| 0 <= j < |last| && last[j] != "";
      assert last[j] in last;
    }
  }

  /** A row is written as section 2 of RFC 4180 asks: a cell with a comma, a quote or a line break is quoted. */
  predicate QuotesEnough(row: seq<Cell>) {
    forall i, k :: 0 <= i < |row| && 0 <= k < |row[i].value| && row[i].value[k] in ",\"\n\r" ==> row[i].quoted
  }

  /** So the first row of a table comes back as its headers, and the others up to the last one with a non-empty cell
      as its rows. */
  lemma TableComesBack(rows: seq<seq<Cell>>, breaks: seq<Break>) returns (k: nat)
    requires |rows| == |breaks| || |rows| == |breaks| + 1
    requires (forall i :: 0 <= i < |rows| ==> QuotesEnough(rows[i])) && NoMergedBreaks(rows, breaks)
    ensures var values := TableValues(rows);
            EndsAt(values, k) &&
            Parse(TableText(rows, breaks)) == if k == 0 then CsvData([], []) else CsvData(values[0], values[1..k])
  {
    var values := TableValues(rows);
    StrippedEndsAt(values);
    k := |StripBlankEnd(values)|;
    ParseRecoversTable(rows, breaks);
    if k > 0 { assert values[..k][1..] == values[1..k] && values[..k][0] == values[0]; }
  }

  /** One kind of break throughout never merges. */
  lemma OneKindOfBreak(rows: seq<seq<Cell>>, breaks: seq<Break>)
    requires |rows| == |breaks| || |rows| == |breaks| + 1
    requires forall i, j :: 0 <= i < |breaks| && 0 <= j < |breaks| ==> breaks[i] == breaks[j]
    ensures NoMergedBreaks(rows, breaks)
  {
  }

  /** Break `i` is a CR before an empty line that ends in LF: the two read as one CRLF and the line disappears. */
  predicate Merges(rows: seq<seq<Cell>>, breaks: seq<Break>, i: nat)
    requires |rows| == |breaks| || |rows| == |breaks| + 1
  {
    i + 1 < |breaks| && breaks[i] == CR && breaks[i + 1] == LF && RowText(rows[i + 1]) == ""
  }

  /** Some row that is not blank follows a line that disappears. */
  predicate LosesALine(rows: seq<seq<Cell>>, breaks: seq<Break>)
    requires |rows| == |breaks| || |rows| == |breaks| + 1
  {
    exists i, j :: 0 <= i < |breaks| && i + 1 < j < |rows| && Merges(rows, breaks, i) && !Blank(RowValues(rows[j]))
  }

  /** The layout that the parser sees: rows and breaks with the disappearing lines left out. */
  function Visible(rows: seq<seq<Cell>>, breaks: seq<Break>): (r: (seq<seq<Cell>>, seq<Break>))
    requires |rows| == |breaks| || |rows| == |breaks| + 1
    ensures |rows| - |breaks| == |r.0| - |r.1|
    ensures rows != [] ==> r.0 != [] && r.0[0] == rows[0]
    ensures breaks != [] ==> r.1 != [] && (r.1[0] == breaks[0] || r.1[0] == CRLF)
    decreases |rows|
  {
    if breaks == [] then (rows, breaks)
    else if Merges(rows, breaks, 0) then
      var r := Visible(rows[2..], breaks[2..]);
      ([rows[0]] + r.0, [CRLF] + r.1)
    else
      var r := Visible(rows[1..], breaks[1..]);
      ([rows[0]] + r.0, [breaks[0]] + r.1)
  }

  lemma TextOfLine(row: seq<Cell>, b: Break, rows: seq<seq<Cell>>, breaks: seq<Break>)
    requires |rows| == |breaks| || |rows| == |breaks| + 1
    ensures TableText([row] + rows, [b] + breaks) == RowText(row) + BreakText(b) + TableText(rows, breaks)
  {
    assert ([row] + rows)[1..] == rows && ([b] + breaks)[1..] == breaks;
  }

  lemma TextOfMerge(rows: seq<seq<Cell>>, breaks: seq<Break>)
    requires |rows| == |breaks| || |rows| == |breaks| + 1
    requires Merges(rows, breaks, 0)
    ensures TableText(rows, breaks) == RowText(rows[0]) + BreakText(CRLF) + TableText(rows[2..], breaks[2..])
  {
    var first, rest := RowText(rows[0]), TableText(rows[2..], breaks[2..]);
    assert rows[1..][1..] == rows[2..] && breaks[1..][1..] == breaks[2..];
    assert TableText(rows[1..], breaks[1..]) == "" + "\n" + rest;
    assert first + "\r" + ("" + "\n" + rest) == first + "\r\n" + rest;
  }

  lemma {:induction false} VisibleText(rows: seq<seq<Cell>>, breaks: seq<Break>)
    requires |rows| == |breaks| || |rows| == |breaks| + 1
    ensures var r := Visible(rows, breaks); TableText(r.0, r.1) == TableText(rows, breaks)
    decreases |rows|
  {
    if breaks == [] {
    } else if Merges(rows, breaks, 0) {
      var r := Visible(rows[2..], breaks[2..]);
      VisibleText(rows[2..], breaks[2..]);
      TextOfMerge(rows, breaks);
      TextOfLine(rows[0], CRLF, r.0, r.1);
    } else {
      var r := Visible(rows[1..], breaks[1..]);
      VisibleText(rows[1..], breaks[1..]);
      TextOfLine(rows[0], breaks[0], r.0, r.1);
    }
  }

  lemma UnmergedLine(row: seq<Cell>, b: Break, rows: seq<seq<Cell>>, breaks: seq<Break>)
    requires |rows| == |breaks| || |rows| == |breaks| + 1
    requires ValidRow(row) && ValidTable(rows) && NoMergedBreaks(rows, breaks)
    requires b == CR && breaks != [] && breaks[0] == LF ==> RowText(rows[0]) != ""
    ensures ValidTable([row] + rows) && NoMergedBreaks([row] + rows, [b] + breaks)
  {
    var all, every := [row] + rows, [b] + breaks;
    assert forall i :: 0 < i < |all| ==> all[i] == rows[i - 1];
    assert forall i :: 0 < i < |every| ==> every[i] == breaks[i - 1];
  }

  lemma {:induction false} VisibleIsUnmerged(rows: seq<seq<Cell>>, breaks: seq<Break>)
    requires |rows| == |breaks| || |rows| == |breaks| + 1
    requires ValidTable(rows)
    ensures var r := Visible(rows, breaks); ValidTable(r.0) && NoMergedBreaks(r.0, r.1)
    decreases |rows|
  {
    if breaks != [] {
      var n := if Merges(rows, breaks, 0) then 2 else 1;
      assert forall i :: 0 <= i < |rows[n..]| ==> rows[n..][i] == rows[i + n];
      VisibleIsUnmerged(rows[n..], breaks[n..]);
      var r := Visible(rows[n..], breaks[n..]);
      UnmergedLine(rows[0], if n == 2 then CRLF else breaks[0], r.0, r.1);
    }
  }

  /** A row in front of rows without trailing blank ones. */
  function Cons(row: seq<string>, kept: seq<seq<string>>): seq<seq<string>> {
    if kept == [] && Blank(row) then [] else [row] + kept
  }

  lemma {:induction false} StripCons(first: seq<string>, rows: seq<seq<string>>)
    ensures StripBlankEnd([first] + rows) == Cons(first, StripBlankEnd(rows))
    decreases |rows|
  {
    var all := [first] + rows;
    if rows == [] {
      assert all[..0] == [];
    } else {
      var k := |rows| - 1;
      assert all[..|all| - 1] == [first] + rows[..k] && all[|all| - 1] == rows[k];
      if Blank(rows[k]) { StripCons(first, rows[..k]); }
    }
  }

  lemma ValuesCons(row: seq<Cell>, rows: seq<seq<Cell>>)
    ensures TableValues([row] + rows) == [RowValues(row)] + TableValues(rows)
  {
  }

  /** What is left of a table after trailing blank rows. */
  function Kept(rows: seq<seq<Cell>>): seq<seq<string>> {
    StripBlankEnd(TableValues(rows))
  }

  lemma KeptCons(row: seq<Cell>, rows: seq<seq<Cell>>)
    ensures Kept([row] + rows) == Cons(RowValues(row), Kept(rows))
  {
    ValuesCons(row, rows);
    StripCons(RowValues(row), TableValues(rows));
  }

  lemma KeptIff(rows: seq<seq<Cell>>)
    ensures Kept(rows) != [] <==> exists j :: 0 <= j < |rows| && !Blank(RowValues(rows[j]))
  {
    var values := TableValues(rows);
    assert forall j :: 0 <= j < |rows| ==> values[j] == RowValues(rows[j]);
    if Kept(rows) != [] { assert !Blank(values[|Kept(rows)| - 1]); }
  }

  lemma EmptyTextIsBlank(row: seq<Cell>)
    requires RowText(row) == ""
    ensures Blank(RowValues(row))
  {
  }

  lemma LosesAfterLine(rows: seq<seq<Cell>>, breaks: seq<Break>)
    requires |rows| == |breaks| || |rows| == |breaks| + 1
    requires breaks != [] && !Merges(rows, breaks, 0)
    ensures LosesALine(rows, breaks) <==> LosesALine(rows[1..], breaks[1..])
  {
    var later, tail := rows[1..], breaks[1..];
    assert forall i :: 0 < i < |breaks| ==> (Merges(rows, breaks, i) <==> Merges(later, tail, i - 1));
    if LosesALine(rows, breaks) {
      var i, j :| 0 <= i < |breaks| && i + 1 < j < |rows| && Merges(rows, breaks, i) && !Blank(RowValues(rows[j]));
      assert Merges(later, tail, i - 1) && later[j - 1] == rows[j];
    }
    if LosesALine(later, tail) {
      var i, j :| 0 <= i < |tail| && i + 1 < j < |later| && Merges(later, tail, i) && !Blank(RowValues(later[j]));
      assert Merges(rows, breaks, i + 1) && rows[j + 1] == later[j];
    }
  }

  lemma LosesAfterMerge(rows: seq<seq<Cell>>, breaks: seq<Break>)
    requires |rows| == |breaks| || |rows| == |breaks| + 1
    requires Merges(rows, breaks, 0)
    ensures LosesALine(rows, breaks) <==> Kept(rows[2..]) != []
  {
    var later := rows[2..];
    KeptIff(later);
    assert forall j :: 2 <= j < |rows| ==> later[j - 2] == rows[j];
    if Kept(later) != [] {
      var j :| 0 <= j < |later| && !Blank(RowValues(later[j]));
      assert rows[j + 2] == later[j];
    }
  }

  /** Leaving lines out never adds a row, and takes one away exactly when `loses`. */
  predicate Compare(seen: seq<seq<string>>, kept: seq<seq<string>>, loses: bool) {
    |seen| <= |kept| && (seen == [] <==> kept == []) && (seen == kept <==> !loses)
  }

  lemma CompareLine(row: seq<string>, seen: seq<seq<string>>, kept: seq<seq<string>>, loses: bool)
    requires Compare(seen, kept, loses)
    ensures Compare(Cons(row, seen), Cons(row, kept), loses)
  {
    if seen != [] { assert ([row] + seen)[1..] == seen && ([row] + kept)[1..] == kept; }
  }

  lemma CompareMerge(row: seq<string>, blank: seq<string>, seen: seq<seq<string>>, kept: seq<seq<string>>, loses: bool)
    requires Compare(seen, kept, loses) && Blank(blank)
    ensures Compare(Cons(row, seen), Cons(row, Cons(blank, kept)), kept != [])
  {
    if kept != [] { assert |Cons(row, seen)| < |Cons(row, Cons(blank, kept))|; }
  }

  lemma {:induction false} VisibleKeeps(rows: seq<seq<Cell>>, breaks: seq<Break>)
    requires |rows| == |breaks| || |rows| == |breaks| + 1
    ensures Compare(Kept(Visible(rows, breaks).0), Kept(rows), LosesALine(rows, breaks))
    decreases |rows|
  {
    if breaks != [] {
      var n := if Merges(rows, breaks, 0) then 2 else 1;
      var seen, kept := Kept(Visible(rows[n..], breaks[n..]).0), Kept(rows[n..]);
      VisibleKeeps(rows[n..], breaks[n..]);
      var loses := LosesALine(rows[n..], breaks[n..]);
      KeptFirst(rows, breaks, n);
      if n == 2 {
        KeptAfterMerge(rows, breaks);
        CompareMerge(RowValues(rows[0]), RowValues(rows[1]), seen, kept, loses);
      } else {
        LosesAfterLine(rows, breaks);
        CompareLine(RowValues(rows[0]), seen, kept, loses);
      }
    }
  }

  lemma KeptFirst(rows: seq<seq<Cell>>, breaks: seq<Break>, n: nat)
    requires |rows| == |breaks| || |rows| == |breaks| + 1
    requires breaks != [] && n == if Merges(rows, breaks, 0) then 2 else 1
    ensures Kept(Visible(rows, breaks).0) == Cons(RowValues(rows[0]), Kept(Visible(rows[n..], breaks[n..]).0))
    ensures Kept(rows) == Cons(RowValues(rows[0]), Kept(rows[1..]))
  {
    KeptCons(rows[0], Visible(rows[n..], breaks[n..]).0);
    KeptCons(rows[0], rows[1..]);
    assert rows == [rows[0]] + rows[1..];
  }

  lemma KeptAfterMerge(rows: seq<seq<Cell>>, breaks: seq<Break>)
    requires |rows| == |breaks| || |rows| == |breaks| + 1
    requires Merges(rows, breaks, 0)
    ensures Kept(rows[1..]) == Cons(RowValues(rows[1]), Kept(rows[2..])) && Blank(RowValues(rows[1]))
    ensures LosesALine(rows, breaks) <==> Kept(rows[2..]) != []
  {
    LosesAfterMerge(rows, breaks);
    EmptyTextIsBlank(rows[1]);
    KeptCons(rows[1], rows[2..]);
    assert rows[1..] == [rows[1]] + rows[2..];
  }

  lemma FromRowsIsInjective(a: seq<seq<string>>, b: seq<seq<string>>)
    requires a != [] ==> a[0] != []
    requires b != [] ==> b[0] != []
    ensures FromRows(a) == FromRows(b) <==> a == b
  {
    if a != [] && b != [] { assert a == [a[0]] + a[1..] && b == [b[0]] + b[1..]; }
  }

  /** Exactly which layouts the parser reads wrongly: those in which merged breaks hide a line before a row that is
      not blank. */
  lemma ParseIsRightIff(rows: seq<seq<Cell>>, breaks: seq<Break>)
    requires |rows| == |breaks| || |rows| == |breaks| + 1
    requires ValidTable(rows)
    ensures Parse(TableText(rows, breaks)) == FromRows(StripBlankEnd(TableValues(rows))) <==> !LosesALine(rows, breaks)
  {
    var r := Visible(rows, breaks);
    VisibleText(rows, breaks);
    VisibleIsUnmerged(rows, breaks);
    ParseRecoversTable(r.0, r.1);
    VisibleKeeps(rows, breaks);
    FromRowsIsInjective(Kept(r.0), Kept(rows));
  }

  lemma MergedText(a: seq<Cell>, b: seq<Cell>)
    ensures TableText([a, [], b], [CR, LF]) == TableText([a, b], [CRLF])
  {
    assert [a, [], b][1..] == [[], b] && [[], b][1..] == [b] && [a, b][1..] == [b];
    assert [CR, LF][1..] == [LF] && [LF][1..] == [] && [CRLF][1..] == [];
    assert TableText([[], b], [LF]) == "\n" + RowText(b);
    assert RowText(a) + "\r" + ("\n" + RowText(b)) == RowText(a) + "\r\n" + RowText(b);
  }

  /** Mixed breaks can lose an inner blank line, so the condition is needed. */
  lemma MergedBreaksLoseARow()
    ensures var rows := [[Cell("a", false)], [], [Cell("b", false)]];
            Parse(TableText(rows, [CR, LF])) == CsvData(["a"], [["b"]]) &&
            FromRows(StripBlankEnd(TableValues(rows))) == CsvData(["a"], [[""], ["b"]])
  {
    var a, b := [Cell("a", false)], [Cell("b", false)];
    MergedText(a, b);
    ParseRecoversTable([a, b], [CRLF]);
    assert RowValues(a) == ["a"] && RowValues(b) == ["b"];
    assert TableValues([a, b]) == [["a"], ["b"]];
    assert TableValues([a, [], b]) == [["a"], [""], ["b"]];
    assert ["b"][0] == "b";
    assert !Blank(["b"]);
  }
}
