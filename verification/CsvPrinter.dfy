/** generateCSV of csv.ts: formula cells are neutralized, special cells quoted, lines joined by CRLF. */
module CsvPrinter {
  import opened Common
  import opened CsvParser
  import opened CsvLayout

  predicate StartsFormula(c: char) {
    c == '=' || c == '+' || c == '-' || c == '@' || c == '\t' || c == '\r'
  }

  function NeutralizeFormula(v: string): string {
    if v != "" && StartsFormula(v[0]) then "'" + v else v
  }

  function EscapeField(v: string): string {
    if NeedsQuotes(v) then "\"" + DoubleQuotes(v) + "\"" else v
  }

  function SerializeField(v: string): string {
    EscapeField(NeutralizeFormula(v))
  }

  /** pieces.join(sep). */
  function Join(pieces: seq<string>, sep: string): string {
    if pieces == [] then "" else if |pieces| == 1 then pieces[0] else pieces[0] + sep + Join(pieces[1..], sep)
  }

  function SerializeAll(row: seq<string>): seq<string> {
    seq(|row|, i requires 0 <= i < |row| => SerializeField(row[i]))
  }

  function PrintRow(row: seq<string>): string {
    Join(SerializeAll(row), ",")
  }

  function PrintTable(table: seq<seq<string>>): string {
    Join(seq(|table|, i requires 0 <= i < |table| => PrintRow(table[i])), "\r\n")
  }

  /** row[col] for every column; an absent, null or undefined value prints as an empty cell. */
  function RecordRow(columns: seq<string>, record: map<string, string>): seq<string> {
    seq(|columns|, i requires 0 <= i < |columns| => if columns[i] in record then record[columns[i]] else "")
  }

  function RecordTable(columns: seq<string>, records: seq<map<string, string>>): seq<seq<string>> {
    [columns] + seq(|records|, i requires 0 <= i < |records| => RecordRow(columns, records[i]))
  }

  method GenerateCSV(columns: seq<string>, records: seq<map<string, string>>) returns (text: string)
    ensures text == PrintTable(RecordTable(columns, records))
  {
    var lines := [PrintRow(columns)];
    var i := 0;
    while i < |records|
      invariant 0 <= i <= |records| && |lines| == i + 1
      invariant forall k :: 0 <= k <= i ==> lines[k] == PrintRow(RecordTable(columns, records)[k])
    {
      var record := records[i];
      var fields := seq(|columns|, j requires 0 <= j < |columns| =>
        if columns[j] in record then SerializeField(record[columns[j]]) else "");
      assert fields == SerializeAll(RecordRow(columns, record));
      lines := lines + [Join(fields, ",")];
      i := i + 1;
    }
    var table := RecordTable(columns, records);
    assert lines == seq(|table|, k requires 0 <= k < |table| => PrintRow(table[k]));
    text := Join(lines, "\r\n");
  }

  /** The layout that the printer chooses: cells are quoted only where they must be. */
  function Shown(row: seq<string>): seq<Cell> {
    seq(|row|, i requires 0 <= i < |row| => Cell(NeutralizeFormula(row[i]), NeedsQuotes(NeutralizeFormula(row[i]))))
  }

  function ShownTable(table: seq<seq<string>>): seq<seq<Cell>> {
    seq(|table|, i requires 0 <= i < |table| => Shown(table[i]))
  }

  lemma TailOfSerialized(row: seq<string>)
    requires row != []
    ensures SerializeAll(row) == [SerializeField(row[0])] + SerializeAll(row[1..])
  {
    assert SerializeAll(row)[1..] == SerializeAll(row[1..]);
  }

  lemma TailOfShown(row: seq<string>)
    requires row != []
    ensures SerializeAll(row) == [SerializeField(row[0])] + SerializeAll(row[1..])
    ensures Shown(row)[1..] == Shown(row[1..]) && CellText(Shown(row)[0]) == SerializeField(row[0])
  {
    TailOfSerialized(row);
  }

  lemma JoinCons(first: string, others: seq<string>, sep: string)
    requires others != []
    ensures Join([first] + others, sep) == first + sep + Join(others, sep)
  {
    assert ([first] + others)[1..] == others;
  }

  lemma {:induction false} PrintRowIsLayout(row: seq<string>)
    ensures PrintRow(row) == RowText(Shown(row))
    decreases |row|
  {
    if row != [] { TailOfShown(row); }
    if |row| > 1 {
      PrintRowIsLayout(row[1..]);
      JoinCons(SerializeField(row[0]), SerializeAll(row[1..]), ",");
    }
  }

  function CrlfBreaks(n: nat): seq<Break> { seq(n, _ => CRLF) }

  lemma PrintTableCons(table: seq<seq<string>>)
    requires |table| > 1
    ensures PrintTable(table) == PrintRow(table[0]) + "\r\n" + PrintTable(table[1..])
  {
    var lines := seq(|table|, i requires 0 <= i < |table| => PrintRow(table[i]));
    var others := table[1..];
    assert lines[1..] == seq(|others|, i requires 0 <= i < |others| => PrintRow(others[i]));
  }

  lemma {:induction false} PrintTableIsLayout(table: seq<seq<string>>)
    requires table != []
    ensures PrintTable(table) == TableText(ShownTable(table), CrlfBreaks(|table| - 1))
    decreases |table|
  {
    PrintRowIsLayout(table[0]);
    if |table| > 1 {
      PrintTableIsLayout(table[1..]);
      PrintTableCons(table);
      assert ShownTable(table)[1..] == ShownTable(table[1..]);
      assert CrlfBreaks(|table| - 1)[1..] == CrlfBreaks(|table| - 2);
    }
  }

  /** What a printed row reads back as. */
  function NeutralRow(row: seq<string>): seq<string> {
    if row == [] then [""] else seq(|row|, i requires 0 <= i < |row| => NeutralizeFormula(row[i]))
  }

  function NeutralTable(table: seq<seq<string>>): seq<seq<string>> {
    seq(|table|, i requires 0 <= i < |table| => NeutralRow(table[i]))
  }

  /** Print then parse: the table comes back with every cell neutralized and trailing blank rows gone. */
  lemma ParseOfPrint(table: seq<seq<string>>)
    requires table != []
    ensures Parse(PrintTable(table)) == FromRows(StripBlankEnd(NeutralTable(table)))
  {
    var shown := ShownTable(table);
    PrintTableIsLayout(table);
    ParseRecoversTable(shown, CrlfBreaks(|table| - 1));
    assert TableValues(shown) == NeutralTable(table) by {
      forall i | 0 <= i < |table|
        ensures RowValues(shown[i]) == NeutralRow(table[i])
      {
      }
    }
  }

  lemma AllBlank(rows: seq<seq<string>>)
    requires forall i :: 0 <= i < |rows| ==> Blank(rows[i])
    ensures FromRows(StripBlankEnd(rows)) == CsvData([], [])
  {
  }

  /** Without columns nothing survives. */
  lemma NoColumnsNoTable(records: seq<map<string, string>>)
    ensures Parse(PrintTable(RecordTable([], records))) == CsvData([], [])
  {
    var table := RecordTable([], records);
    ParseOfPrint(table);
    forall i | 0 <= i < |table|
      ensures Blank(NeutralTable(table)[i])
    {
      assert table[i] == [];
    }
    AllBlank(NeutralTable(table));
  }

  /** The table that a second export starts from. */
  function ToTable(data: CsvData): seq<seq<string>> {
    [data.headers] + data.rows
  }

  lemma NeutralizeTwice(v: string)
    ensures NeutralizeFormula(NeutralizeFormula(v)) == NeutralizeFormula(v)
    ensures NeutralizeFormula(v) == "" <==> v == ""
  {
  }

  lemma NeutralRowTwice(row: seq<string>)
    ensures NeutralRow(NeutralRow(row)) == NeutralRow(row)
    ensures PrintRow(NeutralRow(row)) == PrintRow(row)
    ensures Blank(NeutralRow(row)) <==> Blank(row)
  {
    forall i | 0 <= i < |row| { NeutralizeTwice(row[i]); }
    if row == [] {
      assert SerializeAll([""]) == [SerializeField("")];
    } else {
      assert NeutralRow(NeutralRow(row)) == NeutralRow(row);
      assert SerializeAll(NeutralRow(row)) == SerializeAll(row);
      assert forall i :: 0 <= i < |row| ==> (NeutralRow(row)[i] == "" <==> row[i] == "");
    }
  }

  lemma NeutralTableTwice(table: seq<seq<string>>)
    ensures NeutralTable(NeutralTable(table)) == NeutralTable(table)
    ensures PrintTable(NeutralTable(table)) == PrintTable(table)
  {
    forall i | 0 <= i < |table| { NeutralRowTwice(table[i]); }
    var lines := seq(|table|, i requires 0 <= i < |table| => PrintRow(table[i]));
    var n := NeutralTable(table);
    assert seq(|n|, i requires 0 <= i < |n| => PrintRow(n[i])) == lines;
  }

  lemma StripTwice(rows: seq<seq<string>>)
    ensures StripBlankEnd(StripBlankEnd(rows)) == StripBlankEnd(rows)
  {
  }

  lemma KeptRowsAreNeutral(table: seq<seq<string>>, k: nat)
    requires k <= |table|
    ensures NeutralTable(NeutralTable(table)[..k]) == NeutralTable(table)[..k]
  {
    forall i | 0 <= i < k { NeutralRowTwice(table[i]); }
  }

  lemma EmptyTableRoundTrip()
    ensures Parse(PrintTable([[]])) == CsvData([], [])
  {
    ParseOfPrint([[]]);
    assert Blank(NeutralTable([[]])[0]);
    AllBlank(NeutralTable([[]]));
  }

  /** A second export and import changes nothing. */
  lemma SecondRoundTripIsIdentity(table: seq<seq<string>>)
    requires table != []
    ensures var once := Parse(PrintTable(table));
            Parse(PrintTable(ToTable(once))) == once
  {
    ParseOfPrint(table);
    var kept := StripBlankEnd(NeutralTable(table));
    if kept == [] {
      assert ToTable(FromRows(kept)) == [[]];
      EmptyTableRoundTrip();
    } else {
      assert ToTable(FromRows(kept)) == kept;
      ParseOfPrint(kept);
      KeptRowsAreNeutral(table, |kept|);
      StripTwice(NeutralTable(table));
    }
  }

  lemma {:induction false} JoinSplits(a: seq<string>, b: seq<string>, sep: string)
    requires a != [] && b != []
    ensures Join(a + b, sep) == Join(a, sep) + sep + Join(b, sep)
    decreases |a|
  {
    assert (a + b)[0] == a[0];
    if |a| == 1 {
      assert (a + b)[1..] == b;
    } else {
      assert (a + b)[1..] == a[1..] + b;
      JoinSplits(a[1..], b, sep);
    }
  }

  lemma PrintedPrefixIsShorter(table: seq<seq<string>>, k: nat)
    requires 0 < k < |table|
    ensures |PrintTable(table[..k])| < |PrintTable(table)|
  {
    var lines := seq(|table|, i requires 0 <= i < |table| => PrintRow(table[i]));
    assert lines[..k] == seq(k, i requires 0 <= i < k => PrintRow(table[..k][i]));
    assert lines == lines[..k] + lines[k..];
    JoinSplits(lines[..k], lines[k..], "\r\n");
  }

  lemma EmptyTablePrintsNothing()
    ensures PrintTable([[]]) == ""
  {
    assert SerializeAll([]) == [];
    assert PrintRow([]) == "";
  }

  lemma StripKeepsAllIff(rows: seq<seq<string>>)
    requires rows != []
    ensures StripBlankEnd(rows) == rows <==> !Blank(rows[|rows| - 1])
  {
  }

  lemma EscapedIsEmpty(v: string)
    ensures EscapeField(v) == "" <==> v == ""
  {
  }

  lemma PrintsNothing(row: seq<string>)
    ensures PrintRow(row) == "" <==> row == [] || row == [""]
  {
    if row != [] {
      var fields := SerializeAll(row);
      NeutralizeTwice(row[0]);
      EscapedIsEmpty(NeutralizeFormula(row[0]));
      assert fields[0] == SerializeField(row[0]);
    }
  }

  /** A table prints as the empty text exactly when it is one row without cells or with one empty cell. */
  lemma PrintsNothingIff(table: seq<seq<string>>)
    requires table != []
    ensures PrintTable(table) == "" <==> table == [[]] || table == [[""]]
  {
    PrintsNothing(table[0]);
    if |table| == 1 { assert table == [table[0]]; } else { PrintTableCons(table); }
  }

  /** Exporting what was imported gives the same text exactly when the last row is not blank, or the table is a
      single row without cells or with one empty cell. */
  lemma ReexportIdenticalIff(table: seq<seq<string>>)
    requires table != []
    ensures PrintTable(ToTable(Parse(PrintTable(table)))) == PrintTable(table) <==>
            !Blank(table[|table| - 1]) || table == [[]] || table == [[""]]
  {
    ParseOfPrint(table);
    NeutralTableTwice(table);
    PrintsNothingIff(table);
    var n := NeutralTable(table);
    var kept := StripBlankEnd(n);
    NeutralRowTwice(table[|table| - 1]);
    StripKeepsAllIff(n);
    if kept == [] {
      assert ToTable(FromRows(kept)) == [[]];
      EmptyTablePrintsNothing();
    } else {
      assert ToTable(FromRows(kept)) == kept;
      if |kept| < |n| { PrintedPrefixIsShorter(n, |kept|); }
    }
  }

  lemma PrintsAsIs(v: string)
    requires !NeedsQuotes(v) && (v != "" ==> !StartsFormula(v[0]))
    ensures PrintRow([v]) == v && NeutralRow([v]) == [v] && PrintTable([[v]]) == v
  {
    assert SerializeAll([v]) == [SerializeField(v)];
    assert seq(1, i requires 0 <= i < 1 => PrintRow([[v]][i])) == [PrintRow([v])];
  }

  lemma DropsBlankRow(v: string)
    requires v != ""
    ensures StripBlankEnd([[v], [""]]) == [[v]]
  {
    var rows := [[v], [""]];
    assert rows[..1] == [[v]] && Blank(rows[1]);
    assert [v][0] == v && [[v]][0] == [v];
    assert !Blank([v]);
  }

  /** A header with a blank row below it loses that row, and with it the line break. */
  lemma ReexportCanShorten(v: string)
    requires v != "" && !NeedsQuotes(v) && !StartsFormula(v[0])
    ensures PrintTable([[v], [""]]) == v + "\r\n"
    ensures PrintTable(ToTable(Parse(PrintTable([[v], [""]])))) == v
  {
    var table := [[v], [""]];
    PrintsAsIs(v);
    PrintsAsIs("");
    PrintTableCons(table);
    assert table[1..] == [[""]] && v + "\r\n" + "" == v + "\r\n";
    ParseOfPrint(table);
    assert NeutralTable(table) == table;
    DropsBlankRow(v);
    assert ToTable(FromRows([[v]])) == [[v]];
  }

  /** A row keyed by its headers, as an importer holds it. */
  function ToRecord(headers: seq<string>, row: seq<string>): map<string, string>
    requires Distinct(headers) && |row| == |headers|
  {
    map i | 0 <= i < |headers| :: headers[i] := row[i]
  }

  lemma RecordKeepsRow(headers: seq<string>, row: seq<string>)
    requires Distinct(headers) && |row| == |headers|
    ensures RecordRow(headers, ToRecord(headers, row)) == row
  {
    var record := ToRecord(headers, row);
    assert forall j :: 0 <= j < |headers| ==> headers[j] in record && record[headers[j]] == row[j];
  }

  /** With distinct headers, records and aligned cells are the same table. */
  lemma RecordsKeepTable(headers: seq<string>, rows: seq<seq<string>>, records: seq<map<string, string>>)
    requires Distinct(headers) && |records| == |rows|
    requires forall i :: 0 <= i < |rows| ==> |rows[i]| == |headers| && records[i] == ToRecord(headers, rows[i])
    ensures RecordTable(headers, records) == ToTable(CsvData(headers, rows))
  {
    forall i | 0 <= i < |rows| { RecordKeepsRow(headers, rows[i]); }
    assert RecordTable(headers, records)[1..] == rows;
  }

  /** What a spreadsheet may take for a formula: a cell that begins with one of six characters. */
  predicate LooksLikeFormula(v: string) {
    v != "" && v[0] in "=+-@\t\r"
  }

  function Guarded(v: string): string {
    if LooksLikeFormula(v) then "'" + v else v
  }

  lemma NeutralIsGuarded(v: string)
    ensures NeutralizeFormula(v) == Guarded(v) && !LooksLikeFormula(Guarded(v))
    ensures NeedsQuotes(v) <==> exists i :: 0 <= i < |v| && v[i] in ",\"\n\r"
  {
    assert forall c :: StartsFormula(c) <==> c in "=+-@\t\r";
    assert forall c :: IsSpecial(c) <==> c in ",\"\n\r";
  }

  /** A cell is written as it is, with one apostrophe in front of a formula, and in quotes only around a comma, a
      quote or a line break. */
  lemma CellIsWritten(v: string)
    ensures SerializeField(v) ==
            if exists i :: 0 <= i < |Guarded(v)| && Guarded(v)[i] in ",\"\n\r"
            then "\"" + DoubleQuotes(Guarded(v)) + "\""
            else Guarded(v)
  {
    NeutralIsGuarded(v);
    NeutralIsGuarded(Guarded(v));
  }

  /** All rows of a parsed file, the header row first. */
  function RowsOf(data: CsvData): seq<seq<string>> {
    if data == CsvData([], []) then [] else [data.headers] + data.rows
  }

  /** How a row comes back: no cell begins like a formula, one that did has an apostrophe in front, and every other cell
      is as it was. A row without cells comes back with one empty cell. */
  ghost predicate ComesBackAs(row: seq<string>, back: seq<string>) {
    if row == [] then back == [""]
    else
      |back| == |row| &&
      (forall j :: 0 <= j < |row| ==> back[j] == "" || back[j][0] !in "=+-@\t\r") &&
      forall j :: 0 <= j < |row| ==>
        back[j] == if row[j] != "" && row[j][0] in "=+-@\t\r" then "'" + row[j] else row[j]
  }

  lemma RowComesBack(row: seq<string>)
    ensures ComesBackAs(row, NeutralRow(row))
  {
    forall j | 0 <= j < |row| { NeutralIsGuarded(row[j]); }
  }

  lemma DroppedRowsAreEmpty(table: seq<seq<string>>, k: nat)
    requires EndsAt(NeutralTable(table), k)
    ensures forall i, j :: k <= i < |table| && 0 <= j < |table[i]| ==> table[i][j] == ""
  {
    forall i, j | k <= i < |table| && 0 <= j < |table[i]|
      ensures table[i][j] == ""
    {
      RowComesBack(table[i]);
      assert NeutralTable(table)[i][j] == "";
    }
  }

  lemma RowsOfKept(table: seq<seq<string>>)
    requires table != []
    ensures RowsOf(Parse(PrintTable(table))) == StripBlankEnd(NeutralTable(table))
  {
    ParseOfPrint(table);
    var kept := StripBlankEnd(NeutralTable(table));
    if kept != [] {
      assert kept[0] == NeutralRow(table[0]) != [];
      assert [kept[0]] + kept[1..] == kept;
    }
  }

  /** No exported cell comes back as a formula, and nothing else about the cells changes, up to the last row with a
      non-empty cell. */
  lemma NoFormulaComesBack(table: seq<seq<string>>)
    requires table != []
    ensures var back := RowsOf(Parse(PrintTable(table)));
            |back| <= |table| &&
            (forall i :: 0 <= i < |back| ==> ComesBackAs(table[i], back[i])) &&
            (forall i, j :: |back| <= i < |table| && 0 <= j < |table[i]| ==> table[i][j] == "") &&
            (back != [] ==> HasText(back[|back| - 1]))
  {
    var neutral := NeutralTable(table);
    var k := |StripBlankEnd(neutral)|;
    RowsOfKept(table);
    StrippedEndsAt(neutral);
    DroppedRowsAreEmpty(table, k);
    forall i | 0 <= i < k
      ensures ComesBackAs(table[i], neutral[i])
    {
      RowComesBack(table[i]);
    }
    assert RowsOf(Parse(PrintTable(table))) == neutral[..k];
  }
}
