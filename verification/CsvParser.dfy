/** parseCSV of csv.ts: a character state machine over a row buffer and a field buffer. */
module CsvParser {
  datatype CsvData = CsvData(headers: seq<string>, rows: seq<seq<string>>)

  /** The parser's variables. */
  datatype State = State(rows: seq<seq<string>>, current: seq<string>, field: string, inQuotes: bool)

  const START: State := State([], [], "", false)

  function PushField(st: State): State {
    st.(current := st.current + [st.field], field := "")
  }

  function PushRow(st: State): State {
    State(st.rows + [st.current + [st.field]], [], "", st.inQuotes)
  }

  /** The state after reading `rest` from state `st`. */
  function Scan(rest: string, st: State): State
    decreases |rest|
  {
    if rest == "" then st
    else
      var ch := rest[0];
      if st.inQuotes then
        if ch == '"' then
          if |rest| > 1 && rest[1] == '"' then Scan(rest[2..], st.(field := st.field + "\""))
          else Scan(rest[1..], st.(inQuotes := false))
        else Scan(rest[1..], st.(field := st.field + [ch]))
      else if ch == '"' then Scan(rest[1..], st.(inQuotes := true))
      else if ch == ',' then Scan(rest[1..], PushField(st))
      else if ch == '\r' then
        if |rest| > 1 && rest[1] == '\n' then Scan(rest[2..], PushRow(st)) else Scan(rest[1..], PushRow(st))
      else if ch == '\n' then Scan(rest[1..], PushRow(st))
      else Scan(rest[1..], st.(field := st.field + [ch]))
  }

  predicate Blank(row: seq<string>) {
    forall i :: 0 <= i < |row| ==> row[i] == ""
  }

  function StripBlankEnd(rows: seq<seq<string>>): (r: seq<seq<string>>)
    ensures |r| <= |rows| && r == rows[..|r|]
    ensures r != [] ==> !Blank(r[|r| - 1])
    ensures forall i :: |r| <= i < |rows| ==> Blank(rows[i])
  {
    if rows != [] && Blank(rows[|rows| - 1]) then StripBlankEnd(rows[..|rows| - 1]) else rows
  }

  function LastRow(st: State): seq<seq<string>> {
    if st.field != "" || |st.current| > 0 then st.rows + [st.current + [st.field]] else st.rows
  }

  function FromRows(rows: seq<seq<string>>): CsvData {
    if rows == [] then CsvData([], []) else CsvData(rows[0], rows[1..])
  }

  /** The table that a text stands for. */
  function Parse(text: string): CsvData {
    FromRows(StripBlankEnd(LastRow(Scan(text, START))))
  }

  method ParseCSV(text: string) returns (r: CsvData)
    ensures r == Parse(text)
  {
    var rows: seq<seq<string>> := [];
    var current: seq<string> := [];
    var field := "";
    var inQuotes := false;
    var i := 0;
    while i < |text|
      invariant 0 <= i <= |text|
      invariant Scan(text[i..], State(rows, current, field, inQuotes)) == Scan(text, START)
    {
      var ch := text[i];
      assert text[i..][0] == ch && text[i..][1..] == text[i + 1..];
      assert i + 1 < |text| ==> text[i..][1] == text[i + 1] && text[i..][2..] == text[i + 2..];
      if inQuotes {
        if ch == '"' {
          if i + 1 < |text| && text[i + 1] == '"' {
            field := field + "\"";
            i := i + 2;
          } else {
            inQuotes := false;
            i := i + 1;
          }
        } else {
          field := field + [ch];
          i := i + 1;
        }
      } else {
        if ch == '"' {
          inQuotes := true;
          i := i + 1;
        } else if ch == ',' {
          current := current + [field];
          field := "";
          i := i + 1;
        } else if ch == '\r' {
          current := current + [field];
          field := "";
          rows := rows + [current];
          current := [];
          i := i + 1;
          if i < |text| && text[i] == '\n' {
            i := i + 1;
          }
        } else if ch == '\n' {
          current := current + [field];
          field := "";
          rows := rows + [current];
          current := [];
          i := i + 1;
        } else {
          field := field + [ch];
          i := i + 1;
        }
      }
    }
    assert text[|text|..] == "";
    if field != "" || |current| > 0 {
      current := current + [field];
      rows := rows + [current];
    }
    ghost var all := rows;
    while |rows| > 0 && Blank(rows[|rows| - 1])
      invariant StripBlankEnd(rows) == StripBlankEnd(all)
      decreases |rows|
    {
      rows := rows[..|rows| - 1];
    }
    if |rows| == 0 {
      return CsvData([], []);
    }
    return CsvData(rows[0], rows[1..]);
  }
}
