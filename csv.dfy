/** The delimited-text half of the parser: the quote-aware cell tokenizer,
    the header line, and the assembly of rows against the header list
    (`parseCSVData`, lib/data-parser.ts:62-119). */
module Csv {
  import opened Wrappers
  import opened Strings
  import opened Rows
  import opened Headers
  import opened Timestamps
  import opened Assembly
  import opened Mapping

  /** `replace(/^"|"$/g, "")`: one leading and one trailing `"` go. When the
      string is a single `"`, the leading match takes it and nothing is left
      for the trailing one. */
  function StripQuotes(s: string): string {
    var t := if |s| > 0 && s[0] == '"' then s[1..] else s;
    if |t| > 0 && t[|t| - 1] == '"' then t[..|t| - 1] else t
  }

  /** `x.trim().replace(/^"|"$/g, "")`, applied to every header and every cell. */
  function Clean(x: string): string {
    StripQuotes(Trim(x))
  }

  /** A cleaned value is the trimmed value less at most one `"` at each
      end: it starts one character in exactly when the trimmed value starts
      with `"`, and it stops one character short only at a `"`. */
  lemma CleanShape(x: string)
    ensures var t := Trim(x); var c := Clean(x); var a := if t != [] && t[0] == '"' then 1 else 0;
      OccursAt(t, c, a) && |t| - 2 <= |c| <= |t| - a
      && (a + |c| < |t| ==> t[|t| - 1] == '"')
  {
  }

  /** No edge whitespace and no `"` at either end. */
  predicate IsClean(c: string) {
    NoEdgeSpace(c) && (c == [] || (c[0] != '"' && c[|c| - 1] != '"'))
  }

  /** Cleaning leaves a clean value as it is. */
  lemma CleanFixes(c: string)
    requires IsClean(c)
    ensures Clean(c) == c
  {
    TrimShape(c);
  }

  /** The tokenizer loop of lib/data-parser.ts:85-103, on the part `rest` of
      the line not yet read: `inQuotes` and `current` are the loop's state and
      `cells` the cells pushed so far. Inside quotes `""` stands for one `"`;
      a lone `"` toggles quoting; a comma outside quotes ends a cell. */
  function Scan(rest: string, inQuotes: bool, current: string, cells: seq<string>): seq<string>
    decreases |rest|
  {
    if rest == [] then cells + [Clean(current)]
    else if rest[0] == '"' then
      if inQuotes && |rest| > 1 && rest[1] == '"' then Scan(rest[2..], inQuotes, current + "\"", cells)
      else Scan(rest[1..], !inQuotes, current, cells)
    else if rest[0] == ',' && !inQuotes then Scan(rest[1..], inQuotes, "", cells + [Clean(current)])
    else Scan(rest[1..], inQuotes, current + [rest[0]], cells)
  }

  /** The cells of one data line. */
  function Tokenize(line: string): seq<string> {
    Scan(line, false, "", [])
  }

  /** The tokenizer as the source writes it: an index loop with a `current`
      accumulator, an `inQuotes` flag and a skip over an escaped quote. */
  method SplitCells(line: string) returns (cells: seq<string>)
    ensures cells == Tokenize(line)
  {
    cells := [];
    var current := "";
    var inQuotes := false;
    var j := 0;
    while j < |line|
      invariant 0 <= j <= |line|
      invariant Scan(line[j..], inQuotes, current, cells) == Tokenize(line)
      decreases |line| - j
    {
      var c := line[j];
      if c == '"' {
        if inQuotes && j + 1 < |line| && line[j + 1] == '"' {
          assert line[j..][2..] == line[j + 2..];
          current := current + "\"";
          j := j + 1;
        } else {
          assert line[j..][1..] == line[j + 1..];
          inQuotes := !inQuotes;
        }
      } else if c == ',' && !inQuotes {
        assert line[j..][1..] == line[j + 1..];
        cells := cells + [Clean(current)];
        current := "";
      } else {
        assert line[j..][1..] == line[j + 1..];
        current := current + [c];
      }
      j := j + 1;
    }
    cells := cells + [Clean(current)];
  }

  /** The commas of `rest` that are outside quotes, with quoting tracked the
      way the tokenizer tracks it (an escaped `""` inside quotes does not
      toggle). */
  function CommasOutside(rest: string, inQuotes: bool): nat
    decreases |rest|
  {
    if rest == [] then 0
    else if rest[0] == '"' then
      if inQuotes && |rest| > 1 && rest[1] == '"' then CommasOutside(rest[2..], inQuotes)
      else CommasOutside(rest[1..], !inQuotes)
    else if rest[0] == ',' && !inQuotes then 1 + CommasOutside(rest[1..], inQuotes)
    else CommasOutside(rest[1..], inQuotes)
  }

  lemma {:induction false} ScanCount(rest: string, inQuotes: bool, current: string, cells: seq<string>)
    ensures |Scan(rest, inQuotes, current, cells)| == |cells| + CommasOutside(rest, inQuotes) + 1
    decreases |rest|
  {
    if rest == [] {
    } else if rest[0] == '"' {
      if inQuotes && |rest| > 1 && rest[1] == '"' {
        ScanCount(rest[2..], inQuotes, current + "\"", cells);
      } else {
        ScanCount(rest[1..], !inQuotes, current, cells);
      }
    } else if rest[0] == ',' && !inQuotes {
      ScanCount(rest[1..], inQuotes, "", cells + [Clean(current)]);
    } else {
      ScanCount(rest[1..], inQuotes, current + [rest[0]], cells);
    }
  }

  /** A line has one cell more than it has commas outside quotes. */
  lemma CellCount(line: string)
    ensures |Tokenize(line)| == CommasOutside(line, false) + 1
  {
    ScanCount(line, false, "", []);
  }

  /** `""` doubled for every `"`: the inside of a quoted field. */
  function Escape(c: string): string {
    if c == [] then [] else if c[0] == '"' then "\"\"" + Escape(c[1..]) else [c[0]] + Escape(c[1..])
  }

  /** A cell written as a quoted field. */
  function EncodeField(c: string): string {
    "\"" + Escape(c) + "\""
  }

  /** Cells written as one line of quoted fields separated by commas. */
  function EncodeRecord(cells: seq<string>): string
    requires |cells| >= 1
  {
    if |cells| == 1 then EncodeField(cells[0])
    else EncodeField(cells[0]) + "," + EncodeRecord(cells[1..])
  }

  /** Reading an escaped field body inside quotes, up to and including the
      closing quote, appends the cell to `current` and leaves quoting. */
  lemma {:induction false} ScanEscaped(c: string, rest: string, current: string, cells: seq<string>)
    requires rest == [] || rest[0] != '"'
    ensures Scan(Escape(c) + "\"" + rest, true, current, cells) == Scan(rest, false, current + c, cells)
    decreases |c|
  {
    if c == [] {
      assert Escape(c) + "\"" + rest == "\"" + rest;
      assert ("\"" + rest)[1..] == rest;
      assert current + c == current;
    } else {
      ScanEscaped(c[1..], rest, current + [c[0]], cells);
      EscapeFirst(c, rest);
      ConsAppend(current, c);
      if c[0] == '"' {
        ScanQuotePair(Escape(c[1..]) + "\"" + rest, current, cells);
      } else {
        ScanQuotedChar(c[0], Escape(c[1..]) + "\"" + rest, current, cells);
      }
    }
  }

  /** The escaped text of a non-empty cell is the escaped first character
      followed by the escaped rest. */
  lemma EscapeFirst(c: string, rest: string)
    requires c != []
    ensures Escape(c) + "\"" + rest
         == (if c[0] == '"' then "\"\"" else [c[0]]) + (Escape(c[1..]) + "\"" + rest)
  {
    if c[0] == '"' {
      AppendAssoc3("\"\"", Escape(c[1..]), rest);
    } else {
      AppendAssoc3([c[0]], Escape(c[1..]), rest);
    }
  }

  lemma AppendAssoc3(h: string, e: string, rest: string)
    ensures h + e + "\"" + rest == h + (e + "\"" + rest)
  {
    AppendAssoc(h + e, "\"", rest);
    AppendAssoc(h, e, "\"" + rest);
    AppendAssoc(e, "\"", rest);
  }

  lemma ConsAppend(current: string, c: string)
    requires c != []
    ensures current + [c[0]] + c[1..] == current + c
  {
    AppendAssoc(current, [c[0]], c[1..]);
    assert [c[0]] + c[1..] == c;
  }

  /** Inside quotes, a doubled quote adds one quote to the cell. */
  lemma ScanQuotePair(tail: string, current: string, cells: seq<string>)
    ensures Scan("\"\"" + tail, true, current, cells) == Scan(tail, true, current + "\"", cells)
  {
    assert ("\"\"" + tail)[2..] == tail;
  }

  /** Inside quotes, any other character is added to the cell. */
  lemma ScanQuotedChar(x: char, tail: string, current: string, cells: seq<string>)
    requires x != '"'
    ensures Scan([x] + tail, true, current, cells) == Scan(tail, true, current + [x], cells)
  {
    assert ([x] + tail)[1..] == tail;
  }

  /** Reading one quoted field leaves its cell as the current value. */
  lemma ScanField(c: string, rest: string, cells: seq<string>)
    requires rest == [] || rest[0] != '"'
    ensures Scan(EncodeField(c) + rest, false, "", cells) == Scan(rest, false, c, cells)
  {
    var body := Escape(c) + "\"" + rest;
    assert EncodeField(c) + rest == "\"" + body;
    assert ("\"" + body)[1..] == body;
    ScanEscaped(c, rest, "", cells);
    assert "" + c == c;
  }

  /** A comma outside quotes pushes the current cell. */
  lemma ScanComma(current: string, more: string, cells: seq<string>)
    ensures Scan("," + more, false, current, cells) == Scan(more, false, "", cells + [Clean(current)])
  {
    assert ("," + more)[1..] == more;
  }

  lemma {:induction false} ScanRecord(cs: seq<string>, cells: seq<string>)
    requires |cs| >= 1
    requires forall i :: 0 <= i < |cs| ==> IsClean(cs[i])
    ensures Scan(EncodeRecord(cs), false, "", cells) == cells + cs
    decreases |cs|
  {
    if |cs| == 1 {
      ScanLastField(cs[0], cells);
    } else {
      assert forall i :: 0 <= i < |cs[1..]| ==> IsClean(cs[1..][i]) by {
        forall i | 0 <= i < |cs[1..]| ensures IsClean(cs[1..][i]) { assert cs[1..][i] == cs[i + 1]; }
      }
      ScanFieldComma(cs[0], EncodeRecord(cs[1..]), cells);
      ScanRecord(cs[1..], cells + [cs[0]]);
      assert cells + [cs[0]] + cs[1..] == cells + cs;
    }
  }

  /** The last field of a line ends the record with its cell. */
  lemma ScanLastField(c: string, cells: seq<string>)
    requires IsClean(c)
    ensures Scan(EncodeField(c), false, "", cells) == cells + [c]
  {
    CleanFixes(c);
    assert EncodeField(c) == EncodeField(c) + "";
    ScanField(c, "", cells);
  }

  /** A field followed by a comma pushes its cell. */
  lemma ScanFieldComma(c: string, more: string, cells: seq<string>)
    requires IsClean(c)
    ensures Scan(EncodeField(c) + "," + more, false, "", cells) == Scan(more, false, "", cells + [c])
  {
    CleanFixes(c);
    assert EncodeField(c) + "," + more == EncodeField(c) + ("," + more);
    ScanField(c, "," + more, cells);
    ScanComma(c, more, cells);
  }

  /** Quoting every field and doubling inner quotes is read back exactly by
      the tokenizer, for cells that cleaning would not change. */
  lemma RecordRoundTrip(cs: seq<string>)
    requires |cs| >= 1
    requires forall i :: 0 <= i < |cs| ==> IsClean(cs[i])
    ensures Tokenize(EncodeRecord(cs)) == cs
  {
    ScanRecord(cs, []);
  }

  /** The `"a,b""c"` field of a line is the one cell `a,b"c`: the comma is
      inside quotes and the doubled quote is one quote. */
  lemma EscapedQuoteExample()
    ensures Tokenize("\"a,b\"\"c\"") == ["a,b\"c"]
  {
    var c := "a,b\"c";
    assert Escape(c) == "a,b\"\"c";
    assert EncodeRecord([c]) == "\"a,b\"\"c\"";
    assert IsClean(c);
    RecordRoundTrip([c]);
  }

  /** `lines[0].split(",").map((h) => h.trim().replace(/^"|"$/g, ""))`: the
      header line is cut at every comma, quoted or not. */
  function HeaderList(line: string): (headers: seq<string>)
    ensures |headers| == CountChar(line, ',') + 1
  {
    var parts := Split(line, ',');
    SplitCount(line, ',');
    seq(|parts|, i requires 0 <= i < |parts| => Clean(parts[i]))
  }

  /** The cells of one data line: none for a line that trims to nothing
      (`if (!line) continue`), the tokenizer's cells otherwise. */
  function LineCells(line: string): seq<string> {
    var t := Trim(line);
    if t == "" then [] else Tokenize(t)
  }

  /** The cell lists of the data lines, in order. */
  function CellLists(lines: seq<string>): (lists: seq<seq<string>>)
    ensures |lists| == |lines|
  {
    seq(|lines|, i requires 0 <= i < |lines| => LineCells(lines[i]))
  }

  /** The lines of the input: `csvText.trim().split("\n")`. It always has a
      first line, so the `lines.length < 1` error is never thrown. */
  function TextLines(csvText: string): (lines: seq<string>)
    ensures |lines| >= 1
  {
    Split(Trim(csvText), '\n')
  }

  /** What `parseCSVData` returns. */
  function CsvData(env: DateEnv, csvText: string): ParsedData {
    var lines := TextLines(csvText);
    var headers := HeaderList(lines[0]);
    var (mapping, warnings) := MapFields(ExpectedFields, headers);
    ParsedData(headers, RowsOf(env, headers, CellLists(lines[1..])), mapping, warnings)
  }

  /** One more data line adds its row, if it has one. */
  lemma RowsStep(env: DateEnv, headers: seq<string>, lines: seq<string>, i: nat)
    requires i < |lines|
    ensures RowsOf(env, headers, CellLists(lines[..i + 1]))
         == RowsOf(env, headers, CellLists(lines[..i]))
            + if HasContent(LineCells(lines[i])) then [RowOf(env, headers, LineCells(lines[i]))] else []
  {
    var lists := CellLists(lines[..i + 1]);
    assert lists[..i] == CellLists(lines[..i]);
  }

  /** The data-line loop of `parseCSVData` over `lines` (the lines after the
      header line). */
  method CollectRows(env: DateEnv, headers: seq<string>, lines: seq<string>) returns (rows: seq<Row>)
    ensures rows == RowsOf(env, headers, CellLists(lines))
  {
    rows := [];
    var i := 0;
    while i < |lines|
      invariant 0 <= i <= |lines|
      invariant rows == RowsOf(env, headers, CellLists(lines[..i]))
    {
      RowsStep(env, headers, lines, i);
      var line := Trim(lines[i]);
      if line != "" {
        var cells := SplitCells(line);
        if HasContent(cells) {
          var row := BuildRow(env, headers, cells);
          rows := rows + [row];
        }
      }
      i := i + 1;
    }
    assert lines[..i] == lines;
  }

  /** `parseCSVData`, as the source writes it. */
  method ParseCsv(env: DateEnv, csvText: string) returns (d: ParsedData)
    ensures d == CsvData(env, csvText)
  {
    var lines := TextLines(csvText);
    var headers := HeaderList(lines[0]);
    var rows := CollectRows(env, headers, lines[1..]);
    var mapping, warnings := BuildMapping(ExpectedFields, headers);
    d := ParsedData(headers, rows, mapping, warnings);
  }

  /** Input that is empty or all whitespace does not throw: it has the one
      empty header, no rows, an empty mapping and all twelve warnings. */
  lemma BlankInput(env: DateEnv, csvText: string)
    requires AllSpace(csvText)
    ensures var d := CsvData(env, csvText);
      d.headers == [""] && d.rows == [] && d.headerMapping == map[]
      && d.warnings == seq(12, i requires 0 <= i < 12 => MissingWarning(ExpectedFields[i]))
  {
    TrimAllSpace(csvText);
    assert IndexOf("", '\n') == 0 && IndexOf("", ',') == 0;
    assert TextLines(csvText) == [""];
    assert Split("", ',') == [""];
    assert Clean("") == "" by { assert Trim("") == ""; }
    var headers := HeaderList("");
    assert headers == [""];
    forall i | 0 <= i < |ExpectedFields|
      ensures FindBestMatch(ExpectedFields[i], [""]) == None
    {
      var f := ExpectedFields[i];
      assert NoEdgeSpace(f) && f != "";
      TrimShape(f);
      NoMatchInEmptyHeader(f);
    }
    NothingMatched(ExpectedFields, f => FindBestMatch(f, headers));
  }

  lemma {:induction false} EscapeAbsent(c: string, x: char)
    requires x != '"' && x !in c
    ensures x !in Escape(c)
  {
    if c != [] {
      EscapeAbsent(c[1..], x);
    }
  }

  /** A character other than `"` and `,` that no cell holds is not in the
      encoded line. */
  lemma {:induction false} RecordAbsent(cs: seq<string>, x: char)
    requires |cs| >= 1
    requires x != '"' && x != ',' && forall i :: 0 <= i < |cs| ==> x !in cs[i]
    ensures x !in EncodeRecord(cs)
  {
    EscapeAbsent(cs[0], x);
    if |cs| > 1 {
      RecordAbsent(cs[1..], x);
    }
  }

  /** An encoded line starts and ends with a quote. */
  lemma {:induction false} RecordEdges(cs: seq<string>)
    requires |cs| >= 1
    ensures var e := EncodeRecord(cs); |e| >= 2 && e[0] == '"' && e[|e| - 1] == '"'
  {
    if |cs| > 1 {
      RecordEdges(cs[1..]);
    }
  }

  /** An encoded line of clean cells reads back as those cells. */
  lemma RecordLineCells(cs: seq<string>)
    requires |cs| >= 1
    requires forall i :: 0 <= i < |cs| ==> IsClean(cs[i])
    ensures LineCells(EncodeRecord(cs)) == cs
  {
    var e := EncodeRecord(cs);
    RecordEdges(cs);
    assert NoEdgeSpace(e);
    TrimShape(e);
    RecordRoundTrip(cs);
  }

  /** The encoded lines of a list of records. */
  function EncodeRecords(records: seq<seq<string>>): (lines: seq<string>)
    requires forall i :: 0 <= i < |records| ==> |records[i]| >= 1
    ensures |lines| == |records|
  {
    seq(|records|, i requires 0 <= i < |records| => EncodeRecord(records[i]))
  }

  /** A table written as delimited text: the header names joined by commas,
      then one line of quoted fields per record. */
  function EncodeCsv(headers: seq<string>, records: seq<seq<string>>): string
    requires forall i :: 0 <= i < |records| ==> |records[i]| >= 1
  {
    Join([Join(headers, ',')] + EncodeRecords(records), '\n')
  }

  /** A header name that survives the header line unchanged and is not a
      timestamp column. */
  predicate PlainHeader(h: string) {
    IsClean(h) && h != "" && ',' !in h && '\n' !in h && !IsTimestampHeader(h)
  }

  /** A cell value that survives the data line unchanged. */
  predicate PlainCell(c: string) {
    IsClean(c) && '\n' !in c
  }

  /** No encoded line holds a line break. */
  lemma RecordsNoBreak(records: seq<seq<string>>)
    requires forall i :: 0 <= i < |records| ==> (|records[i]| >= 1
      && forall k :: 0 <= k < |records[i]| ==> PlainCell(records[i][k]))
    ensures forall i :: 0 <= i < |records| ==> '\n' !in EncodeRecords(records)[i]
  {
    forall i | 0 <= i < |records| ensures '\n' !in EncodeRecords(records)[i] {
      RecordAbsent(records[i], '\n');
    }
  }

  /** An encoded table has no edge whitespace. */
  lemma EncodedEdges(headers: seq<string>, lines: seq<string>, records: seq<seq<string>>)
    requires |headers| >= 1
    requires forall k :: 0 <= k < |headers| ==> PlainHeader(headers[k])
    requires forall i :: 0 <= i < |records| ==> |records[i]| >= 1
    requires lines == EncodeRecords(records)
    ensures NoEdgeSpace(Join([Join(headers, ',')] + lines, '\n'))
  {
    var h := Join(headers, ',');
    JoinFirst(headers, ',');
    var parts := [h] + lines;
    if lines == [] {
      JoinLast(headers, ',');
      assert parts[|parts| - 1] == h;
    } else {
      RecordEdges(records[|records| - 1]);
      assert parts[|parts| - 1] == EncodeRecord(records[|records| - 1]);
    }
    JoinEdges(parts, '\n');
  }

  /** No line of an encoded table holds a line break. */
  lemma PartsNoBreak(headers: seq<string>, records: seq<seq<string>>, parts: seq<string>)
    requires forall k :: 0 <= k < |headers| ==> PlainHeader(headers[k])
    requires forall i :: 0 <= i < |records| ==> (|records[i]| >= 1
      && forall k :: 0 <= k < |records[i]| ==> PlainCell(records[i][k]))
    requires parts == [Join(headers, ',')] + EncodeRecords(records)
    ensures forall i :: 0 <= i < |parts| ==> '\n' !in parts[i]
  {
    var e := EncodeRecords(records);
    JoinAbsent(headers, ',', '\n');
    RecordsNoBreak(records);
    forall i | 0 < i < |parts| ensures '\n' !in parts[i] {
      assert parts[i] == e[i - 1];
    }
  }

  /** The first line of an encoded table is the header line, and the rest
      are the encoded records. */
  lemma EncodedLines(headers: seq<string>, records: seq<seq<string>>)
    requires |headers| >= 1
    requires forall k :: 0 <= k < |headers| ==> PlainHeader(headers[k])
    requires forall i :: 0 <= i < |records| ==> (|records[i]| >= 1
      && forall k :: 0 <= k < |records[i]| ==> PlainCell(records[i][k]))
    ensures TextLines(EncodeCsv(headers, records)) == [Join(headers, ',')] + EncodeRecords(records)
  {
    var parts := [Join(headers, ',')] + EncodeRecords(records);
    var text := Join(parts, '\n');
    assert EncodeCsv(headers, records) == text;
    EncodedEdges(headers, EncodeRecords(records), records);
    TrimShape(text);
    assert Trim(text) == text;
    PartsNoBreak(headers, records, parts);
    SplitJoin(parts, '\n');
    assert TextLines(text) == Split(text, '\n');
  }

  /** The header line of an encoded table gives back the header names. */
  lemma EncodedHeaders(headers: seq<string>)
    requires |headers| >= 1
    requires forall k :: 0 <= k < |headers| ==> PlainHeader(headers[k])
    ensures HeaderList(Join(headers, ',')) == headers
  {
    SplitJoin(headers, ',');
    forall k | 0 <= k < |headers| ensures Clean(headers[k]) == headers[k] {
      CleanFixes(headers[k]);
    }
  }

  /** The data lines of an encoded table give back the records. */
  lemma EncodedCells(records: seq<seq<string>>)
    requires forall i :: 0 <= i < |records| ==> (|records[i]| >= 1
      && forall k :: 0 <= k < |records[i]| ==> PlainCell(records[i][k]))
    ensures CellLists(EncodeRecords(records)) == records
  {
    forall i | 0 <= i < |records|
      ensures CellLists(EncodeRecords(records))[i] == records[i]
    {
      RecordLineCells(records[i]);
    }
  }

  /** Writing a table as delimited text and parsing it gives the table back:
      the header names, and for each record a row mapping every header to
      its cell, provided names and cells contain nothing the format would
      alter (edge whitespace or quotes, line breaks, commas in names), the
      names are distinct and none is a timestamp column, and every record has
      a non-empty cell. */
  lemma CsvRoundTrip(env: DateEnv, headers: seq<string>, records: seq<seq<string>>)
    requires |headers| >= 1
    requires forall k :: 0 <= k < |headers| ==> PlainHeader(headers[k])
    requires forall k, l :: 0 <= k < l < |headers| ==> headers[k] != headers[l]
    requires forall i :: 0 <= i < |records| ==> (|records[i]| == |headers| && HasContent(records[i])
      && forall k :: 0 <= k < |records[i]| ==> PlainCell(records[i][k]))
    ensures var d := CsvData(env, EncodeCsv(headers, records));
      d.headers == headers && |d.rows| == |records|
      && forall i, k :: 0 <= i < |records| && 0 <= k < |headers| ==>
           headers[k] in d.rows[i] && d.rows[i][headers[k]] == Text(records[i][k])
  {
    EncodedLines(headers, records);
    var lines := TextLines(EncodeCsv(headers, records));
    assert lines[1..] == EncodeRecords(records);
    EncodedHeaders(headers);
    EncodedCells(records);
    AllContent(records);
    RowsPerContentLine(env, headers, records);
    var d := CsvData(env, EncodeCsv(headers, records));
    assert d.rows == RowsOf(env, headers, records);
    forall i, k | 0 <= i < |records| && 0 <= k < |headers|
      ensures headers[k] in d.rows[i] && d.rows[i][headers[k]] == Text(records[i][k])
    {
      RowLastWins(env, headers, records[i], k);
    }
  }
}
