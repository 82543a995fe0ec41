/** The string-level half of `parseHTMLTable` (lib/data-parser.ts:141-204).
    The DOM work — parsing the markup, finding the first `table`, its `tr`
    elements and their cells — is not modelled: the table arrives as the list
    of its rows, each the list of its `th`/`td` cells in document order with
    their `textContent`. */
module Html {
  import opened Wrappers
  import opened Strings
  import opened Rows
  import opened Headers
  import opened Assembly
  import opened Mapping

  /** One `th` (`isHeader`) or `td` cell and its text content. */
  datatype HtmlCell = HtmlCell(isHeader: bool, content: string)

  /** The rows of a table, each the cells of one `tr`. */
  type Table = seq<seq<HtmlCell>>

  const NoTable := "No table found in sheet"
  const NoHeaderRow := "No header row found"

  /** `textContent?.trim() || ""`. */
  function CellText(c: HtmlCell): string {
    Trim(c.content)
  }

  /** The header names: the trimmed text of every cell of the first row,
      with the empty ones dropped (`.filter((h) => h)`). */
  function HeaderNames(cells: seq<HtmlCell>): seq<string>
    decreases |cells|
  {
    if cells == [] then []
    else
      var n := |cells| - 1;
      HeaderNames(cells[..n]) + if CellText(cells[n]) != "" then [CellText(cells[n])] else []
  }

  /** No header name is empty. */
  lemma {:induction false} HeaderNamesNonEmpty(cells: seq<HtmlCell>)
    ensures forall k :: 0 <= k < |HeaderNames(cells)| ==> HeaderNames(cells)[k] != ""
    decreases |cells|
  {
    if cells != [] {
      HeaderNamesNonEmpty(cells[..|cells| - 1]);
    }
  }

  /** Every header name is the text of a cell of the row. */
  lemma {:induction false} HeaderNamesFromCells(cells: seq<HtmlCell>)
    ensures forall k :: 0 <= k < |HeaderNames(cells)| ==>
      exists j :: 0 <= j < |cells| && CellText(cells[j]) == HeaderNames(cells)[k]
    decreases |cells|
  {
    if cells != [] {
      var n := |cells| - 1;
      HeaderNamesFromCells(cells[..n]);
      var prev := HeaderNames(cells[..n]);
      var all := HeaderNames(cells);
      forall k | 0 <= k < |all|
        ensures exists j :: 0 <= j < |cells| && CellText(cells[j]) == all[k]
      {
        if k < |prev| {
          var j :| 0 <= j < |cells[..n]| && CellText(cells[..n][j]) == prev[k];
          assert cells[..n][j] == cells[j];
          assert all[k] == prev[k];
          assert CellText(cells[j]) == all[k];
        } else {
          assert all == prev + [CellText(cells[n])];
          assert CellText(cells[n]) == all[k];
        }
      }
    } else {
      assert HeaderNames(cells) == [];
    }
  }

  /** A row without text gives no header names. */
  lemma {:induction false} HeaderNamesBlank(cells: seq<HtmlCell>)
    requires forall j :: 0 <= j < |cells| ==> CellText(cells[j]) == ""
    ensures HeaderNames(cells) == []
    decreases |cells|
  {
    if cells != [] {
      var n := |cells| - 1;
      assert forall j :: 0 <= j < n ==> cells[..n][j] == cells[j];
      HeaderNamesBlank(cells[..n]);
    }
  }

  /** Every cell of the row with text gives a header name. */
  lemma {:induction false} HeaderNamesComplete(cells: seq<HtmlCell>)
    ensures forall j :: 0 <= j < |cells| && CellText(cells[j]) != "" ==> CellText(cells[j]) in HeaderNames(cells)
    decreases |cells|
  {
    if cells != [] {
      var n := |cells| - 1;
      HeaderNamesComplete(cells[..n]);
      forall j | 0 <= j < |cells| && CellText(cells[j]) != ""
        ensures CellText(cells[j]) in HeaderNames(cells)
      {
        if j < n {
          assert cells[..n][j] == cells[j];
        }
      }
    }
  }

  /** The cells of a body row: the trimmed text of its `td` cells only
      (`querySelectorAll("td")`), empty ones kept. */
  function DataCells(cells: seq<HtmlCell>): seq<string>
    decreases |cells|
  {
    if cells == [] then []
    else
      var n := |cells| - 1;
      DataCells(cells[..n]) + if cells[n].isHeader then [] else [CellText(cells[n])]
  }

  /** The number of `td` cells of a row. */
  function DataCount(cells: seq<HtmlCell>): nat
    decreases |cells|
  {
    if cells == [] then 0
    else
      var n := |cells| - 1;
      DataCount(cells[..n]) + if cells[n].isHeader then 0 else 1
  }

  /** A body row holds one cell per `td`. */
  lemma {:induction false} DataCellsCount(cells: seq<HtmlCell>)
    ensures |DataCells(cells)| == DataCount(cells)
    decreases |cells|
  {
    if cells != [] {
      DataCellsCount(cells[..|cells| - 1]);
    }
  }

  /** The cells of two consecutive runs of cells are those of the first run
      followed by those of the second. */
  lemma {:induction false} DataCellsAppend(a: seq<HtmlCell>, b: seq<HtmlCell>)
    ensures DataCells(a + b) == DataCells(a) + DataCells(b)
    decreases |b|
  {
    if b == [] {
      assert a + b == a;
    } else {
      var n := |b| - 1;
      var init, c := b[..n], b[n];
      DataCellsAppend(a, init);
      assert b == init + [c];
      AppendAssoc(a, init, [c]);
      DataCellsSnoc(a + init, c);
      DataCellsSnoc(init, c);
      AppendAssoc(DataCells(a), DataCells(init), if c.isHeader then [] else [CellText(c)]);
    }
  }

  /** One more cell adds its text if it is a `td`. */
  lemma DataCellsSnoc(x: seq<HtmlCell>, c: HtmlCell)
    ensures DataCells(x + [c]) == DataCells(x) + if c.isHeader then [] else [CellText(c)]
  {
    assert (x + [c])[..|x|] == x;
  }

  /** A `th` cell inside a body row shifts no other cell. */
  lemma HeaderCellIgnored(a: seq<HtmlCell>, b: seq<HtmlCell>, t: string)
    ensures DataCells(a + [HtmlCell(true, t)] + b) == DataCells(a + b)
  {
    DataCellsAppend(a + [HtmlCell(true, t)], b);
    DataCellsAppend(a, [HtmlCell(true, t)]);
    DataCellsAppend(a, b);
    assert DataCells([HtmlCell(true, t)]) == [] by {
      assert [HtmlCell(true, t)][..0] == [];
    }
  }

  /** The cell lists of the body rows. */
  function BodyLists(trs: Table): (lists: seq<seq<string>>)
    ensures |lists| == |trs|
  {
    seq(|trs|, i requires 0 <= i < |trs| => DataCells(trs[i]))
  }

  /** What `parseHTMLTable` returns or throws, for the rows of the first
      table of the document (`None` when it has none). */
  function HtmlData(env: DateEnv, table: Option<Table>): Result<ParsedData, string> {
    match table
    case None => Failure(NoTable)
    case Some(trs) =>
      if trs == [] then Failure(NoHeaderRow)
      else
        var headers := HeaderNames(trs[0]);
        var (mapping, warnings) := MapFields(ExpectedFields, headers);
        Success(ParsedData(headers, RowsOf(env, headers, BodyLists(trs[1..])), mapping, warnings))
  }

  /** The two errors, and success whenever the table has a row. */
  lemma HtmlOutcome(env: DateEnv, table: Option<Table>)
    ensures table.None? <==> HtmlData(env, table) == Failure(NoTable)
    ensures table == Some([]) <==> HtmlData(env, table) == Failure(NoHeaderRow)
    ensures (table.Some? && table.value != []) <==> HtmlData(env, table).Success?
  {
  }

  /** A successful parse has no empty header, one row per body row with a
      non-empty cell, each keyed by exactly the headers, and the mapping and
      warnings of the delimited-text parser for those headers. */
  lemma HtmlShape(env: DateEnv, trs: Table)
    requires trs != []
    ensures var d := HtmlData(env, Some(trs)).value;
      (forall k :: 0 <= k < |d.headers| ==> d.headers[k] != "")
      && |d.rows| == |ContentLines(BodyLists(trs[1..]))|
      && (forall i :: 0 <= i < |d.rows| ==> d.rows[i].Keys == set h | h in d.headers)
      && (d.headerMapping, d.warnings) == MapFields(ExpectedFields, d.headers)
  {
    var headers := HeaderNames(trs[0]);
    HeaderNamesNonEmpty(trs[0]);
    RowsPerContentLine(env, headers, BodyLists(trs[1..]));
    RowsKeys(env, headers, BodyLists(trs[1..]));
  }

  /** A header row without text gives no headers: every row is empty and
      all twelve fields are reported missing, in order. */
  lemma BlankHeaderRow(env: DateEnv, trs: Table)
    requires trs != []
    requires forall j :: 0 <= j < |trs[0]| ==> CellText(trs[0][j]) == ""
    ensures var d := HtmlData(env, Some(trs)).value;
      d.headers == []
      && (forall i :: 0 <= i < |d.rows| ==> d.rows[i] == map[])
      && d.headerMapping == map[]
      && d.warnings == seq(12, i requires 0 <= i < 12 => MissingWarning(ExpectedFields[i]))
  {
    HeaderNamesBlank(trs[0]);
    var headers := HeaderNames(trs[0]);
    RowsKeys(env, headers, BodyLists(trs[1..]));
    NothingMatched(ExpectedFields, f => FindBestMatch(f, headers));
  }

  /** The header-cell loop: `Array.from(...).map(...).filter(...)`. */
  method CollectHeaders(cells: seq<HtmlCell>) returns (headers: seq<string>)
    ensures headers == HeaderNames(cells)
  {
    headers := [];
    var j := 0;
    while j < |cells|
      invariant 0 <= j <= |cells|
      invariant headers == HeaderNames(cells[..j])
    {
      assert cells[..j + 1][..j] == cells[..j];
      var text := CellText(cells[j]);
      if text != "" {
        headers := headers + [text];
      }
      j := j + 1;
    }
    assert cells[..j] == cells;
  }

  /** The `td` cells of one body row. */
  method CollectCells(cells: seq<HtmlCell>) returns (texts: seq<string>)
    ensures texts == DataCells(cells)
  {
    texts := [];
    var j := 0;
    while j < |cells|
      invariant 0 <= j <= |cells|
      invariant texts == DataCells(cells[..j])
    {
      assert cells[..j + 1][..j] == cells[..j];
      if !cells[j].isHeader {
        texts := texts + [CellText(cells[j])];
      }
      j := j + 1;
    }
    assert cells[..j] == cells;
  }

  /** One more body row adds its row, if it has one. */
  lemma BodyStep(env: DateEnv, headers: seq<string>, trs: Table, i: nat)
    requires i < |trs|
    ensures RowsOf(env, headers, BodyLists(trs[..i + 1]))
         == RowsOf(env, headers, BodyLists(trs[..i]))
            + if HasContent(DataCells(trs[i])) then [RowOf(env, headers, DataCells(trs[i]))] else []
  {
    var lists := BodyLists(trs[..i + 1]);
    assert lists[..i] == BodyLists(trs[..i]);
  }

  /** The body-row loop `for (let i = 1; i < bodyRows.length; i++)`, over
      the rows after the header row. */
  method CollectBody(env: DateEnv, headers: seq<string>, body: Table) returns (rows: seq<Row>)
    ensures rows == RowsOf(env, headers, BodyLists(body))
  {
    rows := [];
    var i := 0;
    while i < |body|
      invariant 0 <= i <= |body|
      invariant rows == RowsOf(env, headers, BodyLists(body[..i]))
    {
      BodyStep(env, headers, body, i);
      var cells := CollectCells(body[i]);
      if HasContent(cells) {
        var row := BuildRow(env, headers, cells);
        rows := rows + [row];
      }
      i := i + 1;
    }
    assert body[..i] == body;
  }

  /** `parseHTMLTable`, with the thrown errors as failures. */
  method ParseHtml(env: DateEnv, table: Option<Table>) returns (r: Result<ParsedData, string>)
    ensures r == HtmlData(env, table)
  {
    if table.None? {
      return Failure(NoTable);
    }
    var trs := table.value;
    if |trs| == 0 {
      return Failure(NoHeaderRow);
    }
    var headers := CollectHeaders(trs[0]);
    var rows := CollectBody(env, headers, trs[1..]);
    var mapping, warnings := BuildMapping(ExpectedFields, headers);
    r := Success(ParsedData(headers, rows, mapping, warnings));
  }
}
