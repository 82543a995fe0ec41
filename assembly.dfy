/** The row-building rule shared by the delimited-text and the HTML parsers
    (lib/data-parser.ts:105-118 and 172-186): cells are matched to headers by
    position, timestamp columns go through the recogniser, and lines without
    a non-empty cell give no row. */
module Assembly {
  import opened Wrappers
  import opened Strings
  import opened Rows
  import opened Headers
  import opened Timestamps

  /** `cells[index] || ""`: a missing cell reads as the empty string. */
  function CellAt(cells: seq<string>, index: nat): string {
    if index < |cells| then cells[index] else ""
  }

  /** `normalizeHeader(header).includes("timestamp")`. */
  predicate IsTimestampHeader(header: string) {
    Contains(NormalizeHeader(header), "timestamp")
  }

  /** The value stored under `header` for the raw cell text `value`. */
  function CellValue(env: DateEnv, header: string, value: string): Cell {
    if IsTimestampHeader(header) then ParseTimestamp(env, value) else Text(value)
  }

  /** The row `headers.forEach((header, index) => row[header] = ...)` builds:
      one assignment per header in list order, so a later duplicate header
      overwrites an earlier one. */
  function RowOf(env: DateEnv, headers: seq<string>, cells: seq<string>): Row
    decreases |headers|
  {
    if headers == [] then map[]
    else
      var n := |headers| - 1;
      RowOf(env, headers[..n], cells)[headers[n] := CellValue(env, headers[n], CellAt(cells, n))]
  }

  /** The row has exactly the headers as its keys. */
  lemma {:induction false} RowKeys(env: DateEnv, headers: seq<string>, cells: seq<string>)
    ensures RowOf(env, headers, cells).Keys == set h | h in headers
    decreases |headers|
  {
    if headers != [] {
      var n := |headers| - 1;
      RowKeys(env, headers[..n], cells);
      assert headers == headers[..n] + [headers[n]];
      assert (set h | h in headers) == (set h | h in headers[..n]) + {headers[n]};
    }
  }

  /** The value under a header comes from the cell at that header's last
      position in the list; past the end of the cells it is `""`. */
  lemma {:induction false} RowLastWins(env: DateEnv, headers: seq<string>, cells: seq<string>, k: nat)
    requires k < |headers|
    requires forall j :: k < j < |headers| ==> headers[j] != headers[k]
    ensures headers[k] in RowOf(env, headers, cells)
    ensures RowOf(env, headers, cells)[headers[k]] == CellValue(env, headers[k], CellAt(cells, k))
    decreases |headers|
  {
    var n := |headers| - 1;
    if k < n {
      RowLastWins(env, headers[..n], cells, k);
    }
  }

  /** Cells beyond the last header are ignored. */
  lemma {:induction false} SurplusCellsIgnored(env: DateEnv, headers: seq<string>, cells: seq<string>, extra: seq<string>)
    requires |cells| >= |headers|
    ensures RowOf(env, headers, cells + extra) == RowOf(env, headers, cells)
    decreases |headers|
  {
    if headers != [] {
      var n := |headers| - 1;
      SurplusCellsIgnored(env, headers[..n], cells, extra);
      assert CellAt(cells + extra, n) == CellAt(cells, n);
    }
  }

  /** The `headers.forEach` loop, as the source writes it. */
  method BuildRow(env: DateEnv, headers: seq<string>, cells: seq<string>) returns (row: Row)
    ensures row == RowOf(env, headers, cells)
  {
    row := map[];
    var i := 0;
    while i < |headers|
      invariant 0 <= i <= |headers|
      invariant row == RowOf(env, headers[..i], cells)
    {
      assert headers[..i + 1][..i] == headers[..i];
      row := row[headers[i] := CellValue(env, headers[i], CellAt(cells, i))];
      i := i + 1;
    }
    assert headers[..i] == headers;
  }

  /** `cells.some((cell) => cell)`. */
  predicate HasContent(cells: seq<string>) {
    exists i :: 0 <= i < |cells| && cells[i] != ""
  }

  /** The rows built from a list of cell lists, one per line in order,
      skipping every line without a non-empty cell. */
  function RowsOf(env: DateEnv, headers: seq<string>, lines: seq<seq<string>>): seq<Row>
    decreases |lines|
  {
    if lines == [] then []
    else
      var n := |lines| - 1;
      RowsOf(env, headers, lines[..n])
        + if HasContent(lines[n]) then [RowOf(env, headers, lines[n])] else []
  }

  /** Rows come out in line order: the rows of two consecutive blocks of lines
      are the rows of the first block followed by those of the second. */
  lemma {:induction false} RowsInOrder(env: DateEnv, headers: seq<string>, a: seq<seq<string>>, b: seq<seq<string>>)
    ensures RowsOf(env, headers, a + b) == RowsOf(env, headers, a) + RowsOf(env, headers, b)
    decreases |b|
  {
    if b == [] {
      assert a + b == a;
    } else {
      var n := |b| - 1;
      assert (a + b)[..|a + b| - 1] == a + b[..n];
      RowsInOrder(env, headers, a, b[..n]);
    }
  }

  /** The lines that give a row, in order. */
  function ContentLines(lines: seq<seq<string>>): seq<seq<string>>
    decreases |lines|
  {
    if lines == [] then []
    else
      var n := |lines| - 1;
      ContentLines(lines[..n]) + if HasContent(lines[n]) then [lines[n]] else []
  }

  /** The rows are exactly one row per line with content, in order, each built
      against the full header list. */
  lemma {:induction false} RowsPerContentLine(env: DateEnv, headers: seq<string>, lines: seq<seq<string>>)
    ensures |RowsOf(env, headers, lines)| == |ContentLines(lines)|
    ensures forall i :: 0 <= i < |ContentLines(lines)| ==>
      RowsOf(env, headers, lines)[i] == RowOf(env, headers, ContentLines(lines)[i])
    decreases |lines|
  {
    if lines != [] {
      RowsPerContentLine(env, headers, lines[..|lines| - 1]);
    }
  }

  /** Every row has exactly the headers as its keys. */
  lemma RowsKeys(env: DateEnv, headers: seq<string>, lines: seq<seq<string>>)
    ensures forall i :: 0 <= i < |RowsOf(env, headers, lines)| ==>
      RowsOf(env, headers, lines)[i].Keys == set h | h in headers
  {
    RowsPerContentLine(env, headers, lines);
    forall i | 0 <= i < |RowsOf(env, headers, lines)|
      ensures RowsOf(env, headers, lines)[i].Keys == set h | h in headers
    {
      RowKeys(env, headers, ContentLines(lines)[i]);
    }
  }

  /** When every line has content, every line gives a row. */
  lemma {:induction false} AllContent(lines: seq<seq<string>>)
    requires forall i :: 0 <= i < |lines| ==> HasContent(lines[i])
    ensures ContentLines(lines) == lines
    decreases |lines|
  {
    if lines != [] {
      var n := |lines| - 1;
      AllContent(lines[..n]);
      assert lines[..n] + [lines[n]] == lines;
    }
  }
}
