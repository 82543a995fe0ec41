/** The values the parser produces and the aggregations consume
    (`ParsedRow` and `ParsedData`, lib/data-parser.ts:1-10). */
module Rows {
  import opened Wrappers

  /** The arguments of `new Date(year, monthIndex, day, hours, minutes, seconds)`. */
  datatype DateFields = DateFields(year: int, monthIndex: int, day: int, hours: int, minutes: int, seconds: int)

  /** What the JavaScript host decides about dates. A `Date` is its time value
      (milliseconds since the epoch); everything that depends on the local
      time zone or on the engine's date-string grammar is a parameter:
      - `localTime(f)`: the time value of `new Date(f.year, f.monthIndex, ...)`;
      - `parse(s)`: the time value of `new Date(s)`, `None` for an Invalid Date;
      - `utcDay(t)`: `new Date(t).toISOString().split("T")[0]`;
      - `display(t)`: `String(new Date(t))`, the text a date becomes as an object key. */
  datatype DateEnv = DateEnv(
    localTime: DateFields -> int,
    parse: string -> Option<int>,
    utcDay: int -> string,
    display: int -> string)

  /** A cell value: a string, or a `Date` (held as its time value). */
  datatype Cell = Text(text: string) | Instant(time: int)

  /** A parsed row: actual header to cell value. */
  type Row = map<string, Cell>

  /** The result of one parse. */
  datatype ParsedData = ParsedData(
    headers: seq<string>,
    rows: seq<Row>,
    headerMapping: map<string, string>,
    warnings: seq<string>)

  /** `row[key]`, which is `undefined` when the row has no such key. */
  function Lookup(row: Row, key: string): Option<Cell> {
    if key in row then Some(row[key]) else None
  }

  /** JavaScript truthiness of a looked-up value: `undefined` and `""` are
      falsy, every other string and every `Date` object is truthy. */
  predicate Truthy(v: Option<Cell>) {
    match v
    case None => false
    case Some(Text(s)) => s != ""
    case Some(Instant(_)) => true
  }
}
