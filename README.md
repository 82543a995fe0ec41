# Survey dashboard core, modelled in Dafny

A model of the data core of a survey dashboard. The dashboard reads a
published spreadsheet and shows charts and filters over the responses.
There are three parts:

- **Parsing** (lib/data-parser.ts). `normalizeHeader` and `findBestMatch`
  resolve the twelve expected fields to actual headers. `parseTimestamp`
  recognises `DD/MM/YYYY, HH:MM:SS` timestamps. `parseCSVData` is a
  quote-aware tokenizer: it assembles rows positionally against the header
  list and builds the header mapping and the warnings. The string-level
  half of `parseHTMLTable` works over already-extracted rows of cells.
  The CSV-or-HTML choice of `parseSheetData` is modelled too.
- **Aggregations** (lib/data-utils.ts). These are the most frequent
  profession, the profession and answer distributions, the responses per
  UTC day, and the satisfaction percentage.
- **Filters** (components/filters.tsx). These are the offered professions,
  `applyFilters`, `resetFilters` and the profession toggle. They are
  functions of the rows and of the filter state.

Modules follow the source:

- `Strings`: the JavaScript string operations used (`trim`, `toLowerCase`,
  `\s+` collapsing, `includes`, `split`, `join`, character order).
- `Headers`: `normalizeHeader` and `findBestMatch`.
- `Timestamps`: `parseTimestamp`.
- `Rows`: the row and date values.
- `Assembly`: building rows from cells, shared by both parsers.
- `Mapping`: the header mapping and its warnings.
- `Csv`: the CSV parser.
- `Html`: the HTML-table half.
- `Sheet`: the format choice.
- `Tallies`: count objects and `Map` counters.
- `Entries`: `Object.entries` order.
- `Sorting`: an insertion sort, which keeps tied entries in their original order.
- `DataUtils`: the aggregations.
- `Filters`: the filters.

How the source is represented:

- The loops of the source are methods, each proved equal to a
  specification function. These are `Csv.SplitCells`, `Csv.CollectRows`,
  `Csv.ParseCsv`, `Assembly.BuildRow`, `Mapping.BuildMapping`, the `Html`
  collectors, `DataUtils.ResponsesOverTime` and
  `DataUtils.CalculateSatisfaction`. The properties are proved as lemmas
  about those functions.
- A JavaScript `Date` is held as its time value. Everything the host
  decides about dates is a parameter, `Rows.DateEnv`:
  - the local-time constructor `new Date(y, m, d, h, mi, s)`;
  - the generic parse `new Date(s)`;
  - `toISOString().split("T")[0]`;
  - `String(date)`.
- A parsed row is a map from header to `Text(string)` or `Instant(time)`.
- The HTML table is given as its rows of cells, each a header or data cell
  with its `textContent`.
- `Math.round((yes / total) * 100)` is the exact round-half-up
  `(200 * yes + total) / (2 * total)`.

## Model

| member | source | states |
|---|---|---|
| Strings.TrimShape | lib/data-parser.ts:13 | a trimmed string has no whitespace at either end, and a string without edge whitespace is its own trim |
| Strings.TrimStartShape | lib/data-parser.ts:13 | trimming the start removes exactly the leading whitespace run |
| Strings.TrimEndShape | lib/data-parser.ts:13 | trimming the end removes exactly the trailing whitespace run |
| Strings.TrimPadded | lib/data-parser.ts:13 | `trim` ignores any whitespace added at either end |
| Strings.LowerShape | lib/data-parser.ts:13 | lower-casing yields a lower-case string, keeps whitespace where it is and leaves lower-case text unchanged |
| Strings.CollapseSingleSpaced | lib/data-parser.ts:13 | after `replace(/\s+/g, " ")` every whitespace character is a single plain space |
| Strings.CollapseFixpoint | lib/data-parser.ts:13 | a single-spaced string is unchanged by the collapse |
| Strings.ContainsAt | lib/data-parser.ts:25 | `includes` holds exactly when the needle occurs at some offset |
| Strings.EmptyContained | lib/data-parser.ts:25 | the empty string is contained in every string |
| Strings.Split | lib/data-parser.ts:66 | `split` on one character gives at least one piece, no piece holds the separator, and joining the pieces gives the text back |
| Strings.SplitCount | lib/data-parser.ts:72 | `split` gives one piece more than there are separators |
| Strings.SplitJoin | lib/data-parser.ts:66 | splitting a joined list gives the list back when no piece holds the separator |
| Strings.TrimAllSpace | lib/data-parser.ts:66 | whitespace-only text trims to the empty string |
| Strings.LtTotal | components/filters.tsx:21 | the default string order compares any two different strings |
| Strings.LtTransitive | components/filters.tsx:21 | the string order is transitive |
| Strings.LtIrreflexive | components/filters.tsx:21 | no string is before itself |
| Strings.LtAsymmetric | lib/data-utils.ts:55 | two strings are never each before the other |
| Headers.NormalizedShape | lib/data-parser.ts:12-14 | a normalised header has no edge whitespace, only single plain spaces, and no upper-case letter |
| Headers.NormalizeIdempotent | lib/data-parser.ts:12-14 | normalising twice is normalising once |
| Headers.NormalizeIgnoresCase | lib/data-parser.ts:13 | a header and its lower-case form normalise alike |
| Headers.NormalizeIgnoresPadding | lib/data-parser.ts:13 | surrounding whitespace does not change the normal form |
| Headers.NormalizeNonEmpty | lib/data-parser.ts:13 | a header with a non-whitespace character normalises to a non-empty string |
| Headers.FindExact | lib/data-parser.ts:20 | the index of the first header whose normal form equals the target's, or none |
| Headers.FindPartial | lib/data-parser.ts:24-26 | the index of the first header whose normal form contains or is contained in the target's, or none |
| Headers.BestIndex | lib/data-parser.ts:20-29 | a result is a non-empty header that matches exactly or partially; with no match either way there is no result |
| Headers.FindBestMatch | lib/data-parser.ts:16-30 | a result is a non-empty element of the available headers |
| Headers.MatchIsExactOrPartial | lib/data-parser.ts:16-30 | a result is at a position whose normal form equals, contains or is contained in the target's; without such a position the result is null |
| Headers.ExactMatchWins | lib/data-parser.ts:19-21 | the earliest non-empty exact match is the result, whatever partial matches exist |
| Headers.PartialMatchFallback | lib/data-parser.ts:23-29 | without an exact match, the earliest partial match is the result when non-empty, and the result is null when it is the empty header |
| Headers.EmptyHeaderFirstHidesPartials | lib/data-parser.ts:24-27 | an empty first header, being a substring of every target, hides every later partial match |
| Headers.NoMatchInEmptyHeader | lib/data-parser.ts:24-29 | against the single empty header of an empty input, no non-blank target matches |
| Timestamps.DigitRun | lib/data-parser.ts:37 | a greedy `\d{1,n}` takes as many digits as allowed and stops only at a non-digit or the limit |
| Timestamps.SpaceRun | lib/data-parser.ts:37 | `\s*` takes the whole whitespace run |
| Timestamps.TimeAtSound | lib/data-parser.ts:37 | a time read has the `\d{1,2}:\d{2}:\d{2}` shape and is a prefix of the text |
| Timestamps.TimeAtComplete | lib/data-parser.ts:37 | any way the time pattern matches at the start is the one read |
| Timestamps.DateAtSound | lib/data-parser.ts:37 | a date read has the `\d{1,2}/\d{1,2}/\d{4}` shape and the text is the date followed by the rest |
| Timestamps.DateAtComplete | lib/data-parser.ts:37 | any way the date pattern matches at the start is the one read |
| Timestamps.TailAtSound | lib/data-parser.ts:37 | the tail read is an optional comma, whitespace and a time, in that order at the start |
| Timestamps.TailAtComplete | lib/data-parser.ts:37 | any way `,?\s*` and the time match is the one read |
| Timestamps.MatchPrefixSound | lib/data-parser.ts:37 | the match tried at a position is a way for the whole pattern to match there |
| Timestamps.MatchPrefixComplete | lib/data-parser.ts:37 | every way for the pattern to match at a position is the match found there |
| Timestamps.MatchUnique | lib/data-parser.ts:37-39 | the pattern matches at a position in at most one way, so the captures are determined |
| Timestamps.Search | lib/data-parser.ts:37 | the unanchored search finds the leftmost position where the pattern matches, or reports that none does |
| Timestamps.FirstMatch | lib/data-parser.ts:37-38 | a match found has the shapes the pattern allows |
| Timestamps.ParseTimestamp | lib/data-parser.ts:32-60 | empty input gives "N/A"; any other string result is the input unchanged |
| Timestamps.LeftmostMatchDecides | lib/data-parser.ts:37-47 | the leftmost match gives the local-time date built from its captures, the month lowered by one |
| Timestamps.NoMatchFallsBack | lib/data-parser.ts:50-59 | without a match the generic parse decides: a valid date, otherwise the input string |
| Timestamps.NoMatchWithoutLeadingDigit | lib/data-parser.ts:37 | the pattern cannot match at a position that does not start with a digit |
| Timestamps.NoDigitsNoMatch | lib/data-parser.ts:37 | text without a digit matches nowhere |
| Timestamps.DayBeforeMonth | lib/data-parser.ts:39-47 | "05/03/2024, 14:30:00" is 5 March 2024 (month index 2), 14:30:00, local time |
| Timestamps.ExampleFields | lib/data-parser.ts:41-46 | the captures 05, 03, 2024, 14, 30, 00 give year 2024, month index 2, day 5 |
| Timestamps.NotADate | lib/data-parser.ts:51-59 | a string neither the pattern nor the generic parse accepts comes back unchanged |
| Assembly.RowKeys | lib/data-parser.ts:106-116 | a row's keys are exactly the headers |
| Assembly.RowLastWins | lib/data-parser.ts:107-116 | a header's value is that of its last position: the cell there, or "" past the end; timestamp headers go through `parseTimestamp` |
| Assembly.SurplusCellsIgnored | lib/data-parser.ts:107-108 | cells beyond the headers do not change the row |
| Assembly.BuildRow | lib/data-parser.ts:106-116 | the `forEach` over the headers builds the row the specification describes |
| Assembly.RowsInOrder | lib/data-parser.ts:76-118 | rows of consecutive lines are the rows of each part, in order |
| Assembly.RowsPerContentLine | lib/data-parser.ts:105-118 | exactly the lines with a non-empty cell give rows, one each, in order |
| Assembly.RowsKeys | lib/data-parser.ts:105-117 | every row has exactly the headers as keys |
| Assembly.AllContent | lib/data-parser.ts:105 | when every line has a non-empty cell, none is skipped |
| Csv.CleanShape | lib/data-parser.ts:97 | a cleaned cell is the trimmed cell less at most one `"` at each end |
| Csv.CleanFixes | lib/data-parser.ts:103 | a cell already clean is unchanged by cleaning |
| Csv.SplitCells | lib/data-parser.ts:81-103 | the tokenizer loop, with its `current`, `inQuotes` and `j++` skip, computes the specified cells |
| Csv.ScanCount | lib/data-parser.ts:85-103 | the scan adds one cell per comma outside quotes, plus the last |
| Csv.CellCount | lib/data-parser.ts:85-103 | a line has one cell more than it has commas outside quotes |
| Csv.ScanEscaped | lib/data-parser.ts:89-95 | inside quotes each `""` appends one `"`, and the closing quote ends the quoted run |
| Csv.ScanRecord | lib/data-parser.ts:85-103 | a line of quoted, comma-separated clean fields scans to those fields |
| Csv.RecordRoundTrip | lib/data-parser.ts:85-103 | tokenizing an encoded line of clean cells gives the cells back |
| Csv.EscapedQuoteExample | lib/data-parser.ts:89-92 | `"a,b""c"` is the single cell `a,b"c` |
| Csv.HeaderList | lib/data-parser.ts:72 | the header line splits on every comma, quotes or not: one header more than commas |
| Csv.CellLists | lib/data-parser.ts:76-78 | one cell list per data line, in order |
| Csv.TextLines | lib/data-parser.ts:66-69 | the trimmed text always splits into at least one line, so the empty-file error cannot occur |
| Csv.CollectRows | lib/data-parser.ts:75-119 | the row loop builds the specified rows |
| Csv.ParseCsv | lib/data-parser.ts:62-139 | `parseCSVData` computes the specified headers, rows, mapping and warnings |
| Csv.BlankInput | lib/data-parser.ts:66-69 | blank text gives the headers `[""]`, no rows, an empty mapping and twelve warnings |
| Csv.RecordLineCells | lib/data-parser.ts:77-103 | an encoded line of clean cells is read back as those cells |
| Csv.EncodedLines | lib/data-parser.ts:66 | encoded text splits back into the header line and the record lines |
| Csv.EncodedHeaders | lib/data-parser.ts:72 | a joined header list is read back as those headers |
| Csv.EncodedCells | lib/data-parser.ts:76-103 | encoded records are read back as those records |
| Csv.CsvRoundTrip | lib/data-parser.ts:62-139 | text written from headers and records parses to those headers and one row per record, holding each cell under its header |
| Mapping.MapFieldsBySpec | lib/data-parser.ts:122-132 | the mapping holds exactly the matched fields, each with its match; one warning per unmatched field, in field order |
| Mapping.MapFieldsSpec | lib/data-parser.ts:122-132 | with `findBestMatch`, every mapped header is a non-empty header of the list |
| Mapping.MapFieldsTotal | lib/data-parser.ts:125-132 | for distinct fields, mapping size plus warning count is the number of fields |
| Mapping.ExpectedTotal | lib/data-parser.ts:123-132 | mapping size plus warning count is 12 |
| Mapping.ExpectedDistinct | lib/data-parser.ts:123 | the twelve expected fields are distinct |
| Mapping.BuildMapping | lib/data-parser.ts:122-132 | the `forEach` fills the specified mapping and warnings |
| Mapping.NothingMatched | lib/data-parser.ts:125-131 | when no field matches, the mapping is empty and every field is warned about, in order |
| Html.HeaderNamesNonEmpty | lib/data-parser.ts:159-161 | no header name is empty |
| Html.HeaderNamesFromCells | lib/data-parser.ts:159-161 | every header name is the trimmed text of a cell of the first row |
| Html.HeaderNamesComplete | lib/data-parser.ts:159-161 | every cell of the first row with non-empty trimmed text gives a header |
| Html.HeaderNamesBlank | lib/data-parser.ts:159-161 | a first row of blank cells gives no headers |
| Html.DataCellsCount | lib/data-parser.ts:168-170 | one cell text per data cell |
| Html.DataCellsAppend | lib/data-parser.ts:168-170 | the data cells of a row are those of its parts, in order |
| Html.HeaderCellIgnored | lib/data-parser.ts:168 | a header cell in a body row contributes nothing |
| Html.BodyLists | lib/data-parser.ts:165-170 | one cell list per body row, in order |
| Html.HtmlOutcome | lib/data-parser.ts:147-157 | no table is the "No table found" error, a table without rows is the "No header row" error, and every table with a row parses |
| Html.HtmlShape | lib/data-parser.ts:159-205 | the headers are non-empty, the rows are one per body row with a non-empty cell, each keyed by the headers, and the mapping and warnings are those of the headers |
| Html.BlankHeaderRow | lib/data-parser.ts:159-199 | a blank first row gives no headers, empty rows, an empty mapping and twelve warnings |
| Html.CollectHeaders | lib/data-parser.ts:159-161 | the header loop computes the specified header names |
| Html.CollectCells | lib/data-parser.ts:168-170 | the cell loop computes the specified cell texts |
| Html.CollectBody | lib/data-parser.ts:164-186 | the body loop builds the specified rows |
| Html.ParseHtml | lib/data-parser.ts:141-206 | `parseHTMLTable` returns the specified data or error |
| Sheet.SheetOutcome | lib/data-parser.ts:214-220 | CSV exactly when the lower-cased address ends in `.csv` or the text lacks `<table`, and then never an error; otherwise HTML, failing only with no table or no row |
| Sheet.UpperCaseExtension | lib/data-parser.ts:214 | an address ending in `.CSV` is read as CSV |
| Sheet.UpperCaseTagIsCsv | lib/data-parser.ts:214 | the tag test is case-sensitive: text with `<TABLE>` is read as CSV |
| Tallies.TallySpec | lib/data-utils.ts:6-12 | the count object has distinct keys, exactly the keys seen, each counting its occurrences (at least one), totalling the number of keys |
| Tallies.TallyNames | lib/data-utils.ts:6-12 | the count object lists the keys in order of first appearance |
| Tallies.TallyCounts | lib/data-utils.ts:8 | each count is the number of occurrences of its key |
| Tallies.TallyTotal | lib/data-utils.ts:6-12 | the counts add up to the number of keys seen |
| Tallies.BumpSpec | lib/data-utils.ts:8 | one more sighting adds one to a present key in place, or appends a new key with count 1 |
| Tallies.DedupSpec | components/filters.tsx:20 | the distinct keys are exactly the keys seen, each once |
| Entries.ObjectEntriesContents | lib/data-utils.ts:14 | `Object.entries` lists every entry of the object once, with the same total |
| Entries.ObjectEntriesDistinct | lib/data-utils.ts:27 | `Object.entries` lists no key twice |
| Entries.ObjectEntriesOrder | lib/data-utils.ts:27 | array-index keys come first in ascending numeric order, and the other keys follow in insertion order |
| Entries.NoIndexKeys | lib/data-utils.ts:40 | without array-index keys the entries come in insertion order |
| Sorting.SortPerm | lib/data-utils.ts:55 | sorting permutes the entries |
| Sorting.SortSorted | lib/data-utils.ts:55 | sorting by a total preorder yields a sorted list |
| Sorting.SortDistinct | lib/data-utils.ts:55 | sorting keeps the keys distinct |
| DataUtils.FieldKeysCount | lib/data-utils.ts:5 | one key per row whose value is truthy |
| DataUtils.CountEntries | lib/data-utils.ts:19-27 | the entries of a count object have distinct names, counts of at least one equal to the occurrences, and a total equal to the number of keys |
| DataUtils.CountEntriesNames | lib/data-utils.ts:19-27 | the entries name exactly the keys seen |
| DataUtils.DistributionSpec | lib/data-utils.ts:17-41 | a distribution names each truthy value once, with a count of at least one equal to its occurrences; the counts sum to the number of truthy rows |
| DataUtils.DistributionOrder | lib/data-utils.ts:27 | without array-index values the distribution is in first-seen order |
| DataUtils.MaxIndex | lib/data-utils.ts:14 | the position of the first entry with the largest count: no entry has a larger count, and every earlier entry a smaller one |
| DataUtils.SortHeadIsMaxIndex | lib/data-utils.ts:14 | sorting the entries by descending count (`b[1] - a[1]`) puts first exactly the first entry with the largest count |
| DataUtils.TopOfIsTopBySort | lib/data-utils.ts:14 | the arg-max reading of `getTopProfession` equals taking the key of the first entry after the sort, "N/A" when there is none or it is empty |
| DataUtils.TopOfSpec | lib/data-utils.ts:14 | with no key the top is "N/A"; with no empty key it is a most frequent key; any other top is the first entry with the largest count |
| DataUtils.TopValueSpec | lib/data-utils.ts:4-15 | `getTopProfession` is "N/A" without a truthy value, otherwise a most frequent value, ties going to the entry listed first |
| DataUtils.TopExample | lib/data-utils.ts:4-15 | two nurses and a teacher give "Nurse" |
| DataUtils.DayKeysCount | lib/data-utils.ts:46-52 | one day key per date-valued row; string values are skipped |
| DataUtils.DayTotalOrder | lib/data-utils.ts:55 | the order taken for `localeCompare` on day keys is a total preorder |
| DataUtils.CountSumTotal | lib/data-utils.ts:56 | mapping to `{ date, count }` keeps the total |
| DataUtils.SeriesOrder | lib/data-utils.ts:54-56 | the series is strictly ascending by date, so no day appears twice |
| DataUtils.SeriesSpec | lib/data-utils.ts:43-56 | each day's count is its number of date-valued rows, and the counts sum to the number of date-valued rows |
| DataUtils.SeriesDays | lib/data-utils.ts:43-56 | the series has an entry for a day exactly when some row's date falls on it |
| DataUtils.RepresentsBump | lib/data-utils.ts:50 | setting a day to its previous count plus one, or to 1 when new, keeps the map in step with the count table |
| DataUtils.RepresentsEntries | lib/data-utils.ts:54 | `dateMap.entries()` lists the count table in insertion order |
| DataUtils.ResponsesOverTime | lib/data-utils.ts:43-57 | the `forEach` over the rows and the sort compute the specified series |
| DataUtils.SameDay | lib/data-utils.ts:49-56 | two dates on the same UTC day give one entry with count 2 |
| DataUtils.VotesSpec | lib/data-utils.ts:59-74 | the positives never exceed the total, which is at most two per row; the count fails exactly when a counted field holds a `Date` |
| DataUtils.PercentSpec | lib/data-utils.ts:76 | the percentage is the nearest integer to 100·yes/total with halves rounded up, lies in 0..100, and is 0 without votes |
| DataUtils.SatisfactionRange | lib/data-utils.ts:76 | the satisfaction lies in 0..100, and is 0 when nothing was counted |
| DataUtils.NoFields | lib/data-utils.ts:64 | with neither field supplied, nothing is counted |
| DataUtils.SatisfactionExample | lib/data-utils.ts:59-77 | a "Yes", a "No" to q10 and a "no" to q11 give 67 |
| DataUtils.CalculateSatisfaction | lib/data-utils.ts:59-77 | the counting loop computes the specified satisfaction, including the failure |
| Filters.ProfessionValuesSpec | components/filters.tsx:20 | a value is collected exactly when some row holds it as a non-empty string under the profession column |
| Filters.SortTextsPerm | components/filters.tsx:21 | sorting permutes the values |
| Filters.SortTextsAscending | components/filters.tsx:21 | sorting distinct values makes them strictly ascending |
| Filters.ProfessionsSpec | components/filters.tsx:19-21 | the offered professions are exactly the distinct truthy profession values, strictly ascending |
| Filters.KeepSpec | components/filters.tsx:27 | `filter` keeps exactly the rows satisfying the test, never more rows than given |
| Filters.KeepAppend | components/filters.tsx:33 | `filter` works row by row, keeping order |
| Filters.KeepAll | components/filters.tsx:33 | a test every row passes keeps all rows |
| Filters.KeepKeep | components/filters.tsx:24-41 | two filters in a row are one filter on both tests |
| Filters.ApplyFiltersSpec | components/filters.tsx:23-43 | the emitted rows are the input filtered by the combined profession and date test, so they keep the input order |
| Filters.ApplyFiltersMembers | components/filters.tsx:24-41 | a row is emitted exactly when it is an input row that passes the profession test (if a selection is made) and the date test |
| Filters.NoFilters | components/filters.tsx:26-32 | with no selection and no bounds the input rows are emitted unchanged |
| Filters.SelectedSpec | components/filters.tsx:27-29 | a row passes the profession test exactly when its value is a selected profession |
| Filters.NonDateKept | components/filters.tsx:34-35 | a row whose timestamp is not a date always passes the date test |
| Filters.InclusiveBounds | components/filters.tsx:37-39 | with both bounds set, a date passes exactly when it lies between them, inclusive |
| Filters.IgnoredStart | components/filters.tsx:37 | an empty or invalid start bound excludes nothing |
| Filters.IgnoredEnd | components/filters.tsx:38 | an empty or invalid end bound excludes nothing |
| Filters.EndIsAnInstant | components/filters.tsx:38 | the end bound is an instant: a date one millisecond later is excluded |
| Filters.ResetSpec | components/filters.tsx:46-50 | reset clears the selection and the range and emits the input rows, which are what the cleared state emits |
| Filters.RemoveSpec | components/filters.tsx:67 | removing drops every copy of the profession and keeps the rest |
| Filters.RemoveAppend | components/filters.tsx:67 | removal works element by element, keeping order |
| Filters.ToggleSpec | components/filters.tsx:66-67 | after a toggle the profession is selected exactly when it was not, and no other selection changes |
| Filters.ToggleTwice | components/filters.tsx:66-67 | toggling twice from a selection lacking the profession restores it exactly; toggling twice always restores membership |

## Left out

- Fetching the sheet, re-throwing its errors, and every `console` call in lib/data-parser.ts are not modelled. They are I/O.
- hooks/use-survey-data.ts (polling, refresh and React state) is not part of this model. It is concurrency and framework state.
- DOM parsing and querying in `parseHTMLTable` are replaced by the table they yield. The table is the optional list of `tr` rows, each a list of `th`/`td` cells with their `textContent`.
- The date semantics of the host are parameters, not computed. These are `new Date(y, m, d, h, mi, s)` with its local time zone and field rollover, `new Date(string)`, `toISOString` and `String(date)`.
- Float rounding is not modelled: `Math.round` of the float quotient is modelled as the exact rational round-half-up. At exact halves the float quotient can differ.
- Strings.Lower: lower-cases ASCII letters only. This is exact for the answers the code compares against ("yes", "y", "no", "n"), the `.csv` suffix and ASCII headers, but not for other letters.
- Strings.Lt: compares characters (Unicode code points). The default `sort()` compares UTF-16 code units; the two orders agree below U+FFFF.
- DataUtils.DayLe: `localeCompare` is taken as code-unit order. `localeCompare` uses the locale's collation, not code units. The two agree on day keys with four-digit years (`YYYY-MM-DD`). They differ for extended years such as `-000001-01-01` and `+010000-01-01`: the collation puts `-` before `+`, code units put `+` first. Such keys are reachable through the generic date parse.
- Sorting.SortBy and Filters.SortTexts are insertion sorts. They stand for the engine's sort, which is stable as ECMAScript requires; only the order produced is modelled.
- Prototype keys such as `__proto__` and `constructor` in the count objects are not modelled. Every key is taken as an ordinary own property.
- Filters.ProfessionValues: a `Date`-valued profession is left out of the offered professions. In the source it would be a `Date` object in the `Set`, compared by identity and never equal to a selected string.
- Values of type `number` in a row are not modelled, because the parsers never produce them.
- DataUtils.ResponsesOverTime holds the `Map` as its insertion order plus a key-to-count map. The lemma DataUtils.RepresentsEntries ties the two to the count table.
- DataUtils.CalculateSatisfaction checks a row for a `Date` value in a counted field before counting it. The source throws a TypeError at `.toLowerCase()` on that value, so no count from that call is ever seen. The failure message is the model's own text.
- Timestamps.ParseTimestamp: its contract states only the string outcomes. The date outcomes are stated by Timestamps.LeftmostMatchDecides and Timestamps.NoMatchFallsBack.
- The rule in app/page.tsx that shows all rows when the filtered set is empty is presentation glue and is not modelled. So are the chart, table, card and navigation components, and the configuration files.
- All members are functions of their inputs or methods that change nothing outside their results. That the source leaves its input rows unchanged and is deterministic holds by construction here; no separate lemma states it.
