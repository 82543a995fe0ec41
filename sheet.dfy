/** The format choice of `parseSheetData` (lib/data-parser.ts:206-225). The
    fetch is not modelled: the downloaded text is a parameter, and so is the
    first table the DOM parser would find in it. */
module Sheet {
  import opened Wrappers
  import opened Strings
  import opened Rows
  import opened Csv
  import opened Html

  /** `url.toLowerCase().endsWith(".csv") || !content.includes("<table")`. */
  predicate IsCsv(url: string, content: string) {
    EndsWith(Lower(url), ".csv") || !Contains(content, "<table")
  }

  /** What `parseSheetData` returns or throws for the text `content`
      downloaded from `url`, with `table` the rows of the first `table`
      element the markup holds. */
  function ParseSheet(env: DateEnv, url: string, content: string, table: Option<Table>): Result<ParsedData, string> {
    if IsCsv(url, content) then Success(CsvData(env, content)) else HtmlData(env, table)
  }

  /** The text is read as delimited text exactly when the address ends in
      `.csv` in any letter case or the text has no `<table` tag; it is then
      never rejected. Otherwise it is read as an HTML table, and fails only
      when there is no table or the table has no row. */
  lemma SheetOutcome(env: DateEnv, url: string, content: string, table: Option<Table>)
    ensures IsCsv(url, content) ==> ParseSheet(env, url, content, table) == Success(CsvData(env, content))
    ensures !IsCsv(url, content) ==> ParseSheet(env, url, content, table) == HtmlData(env, table)
    ensures ParseSheet(env, url, content, table).Failure? <==>
      !IsCsv(url, content) && (table.None? || table == Some([]))
    ensures ParseSheet(env, url, content, table).Failure? ==>
      ParseSheet(env, url, content, table).error in {NoTable, NoHeaderRow}
  {
    HtmlOutcome(env, table);
  }

  /** The extension test ignores letter case: an address ending in `.CSV`
      is read as delimited text whatever it holds. */
  lemma UpperCaseExtension(base: string, content: string)
    ensures IsCsv(base + ".CSV", content)
  {
    var url := base + ".CSV";
    LowerPointwise(url);
    var n := |url|;
    assert Lower(url)[n - 4..] == ".csv";
  }

  /** The markup test is case-sensitive: an upper-case `<TABLE` does not
      count, so such a page is read as delimited text. */
  lemma UpperCaseTagIsCsv()
    ensures IsCsv("sheet", "<TABLE>")
  {
    MissingCharNotContained("<TABLE>", "<table", 1);
  }
}
