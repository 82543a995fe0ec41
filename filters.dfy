/** The row filters of components/filters.tsx, as functions over the rows:
    the list of professions offered, the profession and date filters, the
    reset and the toggle of one profession in the selection. */
module Filters {
  import opened Wrappers
  import opened Strings
  import opened Rows
  import opened Tallies

  /** The actual column of a logical field: `headerMapping[field] || field`. */
  function Column(mapping: map<string, string>, field: string): string {
    if field in mapping && mapping[field] != "" then mapping[field] else field
  }

  // ---------------------------------------------------------------------
  // The professions offered
  // ---------------------------------------------------------------------

  /** `rows.map((r) => r[key]).filter(Boolean)`, keeping the string values. */
  function ProfessionValues(rows: seq<Row>, key: string): seq<string>
    decreases |rows|
  {
    if rows == [] then []
    else
      var n := |rows| - 1;
      ProfessionValues(rows[..n], key)
        + match Lookup(rows[n], key) case Some(Text(s)) => (if s != "" then [s] else []) case _ => []
  }

  /** Puts `x` before the first element not below it. */
  function InsertText(x: string, s: seq<string>): seq<string>
    decreases |s|
  {
    if s == [] then [x]
    else if !Lt(s[0], x) then [x] + s
    else [s[0]] + InsertText(x, s[1..])
  }

  /** `Array.prototype.sort()` on strings: ascending by character codes. */
  function SortTexts(s: seq<string>): seq<string>
    decreases |s|
  {
    if s == [] then [] else InsertText(s[0], SortTexts(s[1..]))
  }

  /** Strictly ascending, hence without repetition. */
  predicate Ascending(s: seq<string>) {
    forall i, j :: 0 <= i < j < |s| ==> Lt(s[i], s[j])
  }

  /** `Array.from(new Set(values)).sort()`. */
  function Professions(rows: seq<Row>, mapping: map<string, string>): seq<string> {
    SortTexts(Dedup(ProfessionValues(rows, Column(mapping, "Profession"))))
  }

  /** A value is collected exactly when some row holds it as a non-empty
      string under the key. */
  lemma {:induction false} ProfessionValuesSpec(rows: seq<Row>, key: string)
    ensures forall p :: p in ProfessionValues(rows, key) <==>
      p != "" && exists i :: 0 <= i < |rows| && Lookup(rows[i], key) == Some(Text(p))
    decreases |rows|
  {
    if rows != [] {
      var n := |rows| - 1;
      ProfessionValuesSpec(rows[..n], key);
      forall p ensures p in ProfessionValues(rows, key) <==>
        p != "" && exists i :: 0 <= i < |rows| && Lookup(rows[i], key) == Some(Text(p))
      {
        if p != "" && exists i :: 0 <= i < |rows| && Lookup(rows[i], key) == Some(Text(p)) {
          var i :| 0 <= i < |rows| && Lookup(rows[i], key) == Some(Text(p));
          if i < n {
            assert rows[..n][i] == rows[i];
          }
        }
        if p in ProfessionValues(rows[..n], key) {
          var i :| 0 <= i < n && Lookup(rows[..n][i], key) == Some(Text(p));
          assert rows[..n][i] == rows[i];
        }
      }
    }
  }

  /** Inserting adds exactly `x`. */
  lemma {:induction false} InsertTextPerm(x: string, s: seq<string>)
    ensures multiset(InsertText(x, s)) == multiset(s) + multiset{x}
    decreases |s|
  {
    if s != [] {
      assert s == [s[0]] + s[1..];
      if Lt(s[0], x) {
        InsertTextPerm(x, s[1..]);
      }
    }
  }

  /** Inserting a new element keeps an ascending list ascending. */
  lemma {:induction false} InsertTextAscending(x: string, s: seq<string>)
    requires Ascending(s) && x !in s
    ensures Ascending(InsertText(x, s))
    decreases |s|
  {
    if s != [] {
      if Lt(s[0], x) {
        InsertTextAscending(x, s[1..]);
        InsertTextPerm(x, s[1..]);
        var r := InsertText(x, s);
        assert r[1..] == InsertText(x, s[1..]);
        forall j | 0 < j < |r| ensures Lt(s[0], r[j]) {
          assert r[j] in multiset(InsertText(x, s[1..]));
        }
      } else {
        LtTotal(s[0], x);
        forall j | 0 < j < |s| ensures Lt(x, s[j]) {
          LtTransitive(x, s[0], s[j]);
        }
      }
    }
  }

  /** Sorting permutes the elements. */
  lemma {:induction false} SortTextsPerm(s: seq<string>)
    ensures multiset(SortTexts(s)) == multiset(s)
    decreases |s|
  {
    if s != [] {
      assert s == [s[0]] + s[1..];
      SortTextsPerm(s[1..]);
      InsertTextPerm(s[0], SortTexts(s[1..]));
    }
  }

  /** Sorting distinct strings yields them in strictly ascending order. */
  lemma {:induction false} SortTextsAscending(s: seq<string>)
    requires forall i, j :: 0 <= i < j < |s| ==> s[i] != s[j]
    ensures Ascending(SortTexts(s))
    decreases |s|
  {
    if s != [] {
      SortTextsAscending(s[1..]);
      SortTextsPerm(s[1..]);
      assert s[0] !in multiset(s[1..]);
      InsertTextAscending(s[0], SortTexts(s[1..]));
    }
  }

  /** The professions offered are the non-empty string values of the
      profession column, each once, in ascending order. */
  lemma ProfessionsSpec(rows: seq<Row>, mapping: map<string, string>)
    ensures var key := Column(mapping, "Profession");
      forall p :: p in Professions(rows, mapping) <==>
        p != "" && exists i :: 0 <= i < |rows| && Lookup(rows[i], key) == Some(Text(p))
    ensures Ascending(Professions(rows, mapping))
  {
    var values := ProfessionValues(rows, Column(mapping, "Profession"));
    ProfessionValuesSpec(rows, Column(mapping, "Profession"));
    DedupSpec(values);
    SortTextsPerm(Dedup(values));
    SortTextsAscending(Dedup(values));
    forall p ensures p in Professions(rows, mapping) <==> p in Dedup(values) {
      assert p in Professions(rows, mapping) <==> p in multiset(Dedup(values));
    }
  }

  // ---------------------------------------------------------------------
  // Filtering
  // ---------------------------------------------------------------------

  /** The date inputs: `""` when not set. */
  datatype DateRange = DateRange(start: string, end: string)

  /** `Array.prototype.filter`. */
  function Keep(rows: seq<Row>, p: Row -> bool): seq<Row>
    decreases |rows|
  {
    if rows == [] then []
    else
      var n := |rows| - 1;
      Keep(rows[..n], p) + if p(rows[n]) then [rows[n]] else []
  }

  /** Filtering keeps exactly the rows that pass, and distributes over
      concatenation, so the rows kept stay in their original order. */
  lemma {:induction false} KeepSpec(rows: seq<Row>, p: Row -> bool)
    ensures forall r :: r in Keep(rows, p) <==> r in rows && p(r)
    ensures |Keep(rows, p)| <= |rows|
    decreases |rows|
  {
    if rows != [] {
      var n := |rows| - 1;
      KeepSpec(rows[..n], p);
      assert rows == rows[..n] + [rows[n]];
    }
  }

  lemma {:induction false} KeepAppend(a: seq<Row>, b: seq<Row>, p: Row -> bool)
    ensures Keep(a + b, p) == Keep(a, p) + Keep(b, p)
    decreases |b|
  {
    if b == [] {
      assert a + b == a;
    } else {
      var n := |b| - 1;
      var init, r := b[..n], b[n];
      KeepAppend(a, init, p);
      assert b == init + [r];
      AppendAssoc(a, init, [r]);
      KeepSnoc(a + init, r, p);
      KeepSnoc(init, r, p);
      AppendAssoc(Keep(a, p), Keep(init, p), if p(r) then [r] else []);
    }
  }

  /** One more row is kept if it passes. */
  lemma KeepSnoc(rows: seq<Row>, r: Row, p: Row -> bool)
    ensures Keep(rows + [r], p) == Keep(rows, p) + if p(r) then [r] else []
  {
    assert (rows + [r])[..|rows|] == rows;
  }

  /** A filter every row passes changes nothing. */
  lemma {:induction false} KeepAll(rows: seq<Row>, p: Row -> bool)
    requires forall i :: 0 <= i < |rows| ==> p(rows[i])
    ensures Keep(rows, p) == rows
    decreases |rows|
  {
    if rows != [] {
      var n := |rows| - 1;
      KeepAll(rows[..n], p);
      assert rows == rows[..n] + [rows[n]];
    }
  }

  /** Filters that agree on every row keep the same rows. */
  lemma {:induction false} KeepSame(rows: seq<Row>, p: Row -> bool, q: Row -> bool)
    requires forall r :: p(r) == q(r)
    ensures Keep(rows, p) == Keep(rows, q)
    decreases |rows|
  {
    if rows != [] {
      KeepSame(rows[..|rows| - 1], p, q);
    }
  }

  /** Two filters in a row are one filter by both tests. */
  lemma {:induction false} KeepKeep(rows: seq<Row>, p: Row -> bool, q: Row -> bool)
    ensures Keep(Keep(rows, p), q) == Keep(rows, r => p(r) && q(r))
    decreases |rows|
  {
    if rows != [] {
      var n := |rows| - 1;
      KeepKeep(rows[..n], p, q);
      KeepAppend(Keep(rows[..n], p), if p(rows[n]) then [rows[n]] else [], q);
      assert Keep([rows[n]], q) == if q(rows[n]) then [rows[n]] else [];
      assert [rows[n]][..0] == [];
      assert Keep([], q) == [];
    }
  }

  /** `selectedProfessions.includes(r[key])`: only a string can be among
      the selected strings. */
  predicate Selected(row: Row, key: string, selected: seq<string>) {
    match Lookup(row, key)
    case Some(Text(s)) => s in selected
    case _ => false
  }

  /** `ts < new Date(bound)`, which is false when the bound is an Invalid
      Date; likewise `ts > new Date(bound)`. */
  predicate Before(t: int, bound: Option<int>) {
    bound.Some? && t < bound.value
  }

  predicate After(t: int, bound: Option<int>) {
    bound.Some? && t > bound.value
  }

  /** The date test of one row: a row without a `Date` under the timestamp
      column passes; otherwise neither set bound may exclude it. */
  predicate InRange(env: DateEnv, row: Row, key: string, range: DateRange) {
    match Lookup(row, key)
    case Some(Instant(t)) =>
      !(range.start != "" && Before(t, env.parse(range.start)))
      && !(range.end != "" && After(t, env.parse(range.end)))
    case _ => true
  }

  /** `applyFilters`: the profession filter when a profession is selected,
      then the date filter when a bound is set. */
  function ApplyFilters(env: DateEnv, rows: seq<Row>, mapping: map<string, string>,
                        selected: seq<string>, range: DateRange): seq<Row>
  {
    var pkey := Column(mapping, "Profession");
    var tkey := Column(mapping, "Timestamp");
    var byProfession := if |selected| > 0 then Keep(rows, r => Selected(r, pkey, selected)) else rows;
    if range.start != "" || range.end != "" then Keep(byProfession, r => InRange(env, r, tkey, range))
    else byProfession
  }

  /** The rows emitted are the input rows, in order, that pass both tests:
      the profession test only when something is selected. */
  lemma ApplyFiltersSpec(env: DateEnv, rows: seq<Row>, mapping: map<string, string>,
                         selected: seq<string>, range: DateRange)
    ensures var pkey := Column(mapping, "Profession"); var tkey := Column(mapping, "Timestamp");
      ApplyFilters(env, rows, mapping, selected, range)
      == Keep(rows, r => (|selected| == 0 || Selected(r, pkey, selected)) && InRange(env, r, tkey, range))
  {
    var pkey := Column(mapping, "Profession");
    var tkey := Column(mapping, "Timestamp");
    var sel := (r: Row) => Selected(r, pkey, selected);
    var date := (r: Row) => InRange(env, r, tkey, range);
    var both := (r: Row) => (|selected| == 0 || Selected(r, pkey, selected)) && InRange(env, r, tkey, range);
    if range.start != "" || range.end != "" {
      if |selected| > 0 {
        KeepKeep(rows, sel, date);
        KeepSame(rows, r => sel(r) && date(r), both);
      } else {
        KeepSame(rows, date, both);
      }
    } else if |selected| > 0 {
      KeepSame(rows, sel, both);
    } else {
      KeepAll(rows, both);
    }
  }

  /** Membership in the result: a row is emitted exactly when it is an input
      row that passes both tests; and no more rows come out than went in. */
  lemma ApplyFiltersMembers(env: DateEnv, rows: seq<Row>, mapping: map<string, string>,
                            selected: seq<string>, range: DateRange)
    ensures var out := ApplyFilters(env, rows, mapping, selected, range);
      |out| <= |rows|
      && forall r :: r in out <==> (r in rows
        && (|selected| == 0 || Selected(r, Column(mapping, "Profession"), selected))
        && InRange(env, r, Column(mapping, "Timestamp"), range))
  {
    ApplyFiltersSpec(env, rows, mapping, selected, range);
    var pkey := Column(mapping, "Profession");
    var tkey := Column(mapping, "Timestamp");
    KeepSpec(rows, r => (|selected| == 0 || Selected(r, pkey, selected)) && InRange(env, r, tkey, range));
  }

  /** With nothing selected and no bound set, every row is emitted. */
  lemma NoFilters(env: DateEnv, rows: seq<Row>, mapping: map<string, string>)
    ensures ApplyFilters(env, rows, mapping, [], DateRange("", "")) == rows
  {
  }

  /** With a selection, a row passes the profession test exactly when it
      holds one of the selected strings under the profession column. */
  lemma SelectedSpec(row: Row, key: string, selected: seq<string>)
    ensures Selected(row, key, selected) <==> exists p :: p in selected && Lookup(row, key) == Some(Text(p))
  {
    if Selected(row, key, selected) {
      var p := row[key].text;
      assert p in selected && Lookup(row, key) == Some(Text(p));
    }
  }

  /** A row without a `Date` under the timestamp column passes the date
      test, whatever the bounds. */
  lemma NonDateKept(env: DateEnv, row: Row, key: string, range: DateRange)
    requires !(Lookup(row, key).Some? && Lookup(row, key).value.Instant?)
    ensures InRange(env, row, key, range)
  {
  }

  /** With both bounds set and valid, a dated row passes exactly when its
      time lies between them, both ends included. */
  lemma InclusiveBounds(env: DateEnv, row: Row, key: string, range: DateRange, s: int, e: int, t: int)
    requires range.start != "" && env.parse(range.start) == Some(s)
    requires range.end != "" && env.parse(range.end) == Some(e)
    requires Lookup(row, key) == Some(Instant(t))
    ensures InRange(env, row, key, range) <==> s <= t <= e
  {
  }

  /** A bound that is not set, or does not parse to a valid date, excludes
      nothing; the other bound alone then decides. */
  lemma IgnoredStart(env: DateEnv, row: Row, key: string, range: DateRange, t: int)
    requires range.start == "" || env.parse(range.start).None?
    requires Lookup(row, key) == Some(Instant(t))
    ensures InRange(env, row, key, range) <==> !(range.end != "" && After(t, env.parse(range.end)))
  {
  }

  lemma IgnoredEnd(env: DateEnv, row: Row, key: string, range: DateRange, t: int)
    requires range.end == "" || env.parse(range.end).None?
    requires Lookup(row, key) == Some(Instant(t))
    ensures InRange(env, row, key, range) <==> !(range.start != "" && Before(t, env.parse(range.start)))
  {
  }

  /** The end bound is the instant `new Date(end)` denotes — midnight for a
      bare date — so a response one millisecond after it is left out. */
  lemma EndIsAnInstant(env: DateEnv, row: Row, key: string, range: DateRange, e: int)
    requires range.end != "" && env.parse(range.end) == Some(e)
    requires Lookup(row, key) == Some(Instant(e + 1))
    ensures !InRange(env, row, key, range)
  {
  }

  // ---------------------------------------------------------------------
  // Reset and the selection toggle
  // ---------------------------------------------------------------------

  /** The selection and the date inputs. */
  datatype FilterState = FilterState(selected: seq<string>, range: DateRange)

  /** `resetFilters`: the cleared state, and the rows it emits. */
  function ResetFilters(rows: seq<Row>): (FilterState, seq<Row>) {
    (FilterState([], DateRange("", "")), rows)
  }

  /** The rows reset emits are what applying the cleared state emits: all
      of them. */
  lemma ResetSpec(env: DateEnv, rows: seq<Row>, mapping: map<string, string>)
    ensures var (state, shown) := ResetFilters(rows);
      shown == rows
      && ApplyFilters(env, rows, mapping, state.selected, state.range) == shown
  {
    NoFilters(env, rows, mapping);
  }

  /** `prev.filter((p) => p !== prof)`. */
  function Remove(prev: seq<string>, prof: string): seq<string>
    decreases |prev|
  {
    if prev == [] then []
    else (if prev[0] != prof then [prev[0]] else []) + Remove(prev[1..], prof)
  }

  /** The toggle of one profession button. */
  function Toggle(prev: seq<string>, prof: string): seq<string> {
    if prof in prev then Remove(prev, prof) else prev + [prof]
  }

  /** Removing drops every copy of `prof` and keeps the rest in order; it
      leaves a list without `prof` as it is. */
  lemma {:induction false} RemoveSpec(prev: seq<string>, prof: string)
    ensures forall p :: p in Remove(prev, prof) <==> p in prev && p != prof
    ensures prof !in prev ==> Remove(prev, prof) == prev
    decreases |prev|
  {
    if prev != [] {
      RemoveSpec(prev[1..], prof);
      assert prev == [prev[0]] + prev[1..];
    }
  }

  /** The toggle flips whether `prof` is selected and leaves every other
      profession as it was. */
  lemma ToggleSpec(prev: seq<string>, prof: string)
    ensures prof in Toggle(prev, prof) <==> prof !in prev
    ensures forall p :: p != prof ==> (p in Toggle(prev, prof) <==> p in prev)
  {
    RemoveSpec(prev, prof);
  }

  /** Toggling a profession the selection lacks twice restores the
      selection; toggling one it holds twice leaves the same professions
      selected. */
  lemma ToggleTwice(prev: seq<string>, prof: string)
    ensures prof !in prev ==> Toggle(Toggle(prev, prof), prof) == prev
    ensures forall p :: p in Toggle(Toggle(prev, prof), prof) <==> p in prev
  {
    RemoveSpec(prev, prof);
    RemoveSpec(prev + [prof], prof);
    if prof !in prev {
      assert Remove(prev + [prof], prof) == prev by {
        RemoveAppend(prev, [prof], prof);
      }
    } else {
      assert prof !in Remove(prev, prof);
    }
  }

  lemma {:induction false} RemoveAppend(a: seq<string>, b: seq<string>, prof: string)
    ensures Remove(a + b, prof) == Remove(a, prof) + Remove(b, prof)
    decreases |a|
  {
    if a == [] {
      assert a + b == b;
    } else {
      var x := a[0];
      RemoveAppend(a[1..], b, prof);
      assert (a + b)[0] == x;
      assert (a + b)[1..] == a[1..] + b;
      AppendAssoc(if x != prof then [x] else [], Remove(a[1..], prof), Remove(b, prof));
    }
  }
}
