/** The aggregations of lib/data-utils.ts over parsed rows. */
module DataUtils {
  import opened Wrappers
  import opened Strings
  import opened Rows
  import opened Tallies
  import opened Sorting
  import opened Entries

  // ---------------------------------------------------------------------
  // Distributions and the most frequent value
  // ---------------------------------------------------------------------

  /** The property key a truthy value becomes in `acc[value]`: a string is
      its own key, a `Date` becomes `String(date)`. */
  function KeyOf(env: DateEnv, c: Cell): string {
    match c
    case Text(s) => s
    case Instant(t) => env.display(t)
  }

  /** `rows.map((r) => r[field]).filter(Boolean)`, as property keys. */
  function FieldKeys(env: DateEnv, rows: seq<Row>, field: string): seq<string>
    decreases |rows|
  {
    if rows == [] then []
    else
      var n := |rows| - 1;
      var v := Lookup(rows[n], field);
      FieldKeys(env, rows[..n], field) + if Truthy(v) then [KeyOf(env, v.value)] else []
  }

  /** The number of rows whose `field` holds a truthy value. */
  function TruthyCount(rows: seq<Row>, field: string): nat
    decreases |rows|
  {
    if rows == [] then 0
    else
      var n := |rows| - 1;
      TruthyCount(rows[..n], field) + if Truthy(Lookup(rows[n], field)) then 1 else 0
  }

  lemma {:induction false} FieldKeysCount(env: DateEnv, rows: seq<Row>, field: string)
    ensures |FieldKeys(env, rows, field)| == TruthyCount(rows, field)
    decreases |rows|
  {
    if rows != [] {
      FieldKeysCount(env, rows[..|rows| - 1], field);
    }
  }

  /** `getProfessionDistribution` and `getQuestionDistribution`, which have
      the same body: `Object.entries` of the count object, as
      `{ name, value }` entries. */
  function Distribution(env: DateEnv, rows: seq<Row>, field: string): seq<Slice> {
    ObjectEntries(Tally(FieldKeys(env, rows, field)))
  }

  /** The entries of a count table list each key seen once, with a count
      of at least one that is its number of occurrences; the keys listed are
      exactly those seen, and the counts add up to the number of keys. */
  lemma CountEntries(keys: seq<string>)
    ensures var d := ObjectEntries(Tally(keys));
      DistinctNames(d)
      && (forall i :: 0 <= i < |d| ==> d[i].value == Occurrences(keys, d[i].name) && d[i].value >= 1)
      && Total(d) == |keys|
  {
    var t := Tally(keys);
    var d := ObjectEntries(t);
    TallySpec(keys);
    ObjectEntriesContents(t);
    ObjectEntriesDistinct(t);
    forall i | 0 <= i < |d| ensures d[i].value == Occurrences(keys, d[i].name) && d[i].value >= 1 {
      assert d[i] in t;
    }
  }

  /** The keys listed by the entries of a count table are the keys seen. */
  lemma CountEntriesNames(keys: seq<string>)
    ensures forall k :: k in Names(ObjectEntries(Tally(keys))) <==> k in keys
  {
    var t := Tally(keys);
    var d := ObjectEntries(t);
    TallySpec(keys);
    ObjectEntriesContents(t);
    forall k ensures k in Names(d) <==> k in Names(t) {
      if k in Names(d) {
        var i :| 0 <= i < |d| && Names(d)[i] == k;
        assert d[i] in t;
        var j :| 0 <= j < |t| && t[j] == d[i];
        assert Names(t)[j] == k;
      }
      if k in Names(t) {
        var j :| 0 <= j < |t| && Names(t)[j] == k;
        assert t[j] in d;
        var i :| 0 <= i < |d| && d[i] == t[j];
        assert Names(d)[i] == k;
      }
    }
  }

  /** The distribution lists each value seen once, with a count of at least
      one that is its number of occurrences; the values listed are exactly
      those seen, and the counts add up to the number of rows whose field is
      truthy. */
  lemma DistributionSpec(env: DateEnv, rows: seq<Row>, field: string)
    ensures var d := Distribution(env, rows, field); var keys := FieldKeys(env, rows, field);
      DistinctNames(d)
      && (forall i :: 0 <= i < |d| ==> d[i].value == Occurrences(keys, d[i].name) && d[i].value >= 1)
      && (forall k :: k in Names(d) <==> k in keys)
      && Total(d) == TruthyCount(rows, field)
  {
    CountEntries(FieldKeys(env, rows, field));
    CountEntriesNames(FieldKeys(env, rows, field));
    FieldKeysCount(env, rows, field);
  }

  /** When no value is an array index, the values are listed in order of
      first appearance. */
  lemma DistributionOrder(env: DateEnv, rows: seq<Row>, field: string)
    requires forall k :: k in FieldKeys(env, rows, field) ==> !IsArrayIndex(k)
    ensures Names(Distribution(env, rows, field)) == Dedup(FieldKeys(env, rows, field))
  {
    var keys := FieldKeys(env, rows, field);
    var t := Tally(keys);
    TallySpec(keys);
    forall i | 0 <= i < |t| ensures !IsArrayIndex(t[i].name) {
      assert Names(t)[i] == t[i].name;
    }
    NoIndexKeys(t);
    TallyNames(keys);
  }

  /** The index of the first entry with the largest count. */
  function MaxIndex(d: seq<Slice>): (j: nat)
    requires |d| > 0
    ensures j < |d|
    ensures forall i :: 0 <= i < |d| ==> d[i].value <= d[j].value
    ensures forall i :: 0 <= i < j ==> d[i].value < d[j].value
    decreases |d|
  {
    var n := |d| - 1;
    if n == 0 then 0
    else
      var j := MaxIndex(d[..n]);
      if d[n].value > d[j].value then n else j
  }

  /** The first entry of the entries stably sorted by descending count —
      the first entry with the largest count — or "N/A" when there is none
      or its key is empty (`[0]?.[0] || "N/A"`). */
  function TopOf(d: seq<Slice>): string {
    if d == [] then "N/A"
    else
      var name := d[MaxIndex(d)].name;
      if name == "" then "N/A" else name
  }

  /** `getTopProfession`. */
  function TopValue(env: DateEnv, rows: seq<Row>, field: string): string {
    TopOf(Distribution(env, rows, field))
  }

  /** The comparison `(a, b) => b[1] - a[1]`: `a` may stay before `b` when
      its count is not smaller. */
  function ByCount(a: Slice, b: Slice): bool {
    a.value >= b.value
  }

  /** The source's own reading: sort the entries by descending count and
      take the key of the first, "N/A" when there is none or it is empty. */
  function TopBySort(d: seq<Slice>): string {
    if d == [] then "N/A"
    else
      var name := SortBy(d, ByCount)[0].name;
      if name == "" then "N/A" else name
  }

  /** Only the first entry with the largest count has the two properties
      `MaxIndex` promises. */
  lemma MaxIndexUnique(d: seq<Slice>, j: nat)
    requires j < |d|
    requires forall i :: 0 <= i < |d| ==> d[i].value <= d[j].value
    requires forall i :: 0 <= i < j ==> d[i].value < d[j].value
    ensures MaxIndex(d) == j
  {
  }

  /** The first largest entry of a list is its head, unless the rest holds
      a strictly larger one, which is then the first largest of the rest. */
  lemma MaxIndexCons(d: seq<Slice>)
    requires |d| > 1
    ensures MaxIndex(d) == if d[0].value >= d[1..][MaxIndex(d[1..])].value then 0 else MaxIndex(d[1..]) + 1
  {
    var tail := d[1..];
    var k := MaxIndex(tail);
    if d[0].value >= tail[k].value {
      forall i | 0 <= i < |d| ensures d[i].value <= d[0].value {
        if i > 0 {
          assert d[i] == tail[i - 1];
        }
      }
      MaxIndexUnique(d, 0);
    } else {
      forall i | 0 <= i < |d| ensures d[i].value <= d[k + 1].value {
        if i > 0 {
          assert d[i] == tail[i - 1];
        }
      }
      forall i | 0 <= i < k + 1 ensures d[i].value < d[k + 1].value {
        if i > 0 {
          assert d[i] == tail[i - 1];
        }
      }
      MaxIndexUnique(d, k + 1);
    }
  }

  /** The head of a sorted list of two or more entries: the first entry
      stays first when it may come before the head of the sorted rest. */
  lemma SortByHead(d: seq<Slice>)
    requires |d| > 1
    ensures |SortBy(d[1..], ByCount)| > 0
    ensures SortBy(d, ByCount)[0]
         == if ByCount(d[0], SortBy(d[1..], ByCount)[0]) then d[0] else SortBy(d[1..], ByCount)[0]
  {
    SortPerm(d[1..], ByCount);
  }

  /** Sorting by descending count puts first the first entry with the
      largest count: the sort keeps tied entries in their original order. */
  lemma {:induction false} SortHeadIsMaxIndex(d: seq<Slice>)
    requires |d| > 0
    ensures SortBy(d, ByCount)[0] == d[MaxIndex(d)]
    decreases |d|
  {
    if |d| == 1 {
      assert SortBy(d, ByCount) == Insert(d[0], [], ByCount);
    } else {
      SortHeadIsMaxIndex(d[1..]);
      SortByHead(d);
      MaxIndexCons(d);
    }
  }

  /** The arg-max reading of `getTopProfession` is its sort-based reading. */
  lemma TopOfIsTopBySort(d: seq<Slice>)
    ensures TopOf(d) == TopBySort(d)
  {
    if d != [] {
      SortHeadIsMaxIndex(d);
    }
  }

  /** For entries counting `keys`: with no key the result is "N/A"; when
      no key is empty it is a key seen most often; and a result other than
      "N/A" is the key of an entry with the largest count that no earlier
      entry matches. */
  lemma TopOfSpec(d: seq<Slice>, keys: seq<string>)
    requires forall i :: 0 <= i < |d| ==> d[i].value == Occurrences(keys, d[i].name)
    requires forall k :: k in Names(d) <==> k in keys
    ensures keys == [] ==> TopOf(d) == "N/A"
    ensures keys != [] && "" !in keys ==>
      TopOf(d) in keys && forall k :: k in keys ==> Occurrences(keys, k) <= Occurrences(keys, TopOf(d))
    ensures TopOf(d) != "N/A" ==> exists m :: (0 <= m < |d| && d[m].name == TopOf(d)
      && (forall j :: 0 <= j < |d| ==> d[j].value <= d[m].value)
      && (forall j :: 0 <= j < m ==> d[j].value < d[m].value))
  {
    if keys != [] {
      assert keys[0] in Names(d);
    }
    if d != [] {
      var m := MaxIndex(d);
      assert Names(d)[m] == d[m].name;
      assert Names(d)[0] in keys;
      if keys != [] && "" !in keys {
        forall k | k in keys ensures Occurrences(keys, k) <= Occurrences(keys, TopOf(d)) {
          var i :| 0 <= i < |d| && Names(d)[i] == k;
        }
      }
    }
  }

  /** `getTopProfession` over the rows: "N/A" without a truthy value; a
      value seen most often when no key is empty; ties go to the entry
      listed first. */
  lemma TopValueSpec(env: DateEnv, rows: seq<Row>, field: string)
    ensures FieldKeys(env, rows, field) == [] ==> TopValue(env, rows, field) == "N/A"
    ensures var keys := FieldKeys(env, rows, field); var top := TopValue(env, rows, field);
      keys != [] && "" !in keys ==>
        top in keys && forall k :: k in keys ==> Occurrences(keys, k) <= Occurrences(keys, top)
    ensures var d := Distribution(env, rows, field); var top := TopValue(env, rows, field);
      top != "N/A" ==> exists m :: (0 <= m < |d| && d[m].name == top
        && (forall j :: 0 <= j < |d| ==> d[j].value <= d[m].value)
        && (forall j :: 0 <= j < m ==> d[j].value < d[m].value))
  {
    DistributionSpec(env, rows, field);
    TopOfSpec(Distribution(env, rows, field), FieldKeys(env, rows, field));
  }

  /** Two nurses and a teacher: the nurses win. */
  lemma TopExample(env: DateEnv)
    ensures TopValue(env, [map["P" := Text("Nurse")], map["P" := Text("Nurse")], map["P" := Text("Teacher")]], "P")
         == "Nurse"
  {
    var t := [Slice("Nurse", 2), Slice("Teacher", 1)];
    ExampleKeys(env);
    ExampleTally();
    assert !IsDigit('N') && !IsDigit('T');
    NoIndexKeys(t);
    assert MaxIndex(t) == 0 by { assert t[..1] == [Slice("Nurse", 2)]; }
  }

  lemma ExampleKeys(env: DateEnv)
    ensures FieldKeys(env, [map["P" := Text("Nurse")], map["P" := Text("Nurse")], map["P" := Text("Teacher")]], "P")
         == ["Nurse", "Nurse", "Teacher"]
  {
    var rows := [map["P" := Text("Nurse")], map["P" := Text("Nurse")], map["P" := Text("Teacher")]];
    assert rows[..2][..1] == rows[..1] && rows[..1][..0] == [];
    assert FieldKeys(env, rows[..1], "P") == ["Nurse"];
    assert FieldKeys(env, rows[..2], "P") == ["Nurse", "Nurse"];
  }

  lemma ExampleTally()
    ensures Tally(["Nurse", "Nurse", "Teacher"]) == [Slice("Nurse", 2), Slice("Teacher", 1)]
  {
    var keys := ["Nurse", "Nurse", "Teacher"];
    assert keys[..2] == ["Nurse", "Nurse"] && keys[..2][..1] == ["Nurse"] && keys[..1][..0] == [];
    assert Tally(["Nurse"]) == [Slice("Nurse", 1)];
    assert Tally(["Nurse", "Nurse"]) == [Slice("Nurse", 2)];
    assert "Nurse" != "Teacher" by { assert "Nurse"[0] != "Teacher"[0]; }
    assert Bump([Slice("Nurse", 2)], "Teacher") == [Slice("Nurse", 2)] + Bump([], "Teacher");
  }

  // ---------------------------------------------------------------------
  // Responses per day
  // ---------------------------------------------------------------------

  /** One point of the responses-over-time series. */
  datatype DayCount = DayCount(date: string, count: nat)

  /** The UTC day of every `Date` value of `field`, in row order; rows whose
      value is not a `Date` are skipped. */
  function DayKeys(env: DateEnv, rows: seq<Row>, field: string): seq<string>
    decreases |rows|
  {
    if rows == [] then []
    else
      var n := |rows| - 1;
      DayKeys(env, rows[..n], field)
        + match Lookup(rows[n], field) case Some(Instant(t)) => [env.utcDay(t)] case _ => []
  }

  /** The number of rows whose `field` holds a `Date`. */
  function DateCount(rows: seq<Row>, field: string): nat
    decreases |rows|
  {
    if rows == [] then 0
    else
      var n := |rows| - 1;
      DateCount(rows[..n], field) + match Lookup(rows[n], field) case Some(Instant(_)) => 1 case _ => 0
  }

  lemma {:induction false} DayKeysCount(env: DateEnv, rows: seq<Row>, field: string)
    ensures |DayKeys(env, rows, field)| == DateCount(rows, field)
    decreases |rows|
  {
    if rows != [] {
      DayKeysCount(env, rows[..|rows| - 1], field);
    }
  }

  /** `a[0].localeCompare(b[0]) <= 0`, with the comparison taken as order
      by character code; the locale's collation agrees with it on day keys
      with four-digit years. */
  function DayLe(a: Slice, b: Slice): bool {
    !Lt(b.name, a.name)
  }

  lemma DayTotalOrder()
    ensures TotalOrder(DayLe)
  {
    forall a, b ensures DayLe(a, b) || DayLe(b, a) {
      if Lt(b.name, a.name) {
        LtAsymmetric(b.name, a.name);
      }
    }
    forall a, b, c | DayLe(a, b) && DayLe(b, c) ensures DayLe(a, c) {
      if Lt(c.name, a.name) && a.name != b.name {
        LtTotal(a.name, b.name);
        LtTransitive(c.name, a.name, b.name);
      }
    }
  }

  function ToDayCounts(s: seq<Slice>): (r: seq<DayCount>)
    ensures |r| == |s|
  {
    seq(|s|, i requires 0 <= i < |s| => DayCount(s[i].name, s[i].value))
  }

  /** `getResponsesOverTime`: the day table, sorted by day. */
  function Series(env: DateEnv, rows: seq<Row>, field: string): seq<DayCount> {
    ToDayCounts(SortBy(Tally(DayKeys(env, rows, field)), DayLe))
  }

  /** The sum of the counts of a series. */
  function CountSum(s: seq<DayCount>): nat
    decreases |s|
  {
    if s == [] then 0 else s[0].count + CountSum(s[1..])
  }

  lemma {:induction false} CountSumTotal(s: seq<Slice>)
    ensures CountSum(ToDayCounts(s)) == Total(s)
    decreases |s|
  {
    if s != [] {
      CountSumTotal(s[1..]);
      assert ToDayCounts(s)[1..] == ToDayCounts(s[1..]);
    }
  }

  /** The series is strictly ascending by day, so it has one point per
      day. */
  lemma SeriesOrder(env: DateEnv, rows: seq<Row>, field: string)
    ensures var s := Series(env, rows, field);
      forall i, j :: 0 <= i < j < |s| ==> Lt(s[i].date, s[j].date)
  {
    var days := DayKeys(env, rows, field);
    var t := Tally(days);
    var sorted := SortBy(t, DayLe);
    var s := Series(env, rows, field);
    TallyDistinct(days);
    SortPerm(t, DayLe);
    SortDistinct(t, DayLe);
    DayTotalOrder();
    SortSorted(t, DayLe);
    forall i, j | 0 <= i < j < |s| ensures Lt(s[i].date, s[j].date) {
      assert DayLe(sorted[i], sorted[j]);
      LtTotal(sorted[i].name, sorted[j].name);
    }
  }

  /** Each day of the series is counted by its number of occurrences,
      and the counts add up to the number of rows holding a `Date`. */
  lemma SeriesSpec(env: DateEnv, rows: seq<Row>, field: string)
    ensures var s := Series(env, rows, field); var days := DayKeys(env, rows, field);
      (forall i :: 0 <= i < |s| ==> s[i].count == Occurrences(days, s[i].date))
      && CountSum(s) == DateCount(rows, field)
  {
    var days := DayKeys(env, rows, field);
    var t := Tally(days);
    var sorted := SortBy(t, DayLe);
    var s := Series(env, rows, field);
    TallySpec(days);
    SortPerm(t, DayLe);
    CountSumTotal(sorted);
    DayKeysCount(env, rows, field);
    forall i | 0 <= i < |s| ensures s[i].count == Occurrences(days, s[i].date) {
      assert sorted[i] in multiset(t);
    }
  }

  /** The days of the series are exactly the days of the `Date` values. */
  lemma SeriesDays(env: DateEnv, rows: seq<Row>, field: string)
    ensures var s := Series(env, rows, field);
      forall d :: d in DayKeys(env, rows, field) <==> exists i :: 0 <= i < |s| && s[i].date == d
  {
    var days := DayKeys(env, rows, field);
    var t := Tally(days);
    var sorted := SortBy(t, DayLe);
    var s := Series(env, rows, field);
    TallySpec(days);
    SortPerm(t, DayLe);
    forall d ensures d in days <==> exists i :: 0 <= i < |s| && s[i].date == d {
      if d in days {
        assert d in Names(t);
        var j :| 0 <= j < |t| && Names(t)[j] == d;
        assert t[j] in multiset(sorted);
        var i :| 0 <= i < |sorted| && sorted[i] == t[j];
        assert s[i].date == d;
      }
      if exists i :: 0 <= i < |s| && s[i].date == d {
        var i :| 0 <= i < |s| && s[i].date == d;
        assert sorted[i] in multiset(t);
        var j :| 0 <= j < |t| && t[j] == sorted[i];
        assert Names(t)[j] == d;
      }
    }
  }

  /** `order` and `counts` hold the `Map` with the entries `t`: its keys in
      insertion order and the count of each. */
  ghost predicate Represents(order: seq<string>, counts: map<string, nat>, t: seq<Slice>) {
    Names(t) == order
    && (forall j :: 0 <= j < |order| ==> order[j] in counts && counts[order[j]] == t[j].value)
    && (forall d :: d in counts ==> d in order)
  }

  /** `dateMap.set(k, (dateMap.get(k) || 0) + 1)` bumps the entries. */
  lemma RepresentsBump(order: seq<string>, counts: map<string, nat>, t: seq<Slice>, k: string)
    requires Represents(order, counts, t) && DistinctNames(t)
    ensures k in counts ==> Represents(order, counts[k := counts[k] + 1], Bump(t, k))
    ensures k !in counts ==> Represents(order + [k], counts[k := 1], Bump(t, k))
  {
    BumpSpec(t, k);
    var b := Bump(t, k);
    if k in counts {
      assert Names(b) == Names(t) by {
        forall j | 0 <= j < |t| ensures Names(b)[j] == Names(t)[j] {
          assert b[j].name == t[j].name;
        }
      }
      forall j | 0 <= j < |order| ensures counts[k := counts[k] + 1][order[j]] == b[j].value {
        if order[j] == k {
          assert t[j].name == k;
        } else {
          assert t[j].name == order[j];
        }
      }
    } else {
      assert Names(b) == Names(t) + [k];
    }
  }

  /** The entries of the `Map` held by `order` and `counts`. */
  function MapEntries(order: seq<string>, counts: map<string, nat>): seq<Slice>
    requires forall j :: 0 <= j < |order| ==> order[j] in counts
  {
    seq(|order|, j requires 0 <= j < |order| => Slice(order[j], counts[order[j]]))
  }

  lemma RepresentsEntries(order: seq<string>, counts: map<string, nat>, t: seq<Slice>)
    requires Represents(order, counts, t)
    ensures MapEntries(order, counts) == t
  {
    forall j | 0 <= j < |t| ensures MapEntries(order, counts)[j] == t[j] {
      assert Names(t)[j] == t[j].name;
    }
  }

  /** One more row adds its day, if it holds a `Date`. */
  lemma DayKeysStep(env: DateEnv, rows: seq<Row>, field: string, i: nat)
    requires i < |rows|
    ensures DayKeys(env, rows[..i + 1], field)
         == DayKeys(env, rows[..i], field)
            + match Lookup(rows[i], field) case Some(Instant(t)) => [env.utcDay(t)] case _ => []
  {
    assert rows[..i + 1][..i] == rows[..i];
  }

  /** The `rows.forEach` loop over a `Map` from day to count, then the sort.
      The map is held as its keys in insertion order and their counts. */
  method ResponsesOverTime(env: DateEnv, rows: seq<Row>, field: string) returns (series: seq<DayCount>)
    ensures series == Series(env, rows, field)
  {
    var order: seq<string> := [];
    var counts: map<string, nat> := map[];
    ghost var t: seq<Slice> := [];
    var i := 0;
    while i < |rows|
      invariant 0 <= i <= |rows|
      invariant t == Tally(DayKeys(env, rows[..i], field))
      invariant Represents(order, counts, t)
    {
      TallyDistinct(DayKeys(env, rows[..i], field));
      DayKeysStep(env, rows, field, i);
      var ts := Lookup(rows[i], field);
      if ts.Some? && ts.value.Instant? {
        var dateStr := env.utcDay(ts.value.time);
        RepresentsBump(order, counts, t, dateStr);
        TallyAppend(DayKeys(env, rows[..i], field), dateStr);
        if dateStr in counts {
          counts := counts[dateStr := counts[dateStr] + 1];
        } else {
          order := order + [dateStr];
          counts := counts[dateStr := 1];
        }
        t := Bump(t, dateStr);
      } else {
        assert DayKeys(env, rows[..i + 1], field) == DayKeys(env, rows[..i], field);
      }
      i := i + 1;
    }
    assert rows[..i] == rows;
    RepresentsEntries(order, counts, t);
    series := ToDayCounts(SortBy(MapEntries(order, counts), DayLe));
  }

  /** Two dates on the same UTC day make one point with count 2. */
  lemma SameDay(env: DateEnv, t1: int, t2: int)
    requires env.utcDay(t1) == env.utcDay(t2)
    ensures Series(env, [map["Timestamp" := Instant(t1)], map["Timestamp" := Instant(t2)]], "Timestamp")
         == [DayCount(env.utcDay(t1), 2)]
  {
    var rows := [map["Timestamp" := Instant(t1)], map["Timestamp" := Instant(t2)]];
    var d := env.utcDay(t1);
    assert Lookup(rows[0], "Timestamp") == Some(Instant(t1));
    assert Lookup(rows[1], "Timestamp") == Some(Instant(t2));
    assert rows[..1] == [rows[0]];
    assert [rows[0]][..0] == [];
    assert DayKeys(env, [rows[0]], "Timestamp") == [d];
    assert DayKeys(env, rows, "Timestamp") == [d, d];
    assert [d, d][..1] == [d];
    assert [d][..0] == [];
    assert Tally([d]) == [Slice(d, 1)];
    assert Tally([d, d]) == [Slice(d, 2)];
    assert SortBy([Slice(d, 2)], DayLe) == [Slice(d, 2)];
  }

  // ---------------------------------------------------------------------
  // Satisfaction
  // ---------------------------------------------------------------------

  /** The message of the `TypeError` that `.toLowerCase()` on a `Date`
      throws. */
  const NotAString := "toLowerCase is not a function"

  /** `field && row[field]`: the field name is given and non-empty, and the
      row's value under it is truthy. */
  predicate Active(row: Row, field: Option<string>) {
    field.Some? && field.value != "" && Truthy(Lookup(row, field.value))
  }

  /** A positive answer to question 10. */
  predicate IsYes(s: string) {
    Lower(s) == "yes" || Lower(s) == "y"
  }

  /** A positive answer to question 11, which is asked negatively. */
  predicate IsNo(s: string) {
    Lower(s) == "no" || Lower(s) == "n"
  }

  /** A row holds a `Date` in a field it would count. */
  predicate DateVote(row: Row, q10: Option<string>, q11: Option<string>) {
    (Active(row, q10) && row[q10.value].Instant?) || (Active(row, q11) && row[q11.value].Instant?)
  }

  /** The field is counted and holds the answer `positive` accepts. */
  predicate Positive(row: Row, q: Option<string>, positive: string -> bool) {
    Active(row, q) && row[q.value].Text? && positive(row[q.value].text)
  }

  /** What one row adds to the positive and the total count, or the error
      when a counted field holds a `Date`. */
  function RowVotes(row: Row, q10: Option<string>, q11: Option<string>): Result<(nat, nat), string> {
    if DateVote(row, q10, q11) then Failure(NotAString)
    else
      Success(((if Positive(row, q10, IsYes) then 1 else 0) + (if Positive(row, q11, IsNo) then 1 else 0),
               (if Active(row, q10) then 1 else 0) + (if Active(row, q11) then 1 else 0)))
  }

  /** The counts `yesCount` and `totalCount` after the loop. */
  function Votes(rows: seq<Row>, q10: Option<string>, q11: Option<string>): Result<(nat, nat), string>
    decreases |rows|
  {
    if rows == [] then Success((0, 0))
    else
      var n := |rows| - 1;
      match Votes(rows[..n], q10, q11)
      case Failure(e) => Failure(e)
      case Success((y, t)) =>
        match RowVotes(rows[n], q10, q11)
        case Failure(e) => Failure(e)
        case Success((dy, dt)) => Success((y + dy, t + dt))
  }

  /** `Math.round((yes / total) * 100)`, computed exactly, or 0 for no votes. */
  function Percent(yes: nat, total: nat): nat {
    if total > 0 then (200 * yes + total) / (2 * total) else 0
  }

  /** `calculateSatisfaction`. */
  function Satisfaction(rows: seq<Row>, q10: Option<string>, q11: Option<string>): Result<nat, string> {
    match Votes(rows, q10, q11)
    case Failure(e) => Failure(e)
    case Success((y, t)) => Success(Percent(y, t))
  }

  /** The positives never exceed the total, each row adds at most one per
      field, and the count fails exactly when some counted field holds a
      `Date`. */
  lemma {:induction false} VotesSpec(rows: seq<Row>, q10: Option<string>, q11: Option<string>)
    ensures Votes(rows, q10, q11).Success? ==>
      Votes(rows, q10, q11).value.0 <= Votes(rows, q10, q11).value.1 <= 2 * |rows|
    ensures Votes(rows, q10, q11).Failure? <==> exists i :: 0 <= i < |rows| && DateVote(rows[i], q10, q11)
    decreases |rows|
  {
    if rows != [] {
      var n := |rows| - 1;
      VotesSpec(rows[..n], q10, q11);
      if exists i :: 0 <= i < |rows[..n]| && DateVote(rows[..n][i], q10, q11) {
        var i :| 0 <= i < |rows[..n]| && DateVote(rows[..n][i], q10, q11);
        assert rows[i] == rows[..n][i];
      }
      if exists i :: 0 <= i < |rows| && DateVote(rows[i], q10, q11) {
        var i :| 0 <= i < |rows| && DateVote(rows[i], q10, q11);
        if i < n {
          assert rows[..n][i] == rows[i];
        }
      }
    }
  }

  /** `Percent` rounds `100 * yes / total` to the nearest integer, halves
      upward, and lies in 0..100 when `yes <= total`. */
  lemma PercentSpec(yes: nat, total: nat)
    requires yes <= total
    ensures total > 0 ==>
      2 * total * Percent(yes, total) <= 200 * yes + total < 2 * total * Percent(yes, total) + 2 * total
    ensures Percent(yes, total) <= 100
    ensures total == 0 ==> Percent(yes, total) == 0
  {
    if total > 0 {
      var x := 200 * yes + total;
      var q := 2 * total;
      DivBounds(x, q);
      if x / q > 100 {
        MulMono(q, 101, x / q);
      }
    }
  }

  /** The quotient rounds down. */
  lemma DivBounds(x: nat, q: nat)
    requires q > 0
    ensures q * (x / q) <= x < q * (x / q) + q
  {
  }

  lemma MulMono(q: nat, a: nat, b: nat)
    requires a <= b
    ensures q * a <= q * b
  {
    assert q * b == q * a + q * (b - a);
  }

  /** The score is 0 without votes and lies in 0..100. */
  lemma SatisfactionRange(rows: seq<Row>, q10: Option<string>, q11: Option<string>)
    ensures Satisfaction(rows, q10, q11).Success? ==> Satisfaction(rows, q10, q11).value <= 100
    ensures Votes(rows, q10, q11) == Success((0, 0)) ==> Satisfaction(rows, q10, q11) == Success(0)
  {
    VotesSpec(rows, q10, q11);
    if Votes(rows, q10, q11).Success? {
      var (y, t) := Votes(rows, q10, q11).value;
      PercentSpec(y, t);
    }
  }

  /** Without field names nothing is counted and the score is 0. */
  lemma {:induction false} NoFields(rows: seq<Row>)
    ensures Votes(rows, None, None) == Success((0, 0))
    decreases |rows|
  {
    if rows != [] {
      NoFields(rows[..|rows| - 1]);
    }
  }

  /** `[{q10: "Yes"}, {q10: "No"}, {q11: "no"}]` scores 2 of 3, which is 67. */
  lemma SatisfactionExample()
    ensures Satisfaction([map["q10" := Text("Yes")], map["q10" := Text("No")], map["q11" := Text("no")]], Some("q10"), Some("q11"))
         == Success(67)
  {
    var rows := [map["q10" := Text("Yes")], map["q10" := Text("No")], map["q11" := Text("no")]];
    var q10, q11 := Some("q10"), Some("q11");
    assert Lower("Yes") == "yes";
    assert Lower("No") == "no";
    assert Lower("no") == "no";
    assert RowVotes(rows[0], q10, q11) == Success((1, 1));
    assert RowVotes(rows[1], q10, q11) == Success((0, 1));
    assert RowVotes(rows[2], q10, q11) == Success((1, 1));
    assert rows[..2] == [rows[0], rows[1]];
    assert rows[..2][..1] == [rows[0]];
    assert [rows[0]][..0] == [];
    assert Votes([rows[0]], q10, q11) == Success((1, 1));
    assert Votes([rows[0], rows[1]], q10, q11) == Success((1, 2));
    assert Votes(rows, q10, q11) == Success((2, 3));
    assert (400 + 3) / 6 == 67;
  }

  /** One more row that adds votes extends the count of the prefix. */
  lemma VotesStep(rows: seq<Row>, q10: Option<string>, q11: Option<string>, i: nat, yes: nat, total: nat)
    requires i < |rows| && !DateVote(rows[i], q10, q11)
    requires Votes(rows[..i], q10, q11) == Success((yes, total))
    ensures Votes(rows[..i + 1], q10, q11)
         == Success((yes + (if Positive(rows[i], q10, IsYes) then 1 else 0) + (if Positive(rows[i], q11, IsNo) then 1 else 0),
                     total + (if Active(rows[i], q10) then 1 else 0) + (if Active(rows[i], q11) then 1 else 0)))
  {
    assert rows[..i + 1][..i] == rows[..i];
  }

  /** One more row holding a `Date` in a counted field fails the count. */
  lemma VotesStop(rows: seq<Row>, q10: Option<string>, q11: Option<string>, i: nat)
    requires i < |rows| && DateVote(rows[i], q10, q11)
    requires Votes(rows[..i], q10, q11).Success?
    ensures Votes(rows, q10, q11) == Failure(NotAString)
  {
    assert rows[..i + 1][..i] == rows[..i];
    VotesFailFrom(rows, q10, q11, i + 1);
  }

  /** The `rows.forEach` loop with its two counters. */
  method CalculateSatisfaction(rows: seq<Row>, q10: Option<string>, q11: Option<string>) returns (r: Result<nat, string>)
    ensures r == Satisfaction(rows, q10, q11)
  {
    var yesCount: nat := 0;
    var totalCount: nat := 0;
    var i := 0;
    while i < |rows|
      invariant 0 <= i <= |rows|
      invariant Votes(rows[..i], q10, q11) == Success((yesCount, totalCount))
    {
      var row := rows[i];
      if DateVote(row, q10, q11) {
        VotesStop(rows, q10, q11, i);
        return Failure(NotAString);
      }
      VotesStep(rows, q10, q11, i, yesCount, totalCount);
      if Active(row, q10) {
        if IsYes(row[q10.value].text) {
          yesCount := yesCount + 1;
        }
        totalCount := totalCount + 1;
      }
      if Active(row, q11) {
        if IsNo(row[q11.value].text) {
          yesCount := yesCount + 1;
        }
        totalCount := totalCount + 1;
      }
      i := i + 1;
    }
    assert rows[..i] == rows;
    r := Success(Percent(yesCount, totalCount));
  }

  /** Once the count of a prefix has failed, the count of every longer
      prefix fails with the same error. */
  lemma {:induction false} VotesFailFrom(rows: seq<Row>, q10: Option<string>, q11: Option<string>, k: nat)
    requires k <= |rows|
    requires Votes(rows[..k], q10, q11) == Failure(NotAString)
    ensures Votes(rows, q10, q11) == Failure(NotAString)
    decreases |rows| - k
  {
    if k < |rows| {
      assert rows[..k + 1][..k] == rows[..k];
      VotesFailFrom(rows, q10, q11, k + 1);
    } else {
      assert rows[..k] == rows;
    }
  }
}
