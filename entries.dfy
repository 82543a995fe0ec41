/** The order in which `Object.entries` lists the properties of a count
    object (lib/data-utils.ts:14, 27, 40): keys that are array indices
    first, in ascending numeric order, then every other key in the order it
    was first added. Section 10.1.11.1 (OrdinaryOwnPropertyKeys) of the
    ECMAScript 2024 Language Specification defines this order. */
module Entries {
  import opened Strings
  import opened Tallies
  import opened Sorting

  /** An array index: the canonical decimal form of an integer from 0 to
      2^32 - 2 (no sign, no leading zero except in "0" itself). */
  predicate IsArrayIndex(k: string) {
    |k| >= 1 && AllDigits(k) && (k[0] != '0' || |k| == 1) && DigitsValue(k) <= 0xFFFF_FFFE
  }

  /** The numeric value of an entry's key, for ordering index keys. */
  function Rank(e: Slice): nat {
    if AllDigits(e.name) then DigitsValue(e.name) else 0
  }

  /** Ascending numeric order. */
  function RankLe(a: Slice, b: Slice): bool {
    Rank(a) <= Rank(b)
  }

  /** The entries whose key is (`index`) or is not (`!index`) an array
      index, in table order. */
  function Select(t: seq<Slice>, index: bool): seq<Slice>
    decreases |t|
  {
    if t == [] then []
    else (if IsArrayIndex(t[0].name) == index then [t[0]] else []) + Select(t[1..], index)
  }

  /** `Object.entries(counts)` for a count table in insertion order. */
  function ObjectEntries(t: seq<Slice>): seq<Slice> {
    SortBy(Select(t, true), RankLe) + Select(t, false)
  }

  lemma RankTotalOrder()
    ensures TotalOrder(RankLe)
  {
  }

  /** Selecting keeps exactly the entries of the wanted kind, and the two
      selections share out the entries and their total. */
  lemma {:induction false} SelectSpec(t: seq<Slice>, index: bool)
    ensures forall x :: x in Select(t, index) <==> x in t && IsArrayIndex(x.name) == index
    ensures |Select(t, true)| + |Select(t, false)| == |t|
    ensures Total(Select(t, true)) + Total(Select(t, false)) == Total(t)
    decreases |t|
  {
    if t != [] {
      SelectSpec(t[1..], index);
      assert t == [t[0]] + t[1..];
      TotalAppend(if IsArrayIndex(t[0].name) then [t[0]] else [], Select(t[1..], true));
      TotalAppend(if IsArrayIndex(t[0].name) then [] else [t[0]], Select(t[1..], false));
    }
  }

  /** Selecting keeps the names distinct. */
  lemma {:induction false} SelectDistinct(t: seq<Slice>, index: bool)
    requires DistinctNames(t)
    ensures DistinctNames(Select(t, index))
    decreases |t|
  {
    if t != [] {
      SelectDistinct(t[1..], index);
      SelectSpec(t[1..], index);
      var r := Select(t, index);
      if IsArrayIndex(t[0].name) == index {
        assert r[1..] == Select(t[1..], index);
        forall j | 0 < j < |r| ensures r[0].name != r[j].name {
          assert r[j] in Select(t[1..], index);
          var k :| 0 <= k < |t[1..]| && t[1..][k] == r[j];
          assert t[k + 1] == r[j];
        }
      }
    }
  }

  /** A table without index keys is listed as it is. */
  lemma {:induction false} SelectNone(t: seq<Slice>)
    requires forall i :: 0 <= i < |t| ==> !IsArrayIndex(t[i].name)
    ensures Select(t, true) == [] && Select(t, false) == t
    decreases |t|
  {
    if t != [] {
      SelectNone(t[1..]);
      assert t == [t[0]] + t[1..];
    }
  }

  lemma {:induction false} TotalAppend(a: seq<Slice>, b: seq<Slice>)
    ensures Total(a + b) == Total(a) + Total(b)
    decreases |a|
  {
    if a == [] {
      assert a + b == b;
    } else {
      TotalAppend(a[1..], b);
      assert (a + b)[1..] == a[1..] + b;
    }
  }

  /** The entries are the table's entries, each once, with the same total. */
  lemma ObjectEntriesContents(t: seq<Slice>)
    ensures var e := ObjectEntries(t);
      (forall x :: x in e <==> x in t)
      && |e| == |t|
      && Total(e) == Total(t)
  {
    var idx := Select(t, true);
    var sorted := SortBy(idx, RankLe);
    SelectSpec(t, true);
    SelectSpec(t, false);
    SortPerm(idx, RankLe);
    TotalAppend(sorted, Select(t, false));
    forall x ensures x in sorted <==> x in idx {
      assert x in sorted <==> x in multiset(idx);
    }
  }

  /** No name is listed twice. */
  lemma ObjectEntriesDistinct(t: seq<Slice>)
    requires DistinctNames(t)
    ensures DistinctNames(ObjectEntries(t))
  {
    var idx := Select(t, true);
    var rest := Select(t, false);
    var sorted := SortBy(idx, RankLe);
    SelectSpec(t, true);
    SelectSpec(t, false);
    SelectDistinct(t, true);
    SelectDistinct(t, false);
    SortPerm(idx, RankLe);
    SortDistinct(idx, RankLe);
    forall x, y | x in sorted && y in rest ensures x.name != y.name {
      assert x in multiset(idx);
    }
    DistinctAppend(sorted, rest);
  }

  /** The index keys come first, in ascending numeric order; the other keys
      follow in table order. */
  lemma ObjectEntriesOrder(t: seq<Slice>)
    ensures var e := ObjectEntries(t); var m := |Select(t, true)|;
      m <= |e|
      && (forall i :: 0 <= i < m ==> IsArrayIndex(e[i].name))
      && (forall i, j :: 0 <= i < j < m ==> Rank(e[i]) <= Rank(e[j]))
      && e[m..] == Select(t, false)
  {
    var idx := Select(t, true);
    var sorted := SortBy(idx, RankLe);
    var e := ObjectEntries(t);
    SelectSpec(t, true);
    SortPerm(idx, RankLe);
    RankTotalOrder();
    SortSorted(idx, RankLe);
    assert e[..|idx|] == sorted;
    forall i | 0 <= i < |idx| ensures IsArrayIndex(e[i].name) {
      assert e[i] in multiset(idx);
    }
  }

  /** Without index keys, the entries come in insertion order. */
  lemma NoIndexKeys(t: seq<Slice>)
    requires forall i :: 0 <= i < |t| ==> !IsArrayIndex(t[i].name)
    ensures ObjectEntries(t) == t
  {
    SelectNone(t);
  }
}
