/** Sorting count-table entries by a comparison, as `Array.prototype.sort`
    does for the key orders used here (lib/data-utils.ts:54-55; the
    integer-key order of `Object.entries`). The model is an insertion sort,
    which is stable. */
module Sorting {
  import opened Tallies

  /** `le` is a total preorder: any two entries compare, and it chains. */
  ghost predicate TotalOrder(le: (Slice, Slice) -> bool) {
    (forall a, b :: le(a, b) || le(b, a))
    && (forall a, b, c :: le(a, b) && le(b, c) ==> le(a, c))
  }

  /** Every entry is `le` every later entry. */
  predicate SortedBy(s: seq<Slice>, le: (Slice, Slice) -> bool) {
    forall i, j :: 0 <= i < j < |s| ==> le(s[i], s[j])
  }

  /** Puts `e` before the first entry it is `le`. */
  function Insert(e: Slice, s: seq<Slice>, le: (Slice, Slice) -> bool): seq<Slice>
    decreases |s|
  {
    if s == [] then [e]
    else if le(e, s[0]) then [e] + s
    else [s[0]] + Insert(e, s[1..], le)
  }

  /** Insertion sort. */
  function SortBy(s: seq<Slice>, le: (Slice, Slice) -> bool): seq<Slice>
    decreases |s|
  {
    if s == [] then [] else Insert(s[0], SortBy(s[1..], le), le)
  }

  /** Inserting adds exactly `e` and adds its count to the total. */
  lemma {:induction false} InsertPerm(e: Slice, s: seq<Slice>, le: (Slice, Slice) -> bool)
    ensures multiset(Insert(e, s, le)) == multiset(s) + multiset{e}
    ensures Total(Insert(e, s, le)) == e.value + Total(s)
    decreases |s|
  {
    if s != [] {
      assert s == [s[0]] + s[1..];
      if !le(e, s[0]) {
        InsertPerm(e, s[1..], le);
        assert Insert(e, s, le)[1..] == Insert(e, s[1..], le);
      }
    }
  }

  /** Inserting adds `e` and keeps every entry. */
  lemma {:induction false} InsertMembers(e: Slice, s: seq<Slice>, le: (Slice, Slice) -> bool)
    ensures forall x :: x in Insert(e, s, le) <==> x == e || x in s
    decreases |s|
  {
    if s != [] && !le(e, s[0]) {
      InsertMembers(e, s[1..], le);
      assert s == [s[0]] + s[1..];
    }
  }

  /** Inserting keeps a sorted list sorted. */
  lemma {:induction false} InsertSorted(e: Slice, s: seq<Slice>, le: (Slice, Slice) -> bool)
    requires TotalOrder(le) && SortedBy(s, le)
    ensures SortedBy(Insert(e, s, le), le)
    decreases |s|
  {
    if s != [] && !le(e, s[0]) {
      var tail := Insert(e, s[1..], le);
      InsertSorted(e, s[1..], le);
      InsertMembers(e, s[1..], le);
      var r := Insert(e, s, le);
      assert r == [s[0]] + tail;
      forall j | 0 < j < |r| ensures le(s[0], r[j]) {
        assert r[j] == tail[j - 1];
        assert tail[j - 1] in tail;
        if r[j] != e {
          var k :| 0 <= k < |s[1..]| && s[1..][k] == r[j];
          assert s[k + 1] == r[j];
        }
      }
    }
  }

  /** Inserting an entry whose name is new keeps the names distinct. */
  lemma {:induction false} InsertDistinct(e: Slice, s: seq<Slice>, le: (Slice, Slice) -> bool)
    requires DistinctNames(s)
    requires forall y :: y in s ==> y.name != e.name
    ensures DistinctNames(Insert(e, s, le))
    decreases |s|
  {
    if s != [] && !le(e, s[0]) {
      var tail := Insert(e, s[1..], le);
      assert forall y :: y in s[1..] ==> y in s;
      InsertDistinct(e, s[1..], le);
      InsertMembers(e, s[1..], le);
      var r := Insert(e, s, le);
      assert r == [s[0]] + tail;
      forall j | 0 < j < |r| ensures r[0].name != r[j].name {
        assert r[j] == tail[j - 1];
        assert tail[j - 1] in tail;
        if r[j] != e {
          var k :| 0 <= k < |s[1..]| && s[1..][k] == r[j];
          assert s[k + 1] == r[j];
        }
      }
    }
  }

  /** Sorting permutes the entries and keeps the total. */
  lemma {:induction false} SortPerm(s: seq<Slice>, le: (Slice, Slice) -> bool)
    ensures multiset(SortBy(s, le)) == multiset(s)
    ensures |SortBy(s, le)| == |s|
    ensures Total(SortBy(s, le)) == Total(s)
    decreases |s|
  {
    if s != [] {
      assert s == [s[0]] + s[1..];
      SortPerm(s[1..], le);
      InsertPerm(s[0], SortBy(s[1..], le), le);
      assert |multiset(SortBy(s, le))| == |multiset(s)|;
    }
  }

  /** For a total preorder, sorting yields a sorted list. */
  lemma {:induction false} SortSorted(s: seq<Slice>, le: (Slice, Slice) -> bool)
    requires TotalOrder(le)
    ensures SortedBy(SortBy(s, le), le)
    decreases |s|
  {
    if s != [] {
      SortSorted(s[1..], le);
      InsertSorted(s[0], SortBy(s[1..], le), le);
    }
  }

  /** Sorting keeps the names distinct. */
  lemma {:induction false} SortDistinct(s: seq<Slice>, le: (Slice, Slice) -> bool)
    requires DistinctNames(s)
    ensures DistinctNames(SortBy(s, le))
    decreases |s|
  {
    if s != [] {
      var rest := SortBy(s[1..], le);
      SortDistinct(s[1..], le);
      SortPerm(s[1..], le);
      forall y | y in rest ensures y.name != s[0].name {
        assert y in multiset(s[1..]);
        var j :| 0 <= j < |s[1..]| && s[1..][j] == y;
        assert s[j + 1] == y;
      }
      InsertDistinct(s[0], rest, le);
    }
  }
}
