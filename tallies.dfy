/** Counting occurrences into an insertion-ordered table, the shape both a
    JavaScript count object (`acc[key] = (acc[key] || 0) + 1`) and a `Map`
    updated with `set(key, (get(key) || 0) + 1)` take
    (lib/data-utils.ts:6-12, 19-25, 32-38, 44-52). */
module Tallies {

  /** One entry of a count table: a key and how often it was seen. */
  datatype Slice = Slice(name: string, value: nat)

  /** The keys of a table, in order. */
  function Names(t: seq<Slice>): (names: seq<string>)
    ensures |names| == |t|
  {
    seq(|t|, i requires 0 <= i < |t| => t[i].name)
  }

  /** No key is listed twice. */
  predicate DistinctNames(t: seq<Slice>) {
    forall i, j :: 0 <= i < j < |t| ==> t[i].name != t[j].name
  }

  /** The sum of the counts. */
  function Total(t: seq<Slice>): nat
    decreases |t|
  {
    if t == [] then 0 else t[0].value + Total(t[1..])
  }

  /** How often `k` occurs in `keys`. */
  function Occurrences(keys: seq<string>, k: string): nat
    decreases |keys|
  {
    if keys == [] then 0
    else
      var n := |keys| - 1;
      Occurrences(keys[..n], k) + if keys[n] == k then 1 else 0
  }

  /** The distinct keys in order of first appearance. */
  function Dedup(keys: seq<string>): seq<string>
    decreases |keys|
  {
    if keys == [] then []
    else
      var n := |keys| - 1;
      Dedup(keys[..n]) + if keys[n] in keys[..n] then [] else [keys[n]]
  }

  /** One more sighting of `k`: its count goes up by one, or it is added at
      the end with count 1. */
  function Bump(t: seq<Slice>, k: string): seq<Slice>
    decreases |t|
  {
    if t == [] then [Slice(k, 1)]
    else if t[0].name == k then [Slice(k, t[0].value + 1)] + t[1..]
    else [t[0]] + Bump(t[1..], k)
  }

  /** The count table after seeing `keys` in order. */
  function Tally(keys: seq<string>): seq<Slice>
    decreases |keys|
  {
    if keys == [] then [] else Bump(Tally(keys[..|keys| - 1]), keys[|keys| - 1])
  }

  /** A key not in `keys` occurs there zero times. */
  lemma {:induction false} OccurrencesAbsent(keys: seq<string>, k: string)
    ensures k !in keys <==> Occurrences(keys, k) == 0
    decreases |keys|
  {
    if keys != [] {
      var n := |keys| - 1;
      OccurrencesAbsent(keys[..n], k);
      assert keys == keys[..n] + [keys[n]];
    }
  }

  /** `Dedup` keeps every key once. */
  lemma {:induction false} DedupSpec(keys: seq<string>)
    ensures forall k :: k in Dedup(keys) <==> k in keys
    ensures forall i, j :: 0 <= i < j < |Dedup(keys)| ==> Dedup(keys)[i] != Dedup(keys)[j]
    decreases |keys|
  {
    if keys != [] {
      var n := |keys| - 1;
      DedupSpec(keys[..n]);
      assert keys == keys[..n] + [keys[n]];
    }
  }

  /** A key already present keeps its place and gains one; a new key is
      appended with count 1. */
  lemma {:induction false} BumpSpec(t: seq<Slice>, k: string)
    requires DistinctNames(t)
    ensures k in Names(t) ==> (|Bump(t, k)| == |t|
      && forall i :: 0 <= i < |t| ==>
           Bump(t, k)[i] == if t[i].name == k then Slice(k, t[i].value + 1) else t[i])
    ensures k !in Names(t) ==> Bump(t, k) == t + [Slice(k, 1)]
    decreases |t|
  {
    if t != [] {
      BumpSpec(t[1..], k);
      assert Names(t) == [t[0].name] + Names(t[1..]);
      if t[0].name == k {
        assert forall i :: 0 < i < |t| ==> t[i].name != k;
      }
    }
  }

  /** Seeing one more key adds one to the total. */
  lemma {:induction false} BumpTotal(t: seq<Slice>, k: string)
    ensures Total(Bump(t, k)) == Total(t) + 1
    decreases |t|
  {
    if t != [] && t[0].name != k {
      BumpTotal(t[1..], k);
      assert Bump(t, k)[1..] == Bump(t[1..], k);
    }
  }

  /** The table lists the distinct keys in order of first appearance. */
  lemma {:induction false} TallyNames(keys: seq<string>)
    ensures Names(Tally(keys)) == Dedup(keys)
    decreases |keys|, 0
  {
    if keys != [] {
      var n := |keys| - 1;
      var t := Tally(keys[..n]);
      TallyNames(keys[..n]);
      DedupSpec(keys[..n]);
      TallyDistinct(keys[..n]);
      BumpSpec(t, keys[n]);
      if keys[n] in Names(t) {
        assert Names(Bump(t, keys[n])) == Names(t);
      } else {
        assert Names(t + [Slice(keys[n], 1)]) == Names(t) + [keys[n]];
      }
    }
  }

  /** The table lists no key twice. */
  lemma {:induction false} TallyDistinct(keys: seq<string>)
    ensures DistinctNames(Tally(keys))
    decreases |keys|, 1
  {
    var t := Tally(keys);
    TallyNames(keys);
    DedupSpec(keys);
    forall i, j | 0 <= i < j < |t| ensures t[i].name != t[j].name {
      assert Names(t)[i] == t[i].name && Names(t)[j] == t[j].name;
    }
  }

  /** Every count is the number of occurrences of its key. */
  lemma {:induction false} TallyCounts(keys: seq<string>)
    ensures forall i :: 0 <= i < |Tally(keys)| ==>
      Tally(keys)[i].value == Occurrences(keys, Tally(keys)[i].name)
    decreases |keys|
  {
    if keys != [] {
      var n := |keys| - 1;
      var k := keys[n];
      var t := Tally(keys[..n]);
      TallyCounts(keys[..n]);
      TallyNames(keys[..n]);
      DedupSpec(keys[..n]);
      TallyDistinct(keys[..n]);
      BumpSpec(t, k);
      if k !in Names(t) {
        OccurrencesAbsent(keys[..n], k);
        assert Tally(keys) == t + [Slice(k, 1)];
        forall i | 0 <= i < |Tally(keys)|
          ensures Tally(keys)[i].value == Occurrences(keys, Tally(keys)[i].name)
        {
          if i < |t| {
            var x := t[i].name;
            assert Names(t)[i] == x;
            assert Occurrences(keys, x) == Occurrences(keys[..n], x);
          }
        }
      } else {
        forall i | 0 <= i < |Tally(keys)|
          ensures Tally(keys)[i].value == Occurrences(keys, Tally(keys)[i].name)
        {
          var x := t[i].name;
          assert Tally(keys)[i].name == x;
          assert Occurrences(keys, x) == Occurrences(keys[..n], x) + if k == x then 1 else 0;
        }
      }
    }
  }

  /** The counts add up to the number of keys seen. */
  lemma {:induction false} TallyTotal(keys: seq<string>)
    ensures Total(Tally(keys)) == |keys|
    decreases |keys|
  {
    if keys != [] {
      TallyTotal(keys[..|keys| - 1]);
      BumpTotal(Tally(keys[..|keys| - 1]), keys[|keys| - 1]);
    }
  }

  /** The table's keys are distinct, are exactly the keys seen, and each
      count is at least one and equals the number of occurrences. */
  lemma TallySpec(keys: seq<string>)
    ensures DistinctNames(Tally(keys))
    ensures forall k :: k in Names(Tally(keys)) <==> k in keys
    ensures forall i :: 0 <= i < |Tally(keys)| ==>
      Tally(keys)[i].value == Occurrences(keys, Tally(keys)[i].name) && Tally(keys)[i].value >= 1
    ensures Total(Tally(keys)) == |keys|
  {
    var t := Tally(keys);
    TallyNames(keys);
    DedupSpec(keys);
    TallyCounts(keys);
    TallyTotal(keys);
    TallyDistinct(keys);
    forall i | 0 <= i < |t| ensures t[i].value >= 1 {
      assert Names(t)[i] == t[i].name;
      OccurrencesAbsent(keys, t[i].name);
    }
  }

  /** Two tables with distinct names and no name in common list no name
      twice when put together. */
  lemma DistinctAppend(a: seq<Slice>, b: seq<Slice>)
    requires DistinctNames(a) && DistinctNames(b)
    requires forall x, y :: x in a && y in b ==> x.name != y.name
    ensures DistinctNames(a + b)
  {
    var e := a + b;
    forall i, j | 0 <= i < j < |e| ensures e[i].name != e[j].name {
      if j < |a| {
        assert e[i] == a[i] && e[j] == a[j];
      } else if i >= |a| {
        assert e[i] == b[i - |a|] && e[j] == b[j - |a|];
      } else {
        assert e[i] == a[i] && e[j] == b[j - |a|];
      }
    }
  }

  /** One more key bumps the table. */
  lemma TallyAppend(keys: seq<string>, k: string)
    ensures Tally(keys + [k]) == Bump(Tally(keys), k)
  {
    assert (keys + [k])[..|keys|] == keys;
  }
}
