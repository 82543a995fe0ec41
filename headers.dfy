/** Header normalisation and fuzzy matching (lib/data-parser.ts:12-30). */
module Headers {
  import opened Strings
  import opened Wrappers

  /** Trimmed, lower-case, and every whitespace run reduced to one space. */
  predicate IsNormalized(s: string) {
    NoEdgeSpace(s) && SingleSpaced(s) && IsLowerCase(s)
  }

  /** `normalizeHeader`: trim, lower-case, collapse whitespace runs. */
  function NormalizeHeader(header: string): string {
    CollapseSpaces(Lower(Trim(header)))
  }

  /** A normalised header is trimmed, lower-case and single-spaced. */
  lemma NormalizedShape(header: string)
    ensures IsNormalized(NormalizeHeader(header))
  {
    var lowered := Lower(Trim(header));
    TrimShape(header);
    LowerShape(Trim(header));
    CollapseSingleSpaced(lowered);
    CollapseLower(lowered);
    CollapseLast(lowered);
  }

  /** Normalising twice is normalising once. */
  lemma NormalizeIdempotent(header: string)
    ensures NormalizeHeader(NormalizeHeader(header)) == NormalizeHeader(header)
  {
    var n := NormalizeHeader(header);
    NormalizedShape(header);
    TrimShape(n);
    LowerShape(n);
    CollapseFixpoint(n);
  }

  /** The normalised form of every available header, in order. */
  function NormalizeAll(available: seq<string>): (ns: seq<string>)
    ensures |ns| == |available|
    ensures forall j :: 0 <= j < |available| ==> ns[j] == NormalizeHeader(available[j])
  {
    seq(|available|, j requires 0 <= j < |available| => NormalizeHeader(available[j]))
  }

  /** The partial-match test: either normalised form contains the other. */
  predicate Partial(normalized: string, n: string) {
    Contains(n, normalized) || Contains(normalized, n)
  }

  /** `find` with the exact test, over the normalised headers: the index of
      the first hit, `|ns|` when there is none. */
  function FindExact(normalized: string, ns: seq<string>): (k: nat)
    ensures k <= |ns|
    ensures k < |ns| ==> ns[k] == normalized
    ensures forall j :: 0 <= j < k ==> ns[j] != normalized
  {
    if ns == [] then 0
    else if ns[0] == normalized then 0
    else 1 + FindExact(normalized, ns[1..])
  }

  /** `find` with the partial test, over the normalised headers. */
  function FindPartial(normalized: string, ns: seq<string>): (k: nat)
    ensures k <= |ns|
    ensures k < |ns| ==> Partial(normalized, ns[k])
    ensures forall j :: 0 <= j < k ==> !Partial(normalized, ns[j])
  {
    if ns == [] then 0
    else if Partial(normalized, ns[0]) then 0
    else 1 + FindPartial(normalized, ns[1..])
  }

  /** The two `find` calls of `findBestMatch` over the normalised headers
      `ns` of `available`: the index of the header returned, if any. A hit
      is kept only when the header is truthy, so an empty header found by
      either search yields no match at that stage. */
  function BestIndex(normalized: string, ns: seq<string>, available: seq<string>): (r: Option<nat>)
    requires |ns| == |available|
    ensures r.Some? ==> r.value < |available| && available[r.value] != ""
    ensures r.Some? ==> ns[r.value] == normalized || Partial(normalized, ns[r.value])
    ensures (forall j :: 0 <= j < |ns| ==> ns[j] != normalized && !Partial(normalized, ns[j])) ==> r == None
  {
    var exact := FindExact(normalized, ns);
    if exact < |available| && available[exact] != "" then Some(exact)
    else
      var partial := FindPartial(normalized, ns);
      if partial < |available| && available[partial] != "" then Some(partial)
      else None
  }

  /** `findBestMatch`: the first header whose normalised form equals the
      target's, else the first whose normalised form contains or is
      contained in it; either only when that header is non-empty. */
  function FindBestMatch(target: string, available: seq<string>): (r: Option<string>)
    ensures r.Some? ==> r.value in available && r.value != ""
  {
    match BestIndex(NormalizeHeader(target), NormalizeAll(available), available)
    case Some(k) => Some(available[k])
    case None => None
  }

  /** A match is an exact or a partial match of the target, and when no
      header matches either way there is none. */
  lemma MatchIsExactOrPartial(target: string, available: seq<string>)
    ensures var r := FindBestMatch(target, available);
            r.Some? ==> exists k :: 0 <= k < |available| && available[k] == r.value
                          && (NormalizeAll(available)[k] == NormalizeHeader(target)
                              || Partial(NormalizeHeader(target), NormalizeAll(available)[k]))
    ensures (forall j :: 0 <= j < |available| ==>
               NormalizeAll(available)[j] != NormalizeHeader(target)
               && !Partial(NormalizeHeader(target), NormalizeAll(available)[j]))
            ==> FindBestMatch(target, available) == None
  {
    var b := BestIndex(NormalizeHeader(target), NormalizeAll(available), available);
    if b.Some? {
      var k := b.value;
      assert available[k] == FindBestMatch(target, available).value;
    }
  }

  /** The earliest exact (normalised) match wins over every partial match. */
  lemma ExactMatchWins(target: string, available: seq<string>, k: nat)
    requires k < |available| && available[k] != ""
    requires NormalizeHeader(available[k]) == NormalizeHeader(target)
    requires forall j :: 0 <= j < k ==> NormalizeHeader(available[j]) != NormalizeHeader(target)
    ensures FindBestMatch(target, available) == Some(available[k])
  {
    assert FindExact(NormalizeHeader(target), NormalizeAll(available)) == k;
  }

  /** Without an exact match, the earliest partial match decides: it is the
      result when it is non-empty, and there is no match when it is the
      empty header. */
  lemma PartialMatchFallback(target: string, available: seq<string>, k: nat)
    requires forall j :: 0 <= j < |available| ==> NormalizeHeader(available[j]) != NormalizeHeader(target)
    requires k < |available| && Partial(NormalizeHeader(target), NormalizeHeader(available[k]))
    requires forall j :: 0 <= j < k ==> !Partial(NormalizeHeader(target), NormalizeHeader(available[j]))
    ensures FindBestMatch(target, available) == if available[k] != "" then Some(available[k]) else None
  {
    var ns := NormalizeAll(available);
    assert FindExact(NormalizeHeader(target), ns) == |available|;
    assert FindPartial(NormalizeHeader(target), ns) == k;
  }

  /** An empty header partially matches every target, since `""` is a
      substring of every string; in first place it therefore hides every
      later partial match. */
  lemma EmptyHeaderFirstHidesPartials(target: string, available: seq<string>)
    requires |available| > 0 && available[0] == ""
    requires forall j :: 0 <= j < |available| ==> NormalizeHeader(available[j]) != NormalizeHeader(target)
    ensures FindBestMatch(target, available) == None
  {
    assert Trim("") == "" && Lower("") == "" && CollapseSpaces("") == "";
    assert NormalizeHeader("") == "";
    EmptyContained(NormalizeHeader(target));
    PartialMatchFallback(target, available, 0);
  }

  /** Normalisation ignores letter case: a header and its lower-case form match exactly. */
  lemma NormalizeIgnoresCase(header: string)
    ensures NormalizeHeader(Lower(header)) == NormalizeHeader(header)
  {
    var t := Trim(header);
    TrimLowerCommute(header);
    LowerShape(t);
    LowerShape(Lower(t));
    assert Lower(Trim(Lower(header))) == Lower(t);
  }

  /** Normalisation ignores surrounding whitespace. */
  lemma NormalizeIgnoresPadding(header: string, before: string, after: string)
    requires AllSpace(before) && AllSpace(after)
    ensures NormalizeHeader(before + header + after) == NormalizeHeader(header)
  {
    TrimPadded(header, before, after);
  }

  /** A header with a non-whitespace character normalises to a non-empty string. */
  lemma NormalizeNonEmpty(header: string)
    requires Trim(header) != ""
    ensures NormalizeHeader(header) != ""
  {
  }

  /** Against the single empty header that an empty input produces, no
      target with a non-whitespace character finds a match: `""` is its
      first partial hit and is falsy. */
  lemma NoMatchInEmptyHeader(target: string)
    requires Trim(target) != ""
    ensures FindBestMatch(target, [""]) == None
  {
    NormalizeNonEmpty(target);
    assert Trim("") == "" && Lower("") == "" && CollapseSpaces("") == "";
    EmptyHeaderFirstHidesPartials(target, [""]);
  }
}
