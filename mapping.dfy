/** The header mapping and the warning list both parsers build
    (lib/data-parser.ts:121-132 and 188-200). */
module Mapping {
  import opened Wrappers
  import opened Strings
  import opened Headers

  /** `expectedFields`, in the order the warnings follow. */
  const ExpectedFields: seq<string> :=
    ["Name", "Email", "Profession", "Q4", "Q5", "Q6", "Q7", "Q8", "Q9", "Q10", "Q11", "Timestamp"]

  /** `` `Missing expected field: ${field}` ``. */
  function MissingWarning(field: string): string {
    "Missing expected field: " + field
  }

  /** The mapping and the warnings after `forEach` has visited `fields`,
      with `find(field)` the header matched to `field`, if any. */
  function MapFieldsBy(fields: seq<string>, find: string -> Option<string>): (map<string, string>, seq<string>)
    decreases |fields|
  {
    if fields == [] then (map[], [])
    else
      var n := |fields| - 1;
      var (mapping, warnings) := MapFieldsBy(fields[..n], find);
      match find(fields[n])
      case Some(h) => (mapping[fields[n] := h], warnings)
      case None => (mapping, warnings + [MissingWarning(fields[n])])
  }

  /** The mapping and warnings for `fields` against the actual headers. */
  function MapFields(fields: seq<string>, headers: seq<string>): (map<string, string>, seq<string>) {
    MapFieldsBy(fields, f => FindBestMatch(f, headers))
  }

  /** The fields that `find` leaves unmatched, in order. */
  function Unmatched(fields: seq<string>, find: string -> Option<string>): seq<string>
    decreases |fields|
  {
    if fields == [] then []
    else
      var n := |fields| - 1;
      Unmatched(fields[..n], find) + if find(fields[n]).None? then [fields[n]] else []
  }

  /** The mapping holds exactly the fields that matched, each with its
      match; there is one warning per unmatched field, in field order. */
  lemma {:induction false} MapFieldsBySpec(fields: seq<string>, find: string -> Option<string>)
    ensures var (mapping, warnings) := MapFieldsBy(fields, find);
      mapping.Keys == (set f | f in fields && find(f).Some?)
      && (forall f :: f in mapping ==> find(f) == Some(mapping[f]))
      && |warnings| == |Unmatched(fields, find)|
      && (forall i :: 0 <= i < |warnings| ==> warnings[i] == MissingWarning(Unmatched(fields, find)[i]))
    decreases |fields|
  {
    if fields != [] {
      var n := |fields| - 1;
      MapFieldsBySpec(fields[..n], find);
      assert fields == fields[..n] + [fields[n]];
      assert (set f | f in fields && find(f).Some?)
          == (set f | f in fields[..n] && find(f).Some?)
             + (if find(fields[n]).Some? then {fields[n]} else {});
    }
  }

  /** For the actual headers: the mapping's keys are the fields that matched,
      each mapped to its match, which is a non-empty header; the warnings
      name the unmatched fields in order. */
  lemma MapFieldsSpec(fields: seq<string>, headers: seq<string>)
    ensures var (mapping, warnings) := MapFields(fields, headers);
      mapping.Keys == (set f | f in fields && FindBestMatch(f, headers).Some?)
      && (forall f :: f in mapping ==>
            FindBestMatch(f, headers) == Some(mapping[f]) && mapping[f] in headers && mapping[f] != "")
      && |warnings| == |Unmatched(fields, f => FindBestMatch(f, headers))|
      && (forall i :: 0 <= i < |warnings| ==>
            warnings[i] == MissingWarning(Unmatched(fields, f => FindBestMatch(f, headers))[i]))
  {
    MapFieldsBySpec(fields, f => FindBestMatch(f, headers));
  }

  /** Only visited fields are mapped. */
  lemma {:induction false} MappedVisited(fields: seq<string>, find: string -> Option<string>)
    ensures forall f :: f in MapFieldsBy(fields, find).0 ==> f in fields
    decreases |fields|
  {
    if fields != [] {
      var n := |fields| - 1;
      MappedVisited(fields[..n], find);
      assert forall f :: f in fields[..n] ==> f in fields;
    }
  }

  /** For distinct fields, every field is either mapped or warned about,
      never both. */
  lemma {:induction false} MapFieldsTotal(fields: seq<string>, find: string -> Option<string>)
    requires forall i, j :: 0 <= i < j < |fields| ==> fields[i] != fields[j]
    ensures |MapFieldsBy(fields, find).0| + |MapFieldsBy(fields, find).1| == |fields|
    decreases |fields|
  {
    if fields != [] {
      var n := |fields| - 1;
      var f := fields[n];
      var prefix := fields[..n];
      assert forall i, j :: 0 <= i < j < |prefix| ==> prefix[i] != prefix[j];
      MapFieldsTotal(prefix, find);
      MappedVisited(prefix, find);
      assert f !in prefix;
      assert f !in MapFieldsBy(prefix, find).0;
    }
  }

  /** The twelve expected fields are matched or warned about, one each. */
  lemma ExpectedTotal(headers: seq<string>)
    ensures |MapFields(ExpectedFields, headers).0| + |MapFields(ExpectedFields, headers).1| == 12
  {
    ExpectedDistinct();
    MapFieldsTotal(ExpectedFields, f => FindBestMatch(f, headers));
  }

  /** No expected field is listed twice (their last letters already differ). */
  lemma ExpectedDistinct()
    ensures forall i, j :: 0 <= i < j < |ExpectedFields| ==> ExpectedFields[i] != ExpectedFields[j]
  {
    var lasts := seq(|ExpectedFields|, k requires 0 <= k < |ExpectedFields| => Last(ExpectedFields[k]));
    assert lasts == "eln45678901p";
    forall i, j | 0 <= i < j < |ExpectedFields|
      ensures ExpectedFields[i] != ExpectedFields[j]
    {
      assert lasts[i] != lasts[j];
    }
  }


  /** The `expectedFields.forEach` loop, as the source writes it, over the
      given field list. */
  method BuildMapping(fields: seq<string>, headers: seq<string>) returns (mapping: map<string, string>, warnings: seq<string>)
    ensures (mapping, warnings) == MapFields(fields, headers)
  {
    mapping := map[];
    warnings := [];
    var i := 0;
    while i < |fields|
      invariant 0 <= i <= |fields|
      invariant (mapping, warnings) == MapFields(fields[..i], headers)
    {
      var field := fields[i];
      assert fields[..i + 1][..i] == fields[..i];
      var found := FindBestMatch(field, headers);
      if found.Some? {
        mapping := mapping[field := found.value];
      } else {
        warnings := warnings + [MissingWarning(field)];
      }
      i := i + 1;
    }
    assert fields[..i] == fields;
  }

  /** When no field finds a header, the mapping is empty and every field is
      warned about, in order. */
  lemma {:induction false} NothingMatched(fields: seq<string>, find: string -> Option<string>)
    requires forall i :: 0 <= i < |fields| ==> find(fields[i]).None?
    ensures MapFieldsBy(fields, find).0 == map[]
    ensures MapFieldsBy(fields, find).1 == seq(|fields|, i requires 0 <= i < |fields| => MissingWarning(fields[i]))
    decreases |fields|
  {
    if fields != [] {
      var n := |fields| - 1;
      NothingMatched(fields[..n], find);
    }
  }
}
