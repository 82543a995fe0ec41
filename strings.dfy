/** The string primitives of the JavaScript runtime that the dashboard relies
    on: `trim`, `toLowerCase`, whitespace runs, `includes`, `endsWith`,
    `split` and the default code-unit order used by `sort`. */
module Strings {

  /** ECMAScript WhiteSpace and LineTerminator code points: the set used both
      by `String.prototype.trim` and by the regular-expression class `\s`. */
  predicate IsSpace(c: char) {
    var n := c as int;
    n == 0x20 || (0x09 <= n <= 0x0D) || n == 0xA0 || n == 0x1680
    || (0x2000 <= n <= 0x200A) || n == 0x2028 || n == 0x2029
    || n == 0x202F || n == 0x205F || n == 0x3000 || n == 0xFEFF
  }

  /** The regular-expression class `\d`: ASCII digits only. */
  predicate IsDigit(c: char) {
    '0' <= c <= '9'
  }

  predicate AllDigits(s: string) {
    forall i :: 0 <= i < |s| ==> IsDigit(s[i])
  }

  predicate AllSpace(s: string) {
    forall i :: 0 <= i < |s| ==> IsSpace(s[i])
  }

  /** Neither the first nor the last character is whitespace. */
  predicate NoEdgeSpace(s: string) {
    s == [] || (!IsSpace(s[0]) && !IsSpace(s[|s| - 1]))
  }

  /** Removes the leading whitespace run. */
  function TrimStart(s: string): (r: string)
    ensures |r| <= |s|
  {
    if |s| > 0 && IsSpace(s[0]) then TrimStart(s[1..]) else s
  }

  /** `TrimStart` removes a prefix made of whitespace only, up to the first
      character that is not whitespace. */
  lemma {:induction false} TrimStartShape(s: string)
    ensures var r := TrimStart(s); r == s[|s| - |r|..]
    ensures var r := TrimStart(s); r == [] || !IsSpace(r[0])
    ensures var r := TrimStart(s); AllSpace(s[..|s| - |r|])
  {
    if |s| > 0 && IsSpace(s[0]) {
      TrimStartShape(s[1..]);
    }
  }

  /** Removes the trailing whitespace run. */
  function TrimEnd(s: string): (r: string)
    ensures |r| <= |s|
  {
    if |s| > 0 && IsSpace(s[|s| - 1]) then TrimEnd(s[..|s| - 1]) else s
  }

  /** `TrimEnd` removes a suffix made of whitespace only, back to the last
      character that is not whitespace. */
  lemma {:induction false} TrimEndShape(s: string)
    ensures var r := TrimEnd(s); r == s[..|r|]
    ensures var r := TrimEnd(s); r == [] || !IsSpace(r[|r| - 1])
    ensures var r := TrimEnd(s); AllSpace(s[|r|..])
  {
    if |s| > 0 && IsSpace(s[|s| - 1]) {
      TrimEndShape(s[..|s| - 1]);
    }
  }

  /** `String.prototype.trim`. */
  function Trim(s: string): string {
    TrimEnd(TrimStart(s))
  }

  /** A trimmed string has no edge whitespace, and a string without edge
      whitespace is its own trim. */
  lemma TrimShape(s: string)
    ensures NoEdgeSpace(Trim(s))
    ensures NoEdgeSpace(s) ==> Trim(s) == s
  {
    var t := TrimStart(s);
    TrimStartShape(s);
    TrimEndShape(t);
    assert NoEdgeSpace(s) ==> t == s;
    if t != [] && TrimEnd(t) != [] {
      assert TrimEnd(t)[0] == t[0];
    }
  }

  /** `toLowerCase` on one character, for the ASCII letters. */
  function LowerChar(c: char): char {
    if 'A' <= c <= 'Z' then (c as int + 32) as char else c
  }

  predicate IsLowerCase(s: string) {
    forall i :: 0 <= i < |s| ==> !('A' <= s[i] <= 'Z')
  }

  /** `String.prototype.toLowerCase`, for the ASCII letters. */
  function Lower(s: string): (r: string)
    ensures |r| == |s|
  {
    if s == [] then [] else [LowerChar(s[0])] + Lower(s[1..])
  }

  /** `Lower` maps each character on its own. */
  lemma {:induction false} LowerPointwise(s: string)
    ensures forall i :: 0 <= i < |s| ==> Lower(s)[i] == LowerChar(s[i])
  {
    if s != [] { LowerPointwise(s[1..]); }
  }

  /** Lower-casing yields a lower-case string, keeps whitespace where it is,
      and leaves a lower-case string unchanged. */
  lemma LowerShape(s: string)
    ensures IsLowerCase(Lower(s))
    ensures forall i :: 0 <= i < |s| ==> (IsSpace(Lower(s)[i]) <==> IsSpace(s[i]))
    ensures IsLowerCase(s) ==> Lower(s) == s
  {
    LowerPointwise(s);
  }

  /** Every whitespace character is a plain space and no two whitespace
      characters are adjacent. */
  predicate SingleSpaced(s: string) {
    forall i :: 0 <= i < |s| && IsSpace(s[i]) ==> s[i] == ' ' && (i + 1 < |s| ==> !IsSpace(s[i + 1]))
  }

  /** `replace(/\s+/g, " ")`: each maximal whitespace run becomes one space. */
  function CollapseSpaces(s: string): (r: string)
    ensures |s| > 0 ==> |r| > 0 && (IsSpace(r[0]) <==> IsSpace(s[0]))
    decreases |s|
  {
    if s == [] then []
    else if IsSpace(s[0]) then " " + CollapseSpaces(TrimStart(s))
    else [s[0]] + CollapseSpaces(s[1..])
  }

  /** After collapsing, whitespace is single plain spaces. */
  lemma {:induction false} CollapseSingleSpaced(s: string)
    ensures SingleSpaced(CollapseSpaces(s))
    decreases |s|
  {
    if s == [] {
    } else if IsSpace(s[0]) {
      var t := TrimStart(s);
      TrimStartShape(s);
      CollapseSingleSpaced(t);
      var rest := CollapseSpaces(t);
      var r := " " + rest;
      forall i | 0 <= i < |r| && IsSpace(r[i])
        ensures r[i] == ' ' && (i + 1 < |r| ==> !IsSpace(r[i + 1]))
      {
        if i > 0 { assert r[i] == rest[i - 1]; }
        if i == 0 && |r| > 1 { assert r[1] == rest[0]; }
      }
    } else {
      var rest := CollapseSpaces(s[1..]);
      CollapseSingleSpaced(s[1..]);
      var r := [s[0]] + rest;
      forall i | 0 <= i < |r| && IsSpace(r[i])
        ensures r[i] == ' ' && (i + 1 < |r| ==> !IsSpace(r[i + 1]))
      {
        assert r[i] == rest[i - 1];
      }
    }
  }

  /** Collapsing keeps whether the last character is whitespace. */
  lemma {:induction false} CollapseLast(s: string)
    ensures var r := CollapseSpaces(s); |s| > 0 ==> |r| > 0 && (IsSpace(r[|r| - 1]) <==> IsSpace(s[|s| - 1]))
    decreases |s|
  {
    if s == [] {
    } else if IsSpace(s[0]) {
      var t := TrimStart(s);
      TrimStartShape(s);
      var rest := CollapseSpaces(t);
      assert CollapseSpaces(s) == " " + rest;
      if t == [] {
        assert s[..|s| - |t|] == s;
        assert IsSpace(s[|s| - 1]);
      } else {
        assert t[|t| - 1] == s[|s| - 1];
        CollapseLast(t);
        assert (" " + rest)[|rest|] == rest[|rest| - 1];
      }
    } else if |s| > 1 {
      var rest := CollapseSpaces(s[1..]);
      assert CollapseSpaces(s) == [s[0]] + rest;
      CollapseLast(s[1..]);
      assert ([s[0]] + rest)[|rest|] == rest[|rest| - 1];
    }
  }

  /** Collapsing introduces no upper-case letter. */
  lemma {:induction false} CollapseLower(s: string)
    requires IsLowerCase(s)
    ensures IsLowerCase(CollapseSpaces(s))
    decreases |s|
  {
    if s != [] {
      TrimStartShape(s);
      var t := if IsSpace(s[0]) then TrimStart(s) else s[1..];
      assert IsLowerCase(t);
      CollapseLower(t);
    }
  }

  /** A string without whitespace is left unchanged by collapsing. */
  lemma NoSpaceCollapse(s: string)
    requires forall i :: 0 <= i < |s| ==> !IsSpace(s[i])
    ensures CollapseSpaces(s) == s
  {
    CollapseFixpoint(s);
  }

  /** A single-spaced string is left unchanged by collapsing. */
  lemma {:induction false} CollapseFixpoint(s: string)
    requires SingleSpaced(s)
    ensures CollapseSpaces(s) == s
    decreases |s|
  {
    if s != [] {
      assert SingleSpaced(s[1..]) by {
        forall i | 0 <= i < |s| - 1 && IsSpace(s[1..][i])
          ensures s[1..][i] == ' ' && (i + 1 < |s| - 1 ==> !IsSpace(s[1..][i + 1]))
        {
          assert s[1..][i] == s[i + 1];
        }
      }
      if IsSpace(s[0]) {
        assert TrimStart(s) == s[1..] by {
          assert TrimStart(s) == TrimStart(s[1..]);
          if |s| > 1 { assert !IsSpace(s[1]); }
        }
      }
      CollapseFixpoint(s[1..]);
    }
  }

  /** `s.startsWith(p)`. */
  predicate IsPrefix(p: string, s: string) {
    |p| <= |s| && s[..|p|] == p
  }

  /** `hay.includes(needle)`. */
  predicate Contains(hay: string, needle: string)
    decreases |hay|
  {
    IsPrefix(needle, hay) || (|hay| > 0 && Contains(hay[1..], needle))
  }

  /** `needle` occurs in `hay` starting at offset `i`. */
  predicate OccursAt(hay: string, needle: string, i: int) {
    0 <= i <= |hay| - |needle| && hay[i..i + |needle|] == needle
  }

  /** `Contains` holds exactly when `needle` occurs in `hay` at some offset. */
  lemma {:induction false} ContainsAt(hay: string, needle: string)
    ensures Contains(hay, needle) <==> exists i :: OccursAt(hay, needle, i)
    decreases |hay|
  {
    if |hay| > 0 {
      ContainsAt(hay[1..], needle);
      if IsPrefix(needle, hay) {
        assert OccursAt(hay, needle, 0);
      }
      if Contains(hay[1..], needle) {
        var i :| OccursAt(hay[1..], needle, i);
        assert hay[i + 1..i + 1 + |needle|] == hay[1..][i..i + |needle|];
        assert OccursAt(hay, needle, i + 1);
      }
      if exists i :: OccursAt(hay, needle, i) {
        var i :| OccursAt(hay, needle, i);
        if i > 0 {
          assert hay[1..][i - 1..i - 1 + |needle|] == hay[i..i + |needle|];
          assert OccursAt(hay[1..], needle, i - 1);
        } else {
          assert IsPrefix(needle, hay);
        }
      }
    } else {
      if IsPrefix(needle, hay) {
        assert OccursAt(hay, needle, 0);
      }
      if exists i :: OccursAt(hay, needle, i) {
        var i :| OccursAt(hay, needle, i);
        assert i == 0 && |needle| == 0;
        assert IsPrefix(needle, hay);
      }
    }
  }

  /** A string lacking one of the characters of `needle` does not contain it. */
  lemma MissingCharNotContained(hay: string, needle: string, k: nat)
    requires k < |needle| && needle[k] !in hay
    ensures !Contains(hay, needle)
  {
    ContainsAt(hay, needle);
  }

  /** The empty string is contained in every string. */
  lemma EmptyContained(hay: string)
    ensures Contains(hay, "")
  {
    assert IsPrefix("", hay);
  }

  /** `s.endsWith(suffix)`. */
  predicate EndsWith(s: string, suffix: string) {
    |suffix| <= |s| && s[|s| - |suffix|..] == suffix
  }

  /** `s.indexOf(c)`, with `|s|` standing for "not found". */
  function IndexOf(s: string, c: char): (k: nat)
    ensures k <= |s|
    ensures k < |s| ==> s[k] == c
    ensures forall j :: 0 <= j < k ==> s[j] != c
  {
    if s == [] then 0 else if s[0] == c then 0 else 1 + IndexOf(s[1..], c)
  }

  /** `parts.join(sep)`. */
  function Join(parts: seq<string>, sep: char): string {
    if parts == [] then ""
    else if |parts| == 1 then parts[0]
    else parts[0] + [sep] + Join(parts[1..], sep)
  }

  /** A joined list starts with the first piece's first character, when
      that piece is not empty. */
  lemma JoinFirst(parts: seq<string>, sep: char)
    requires |parts| >= 1 && parts[0] != ""
    ensures |Join(parts, sep)| > 0 && Join(parts, sep)[0] == parts[0][0]
  {
  }

  /** A joined list ends with the last piece's last character, when that
      piece is not empty. */
  lemma {:induction false} JoinLast(parts: seq<string>, sep: char)
    requires |parts| >= 1 && parts[|parts| - 1] != ""
    ensures var j := Join(parts, sep); |j| > 0 && j[|j| - 1] == Last(parts[|parts| - 1])
  {
    if |parts| > 1 {
      JoinLast(parts[1..], sep);
    }
  }

  /** The last character of a non-empty string, a space for the empty one. */
  function Last(s: string): char {
    if s == [] then ' ' else s[|s| - 1]
  }

  /** A joined list has no edge whitespace when its first piece does not
      start, and its last piece does not end, with whitespace. */
  lemma JoinEdges(parts: seq<string>, sep: char)
    requires |parts| >= 1 && parts[0] != "" && parts[|parts| - 1] != ""
    requires !IsSpace(parts[0][0]) && !IsSpace(Last(parts[|parts| - 1]))
    ensures NoEdgeSpace(Join(parts, sep))
  {
    JoinFirst(parts, sep);
    JoinLast(parts, sep);
  }

  /** A character that is neither the separator nor in any piece is not in
      the joined string. */
  lemma {:induction false} JoinAbsent(parts: seq<string>, sep: char, x: char)
    requires x != sep && forall i :: 0 <= i < |parts| ==> x !in parts[i]
    ensures x !in Join(parts, sep)
  {
    if |parts| > 1 {
      JoinAbsent(parts[1..], sep, x);
    }
  }

  /** `s.split(sep)` for a one-character separator: the pieces between
      separators, so that joining them back gives `s`. */
  function Split(s: string, sep: char): (parts: seq<string>)
    ensures |parts| >= 1
    ensures forall i :: 0 <= i < |parts| ==> sep !in parts[i]
    ensures Join(parts, sep) == s
    decreases |s|
  {
    var k := IndexOf(s, sep);
    if k == |s| then
      assert s[..k] == s;
      [s]
    else
      var rest := Split(s[k + 1..], sep);
      assert s == s[..k] + [sep] + s[k + 1..];
      assert sep !in s[..k];
      [s[..k]] + rest
  }

  /** The number of occurrences of `c` in `s`. */
  function CountChar(s: string, c: char): nat {
    if s == [] then 0 else (if s[0] == c then 1 else 0) + CountChar(s[1..], c)
  }

  lemma {:induction false} CountCharAppend(a: string, b: string, c: char)
    ensures CountChar(a + b, c) == CountChar(a, c) + CountChar(b, c)
  {
    if a != [] {
      assert (a + b)[1..] == a[1..] + b;
      CountCharAppend(a[1..], b, c);
    } else {
      assert a + b == b;
    }
  }

  lemma {:induction false} CountCharAbsent(s: string, c: char)
    requires c !in s
    ensures CountChar(s, c) == 0
  {
    if s != [] { CountCharAbsent(s[1..], c); }
  }

  /** `split` gives one piece more than there are separators. */
  lemma {:induction false} SplitCount(s: string, sep: char)
    ensures |Split(s, sep)| == CountChar(s, sep) + 1
    decreases |s|
  {
    var k := IndexOf(s, sep);
    if k == |s| {
      CountCharAbsent(s, sep);
    } else {
      SplitCount(s[k + 1..], sep);
      assert s == s[..k] + ([sep] + s[k + 1..]);
      CountCharAppend(s[..k], [sep] + s[k + 1..], sep);
      CountCharAppend([sep], s[k + 1..], sep);
      CountCharAbsent(s[..k], sep);
    }
  }

  /** Splitting a joined list gives it back, when no piece holds the separator. */
  lemma {:induction false} SplitJoin(parts: seq<string>, sep: char)
    requires |parts| >= 1
    requires forall i :: 0 <= i < |parts| ==> sep !in parts[i]
    ensures Split(Join(parts, sep), sep) == parts
  {
    if |parts| == 1 {
      var s := parts[0];
      assert IndexOf(s, sep) == |s|;
    } else {
      var s := Join(parts, sep);
      var p := parts[0];
      assert s == p + [sep] + Join(parts[1..], sep);
      var k := IndexOf(s, sep);
      assert forall j :: 0 <= j < |p| ==> s[j] == p[j];
      assert s[|p|] == sep;
      assert k == |p|;
      assert s[..k] == p;
      assert s[k + 1..] == Join(parts[1..], sep);
      SplitJoin(parts[1..], sep);
    }
  }

  /** The default `sort()` comparison of strings: lexicographic by character. */
  predicate Lt(a: string, b: string) {
    if |a| == 0 then |b| > 0
    else if |b| == 0 then false
    else if a[0] == b[0] then Lt(a[1..], b[1..])
    else a[0] < b[0]
  }

  lemma {:induction false} LtIrreflexive(a: string)
    ensures !Lt(a, a)
  {
    if |a| > 0 { LtIrreflexive(a[1..]); }
  }

  lemma {:induction false} LtTransitive(a: string, b: string, c: string)
    requires Lt(a, b) && Lt(b, c)
    ensures Lt(a, c)
  {
    if |a| > 0 && |b| > 0 && |c| > 0 && a[0] == b[0] && b[0] == c[0] {
      LtTransitive(a[1..], b[1..], c[1..]);
    }
  }

  lemma {:induction false} LtTotal(a: string, b: string)
    requires a != b
    ensures Lt(a, b) || Lt(b, a)
  {
    if |a| > 0 && |b| > 0 && a[0] == b[0] {
      assert a == [a[0]] + a[1..] && b == [b[0]] + b[1..];
      LtTotal(a[1..], b[1..]);
    }
  }

  lemma {:induction false} LtAsymmetric(a: string, b: string)
    requires Lt(a, b)
    ensures !Lt(b, a)
  {
    if |a| > 0 && |b| > 0 && a[0] == b[0] {
      LtAsymmetric(a[1..], b[1..]);
    }
  }

  /** `Number.parseInt` of a run of decimal digits. */
  function DigitsValue(s: string): nat
    requires AllDigits(s)
  {
    if s == [] then 0
    else
      assert AllDigits(s[..|s| - 1]);
      DigitsValue(s[..|s| - 1]) * 10 + (s[|s| - 1] as int - '0' as int)
  }

  /** Trimming and lower-casing commute, since lower-casing keeps whitespace. */
  lemma {:induction false} TrimLowerCommute(s: string)
    ensures Trim(Lower(s)) == Lower(Trim(s))
  {
    TrimStartLower(s);
    TrimEndLower(TrimStart(s));
  }

  lemma {:induction false} TrimStartLower(s: string)
    ensures TrimStart(Lower(s)) == Lower(TrimStart(s))
  {
    if s != [] {
      assert Lower(s) == [LowerChar(s[0])] + Lower(s[1..]);
      assert Lower(s)[1..] == Lower(s[1..]);
      TrimStartLower(s[1..]);
    }
  }

  lemma {:induction false} TrimEndLower(s: string)
    ensures TrimEnd(Lower(s)) == Lower(TrimEnd(s))
  {
    if s != [] {
      var n := |s| - 1;
      LowerPrefix(s, n);
      assert Lower(s)[n] == LowerChar(s[n]) by { LowerPointwise(s); }
      TrimEndLower(s[..n]);
    }
  }

  lemma {:induction false} LowerPrefix(s: string, n: nat)
    requires n <= |s|
    ensures Lower(s)[..n] == Lower(s[..n])
  {
    LowerPointwise(s);
    LowerPointwise(s[..n]);
  }

  /** Trimming ignores whitespace added at either end. */
  lemma {:induction false} TrimPadded(s: string, before: string, after: string)
    requires AllSpace(before) && AllSpace(after)
    ensures Trim(before + s + after) == Trim(s)
  {
    assert before + s + after == before + (s + after);
    TrimStartSkips(before, s + after);
    var t := TrimStart(s);
    if t == [] {
      TrimStartShape(s);
      assert s[..|s| - |t|] == s;
      assert AllSpace(s + after) by {
        forall i | 0 <= i < |s + after| ensures IsSpace((s + after)[i]) {
          if i < |s| { assert (s + after)[i] == s[i]; }
          else { assert (s + after)[i] == after[i - |s|]; }
        }
      }
      TrimStartSkips(s + after, []);
      assert s + after + [] == s + after;
    } else {
      TrimStartAppend(s, after);
      TrimEndSkips(t, after);
    }
  }

  lemma {:induction false} TrimStartSkips(pad: string, s: string)
    requires AllSpace(pad)
    ensures TrimStart(pad + s) == TrimStart(s)
  {
    if pad != [] {
      assert IsSpace((pad + s)[0]) by { assert (pad + s)[0] == pad[0]; }
      assert (pad + s)[1..] == pad[1..] + s;
      assert AllSpace(pad[1..]) by {
        forall i | 0 <= i < |pad| - 1 ensures IsSpace(pad[1..][i]) {
          assert pad[1..][i] == pad[i + 1];
        }
      }
      TrimStartSkips(pad[1..], s);
    } else {
      assert pad + s == s;
    }
  }

  lemma {:induction false} TrimStartAppend(s: string, after: string)
    requires TrimStart(s) != []
    ensures TrimStart(s + after) == TrimStart(s) + after
  {
    if IsSpace(s[0]) {
      assert (s + after)[1..] == s[1..] + after;
      TrimStartAppend(s[1..], after);
    }
  }

  lemma {:induction false} TrimEndSkips(s: string, pad: string)
    requires AllSpace(pad)
    ensures TrimEnd(s + pad) == TrimEnd(s)
    decreases |pad|
  {
    if pad != [] {
      var n := |s + pad| - 1;
      assert IsSpace((s + pad)[n]) by { assert (s + pad)[n] == pad[|pad| - 1]; }
      assert (s + pad)[..n] == s + pad[..|pad| - 1];
      TrimEndSkips(s, pad[..|pad| - 1]);
    } else {
      assert s + pad == s;
    }
  }

  /** A string of whitespace only trims to nothing. */
  lemma TrimAllSpace(s: string)
    requires AllSpace(s)
    ensures Trim(s) == ""
  {
    TrimStartSkips(s, []);
    assert s + [] == s;
  }

  /** Concatenation regroups. */
  lemma AppendAssoc<T>(a: seq<T>, b: seq<T>, d: seq<T>)
    ensures a + b + d == a + (b + d)
  {
  }
}
