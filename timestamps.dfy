/** The timestamp recogniser `parseTimestamp` (lib/data-parser.ts:32-60) and
    the regular expression it searches for,
    `(\d{1,2})\/(\d{1,2})\/(\d{4}),?\s*(\d{1,2}):(\d{2}):(\d{2})`. */
module Timestamps {
  import opened Wrappers
  import opened Strings
  import opened Rows

  /** The pieces of one match of the pattern: the six capture groups and the
      text matched by `,?` and by `\s*`. */
  datatype RawMatch = RawMatch(
    day: string, month: string, year: string,
    comma: string, space: string,
    hours: string, minutes: string, seconds: string)

  /** `(\d{1,2})\/(\d{1,2})\/(\d{4})` can capture these pieces. */
  predicate DateShape(d: string, mo: string, y: string) {
    1 <= |d| <= 2 && AllDigits(d) && 1 <= |mo| <= 2 && AllDigits(mo) && |y| == 4 && AllDigits(y)
  }

  /** `(\d{1,2}):(\d{2}):(\d{2})` can capture these pieces. */
  predicate TimeShape(h: string, mi: string, se: string) {
    1 <= |h| <= 2 && AllDigits(h) && |mi| == 2 && AllDigits(mi) && |se| == 2 && AllDigits(se)
  }

  /** The pieces have the shapes the pattern allows. */
  predicate WellFormed(m: RawMatch) {
    DateShape(m.day, m.month, m.year)
    && (m.comma == "" || m.comma == ",")
    && AllSpace(m.space)
    && TimeShape(m.hours, m.minutes, m.seconds)
  }

  function DateText(d: string, mo: string, y: string): string {
    d + ("/" + (mo + ("/" + y)))
  }

  function TimeText(h: string, mi: string, se: string): string {
    h + (":" + (mi + (":" + se)))
  }

  /** The text a match covers, piece after piece. */
  function MatchText(m: RawMatch): string {
    DateText(m.day, m.month, m.year) + (m.comma + (m.space + TimeText(m.hours, m.minutes, m.seconds)))
  }

  /** `m` is a way for the pattern to match at the start of `t`. */
  predicate MatchesAt(t: string, m: RawMatch) {
    WellFormed(m) && IsPrefix(MatchText(m), t)
  }

  /** The number of leading digits of `t`, at most `max` (a greedy `\d{1,max}`). */
  function DigitRun(t: string, max: nat): (n: nat)
    ensures n <= max && n <= |t|
    ensures AllDigits(t[..n])
    ensures n < max && n < |t| ==> !IsDigit(t[n])
  {
    if max == 0 || t == [] || !IsDigit(t[0]) then 0
    else
      var n := 1 + DigitRun(t[1..], max - 1);
      assert t[..n] == [t[0]] + t[1..][..n - 1];
      n
  }

  /** The length of the leading whitespace run of `t` (a greedy `\s*`). */
  function SpaceRun(t: string): (n: nat)
    ensures n <= |t|
    ensures AllSpace(t[..n])
    ensures n < |t| ==> !IsSpace(t[n])
  {
    if t == [] || !IsSpace(t[0]) then 0
    else
      var n := 1 + SpaceRun(t[1..]);
      assert t[..n] == [t[0]] + t[1..][..n - 1];
      n
  }

  /** `t` is not empty and starts with `c`. */
  predicate StartsWith(t: string, c: char) {
    |t| > 0 && t[0] == c
  }

  /** Reads the time part, `(\d{1,2}):(\d{2}):(\d{2})`, at the start of `t`. */
  function TimeAt(t: string): Option<(string, string, string)> {
    var h := DigitRun(t, 2);
    if h == 0 || !StartsWith(t[h..], ':') then None
    else
      var u := t[h + 1..];
      if |u| < 2 || !AllDigits(u[..2]) || !StartsWith(u[2..], ':') then None
      else
        var w := u[3..];
        if |w| < 2 || !AllDigits(w[..2]) then None
        else Some((t[..h], u[..2], w[..2]))
  }

  /** Reads the date part, `(\d{1,2})\/(\d{1,2})\/(\d{4})`, at the start of
      `t`, with what follows it. */
  function DateAt(t: string): Option<(string, string, string, string)> {
    var d := DigitRun(t, 2);
    if d == 0 || !StartsWith(t[d..], '/') then None
    else
      var u := t[d + 1..];
      var mo := DigitRun(u, 2);
      if mo == 0 || !StartsWith(u[mo..], '/') then None
      else
        var w := u[mo + 1..];
        if |w| < 4 || !AllDigits(w[..4]) then None
        else Some((t[..d], u[..mo], w[..4], w[4..]))
  }

  /** Reads `,?\s*` and the time part at the start of `t`. */
  function TailAt(t: string): Option<(string, string, (string, string, string))> {
    var c := if StartsWith(t, ',') then 1 else 0;
    var afterComma := t[c..];
    var sp := SpaceRun(afterComma);
    match TimeAt(afterComma[sp..])
    case None => None
    case Some(time) => Some((t[..c], afterComma[..sp], time))
  }

  /** The match the regular-expression engine finds when it tries the
      pattern at the start of `t`: every quantifier is greedy and, for this
      pattern, backtracking never finds another way (see `MatchUnique`). */
  function MatchPrefix(t: string): (r: Option<RawMatch>) {
    match DateAt(t)
    case None => None
    case Some((day, month, year, rest)) =>
      match TailAt(rest)
      case None => None
      case Some((comma, space, (hours, minutes, seconds))) =>
        Some(RawMatch(day, month, year, comma, space, hours, minutes, seconds))
  }

  /** Splitting a prefix test at a concatenation. */
  lemma PrefixConcat(a: string, b: string, t: string)
    ensures IsPrefix(a + b, t) <==> IsPrefix(a, t) && IsPrefix(b, t[|a|..])
  {
    if IsPrefix(a, t) && IsPrefix(b, t[|a|..]) {
      assert t[..|a + b|] == t[..|a|] + t[|a|..][..|b|];
    }
    if IsPrefix(a + b, t) {
      assert t[..|a|] == (a + b)[..|a|];
      assert t[|a|..][..|b|] == (a + b)[|a|..];
    }
  }

  /** A greedy digit run ends where the digits `d` end when a non-digit
      follows them. */
  lemma {:induction false} DigitRunStops(t: string, max: nat, d: string)
    requires |d| <= max && AllDigits(d) && IsPrefix(d, t)
    requires |d| < max ==> |d| < |t| && !IsDigit(t[|d|])
    ensures DigitRun(t, max) == |d|
  {
  }

  /** A greedy whitespace run ends where the whitespace `s` ends when a
      non-whitespace character follows it. */
  lemma SpaceRunStops(t: string, s: string)
    requires AllSpace(s) && IsPrefix(s, t) && |s| < |t| && !IsSpace(t[|s|])
    ensures SpaceRun(t) == |s|
  {
  }

  /** Reading the time part succeeds exactly on the time text. */
  lemma TimeAtSound(t: string)
    ensures TimeAt(t).Some? ==>
      var (h, mi, se) := TimeAt(t).value;
      TimeShape(h, mi, se) && IsPrefix(TimeText(h, mi, se), t)
  {
    if TimeAt(t).Some? {
      var (h, mi, se) := TimeAt(t).value;
      var u := t[|h| + 1..];
      var w := u[3..];
      assert IsPrefix(":" + se, u[2..]) by {
        assert u[2..][..3] == [':'] + w[..2];
      }
      PrefixConcat(mi, ":" + se, u);
      PrefixConcat(":", mi + (":" + se), t[|h|..]);
      PrefixConcat(h, ":" + (mi + (":" + se)), t);
    }
  }

  lemma TimeAtComplete(t: string, h: string, mi: string, se: string)
    requires TimeShape(h, mi, se) && IsPrefix(TimeText(h, mi, se), t)
    ensures TimeAt(t) == Some((h, mi, se))
  {
    PrefixConcat(h, ":" + (mi + (":" + se)), t);
    PrefixConcat(":", mi + (":" + se), t[|h|..]);
    var u := t[|h| + 1..];
    assert t[|h|..][1..] == u;
    PrefixConcat(mi, ":" + se, u);
    PrefixConcat(":", se, u[2..]);
    assert t[|h|] == ':' by { assert t[|h|..][0] == t[|h|]; }
    DigitRunStops(t, 2, h);
    assert u[2..][1..] == u[3..];
  }

  /** Reading the date part succeeds exactly on the date text. */
  lemma DateAtSound(t: string)
    ensures DateAt(t).Some? ==>
      var (d, mo, y, rest) := DateAt(t).value;
      DateShape(d, mo, y) && t == DateText(d, mo, y) + rest
  {
    if DateAt(t).Some? {
      var (d, mo, y, rest) := DateAt(t).value;
      var dn := DigitRun(t, 2);
      var u := t[dn + 1..];
      var mn := DigitRun(u, 2);
      var w := u[mn + 1..];
      SlashSplit(t, dn);
      SlashSplit(u, mn);
      assert w == y + rest;
      DateTextAppend(d, mo, y, rest);
    }
  }

  lemma DateTextAppend(d: string, mo: string, y: string, rest: string)
    ensures DateText(d, mo, y) + rest == d + ("/" + (mo + ("/" + (y + rest))))
  {
    assert (mo + ("/" + y)) + rest == mo + ("/" + (y + rest));
  }

  /** A text with `/` at position `n` is what comes before, the slash and
      what comes after. */
  lemma SlashSplit(t: string, n: nat)
    requires n < |t| && t[n] == '/'
    ensures t == t[..n] + ("/" + t[n + 1..])
  {
  }

  lemma DateAtComplete(t: string, d: string, mo: string, y: string, rest: string)
    requires DateShape(d, mo, y) && t == DateText(d, mo, y) + rest
    ensures DateAt(t) == Some((d, mo, y, rest))
  {
    DateTextAppend(d, mo, y, rest);
    var u := mo + ("/" + (y + rest));
    SlashJoin(d, u);
    DigitRunStops(t, 2, d);
    SlashJoin(mo, y + rest);
    DigitRunStops(u, 2, mo);
    assert (y + rest)[..4] == y && (y + rest)[4..] == rest;
  }

  /** `a`, a slash and `b`, taken apart again. */
  lemma SlashJoin(a: string, b: string)
    ensures var s := a + ("/" + b);
      IsPrefix(a, s) && s[|a|] == '/' && s[|a| + 1..] == b
  {
    var s := a + ("/" + b);
    assert s[..|a|] == a;
    assert s[|a|..] == "/" + b;
  }

  /** Reading `,?\s*` and the time succeeds exactly on that text. */
  lemma TailAtSound(t: string)
    ensures TailAt(t).Some? ==>
      var (c, sp, (h, mi, se)) := TailAt(t).value;
      (c == "" || c == ",") && AllSpace(sp) && TimeShape(h, mi, se)
      && IsPrefix(c + (sp + TimeText(h, mi, se)), t)
  {
    var cn := if StartsWith(t, ',') then 1 else 0;
    var afterComma := t[cn..];
    var sn := SpaceRun(afterComma);
    if TimeAt(afterComma[sn..]).Some? {
      var (h, mi, se) := TimeAt(afterComma[sn..]).value;
      var c, sp := t[..cn], afterComma[..sn];
      assert TailAt(t).value == (c, sp, (h, mi, se));
      TimeAtSound(afterComma[sn..]);
      SplitPrefix(sp, TimeText(h, mi, se), afterComma);
      SplitPrefix(c, sp + TimeText(h, mi, se), t);
    }
  }

  /** A prefix `a` of `t` followed by a prefix of the rest is a prefix. */
  lemma SplitPrefix(a: string, b: string, t: string)
    requires IsPrefix(a, t) && IsPrefix(b, t[|a|..])
    ensures IsPrefix(a + b, t)
  {
    PrefixConcat(a, b, t);
  }

  lemma TailAtComplete(t: string, c: string, sp: string, h: string, mi: string, se: string)
    requires (c == "" || c == ",") && AllSpace(sp) && TimeShape(h, mi, se)
    requires IsPrefix(c + (sp + TimeText(h, mi, se)), t)
    ensures TailAt(t) == Some((c, sp, (h, mi, se)))
  {
    var time := TimeText(h, mi, se);
    PrefixConcat(c, sp + time, t);
    var afterComma := t[|c|..];
    PrefixConcat(sp, time, afterComma);
    assert afterComma[|sp|] == h[0] by {
      assert afterComma[|sp|..][0] == afterComma[|sp|];
      assert time[0] == h[0];
    }
    assert StartsWith(t, ',') <==> c == "," by {
      if c == "" {
        if |sp| > 0 { assert t[0] == sp[0]; } else { assert t[0] == h[0]; }
      }
    }
    SpaceRunStops(afterComma, sp);
    TimeAtComplete(afterComma[|sp|..], h, mi, se);
  }

  /** What the engine finds at the start of `t` is a match of the pattern. */
  lemma MatchPrefixSound(t: string)
    ensures MatchPrefix(t).Some? ==> MatchesAt(t, MatchPrefix(t).value)
  {
    if MatchPrefix(t).Some? {
      var m := MatchPrefix(t).value;
      var (d, mo, y, rest) := DateAt(t).value;
      var (c, sp, (h, mi, se)) := TailAt(rest).value;
      assert m == RawMatch(d, mo, y, c, sp, h, mi, se);
      DateAtSound(t);
      TailAtSound(rest);
      var date := DateText(d, mo, y);
      assert t[..|date|] == date && t[|date|..] == rest;
      SplitPrefix(date, c + (sp + TimeText(h, mi, se)), t);
    }
  }

  /** Every match of the pattern at the start of `t` is the one the engine
      finds. */
  lemma MatchPrefixComplete(t: string, m: RawMatch)
    requires MatchesAt(t, m)
    ensures MatchPrefix(t) == Some(m)
  {
    var date := DateText(m.day, m.month, m.year);
    var tail := m.comma + (m.space + TimeText(m.hours, m.minutes, m.seconds));
    PrefixConcat(date, tail, t);
    var rest := t[|date|..];
    assert t == date + rest;
    DateAtComplete(t, m.day, m.month, m.year, rest);
    TailAtComplete(rest, m.comma, m.space, m.hours, m.minutes, m.seconds);
  }

  /** The pattern matches at the start of `t` in at most one way, so the
      engine's backtracking order does not matter. */
  lemma MatchUnique(t: string, m1: RawMatch, m2: RawMatch)
    requires MatchesAt(t, m1) && MatchesAt(t, m2)
    ensures m1 == m2
  {
    MatchPrefixComplete(t, m1);
    MatchPrefixComplete(t, m2);
  }

  /** The scan of `value.match(pattern)` without the `g` flag: the result of
      `tryAt` at the leftmost position from `i` on where it finds a match. */
  function Search(s: string, i: nat, tryAt: string -> Option<RawMatch>): (r: Option<(nat, RawMatch)>)
    requires i <= |s|
    ensures r.Some? ==> i <= r.value.0 <= |s| && tryAt(s[r.value.0..]) == Some(r.value.1)
    ensures r.Some? ==> forall q :: i <= q < r.value.0 ==> tryAt(s[q..]).None?
    ensures r.None? ==> forall q :: i <= q <= |s| ==> tryAt(s[q..]).None?
    decreases |s| - i
  {
    match tryAt(s[i..])
    case Some(m) => Some((i, m))
    case None => if i == |s| then None else Search(s, i + 1, tryAt)
  }

  /** The match `value.match(pattern)` returns, if any. */
  function FirstMatch(value: string): (r: Option<RawMatch>)
    ensures r.Some? ==> WellFormed(r.value)
  {
    match Search(value, 0, MatchPrefix)
    case None => None
    case Some((p, m)) => MatchPrefixSound(value[p..]); Some(m)
  }

  /** The arguments `parseTimestamp` passes to `new Date`: the captures read
      as decimal numbers, the month made zero-based, and the day captured
      before the month. */
  function FieldsOf(m: RawMatch): DateFields
    requires WellFormed(m)
  {
    DateFields(DigitsValue(m.year), DigitsValue(m.month) - 1, DigitsValue(m.day),
               DigitsValue(m.hours), DigitsValue(m.minutes), DigitsValue(m.seconds))
  }

  /** `parseTimestamp`. The `try`/`catch` around the body never fires: neither
      the match, nor `Number.parseInt`, nor `new Date` throws here. */
  function ParseTimestamp(env: DateEnv, value: string): (c: Cell)
    ensures c.Text? ==> (value == "" && c.text == "N/A") || c.text == value
    ensures value == "" ==> c == Text("N/A")
  {
    if value == "" then Text("N/A")
    else
      match FirstMatch(value)
      case Some(m) => Instant(env.localTime(FieldsOf(m)))
      case None =>
        match env.parse(value)
        case Some(t) => Instant(t)
        case None => Text(value)
  }

  /** The pattern is searched for anywhere in the value: the leftmost place
      where it matches decides the date, whatever the generic parser would
      have said. */
  lemma LeftmostMatchDecides(env: DateEnv, value: string, p: nat, m: RawMatch)
    requires p <= |value| && MatchesAt(value[p..], m)
    requires forall q, m' :: 0 <= q < p ==> !MatchesAt(value[q..], m')
    ensures ParseTimestamp(env, value) == Instant(env.localTime(FieldsOf(m)))
  {
    MatchPrefixComplete(value[p..], m);
    var r := Search(value, 0, MatchPrefix);
    assert r.Some?;
    MatchPrefixSound(value[r.value.0..]);
    assert value != "" by { assert |MatchText(m)| > 0; }
  }

  /** Where the pattern matches nowhere, the generic date parse decides, and
      a value it rejects is returned unchanged. */
  lemma NoMatchFallsBack(env: DateEnv, value: string)
    requires value != ""
    requires forall q, m :: 0 <= q <= |value| ==> !MatchesAt(value[q..], m)
    ensures ParseTimestamp(env, value) ==
      match env.parse(value) case Some(t) => Instant(t) case None => Text(value)
  {
    var r := Search(value, 0, MatchPrefix);
    if r.Some? {
      MatchPrefixSound(value[r.value.0..]);
    }
  }

  /** The pattern cannot match where a digit does not start the text. */
  lemma NoMatchWithoutLeadingDigit(t: string, m: RawMatch)
    requires t == [] || !IsDigit(t[0])
    ensures !MatchesAt(t, m)
  {
  }

  /** A value without digits is never read by the pattern. */
  lemma NoDigitsNoMatch(value: string)
    requires forall i :: 0 <= i < |value| ==> !IsDigit(value[i])
    ensures forall q, m :: 0 <= q <= |value| ==> !MatchesAt(value[q..], m)
  {
    forall q, m | 0 <= q <= |value|
      ensures !MatchesAt(value[q..], m)
    {
      if q < |value| { assert value[q..][0] == value[q]; }
      NoMatchWithoutLeadingDigit(value[q..], m);
    }
  }

  /** `"05/03/2024, 14:30:00"` is read day first: the 5th of March 2024 (month
      index 2), at 14:30:00 local time. */
  lemma DayBeforeMonth(env: DateEnv)
    ensures ParseTimestamp(env, "05/03/2024, 14:30:00")
         == Instant(env.localTime(DateFields(2024, 2, 5, 14, 30, 0)))
  {
    var v := "05/03/2024, 14:30:00";
    var m := RawMatch("05", "03", "2024", ",", " ", "14", "30", "00");
    ExampleText(v, m);
    ExampleFields(m);
    LeftmostMatchDecides(env, v, 0, m);
  }

  lemma ExampleText(v: string, m: RawMatch)
    requires v == "05/03/2024, 14:30:00"
    requires m == RawMatch("05", "03", "2024", ",", " ", "14", "30", "00")
    ensures v[0..] == v && MatchesAt(v, m)
  {
    assert MatchText(m) == v;
  }

  lemma ExampleFields(m: RawMatch)
    requires m == RawMatch("05", "03", "2024", ",", " ", "14", "30", "00")
    ensures WellFormed(m) && FieldsOf(m) == DateFields(2024, 2, 5, 14, 30, 0)
  {
    assert "2024"[..3] == "202" && "202"[..2] == "20" && "20"[..1] == "2";
    assert DigitsValue("20") == 20;
    assert DigitsValue("2024") == 2024;
    assert "05"[..1] == "0" && "03"[..1] == "0" && "14"[..1] == "1";
    assert "30"[..1] == "3" && "00"[..1] == "0";
  }

  /** A value with no digits that the generic parser rejects stays text. */
  lemma NotADate(env: DateEnv)
    requires env.parse("not a date") == None
    ensures ParseTimestamp(env, "not a date") == Text("not a date")
  {
    NoDigitsNoMatch("not a date");
    NoMatchFallsBack(env, "not a date");
  }
}
