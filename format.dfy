/**
 * The clock-style duration formatter and the duration-string parser of the
 * command line. Seconds arrive as exact reals, so `Math.ceil` is exact.
 */
module Format {
  import opened Options
  import opened Text
  import opened JsMath

  // ---------------------------------------------------------------- formatting

  /** `Math.max(0, Math.ceil(x))`: the whole seconds shown for `x`. */
  function WholeSeconds(x: real): (s: nat)
    ensures x <= 0.0 ==> s == 0
    ensures x > 0.0 ==> x <= s as real < x + 1.0
  {
    var c := Ceil(x);
    if c > 0 then c else 0
  }

  /** `String(n).padStart(2, "0")`. */
  function Pad2(n: nat): string {
    PadStart(NatToString(n), 2, '0')
  }

  /** The clock face of hours, minutes and seconds: M:SS without hours, H:MM:SS with them. */
  function Face(hours: nat, minutes: nat, seconds: nat): string {
    if hours > 0 then NatToString(hours) + ":" + Pad2(minutes) + ":" + Pad2(seconds)
    else NatToString(minutes) + ":" + Pad2(seconds)
  }

  /** The clock face of whole seconds, split into hours, minutes below 60 and seconds below 60. */
  function ClockFace(s: nat): string {
    Face(s / 3600, (s % 3600) / 60, s % 60)
  }

  /** `formatDuration(totalSeconds)`. */
  function FormatDuration(totalSeconds: real): string {
    ClockFace(WholeSeconds(totalSeconds))
  }

  /**
   * Reads a clock face back: two or three colon-separated runs of digits,
   * as minutes and seconds or as hours, minutes and seconds.
   */
  function ReadClock(t: string): Option<nat> {
    var parts := Split(t, ':');
    if (|parts| == 2 || |parts| == 3) && forall i :: 0 <= i < |parts| ==> |parts[i]| >= 1 && AllDigits(parts[i]) then
      if |parts| == 2 then Some(60 * DigitsValue(parts[0]) + DigitsValue(parts[1]))
      else Some(3600 * DigitsValue(parts[0]) + 60 * DigitsValue(parts[1]) + DigitsValue(parts[2]))
    else None
  }

  lemma Pad2Value(n: nat)
    requires n < 100
    ensures |Pad2(n)| == 2 && AllDigits(Pad2(n)) && DigitsValue(Pad2(n)) == n
  {
    PadTwoDigits(n);
    var p := Pad2(n);
    assert p[..1] == [DigitChar(n / 10)];
    assert p[..1][..0] == [];
    assert DigitsValue(p[..1]) == n / 10;
  }

  lemma JoinTwo(a: string, b: string, sep: string)
    ensures Join([a, b], sep) == a + sep + b
  {
    assert [a, b][1..] == [b];
  }

  lemma JoinThree(a: string, b: string, c: string, sep: string)
    ensures Join([a, b, c], sep) == a + sep + b + sep + c
  {
    assert [a, b, c][1..] == [b, c];
    JoinTwo(b, c, sep);
  }

  /** Whole seconds split into hours, minutes below 60 and seconds below 60. */
  lemma ClockParts(s: nat)
    ensures (s % 3600) / 60 < 60 && s % 60 < 60
    ensures s == 3600 * (s / 3600) + 60 * ((s % 3600) / 60) + s % 60
  {
    var r := s % 3600;
    assert s == 3600 * (s / 3600) + r;
    assert r == 60 * (r / 60) + r % 60;
    assert r % 60 == s % 60;
  }

  /** Parts that are runs of digits hold no colon, so the joined parts split back into them. */
  lemma SplitClockParts(xs: seq<string>)
    requires |xs| >= 1
    requires forall i :: 0 <= i < |xs| ==> |xs[i]| >= 1 && AllDigits(xs[i])
    ensures Split(Join(xs, ":"), ':') == xs
  {
    assert !IsDigit(':');
    forall i | 0 <= i < |xs| ensures ':' !in xs[i] {
      NonDigitNotIn(xs[i], ':');
    }
    SplitJoin(xs, ':');
  }

  /** Minutes and seconds as runs of digits read back as a number of seconds. */
  lemma ReadClockOfTwo(a: string, b: string)
    requires |a| >= 1 && AllDigits(a) && |b| >= 1 && AllDigits(b)
    ensures Split(a + ":" + b, ':') == [a, b]
    ensures ReadClock(a + ":" + b) == Some(60 * DigitsValue(a) + DigitsValue(b))
  {
    JoinTwo(a, b, ":");
    SplitClockParts([a, b]);
  }

  /** Hours, minutes and seconds as runs of digits read back as a number of seconds. */
  lemma ReadClockOfThree(a: string, b: string, c: string)
    requires |a| >= 1 && AllDigits(a) && |b| >= 1 && AllDigits(b) && |c| >= 1 && AllDigits(c)
    ensures Split(a + ":" + b + ":" + c, ':') == [a, b, c]
    ensures ReadClock(a + ":" + b + ":" + c) == Some(3600 * DigitsValue(a) + 60 * DigitsValue(b) + DigitsValue(c))
  {
    JoinThree(a, b, c, ":");
    SplitClockParts([a, b, c]);
  }

  /** Without hours the face is the minutes, a colon and two digits of seconds, and it reads back. */
  lemma FaceShort(m: nat, sec: nat)
    requires sec < 60
    ensures Split(Face(0, m, sec), ':') == [NatToString(m), Pad2(sec)]
    ensures ReadClock(Face(0, m, sec)) == Some(60 * m + sec)
  {
    Pad2Value(sec);
    DigitsValueOfNatToString(m);
    ReadClockOfTwo(NatToString(m), Pad2(sec));
  }

  /** With hours the face is hours, two digits of minutes and two of seconds, and it reads back. */
  lemma FaceLong(h: nat, m: nat, sec: nat)
    requires h > 0 && m < 60 && sec < 60
    ensures Split(Face(h, m, sec), ':') == [NatToString(h), Pad2(m), Pad2(sec)]
    ensures ReadClock(Face(h, m, sec)) == Some(3600 * h + 60 * m + sec)
  {
    Pad2Value(m);
    Pad2Value(sec);
    DigitsValueOfNatToString(h);
    ReadClockOfThree(NatToString(h), Pad2(m), Pad2(sec));
  }

  /**
   * The clock face of `s` has two parts below an hour and three from an
   * hour on: the whole minutes (or hours) first, then, with hours, the
   * minutes left over as two digits, and last the seconds left over as two
   * digits; it reads back as `s`.
   */
  lemma ClockFaceRoundTrip(s: nat)
    ensures var parts := Split(ClockFace(s), ':');
      && (|parts| == 2 <==> s < 3600) && (|parts| == 3 <==> s >= 3600)
      && |parts[|parts| - 1]| == 2 && AllDigits(parts[|parts| - 1])
      && DigitsValue(parts[|parts| - 1]) == s % 60
      && (s < 3600 ==> parts[0] == NatToString(s / 60))
      && (s >= 3600 ==> parts[0] == NatToString(s / 3600))
      && (s >= 3600 ==> |parts[1]| == 2 && AllDigits(parts[1]) && DigitsValue(parts[1]) == (s % 3600) / 60)
      && ReadClock(ClockFace(s)) == Some(s)
  {
    ClockParts(s);
    var h, m, sec := s / 3600, (s % 3600) / 60, s % 60;
    assert ClockFace(s) == Face(h, m, sec);
    Pad2Value(sec);
    if h == 0 {
      assert s < 3600;
      FaceShort(m, sec);
    } else {
      assert s >= 3600;
      Pad2Value(m);
      FaceLong(h, m, sec);
    }
  }

  /** Different whole seconds give different clock faces. */
  lemma ClockFaceInjective(s: nat, u: nat)
    requires ClockFace(s) == ClockFace(u)
    ensures s == u
  {
    ClockFaceRoundTrip(s);
    ClockFaceRoundTrip(u);
  }

  /** `formatDuration` shows the clock face of the seconds rounded up, with negatives as zero. */
  lemma FormatDurationReadsBack(x: real)
    ensures ReadClock(FormatDuration(x)) == Some(WholeSeconds(x))
  {
    ClockFaceRoundTrip(WholeSeconds(x));
  }

  /** Two digits of a number below 100. */
  lemma Pad2Chars(n: nat)
    requires n < 100
    ensures Pad2(n) == [DigitChar(n / 10), DigitChar(n % 10)]
  {
    PadTwoDigits(n);
  }

  /** A one-digit part, a colon and a two-digit part, character by character. */
  lemma ColonJoin(a: string, b: string, x: char, y: char, z: char)
    requires a == [x] && b == [y, z]
    ensures a + ":" + b == [x, ':', y, z]
  {
  }

  /** The face of fewer than ten minutes, character by character. */
  lemma ShortFaceChars(m: nat, sec: nat)
    requires m < 10 && sec < 60
    ensures Face(0, m, sec) == [DigitChar(m), ':', DigitChar(sec / 10), DigitChar(sec % 10)]
  {
    Pad2Chars(sec);
    ColonJoin(NatToString(m), Pad2(sec), DigitChar(m), DigitChar(sec / 10), DigitChar(sec % 10));
  }

  /** The face of fewer than ten hours, character by character. */
  lemma LongFaceChars(h: nat, m: nat, sec: nat)
    requires 1 <= h < 10 && m < 60 && sec < 60
    ensures Face(h, m, sec)
         == [DigitChar(h), ':', DigitChar(m / 10), DigitChar(m % 10), ':', DigitChar(sec / 10), DigitChar(sec % 10)]
  {
    var hh, mm, ss := DigitChar(h), Pad2(m), Pad2(sec);
    Pad2Chars(m);
    Pad2Chars(sec);
    ColonJoin(NatToString(h), mm, hh, mm[0], mm[1]);
    assert NatToString(h) + ":" + mm == [hh, ':', mm[0], mm[1]];
    assert Face(h, m, sec) == [hh, ':', mm[0], mm[1]] + ":" + ss;
  }

  /** The clock face of a sample under ten minutes, from its digits. */
  lemma ShortFaceIs(s: nat, m: nat, sec: nat, t: string)
    requires m < 10 && sec < 60 && s == 60 * m + sec
    requires t == [DigitChar(m), ':', DigitChar(sec / 10), DigitChar(sec % 10)]
    ensures ClockFace(s) == t
  {
    assert s / 3600 == 0 && (s % 3600) / 60 == m && s % 60 == sec;
    ShortFaceChars(m, sec);
  }

  /** Zero and negative durations are shown as "0:00". */
  lemma FormatDurationZero(x: real)
    requires x <= 0.0
    ensures FormatDuration(x) == "0:00"
  {
    assert WholeSeconds(x) == 0;
    ShortFaceIs(0, 0, 0, "0:00");
  }

  // The example lemmas below take their input as a parameter fixed by `requires x == ...`
  // rather than a literal in the `ensures`, which keeps each proof small for the solver.
  /** Whole seconds are shown with two digits of seconds: 5 as "0:05". */
  lemma FormatDurationSeconds(x: real)
    requires x == 5.0
    ensures FormatDuration(x) == "0:05"
  {
    assert WholeSeconds(x) == 5;
    ShortFaceIs(5, 0, 5, "0:05");
  }

  /** 125 seconds are "2:05". */
  lemma FormatDurationMinutes(x: real)
    requires x == 125.0
    ensures FormatDuration(x) == "2:05"
  {
    assert WholeSeconds(x) == 125;
    ShortFaceIs(125, 2, 5, "2:05");
  }

  /** Fractions of a second round up: 0.1 is "0:01". */
  lemma FormatDurationRoundsUp(x: real)
    requires x == 0.1
    ensures FormatDuration(x) == "0:01"
  {
    assert WholeSeconds(x) == 1;
    ShortFaceIs(1, 0, 1, "0:01");
  }

  /** Rounding up can carry into the minutes: 59.1 is "1:00". */
  lemma FormatDurationCarries(x: real)
    requires x == 59.1
    ensures FormatDuration(x) == "1:00"
  {
    assert WholeSeconds(x) == 60;
    ShortFaceIs(60, 1, 0, "1:00");
  }

  /** The clock face of an hour, a minute and a second. */
  lemma HourFace(s: nat, t: string)
    requires s == 3661 && t == "1:01:01"
    ensures ClockFace(s) == t
  {
    assert s / 3600 == 1 && (s % 3600) / 60 == 1 && s % 60 == 1;
    LongFaceChars(1, 1, 1);
    assert DigitChar(1) == '1' && DigitChar(0) == '0';
  }

  /** 3661 seconds are "1:01:01". */
  lemma FormatDurationHours(x: real)
    requires x == 3661.0
    ensures FormatDuration(x) == "1:01:01"
  {
    assert WholeSeconds(x) == 3661;
    HourFace(3661, "1:01:01");
  }

  // ---------------------------------------------------------------- parsing

  /**
   * The three optional captures of `^(?:(\d+)h)?(?:(\d+)m)?(?:(\d+)s)?$`,
   * each a run of digits or absent.
   */
  datatype Captures = Captures(hours: Option<string>, minutes: Option<string>, seconds: Option<string>)

  predicate GoodCapture(g: Option<string>) {
    g.Some? ==> |g.value| >= 1 && AllDigits(g.value)
  }

  predicate GoodCaptures(c: Captures) {
    GoodCapture(c.hours) && GoodCapture(c.minutes) && GoodCapture(c.seconds)
  }

  /** The text one optional group matches: its digits and its unit letter, or nothing. */
  function Group(g: Option<string>, unit: char): string {
    if g.Some? then g.value + [unit] else ""
  }

  /** The language of the pattern: every string it matches is the rendering of its captures. */
  function Render(c: Captures): string {
    Group(c.hours, 'h') + Group(c.minutes, 'm') + Group(c.seconds, 's')
  }

  /**
   * One optional group, matched at the start of `t`: the longest run of
   * digits if a unit letter follows it. Because a digit run can only end
   * where a non-digit starts, backtracking into a shorter run never helps,
   * and this deterministic step agrees with the pattern.
   */
  function TakeGroup(t: string, unit: char): (r: (Option<string>, string))
    ensures GoodCapture(r.0) && t == Group(r.0, unit) + r.1
    ensures r.0.None? ==> r.1 == t
  {
    var d := DigitPrefix(t);
    if |d| >= 1 && |d| < |t| && t[|d|] == unit then
      assert t == d + [unit] + t[|d| + 1..];
      (Some(d), t[|d| + 1..])
    else
      (None, t)
  }

  /** `t.match(...)`: the captures, or `None` when the whole string is not matched. */
  function MatchDuration(t: string): Option<Captures> {
    var h := TakeGroup(t, 'h');
    var m := TakeGroup(h.1, 'm');
    var s := TakeGroup(m.1, 's');
    if s.1 == [] then Some(Captures(h.0, m.0, s.0)) else None
  }

  /** `parseInt(capture || "0", 10)`. */
  function CaptureValue(g: Option<string>): nat
    requires GoodCapture(g)
  {
    if g.Some? then DigitsValue(g.value) else 0
  }

  /** The value of the groups of a matched string, when at least one group is there. */
  function GroupsValue(t: string): Option<nat> {
    match MatchDuration(t)
    case None => None
    case Some(c) =>
      if c.hours.None? && c.minutes.None? && c.seconds.None? then None
      else Some(3600 * CaptureValue(c.hours) + 60 * CaptureValue(c.minutes) + CaptureValue(c.seconds))
  }

  /** `input.trim().toLowerCase()`. */
  function Normalise(input: string): string {
    Lower(Trim(input))
  }

  /** `parseDuration(input)`: bare digits are minutes; otherwise h, m and s groups, at least one of them. */
  function ParseDuration(input: string): Option<nat> {
    var t := Normalise(input);
    if |t| >= 1 && AllDigits(t) then Some(DigitsValue(t) * 60) else GroupsValue(t)
  }


  /** A group is read back whole, and what follows it is left. */
  lemma TakeGroupOf(g: Option<string>, unit: char, rest: string)
    requires GoodCapture(g) && !IsDigit(unit)
    requires g.None? ==> TakeGroup(rest, unit).0.None?
    ensures TakeGroup(Group(g, unit) + rest, unit) == (g, rest)
  {
    if g.Some? {
      var t := g.value + [unit] + rest;
      assert t == g.value + ([unit] + rest);
      DigitPrefixOf(g.value, [unit] + rest);
      assert t[|g.value|] == unit;
      assert t[|g.value| + 1..] == rest;
    } else {
      assert Group(g, unit) + rest == rest;
    }
  }

  /** A group for one unit is not taken for another. */
  lemma TakeGroupMisses(g: Option<string>, unit: char, other: char, rest: string)
    requires GoodCapture(g) && g.Some? && !IsDigit(unit) && unit != other
    ensures TakeGroup(Group(g, unit) + rest, other).0.None?
  {
    var t := g.value + [unit] + rest;
    assert t == g.value + ([unit] + rest);
    DigitPrefixOf(g.value, [unit] + rest);
  }

  /** Nothing is taken from the empty string. */
  lemma TakeGroupEmpty(unit: char)
    ensures TakeGroup("", unit) == (None, "")
  {
  }

  /** Every string of the pattern's language is matched, with its own captures. */
  lemma MatchDurationComplete(c: Captures)
    requires GoodCaptures(c)
    ensures MatchDuration(Render(c)) == Some(c)
  {
    var sPart := Group(c.seconds, 's');
    var msPart := Group(c.minutes, 'm') + sPart;
    assert Render(c) == Group(c.hours, 'h') + msPart;
    // after the seconds group nothing is left, so nothing further is taken
    TakeGroupEmpty('s');
    assert sPart + "" == sPart;
    TakeGroupOf(c.seconds, 's', "");
    // the minutes group: what follows it is the seconds group
    if c.seconds.Some? {
      TakeGroupMisses(c.seconds, 's', 'm', "");
    }
    TakeGroupOf(c.minutes, 'm', sPart);
    // the hours group: what follows it begins with the minutes or the seconds group
    if c.minutes.Some? {
      TakeGroupMisses(c.minutes, 'm', 'h', sPart);
    } else if c.seconds.Some? {
      assert msPart == sPart + "";
      TakeGroupMisses(c.seconds, 's', 'h', "");
    } else {
      assert msPart == "";
    }
    TakeGroupOf(c.hours, 'h', msPart);
  }

  /** Every matched string is in the pattern's language, with the captures it was matched with. */
  lemma MatchDurationSound(t: string)
    requires MatchDuration(t).Some?
    ensures GoodCaptures(MatchDuration(t).value) && Render(MatchDuration(t).value) == t
  {
    var h := TakeGroup(t, 'h');
    var m := TakeGroup(h.1, 'm');
    var s := TakeGroup(m.1, 's');
    var gh, gm, gs := Group(h.0, 'h'), Group(m.0, 'm'), Group(s.0, 's');
    assert MatchDuration(t).value == Captures(h.0, m.0, s.0);
    assert m.1 == gs + s.1 && s.1 == [];
    assert m.1 == gs;
    assert t == gh + (gm + gs);
  }

  predicate IsUnit(ch: char) {
    ch == 'h' || ch == 'm' || ch == 's'
  }

  /** A present group is its digits and then its unit letter. */
  lemma GroupShape(g: Option<string>, unit: char)
    requires GoodCapture(g) && g.Some? && IsUnit(unit)
    ensures var t := Group(g, unit);
      |t| >= 2 && IsDigit(t[0]) && t[|t| - 1] == unit
      && forall i :: 0 <= i < |t| ==> IsDigit(t[i]) || IsUnit(t[i])
  {
  }

  /**
   * A rendering with at least one group starts with a digit, ends with a
   * unit letter and holds nothing but digits and unit letters.
   */
  lemma RenderShape(c: Captures)
    requires GoodCaptures(c) && (c.hours.Some? || c.minutes.Some? || c.seconds.Some?)
    ensures var r := Render(c);
      |r| >= 2 && IsDigit(r[0]) && IsUnit(r[|r| - 1])
      && forall i :: 0 <= i < |r| ==> IsDigit(r[i]) || IsUnit(r[i])
  {
    var a, b, d := Group(c.hours, 'h'), Group(c.minutes, 'm'), Group(c.seconds, 's');
    if c.hours.Some? { GroupShape(c.hours, 'h'); }
    if c.minutes.Some? { GroupShape(c.minutes, 'm'); }
    if c.seconds.Some? { GroupShape(c.seconds, 's'); }
    var r := Render(c);
    assert r == a + b + d;
    forall i | 0 <= i < |r| ensures IsDigit(r[i]) || IsUnit(r[i]) {
      if i < |a| { assert r[i] == a[i]; }
      else if i < |a| + |b| { assert r[i] == b[i - |a|]; }
      else { assert r[i] == d[i - |a| - |b|]; }
    }
    if |a| > 0 { assert r[0] == a[0]; } else if |b| > 0 { assert r[0] == b[0]; } else { assert r[0] == d[0]; }
    if |d| > 0 { assert r[|r| - 1] == d[|d| - 1]; }
    else if |b| > 0 { assert r[|r| - 1] == b[|b| - 1]; }
    else { assert r[|r| - 1] == a[|a| - 1]; }
  }

  /** A rendering with at least one group is already normalised and is not bare digits. */
  lemma RenderNormalised(c: Captures)
    requires GoodCaptures(c) && (c.hours.Some? || c.minutes.Some? || c.seconds.Some?)
    ensures Normalise(Render(c)) == Render(c) && !AllDigits(Render(c))
  {
    var r := Render(c);
    RenderShape(c);
    assert !IsDigit(r[|r| - 1]);
    TrimOfTrimmed(r);
    LowerUnchanged(r);
  }

  lemma GroupsValueOfMatch(t: string, c: Captures)
    requires GoodCaptures(c) && (c.hours.Some? || c.minutes.Some? || c.seconds.Some?)
    requires MatchDuration(t) == Some(c)
    ensures GroupsValue(t) == Some(3600 * CaptureValue(c.hours) + 60 * CaptureValue(c.minutes) + CaptureValue(c.seconds))
  {
  }

  /** A normalised string that is not bare digits is read by the pattern. */
  lemma ParseDurationNotBare(t: string)
    requires Normalise(t) == t && !AllDigits(t)
    ensures ParseDuration(t) == GroupsValue(t)
  {
  }

  /** Any h/m/s rendering parses to 3600 h + 60 m + s. */
  lemma ParseDurationOfGroups(c: Captures)
    requires GoodCaptures(c) && (c.hours.Some? || c.minutes.Some? || c.seconds.Some?)
    ensures ParseDuration(Render(c)) == Some(3600 * CaptureValue(c.hours) + 60 * CaptureValue(c.minutes) + CaptureValue(c.seconds))
  {
    var t := Render(c);
    RenderNormalised(c);
    MatchDurationComplete(c);
    GroupsValueOfMatch(t, c);
    ParseDurationNotBare(t);
  }

  /** A bare number is minutes. */
  lemma ParseDurationOfMinutes(n: nat)
    ensures ParseDuration(NatToString(n)) == Some(60 * n)
  {
    var s := NatToString(n);
    assert !IsJsWhitespace(s[0]) && !IsJsWhitespace(s[|s| - 1]);
    TrimOfTrimmed(s);
    assert Lower(s) == s;
    DigitsValueOfNatToString(n);
  }

  /** The pattern branch gives a value exactly for the renderings that have at least one group. */
  lemma GroupsValueDefined(t: string)
    ensures GroupsValue(t).Some? <==>
      exists c :: GoodCaptures(c) && (c.hours.Some? || c.minutes.Some? || c.seconds.Some?) && Render(c) == t
  {
    if GroupsValue(t).Some? {
      MatchDurationSound(t);
      var c := MatchDuration(t).value;
      assert GoodCaptures(c) && (c.hours.Some? || c.minutes.Some? || c.seconds.Some?) && Render(c) == t;
    }
    forall c | GoodCaptures(c) && (c.hours.Some? || c.minutes.Some? || c.seconds.Some?) && Render(c) == t
      ensures GroupsValue(t).Some?
    {
      MatchDurationComplete(c);
      GroupsValueOfMatch(t, c);
    }
  }

  /**
   * A result is there exactly when the trimmed, lower-cased text is bare
   * digits or is matched by the pattern with at least one group.
   */
  lemma ParseDurationDefined(input: string)
    ensures ParseDuration(input).Some? <==>
      (|Normalise(input)| >= 1 && AllDigits(Normalise(input)))
      || exists c :: GoodCaptures(c) && (c.hours.Some? || c.minutes.Some? || c.seconds.Some?) && Render(c) == Normalise(input)
  {
    GroupsValueDefined(Normalise(input));
  }

  /** Trimming and lower-casing a second time changes nothing. */
  lemma NormaliseIdempotent(input: string)
    ensures Normalise(Normalise(input)) == Normalise(input)
  {
    var r := TrimStart(input);
    TrimStartShape(input);
    TrimEndShape(r);
    var t := Trim(input);
    assert t == [] || (!IsJsWhitespace(t[0]) && !IsJsWhitespace(t[|t| - 1]));
    var y := Lower(t);
    assert y == [] || (!IsJsWhitespace(y[0]) && !IsJsWhitespace(y[|y| - 1]));
    TrimOfTrimmed(y);
    assert Lower(y) == y;
  }

  /** `parseDuration` depends on its input only through the trimmed, lower-cased text. */
  lemma ParseDurationNormalised(input: string)
    ensures ParseDuration(input) == ParseDuration(Normalise(input))
  {
    NormaliseIdempotent(input);
  }

  /** Bare digits are minutes: "5" gives 300 seconds and "0" gives 0. */
  lemma ParseDurationBare(t: string)
    requires t == "5" || t == "0"
    ensures ParseDuration(t) == Some(if t == "5" then 300 else 0)
  {
    if t == "5" {
      ParseDurationOfMinutes(5);
    } else {
      ParseDurationOfMinutes(0);
    }
  }

  lemma ParseDurationMinutes(t: string)
    requires t == "5m"
    ensures ParseDuration(t) == Some(300)
  {
    var c := Captures(None, Some(NatToString(5)), None);
    assert NatToString(5) == "5";
    assert Group(c.minutes, 'm') == t;
    assert Render(c) == t;
    DigitsValueOfNatToString(5);
    ParseDurationOfGroups(c);
  }

  lemma ParseDurationSeconds(t: string)
    requires t == "90s"
    ensures ParseDuration(t) == Some(90)
  {
    var c := Captures(None, None, Some(NatToString(90)));
    assert NatToString(90) == "90";
    assert Render(c) == t;
    DigitsValueOfNatToString(90);
    ParseDurationOfGroups(c);
  }

  lemma ParseDurationHoursMinutes(t: string)
    requires t == "1h30m"
    ensures ParseDuration(t) == Some(5400)
  {
    var c := Captures(Some(NatToString(1)), Some(NatToString(30)), None);
    assert NatToString(30) == "30";
    assert Render(c) == t;
    DigitsValueOfNatToString(1);
    DigitsValueOfNatToString(30);
    ParseDurationOfGroups(c);
  }

  /** All three groups, in order: "1h5m10s" is 3910 seconds. */
  lemma ParseDurationAllGroups(t: string)
    requires t == "1h5m10s"
    ensures ParseDuration(t) == Some(3910)
  {
    var c := Captures(Some(NatToString(1)), Some(NatToString(5)), Some(NatToString(10)));
    assert NatToString(10) == "10";
    assert Render(c) == t;
    DigitsValueOfNatToString(1);
    DigitsValueOfNatToString(5);
    DigitsValueOfNatToString(10);
    ParseDurationOfGroups(c);
  }

  /** Surrounding whitespace and an upper-case unit letter do not matter. */
  lemma ParseDurationPaddedUpper(t: string)
    requires t == "  5M  "
    ensures ParseDuration(t) == Some(300)
  {
    var w, b := "  ", "5M";
    assert t == w + (b + w);
    TrimStartOf(w, b + w);
    TrimEndOf(b, w);
    assert Normalise(t) == "5m";
    ParseDurationNormalised(t);
    ParseDurationMinutes("5m");
  }

  /** A string that does not start with a digit has no group at all, so only the empty string is matched. */
  lemma NoGroupWithoutDigit(t: string)
    requires t != [] && !IsDigit(t[0])
    ensures MatchDuration(t) == None
  {
    assert DigitPrefix(t) == [];
  }

  /** Digits followed by a letter that is not a unit make no group, so the string is not matched. */
  lemma NoGroupForUnknownUnit(d: string, x: char, rest: string)
    requires |d| >= 1 && AllDigits(d) && !IsDigit(x) && !IsUnit(x)
    ensures MatchDuration(d + [x] + rest) == None
  {
    var t := d + [x] + rest;
    assert t == d + ([x] + rest);
    DigitPrefixOf(d, [x] + rest);
    assert t[|d|] == x;
  }

  /** A trimmed string without capital letters is its own normal form. */
  lemma NormalOf(t: string)
    requires t == [] || (!IsJsWhitespace(t[0]) && !IsJsWhitespace(t[|t| - 1]))
    requires forall i :: 0 <= i < |t| ==> !('A' <= t[i] <= 'Z')
    ensures Normalise(t) == t
  {
    TrimOfTrimmed(t);
    LowerUnchanged(t);
  }

  /** A normal form that is not bare digits and that the pattern does not match has no result. */
  lemma ParseDurationUnmatched(t: string)
    requires Normalise(t) == t && !AllDigits(t) && MatchDuration(t) == None
    ensures ParseDuration(t) == None
  {
    ParseDurationNotBare(t);
  }

  /** The empty string has no result: the pattern matches it, but with no group. */
  lemma ParseDurationRejectsEmpty(t: string)
    requires t == ""
    ensures ParseDuration(t) == None
  {
    NormalOf(t);
    assert MatchDuration(t) == Some(Captures(None, None, None));
  }

  /** Letters have no result. */
  lemma ParseDurationRejectsLetters(t: string)
    requires t == "abc"
    ensures ParseDuration(t) == None
  {
    NormalOf(t);
    NoGroupWithoutDigit(t);
    ParseDurationUnmatched(t);
  }

  /** A unit letter without digits has no result. */
  lemma ParseDurationRejectsUnitAlone(t: string)
    requires t == "m"
    ensures ParseDuration(t) == None
  {
    NormalOf(t);
    NoGroupWithoutDigit(t);
    ParseDurationUnmatched(t);
  }

  /** Digits with a letter that is not a unit have no result. */
  lemma ParseDurationRejectsUnknownUnit(t: string)
    requires t == "5x"
    ensures ParseDuration(t) == None
  {
    NormalOf(t);
    assert t == "5" + ['x'] + "";
    NoGroupForUnknownUnit("5", 'x', "");
    assert !IsDigit(t[1]);
    ParseDurationUnmatched(t);
  }
}
