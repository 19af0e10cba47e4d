/**
 * The breathing-pattern library: the built-in cyclic patterns, lookup by id,
 * and the parser for user-supplied patterns such as "3-6-9".
 */
module Patterns {
  import opened Options
  import opened Text

  datatype BreathingPhase = BreathingPhase(name: string, labelText: string, durationMs: int)

  datatype BreathingPattern = BreathingPattern(
    id: string,
    name: string,
    description: string,
    phases: seq<BreathingPhase>,
    cycleMs: int)

  /** The sum of the phase durations, phase by phase from the front. */
  function TotalDuration(phases: seq<BreathingPhase>): int {
    if phases == [] then 0 else phases[0].durationMs + TotalDuration(phases[1..])
  }

  /** A pattern whose cycle length is the sum of its phase durations. */
  predicate WellFormed(p: BreathingPattern) {
    p.cycleMs == TotalDuration(p.phases)
  }

  /** `phases.reduce((sum, p) => sum + p.durationMs, acc)`, a left fold. */
  function ReduceDurations(phases: seq<BreathingPhase>, acc: int): (r: int)
    ensures r == acc + TotalDuration(phases)
  {
    if phases == [] then acc else ReduceDurations(phases[1..], acc + phases[0].durationMs)
  }

  /** Builds a pattern, computing its cycle length from its phases. */
  function MakePattern(id: string, name: string, description: string, phases: seq<BreathingPhase>): (p: BreathingPattern)
    ensures WellFormed(p)
    ensures p.id == id && p.name == name && p.description == description && p.phases == phases
  {
    BreathingPattern(id, name, description, phases, ReduceDurations(phases, 0))
  }

  const STANDARD: BreathingPattern :=
    MakePattern("4-4-4", "4-4-4 (Standard)", "Balanced breathing: inhale, hold, exhale", [
      BreathingPhase("inhale", "Breathe in", 4000),
      BreathingPhase("hold", "Hold", 4000),
      BreathingPhase("exhale", "Breathe out", 4000)])
  const RELAXING: BreathingPattern :=
    MakePattern("4-7-8", "4-7-8 (Relaxing)", "Calming breath for sleep and anxiety", [
      BreathingPhase("inhale", "Breathe in", 4000),
      BreathingPhase("hold", "Hold", 7000),
      BreathingPhase("exhale", "Breathe out", 8000)])
  const COHERENT: BreathingPattern :=
    MakePattern("5-5", "5-5 (Coherent)", "Simple coherent breathing for focus", [
      BreathingPhase("inhale", "Breathe in", 5000),
      BreathingPhase("exhale", "Breathe out", 5000)])
  const BOX: BreathingPattern :=
    MakePattern("4-4-4-4", "4-4-4-4 (Box)", "Box breathing: inhale, hold, exhale, hold", [
      BreathingPhase("inhale", "Breathe in", 4000),
      BreathingPhase("hold-top", "Hold", 4000),
      BreathingPhase("exhale", "Breathe out", 4000),
      BreathingPhase("hold-bottom", "Hold", 4000)])

  /** `BUILTIN_PATTERNS`, in the order of the source. */
  const BUILTIN_PATTERNS: seq<BreathingPattern> := [STANDARD, RELAXING, COHERENT, BOX]

  /** The built-in table: four well-formed patterns of at least two phases. */
  lemma BuiltinTable()
    ensures |BUILTIN_PATTERNS| == 4
    ensures forall k :: 0 <= k < 4 ==> WellFormed(BUILTIN_PATTERNS[k]) && |BUILTIN_PATTERNS[k].phases| >= 2
    ensures forall k, i :: 0 <= k < 4 && 0 <= i < |BUILTIN_PATTERNS[k].phases| ==> BUILTIN_PATTERNS[k].phases[i].durationMs > 0
    ensures BUILTIN_PATTERNS[0].id == "4-4-4" && |BUILTIN_PATTERNS[0].phases| == 3 && BUILTIN_PATTERNS[0].cycleMs == 12000
    ensures BUILTIN_PATTERNS[1].id == "4-7-8" && |BUILTIN_PATTERNS[1].phases| == 3 && BUILTIN_PATTERNS[1].cycleMs == 19000
    ensures BUILTIN_PATTERNS[2].id == "5-5" && |BUILTIN_PATTERNS[2].phases| == 2 && BUILTIN_PATTERNS[2].cycleMs == 10000
    ensures BUILTIN_PATTERNS[3].id == "4-4-4-4" && |BUILTIN_PATTERNS[3].phases| == 4 && BUILTIN_PATTERNS[3].cycleMs == 16000
  {
  }

  /** Index `k` holds the first pattern of `ps` whose id is `id`. */
  predicate FirstWithId(ps: seq<BreathingPattern>, id: string, k: int) {
    0 <= k < |ps| && ps[k].id == id && forall j :: 0 <= j < k ==> ps[j].id != id
  }

  /** `ps.find((p) => p.id === id)`. */
  function FindById(ps: seq<BreathingPattern>, id: string): (r: Option<BreathingPattern>)
    ensures r.None? <==> forall k :: 0 <= k < |ps| ==> ps[k].id != id
    ensures r.Some? ==> exists k :: FirstWithId(ps, id, k) && ps[k] == r.value
  {
    if ps == [] then None
    else if ps[0].id == id then (assert FirstWithId(ps, id, 0); Some(ps[0]))
    else
      var r := FindById(ps[1..], id);
      if r.Some? then
        var k :| FirstWithId(ps[1..], id, k) && ps[1..][k] == r.value;
        assert FirstWithId(ps, id, k + 1);
        r
      else r
  }

  function GetPatternById(id: string): Option<BreathingPattern> {
    FindById(BUILTIN_PATTERNS, id)
  }

  /** In a table whose ids are distinct, each pattern is found by its own id. */
  lemma FindByDistinctId(ps: seq<BreathingPattern>, k: int)
    requires 0 <= k < |ps|
    requires forall j :: 0 <= j < |ps| && j != k ==> ps[j].id != ps[k].id
    ensures FindById(ps, ps[k].id) == Some(ps[k])
  {
    var r := FindById(ps, ps[k].id);
    var j :| FirstWithId(ps, ps[k].id, j) && ps[j] == r.value;
    assert j == k;
  }

  /** A table of four patterns with distinct ids finds each of them by its id. */
  lemma FindEachOfFour(ps: seq<BreathingPattern>)
    requires |ps| == 4
    requires ps[0].id != ps[1].id && ps[0].id != ps[2].id && ps[0].id != ps[3].id
    requires ps[1].id != ps[2].id && ps[1].id != ps[3].id && ps[2].id != ps[3].id
    ensures forall k :: 0 <= k < |ps| ==> FindById(ps, ps[k].id) == Some(ps[k])
  {
    forall k | 0 <= k < |ps|
      ensures FindById(ps, ps[k].id) == Some(ps[k])
    {
      FindByDistinctId(ps, k);
    }
  }

  /** The four built-in ids differ from each other and from "unknown". */
  lemma BuiltinIdsDistinct(a: string, b: string, c: string, d: string, u: string)
    requires a == "4-4-4" && b == "4-7-8" && c == "5-5" && d == "4-4-4-4" && u == "unknown"
    ensures a != b && a != c && a != d && b != c && b != d && c != d
    ensures u != a && u != b && u != c && u != d
  {
    assert a[2] != b[2] && |a| != |c| && |a| != |d| && |b| != |c| && |b| != |d| && |c| != |d|;
    assert u[0] != a[0] && u[0] != b[0] && u[0] != c[0] && u[0] != d[0];
  }

  /** The ids of the built-ins, in table order. */
  lemma BuiltinIds()
    ensures |BUILTIN_PATTERNS| == 4
    ensures BUILTIN_PATTERNS[0].id == "4-4-4" && BUILTIN_PATTERNS[1].id == "4-7-8"
    ensures BUILTIN_PATTERNS[2].id == "5-5" && BUILTIN_PATTERNS[3].id == "4-4-4-4"
  {
  }

  /** Every built-in is found by its own id. */
  lemma GetPatternByIdFindsBuiltins()
    ensures forall k :: 0 <= k < |BUILTIN_PATTERNS| ==> GetPatternById(BUILTIN_PATTERNS[k].id) == Some(BUILTIN_PATTERNS[k])
  {
    var ps := BUILTIN_PATTERNS;
    BuiltinIds();
    BuiltinIdsDistinct(ps[0].id, ps[1].id, ps[2].id, ps[3].id, "unknown");
    FindEachOfFour(ps);
  }

  /** An id that no built-in has finds nothing. */
  lemma GetPatternByIdUnknown(u: string)
    requires u == "unknown"
    ensures GetPatternById(u) == None
  {
    var ps := BUILTIN_PATTERNS;
    BuiltinIds();
    BuiltinIdsDistinct(ps[0].id, ps[1].id, ps[2].id, ps[3].id, u);
  }

  const PHASE_NAMES: seq<string> := ["inhale", "hold", "exhale", "hold-bottom"]
  const PHASE_LABELS: seq<string> := ["Breathe in", "Hold", "Breathe out", "Hold"]

  /** A parsed part is accepted when it is a number (not NaN) above zero. */
  predicate Positive(n: Option<int>) {
    n.Some? && n.value > 0
  }

  predicate AllPositive(nums: seq<Option<int>>) {
    forall i :: 0 <= i < |nums| ==> Positive(nums[i])
  }

  /** `nums.some((n) => isNaN(n) || n <= 0)`. */
  predicate AnyRejected(nums: seq<Option<int>>) {
    exists i :: 0 <= i < |nums| && !Positive(nums[i])
  }

  /** `parts.map((s) => parseInt(s, 10))`. */
  function ParseParts(parts: seq<string>): (nums: seq<Option<int>>)
    ensures |nums| == |parts|
  {
    seq(|parts|, i requires 0 <= i < |parts| => ParseInt(parts[i]))
  }

  /** The numbers of parts that all parsed as positive numbers. */
  function Values(nums: seq<Option<int>>): (ns: seq<int>)
    requires AllPositive(nums)
    ensures |ns| == |nums|
  {
    seq(|nums|, i requires 0 <= i < |nums| && Positive(nums[i]) => nums[i].value)
  }

  function SumInts(ns: seq<int>): int {
    if ns == [] then 0 else ns[0] + SumInts(ns[1..])
  }

  /** Phase `i` of the custom pattern of `seconds`. */
  function CustomPhase(seconds: seq<int>, i: nat): BreathingPhase
    requires i < |seconds|
  {
    BreathingPhase(PHASE_NAMES[i % |PHASE_NAMES|], PHASE_LABELS[i % |PHASE_LABELS|], seconds[i] * 1000)
  }

  /** `parts.join("-")` over the parsed numbers. */
  function CustomId(seconds: seq<int>): string {
    Join(seq(|seconds|, i requires 0 <= i < |seconds| => IntToString(seconds[i])), "-")
  }

  lemma {:induction false} TotalOfScaled(phases: seq<BreathingPhase>, seconds: seq<int>)
    requires |phases| == |seconds|
    requires forall i :: 0 <= i < |phases| ==> phases[i].durationMs == seconds[i] * 1000
    ensures TotalDuration(phases) == 1000 * SumInts(seconds)
  {
    if phases != [] {
      TotalOfScaled(phases[1..], seconds[1..]);
    }
  }

  /**
   * The pattern built from the parsed seconds: one phase per number, phase
   * `i` lasting 1000 times number `i` and named and labelled from entry
   * `i mod 4` of the tables (so a fifth phase is "inhale" again).
   */
  function CustomPattern(seconds: seq<int>): (p: BreathingPattern)
    ensures WellFormed(p) && |p.phases| == |seconds|
    ensures forall i :: 0 <= i < |seconds| ==>
      p.phases[i] == BreathingPhase(PHASE_NAMES[i % 4], PHASE_LABELS[i % 4], 1000 * seconds[i])
    ensures p.cycleMs == 1000 * SumInts(seconds)
    ensures p.id == CustomId(seconds)
    ensures p.name == "Custom (" + p.id + ")" && p.description == "Custom pattern: " + p.id
  {
    var phases := seq(|seconds|, i requires 0 <= i < |seconds| => CustomPhase(seconds, i));
    var id := CustomId(seconds);
    TotalOfScaled(phases, seconds);
    MakePattern(id, "Custom (" + id + ")", "Custom pattern: " + id, phases)
  }

  /**
   * `parseCustomPattern`: splits on "-" and reads each part with `parseInt`;
   * it fails softly (`None`) exactly when there are fewer than two parts or
   * some part is NaN or not above zero.
   */
  function ParseCustomPattern(input: string): (r: Option<BreathingPattern>)
    ensures var parts := Split(input, '-');
      r.Some? <==> |parts| >= 2 && forall i :: 0 <= i < |parts| ==> Positive(ParseInt(parts[i]))
  {
    var parts := Split(input, '-');
    var nums := ParseParts(parts);
    assert forall i :: 0 <= i < |parts| ==> nums[i] == ParseInt(parts[i]);
    if |nums| < 2 || AnyRejected(nums) then None
    else Some(CustomPattern(Values(nums)))
  }

  /** When every part reads as a positive number, the result is the pattern of those numbers. */
  lemma ParseWhenPartsRead(input: string, seconds: seq<int>)
    requires |Split(input, '-')| == |seconds| >= 2
    requires forall i :: 0 <= i < |seconds| ==> ParseInt(Split(input, '-')[i]) == Some(seconds[i]) && seconds[i] > 0
    ensures ParseCustomPattern(input) == Some(CustomPattern(seconds))
  {
    var nums := ParseParts(Split(input, '-'));
    assert forall i :: 0 <= i < |seconds| ==> nums[i] == Some(seconds[i]);
    assert !AnyRejected(nums);
    assert Values(nums) == seconds;
  }

  /** Parsing the id of positive seconds gives back the pattern of those seconds. */
  lemma ParseCustomId(seconds: seq<int>)
    requires |seconds| >= 2
    requires forall i :: 0 <= i < |seconds| ==> seconds[i] > 0
    ensures ParseCustomPattern(CustomId(seconds)) == Some(CustomPattern(seconds))
  {
    var texts := seq(|seconds|, i requires 0 <= i < |seconds| => IntToString(seconds[i]));
    forall k | 0 <= k < |texts|
      ensures '-' !in texts[k] && ParseInt(texts[k]) == Some(seconds[k])
    {
      assert texts[k] == NatToString(seconds[k]);
      assert AllDigits(texts[k]);
      ParseIntOfNatToString(seconds[k], "");
      assert texts[k] + "" == texts[k];
    }
    SplitJoin(texts, '-');
    ParseWhenPartsRead(CustomId(seconds), seconds);
  }

  /** The id of a parsed pattern is canonical: parsing it again gives the same pattern. */
  lemma ParseIdAgain(input: string)
    requires ParseCustomPattern(input).Some?
    ensures ParseCustomPattern(ParseCustomPattern(input).value.id) == ParseCustomPattern(input)
  {
    var nums := ParseParts(Split(input, '-'));
    assert AllPositive(nums);
    var seconds := Values(nums);
    assert forall i :: 0 <= i < |seconds| ==> seconds[i] == nums[i].value > 0;
    ParseCustomId(seconds);
  }

  /** Input without a dash is one part, too few for a pattern. */
  lemma RejectsSinglePart(t: string)
    requires '-' !in t
    ensures ParseCustomPattern(t) == None
  {
    SplitWithoutSeparator(t, '-');
  }

  /** A first part that does not read as a positive number rejects the input. */
  lemma RejectsFirstPart(a: string, b: string)
    requires '-' !in a && !Positive(ParseInt(a))
    ensures ParseCustomPattern(a + ['-'] + b) == None
  {
    SplitAtFirst(a, b, '-');
  }

  // The example lemmas below take their input as a parameter fixed by `requires t == ...`
  // rather than a literal in the `ensures`, which keeps each proof small for the solver.
  /** The empty input is rejected. */
  lemma ParseCustomPatternRejectsEmpty(t: string)
    requires t == ""
    ensures ParseCustomPattern(t) == None
  {
    RejectsSinglePart(t);
  }

  /** Letters are rejected. */
  lemma ParseCustomPatternRejectsLetters(t: string)
    requires t == "abc"
    ensures ParseCustomPattern(t) == None
  {
    RejectsSinglePart(t);
  }

  /** A single number is rejected. */
  lemma ParseCustomPatternRejectsSingle(t: string)
    requires t == "4"
    ensures ParseCustomPattern(t) == None
  {
    RejectsSinglePart(t);
  }

  /** A zero part is rejected. */
  lemma ParseCustomPatternRejectsZero(t: string)
    requires t == "0-4"
    ensures ParseCustomPattern(t) == None
  {
    var a, b := "0", "4";
    assert t == a + ['-'] + b;
    ParseIntOfNatToString(0, "");
    assert NatToString(0) + "" == a;
    RejectsFirstPart(a, b);
  }

  /** A leading dash makes an empty first part, which is NaN, so the input is rejected. */
  lemma ParseCustomPatternRejectsLeadingDash(t: string)
    requires t == "-4-4"
    ensures ParseCustomPattern(t) == None
  {
    var a, b := "", "4-4";
    assert t == a + ['-'] + b;
    assert ParseInt(a) == None;
    RejectsFirstPart(a, b);
  }

  /** The id of two numbers. */
  lemma CustomIdTwo(x: int, y: int)
    ensures CustomId([x, y]) == IntToString(x) + "-" + IntToString(y)
  {
    var s: seq<int> := [x, y];
    var texts := seq(|s|, i requires 0 <= i < |s| => IntToString(s[i]));
    assert texts == [IntToString(x), IntToString(y)];
    assert texts[1..] == [IntToString(y)];
    assert CustomId(s) == Join(texts, "-");
  }

  /** The id of three numbers. */
  lemma CustomIdThree(x: int, y: int, z: int)
    ensures CustomId([x, y, z]) == IntToString(x) + "-" + IntToString(y) + "-" + IntToString(z)
  {
    var s: seq<int> := [x, y, z];
    var texts := seq(|s|, i requires 0 <= i < |s| => IntToString(s[i]));
    assert texts == [IntToString(x), IntToString(y), IntToString(z)];
    assert texts[1..] == [IntToString(y), IntToString(z)];
    assert texts[1..][1..] == [IntToString(z)];
    assert Join(texts[1..], "-") == IntToString(y) + "-" + IntToString(z);
    assert CustomId(s) == Join(texts, "-");
  }

  lemma CustomIdThreeSixNine(t: string)
    requires t == "3-6-9"
    ensures CustomId([3, 6, 9]) == t
  {
    CustomIdThree(3, 6, 9);
    assert IntToString(3) == "3" && IntToString(6) == "6" && IntToString(9) == "9";
  }

  /** The pattern of 3, 6 and 9 seconds. */
  lemma CustomPatternThreeSixNine(seconds: seq<int>)
    requires seconds == [3, 6, 9]
    ensures var p := CustomPattern(seconds);
      && |p.phases| == 3 && p.cycleMs == 18000
      && p.phases[0].durationMs == 3000 && p.phases[1].durationMs == 6000
      && p.phases[2].durationMs == 9000 && p.phases[2].name == "exhale"
  {
    var p := CustomPattern(seconds);
    assert p.phases[2] == BreathingPhase(PHASE_NAMES[2], PHASE_LABELS[2], 9000);
    assert p.phases[1].durationMs == 6000 && p.phases[0].durationMs == 3000;
    var tail := seconds[1..];
    assert tail[1..][1..] == [];
    assert SumInts(tail[1..]) == 9;
    assert SumInts(tail) == 15;
    assert SumInts(seconds) == 18;
  }

  /** "3-6-9" gives phases of 3, 6 and 9 seconds and an 18-second cycle. */
  lemma ParseCustomPatternThreeSixNine(t: string)
    requires t == "3-6-9"
    ensures var r := ParseCustomPattern(t);
      && r.Some? && |r.value.phases| == 3 && r.value.cycleMs == 18000
      && r.value.phases[0].durationMs == 3000 && r.value.phases[1].durationMs == 6000
      && r.value.phases[2].durationMs == 9000 && r.value.phases[2].name == "exhale"
  {
    var seconds: seq<int> := [3, 6, 9];
    CustomIdThreeSixNine(t);
    ParseCustomId(seconds);
    CustomPatternThreeSixNine(seconds);
  }

  lemma SplitFourXFive(t: string)
    requires t == "4x-5"
    ensures Split(t, '-') == ["4x", "5"]
  {
    assert t == "4x" + ['-'] + "5";
    SplitAtFirst("4x", "5", '-');
    SplitWithoutSeparator("5", '-');
  }

  lemma ParseIntFourXFive(a: string, b: string)
    requires a == "4x" && b == "5"
    ensures ParseInt(a) == Some(4) && ParseInt(b) == Some(5)
  {
    ParseIntOfNatToString(4, "x");
    assert NatToString(4) + "x" == a;
    ParseIntOfNatToString(5, "");
    assert NatToString(5) + "" == b;
  }

  lemma CustomIdFourFive(t: string)
    requires t == "4-5"
    ensures CustomId([4, 5]) == t
  {
    CustomIdTwo(4, 5);
    assert IntToString(4) == "4" && IntToString(5) == "5";
  }

  /** JavaScript's digit-prefix rule: "4x" reads as 4, so "4x-5" is the pattern "4-5". */
  lemma ParseCustomPatternDigitPrefix(t: string)
    requires t == "4x-5"
    ensures var r := ParseCustomPattern(t);
      r.Some? && r.value.id == "4-5" && r.value.cycleMs == 9000
  {
    SplitFourXFive(t);
    var parts := Split(t, '-');
    var seconds: seq<int> := [4, 5];
    ParseIntFourXFive(parts[0], parts[1]);
    ParseWhenPartsRead(t, seconds);
    CustomIdFourFive("4-5");
    assert SumInts(seconds) == 9;
  }
}
