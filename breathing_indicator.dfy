/**
 * The breathing indicator: a twelve-second cycle of breathing in, holding
 * and breathing out, drawn as a bar of 20 cells that fills while breathing
 * in, stays full while holding and empties while breathing out.
 */
module BreathingIndicator {
  import opened JsMath

  datatype Phase = Inhale | Hold | Exhale

  const INHALE_MS: nat := 4000
  const HOLD_MS: nat := 4000
  const EXHALE_MS: nat := 4000
  const CYCLE_MS: nat := INHALE_MS + HOLD_MS + EXHALE_MS

  function PhaseLabel(p: Phase): string {
    match p
    case Inhale => "Breathe in"
    case Hold => "Hold"
    case Exhale => "Breathe out"
  }

  /** The three labels are distinct, so the label names the phase. */
  lemma PhaseLabelsDistinct(p: Phase, q: Phase)
    ensures PhaseLabel(p) == PhaseLabel(q) <==> p == q
  {
  }

  datatype PhaseProgress = PhaseProgress(phase: Phase, progress: real)

  /** `getPhase(elapsed)`, for a whole number of milliseconds. */
  function GetPhase(elapsed: nat): (r: PhaseProgress)
    ensures 0.0 <= r.progress < 1.0
  {
    var position := elapsed % CYCLE_MS;
    if position < INHALE_MS then PhaseProgress(Inhale, position as real / INHALE_MS as real)
    else if position < INHALE_MS + HOLD_MS then
      PhaseProgress(Hold, (position - INHALE_MS) as real / HOLD_MS as real)
    else PhaseProgress(Exhale, (position - INHALE_MS - HOLD_MS) as real / EXHALE_MS as real)
  }

  /**
   * Breathing in covers the first four seconds of the cycle, holding the
   * next four and breathing out the last four; the progress is the time
   * spent in the phase over its length.
   */
  lemma PhaseWindows(elapsed: nat)
    ensures var position := elapsed % CYCLE_MS;
      var r := GetPhase(elapsed);
      && (r.phase == Inhale <==> position < 4000)
      && (r.phase == Hold <==> 4000 <= position < 8000)
      && (r.phase == Exhale <==> 8000 <= position)
      && r.progress == (position - PhaseStart(r.phase)) as real / 4000.0
  {
  }

  /** Where a phase starts within the cycle. */
  function PhaseStart(p: Phase): nat {
    match p
    case Inhale => 0
    case Hold => INHALE_MS
    case Exhale => INHALE_MS + HOLD_MS
  }

  lemma NextCycle(elapsed: nat)
    ensures GetPhase(elapsed + CYCLE_MS) == GetPhase(elapsed)
  {
    assert CYCLE_MS == 12000;
    var e := elapsed + CYCLE_MS;
    assert e % CYCLE_MS == elapsed % CYCLE_MS;
  }

  /** Phase and progress repeat every cycle. */
  lemma {:induction false} Periodic(elapsed: nat, cycles: nat)
    ensures GetPhase(elapsed + cycles * CYCLE_MS) == GetPhase(elapsed)
  {
    if cycles > 0 {
      Periodic(elapsed, cycles - 1);
      NextCycle(elapsed + (cycles - 1) * CYCLE_MS);
      assert elapsed + cycles * CYCLE_MS == elapsed + (cycles - 1) * CYCLE_MS + CYCLE_MS;
    }
  }

  const BAR_WIDTH: nat := 20
  const FILL: char := '\U{2501}'
  const EMPTY: char := '\U{2500}'

  datatype Colour = Cyan | Blue

  datatype Bar = Bar(filled: int, colour: Colour)

  /** `breathBar(phase, progress)`: how many cells are filled, and in which colour. */
  function BreathBar(phase: Phase, progress: real): (b: Bar)
    ensures phase == Hold ==> b.filled == BAR_WIDTH && b.colour == Blue
    ensures phase != Hold ==> b.colour == Cyan
    ensures phase == Inhale ==>
      var x := progress * BAR_WIDTH as real; x - 0.5 < b.filled as real <= x + 0.5
    ensures phase == Exhale ==>
      var x := (1.0 - progress) * BAR_WIDTH as real; x - 0.5 < b.filled as real <= x + 0.5
    ensures 0.0 <= progress <= 1.0 ==> 0 <= b.filled <= BAR_WIDTH
  {
    match phase
    case Inhale =>
      Bar(Round(progress * BAR_WIDTH as real), Cyan)
    case Hold => Bar(BAR_WIDTH, Blue)
    case Exhale =>
      Bar(Round((1.0 - progress) * BAR_WIDTH as real), Cyan)
  }

  /**
   * The bar fills steadily: the filled count is the progress (breathing in)
   * or the progress still to go (breathing out) times the width, to the
   * nearest cell, and it never falls while breathing in nor
   * rises while breathing out. It is empty at the start of breathing in
   * and full at its end, and the reverse while breathing out.
   */
  lemma BarFollowsProgress(p: real, q: real)
    requires 0.0 <= p <= q <= 1.0
    ensures BreathBar(Inhale, p).filled <= BreathBar(Inhale, q).filled
    ensures BreathBar(Exhale, q).filled <= BreathBar(Exhale, p).filled
    ensures var f := BreathBar(Inhale, p).filled as real; p * 20.0 - 0.5 < f <= p * 20.0 + 0.5
    ensures var g := BreathBar(Exhale, p).filled as real; (1.0 - p) * 20.0 - 0.5 < g <= (1.0 - p) * 20.0 + 0.5
    ensures BreathBar(Inhale, 0.0).filled == 0 && BreathBar(Inhale, 1.0).filled == BAR_WIDTH
    ensures BreathBar(Exhale, 0.0).filled == BAR_WIDTH && BreathBar(Exhale, 1.0).filled == 0
  {
    RoundMonotone(p * 20.0, q * 20.0);
    RoundMonotone((1.0 - q) * 20.0, (1.0 - p) * 20.0);
  }

  function Repeat(c: char, n: nat): (s: string)
    ensures |s| == n && forall i :: 0 <= i < n ==> s[i] == c
  {
    if n == 0 then [] else [c] + Repeat(c, n - 1)
  }

  /**
   * The drawn bar: `filled` fill cells, then the rest of the width empty.
   * `String.prototype.repeat` rejects a negative count, so the filled count
   * must lie between 0 and the width.
   */
  function BarText(filled: int): (s: string)
    requires 0 <= filled <= BAR_WIDTH
    ensures |s| == BAR_WIDTH
    ensures forall i :: 0 <= i < |s| ==> s[i] == (if i < filled then FILL else EMPTY)
  {
    Repeat(FILL, filled) + Repeat(EMPTY, BAR_WIDTH - filled)
  }

  /** At any moment of the cycle the bar can be drawn, and it is always the full width. */
  lemma BarAlwaysDrawable(elapsed: nat)
    ensures var r := GetPhase(elapsed);
      var b := BreathBar(r.phase, r.progress);
      0 <= b.filled <= BAR_WIDTH && |BarText(b.filled)| == BAR_WIDTH
  {
  }
}
