/**
 * The box-breathing visual: four phases of four seconds each, one per side
 * of a square, and a 6 by 20 character frame with one dot that travels
 * round its edge as the phase progresses.
 */
module BoxBreathing {
  import opened JsMath

  datatype BoxPhase = Inhale | HoldTop | Exhale | HoldBottom

  const PHASE_DURATION_MS: nat := 4000
  const PHASES: seq<BoxPhase> := [Inhale, HoldTop, Exhale, HoldBottom]
  const CYCLE_MS: nat := |PHASES| * PHASE_DURATION_MS

  function PhaseLabel(p: BoxPhase): string {
    match p
    case Inhale => "Breathe in"
    case HoldTop => "Hold"
    case Exhale => "Breathe out"
    case HoldBottom => "Hold"
  }

  /** Both holds read "Hold"; the two moving phases have labels of their own. */
  lemma PhaseLabels(p: BoxPhase)
    ensures PhaseLabel(p) == "Hold" <==> p == HoldTop || p == HoldBottom
    ensures PhaseLabel(p) == "Breathe in" <==> p == Inhale
    ensures PhaseLabel(p) == "Breathe out" <==> p == Exhale
  {
  }

  datatype PhaseProgress = PhaseProgress(phase: BoxPhase, progress: real)

  /**
   * The phase that `elapsed` milliseconds fall in, and the fraction of it
   * that has passed. Elapsed time is a whole number of milliseconds.
   */
  function GetPhaseAndProgress(elapsed: nat): (r: PhaseProgress)
    ensures 0.0 <= r.progress < 1.0
  {
    var position := elapsed % CYCLE_MS;
    var quotient := position / PHASE_DURATION_MS;
    var index := if quotient < |PHASES| - 1 then quotient else |PHASES| - 1;
    var phaseElapsed := position - index * PHASE_DURATION_MS;
    PhaseProgress(PHASES[index], phaseElapsed as real / PHASE_DURATION_MS as real)
  }

  /**
   * Within a cycle, phase `k` covers the `k`-th four seconds, and the
   * progress is the time spent in it over four seconds.
   */
  lemma PhaseWindow(elapsed: nat, k: nat)
    requires k < |PHASES|
    requires k * PHASE_DURATION_MS <= elapsed % CYCLE_MS < (k + 1) * PHASE_DURATION_MS
    ensures GetPhaseAndProgress(elapsed).phase == PHASES[k]
    ensures GetPhaseAndProgress(elapsed).progress
      == (elapsed % CYCLE_MS - k * PHASE_DURATION_MS) as real / PHASE_DURATION_MS as real
  {
    var position := elapsed % CYCLE_MS;
    assert position / PHASE_DURATION_MS == k;
  }

  /** Each phase is reached exactly on its window of the cycle. */
  lemma PhaseWindowExact(elapsed: nat, k: nat)
    requires k < |PHASES|
    ensures GetPhaseAndProgress(elapsed).phase == PHASES[k]
      <==> k * PHASE_DURATION_MS <= elapsed % CYCLE_MS < (k + 1) * PHASE_DURATION_MS
  {
    var position := elapsed % CYCLE_MS;
    var j := position / PHASE_DURATION_MS;
    assert j < |PHASES|;
    PhaseWindow(elapsed, j);
  }

  lemma NextCycle(elapsed: nat)
    ensures GetPhaseAndProgress(elapsed + CYCLE_MS) == GetPhaseAndProgress(elapsed)
  {
    assert CYCLE_MS == 16000;
    var e := elapsed + CYCLE_MS;
    assert e % CYCLE_MS == elapsed % CYCLE_MS;
  }

  /** Times that differ by whole cycles give the same phase and progress. */
  lemma {:induction false} Periodic(elapsed: nat, cycles: nat)
    ensures GetPhaseAndProgress(elapsed + cycles * CYCLE_MS) == GetPhaseAndProgress(elapsed)
  {
    if cycles > 0 {
      Periodic(elapsed, cycles - 1);
      NextCycle(elapsed + (cycles - 1) * CYCLE_MS);
      assert elapsed + cycles * CYCLE_MS == elapsed + (cycles - 1) * CYCLE_MS + CYCLE_MS;
    }
  }

  // ------------------------------------------------------------------ the box

  const BOX_W: nat := 20
  const BOX_H: nat := 6
  const DOT: char := '\U{25CF}'

  /**
   * Where the dot is drawn: up the left side while breathing in, along the
   * top while holding, down the right side while breathing out, and back
   * along the bottom while holding again.
   */
  function DotPosition(phase: BoxPhase, progress: real): (int, int) {
    var innerW := BOX_W - 2;
    var innerH := BOX_H - 2;
    match phase
    case Inhale => (Round((1.0 - progress) * (innerH - 1) as real) + 1, 0)
    case HoldTop => (0, Round(progress * (innerW - 1) as real) + 1)
    case Exhale => (Round(progress * (innerH - 1) as real) + 1, BOX_W - 1)
    case HoldBottom => (BOX_H - 1, Round((1.0 - progress) * (innerW - 1) as real) + 1)
  }

  predicate IsCorner(r: int, c: int) {
    (r == 0 || r == BOX_H - 1) && (c == 0 || c == BOX_W - 1)
  }

  /** The frame alone, read row by row: rounded corners, rules top and bottom, bars at the sides. */
  function FrameGlyph(r: int, c: int): char {
    if r == 0 then
      (if c == 0 then '\U{256D}' else if c == BOX_W - 1 then '\U{256E}' else '\U{2500}')
    else if r == BOX_H - 1 then
      (if c == 0 then '\U{2570}' else if c == BOX_W - 1 then '\U{256F}' else '\U{2500}')
    else if c == 0 || c == BOX_W - 1 then '\U{2502}'
    else ' '
  }

  /** The frame with the dot drawn over it. */
  function BoxGlyph(r: int, c: int, dot: (int, int)): char {
    if (r, c) == dot then DOT else FrameGlyph(r, c)
  }

  function BoxRow(r: int, dot: (int, int)): string {
    seq(BOX_W, c => BoxGlyph(r, c, dot))
  }

  function BoxPicture(phase: BoxPhase, progress: real): seq<string> {
    var dot := DotPosition(phase, progress);
    seq(BOX_H, r => BoxRow(r, dot))
  }

  /** `buildBox(phase, progress)`: the rows of the box, built one character at a time. */
  method BuildBox(phase: BoxPhase, progress: real) returns (lines: seq<string>)
    ensures |lines| == BOX_H && forall r :: 0 <= r < |lines| ==> |lines[r]| == BOX_W
    ensures lines == BoxPicture(phase, progress)
  {
    var dot := DotPosition(phase, progress);
    var dotRow, dotCol := dot.0, dot.1;
    lines := [];
    for r := 0 to BOX_H
      invariant |lines| == r
      invariant forall i :: 0 <= i < r ==> lines[i] == BoxRow(i, dot)
    {
      var row := "";
      for c := 0 to BOX_W
        invariant |row| == c
        invariant forall j :: 0 <= j < c ==> row[j] == BoxGlyph(r, j, dot)
      {
        if r == dotRow && c == dotCol {
          row := row + [DOT];
        } else if r == 0 && c == 0 {
          row := row + ['\U{256D}'];
        } else if r == 0 && c == BOX_W - 1 {
          row := row + ['\U{256E}'];
        } else if r == BOX_H - 1 && c == 0 {
          row := row + ['\U{2570}'];
        } else if r == BOX_H - 1 && c == BOX_W - 1 {
          row := row + ['\U{256F}'];
        } else if r == 0 || r == BOX_H - 1 {
          row := row + ['\U{2500}'];
        } else if c == 0 || c == BOX_W - 1 {
          row := row + ['\U{2502}'];
        } else {
          row := row + [' '];
        }
      }
      assert row == BoxRow(r, dot);
      lines := lines + [row];
    }
    assert lines == BoxPicture(phase, progress);
  }

  /**
   * For a progress between 0 and 1 the dot lies on the side of its phase,
   * never on a corner: on the left column below the top while breathing in,
   * on the top row while holding, on the right column while breathing out,
   * on the bottom row while holding again.
   */
  lemma DotOnEdge(phase: BoxPhase, progress: real)
    requires 0.0 <= progress <= 1.0
    ensures var (r, c) := DotPosition(phase, progress);
      && 0 <= r < BOX_H && 0 <= c < BOX_W && !IsCorner(r, c)
      && (phase == Inhale ==> c == 0 && 1 <= r <= BOX_H - 2)
      && (phase == HoldTop ==> r == 0 && 1 <= c <= BOX_W - 2)
      && (phase == Exhale ==> c == BOX_W - 1 && 1 <= r <= BOX_H - 2)
      && (phase == HoldBottom ==> r == BOX_H - 1 && 1 <= c <= BOX_W - 2)
  {
    RoundWithin(progress * 3.0, 3);
    RoundWithin((1.0 - progress) * 3.0, 3);
    RoundWithin(progress * 17.0, 17);
    RoundWithin((1.0 - progress) * 17.0, 17);
  }

  /**
   * The dot goes round clockwise: as the progress grows it rises on the
   * left, moves right on the top, falls on the right and moves left on the
   * bottom.
   */
  lemma DotTravels(phase: BoxPhase, p: real, q: real)
    requires 0.0 <= p <= q <= 1.0
    ensures var (r1, c1) := DotPosition(phase, p);
      var (r2, c2) := DotPosition(phase, q);
      match phase
      case Inhale => r2 <= r1
      case HoldTop => c1 <= c2
      case Exhale => r1 <= r2
      case HoldBottom => c2 <= c1
  {
    match phase
    case Inhale => RoundMonotone((1.0 - q) * 3.0, (1.0 - p) * 3.0);
    case HoldTop => RoundMonotone(p * 17.0, q * 17.0);
    case Exhale => RoundMonotone(p * 3.0, q * 3.0);
    case HoldBottom => RoundMonotone((1.0 - q) * 17.0, (1.0 - p) * 17.0);
  }

  /** Each phase starts and ends one cell away from the corners of its side. */
  lemma DotEnds()
    ensures DotPosition(Inhale, 0.0) == (4, 0) && DotPosition(Inhale, 1.0) == (1, 0)
    ensures DotPosition(HoldTop, 0.0) == (0, 1) && DotPosition(HoldTop, 1.0) == (0, 18)
    ensures DotPosition(Exhale, 0.0) == (1, 19) && DotPosition(Exhale, 1.0) == (4, 19)
    ensures DotPosition(HoldBottom, 0.0) == (5, 18) && DotPosition(HoldBottom, 1.0) == (5, 1)
  {
    RoundOfWhole(0);
    RoundOfWhole(3);
    RoundOfWhole(17);
  }

  /** The frame itself never holds a dot. */
  lemma FrameHasNoDot(r: int, c: int)
    ensures FrameGlyph(r, c) != DOT
  {
  }

  /**
   * For a progress between 0 and 1 exactly one cell of the picture holds
   * the dot, and every other cell shows the frame.
   */
  lemma ExactlyOneDot(phase: BoxPhase, progress: real)
    requires 0.0 <= progress <= 1.0
    ensures var lines := BoxPicture(phase, progress);
      var dot := DotPosition(phase, progress);
      && lines[dot.0][dot.1] == DOT
      && forall r, c :: 0 <= r < BOX_H && 0 <= c < BOX_W && (r, c) != dot ==>
           lines[r][c] == FrameGlyph(r, c) != DOT
  {
    DotOnEdge(phase, progress);
  }

  /**
   * The frame: its four corners are rounded, the rest of the top and bottom
   * rows are horizontal rules, the rest of the side columns are vertical
   * bars, and the inside is blank.
   */
  lemma FrameShape(r: int, c: int)
    requires 0 <= r < BOX_H && 0 <= c < BOX_W
    ensures (r, c) == (0, 0) ==> FrameGlyph(r, c) == '\U{256D}'
    ensures (r, c) == (0, BOX_W - 1) ==> FrameGlyph(r, c) == '\U{256E}'
    ensures (r, c) == (BOX_H - 1, 0) ==> FrameGlyph(r, c) == '\U{2570}'
    ensures (r, c) == (BOX_H - 1, BOX_W - 1) ==> FrameGlyph(r, c) == '\U{256F}'
    ensures !IsCorner(r, c) && (r == 0 || r == BOX_H - 1) ==> FrameGlyph(r, c) == '\U{2500}'
    ensures !IsCorner(r, c) && (c == 0 || c == BOX_W - 1) ==> FrameGlyph(r, c) == '\U{2502}'
    ensures 0 < r < BOX_H - 1 && 0 < c < BOX_W - 1 ==> FrameGlyph(r, c) == ' '
  {
  }
}
