/**
 * The pause-aware countdown timer. The monotonic clock the source samples
 * (`process.hrtime`) is an explicit argument `now`, in whole milliseconds,
 * and the 250 ms interval callback is the explicit `Tick(now)`; the interval
 * handle is the flag `ticking`. Notifications the timer sends to its owner
 * are returned as a sequence of events, in the order they are sent.
 *
 * The step functions on `TimerSnap` are the specification; class `Timer`
 * updates its fields in place and is proved to follow them.
 */
module Timing {

  datatype TimerState = Idle | Running | Paused | Complete

  /** `onTick(remaining, elapsed)` in seconds, and `onComplete()`. */
  datatype TimerEvent = Tick(remaining: real, elapsed: real) | Completed

  datatype TimerSnap = TimerSnap(
    durationMs: nat,
    elapsedMs: nat,
    state: TimerState,
    lastTickAt: nat,
    ticking: bool)

  /** The interval is registered exactly while running, and nothing has elapsed before the start. */
  predicate Inv(t: TimerSnap) {
    && (t.ticking <==> t.state == Running)
    && (t.state == Idle ==> t.elapsedMs == 0)
  }

  /** The instant `now` is not before the reference instant: the clock is monotonic. */
  predicate ClockFrom(t: TimerSnap, now: nat) {
    t.lastTickAt <= now
  }

  /** A new timer of `durationSeconds`. */
  function Initial(durationSeconds: nat): TimerSnap {
    TimerSnap(durationSeconds * 1000, 0, Idle, 0, false)
  }

  /** `accumulate()`: adds the time since the reference instant and moves the reference to now. */
  function Accumulated(t: TimerSnap, now: nat): TimerSnap
    requires ClockFrom(t, now)
  {
    t.(elapsedMs := t.elapsedMs + (now - t.lastTickAt), lastTickAt := now)
  }

  function StartStep(t: TimerSnap, now: nat): TimerSnap {
    if t.state != Idle then t
    else t.(state := Running, lastTickAt := now, ticking := true)
  }

  function PauseStep(t: TimerSnap, now: nat): TimerSnap
    requires ClockFrom(t, now)
  {
    if t.state != Running then t
    else Accumulated(t, now).(ticking := false, state := Paused)
  }

  function ResumeStep(t: TimerSnap, now: nat): TimerSnap {
    if t.state != Paused then t
    else t.(state := Running, lastTickAt := now, ticking := true)
  }

  function StopStep(t: TimerSnap, now: nat): TimerSnap
    requires ClockFrom(t, now)
  {
    if t.state == Idle || t.state == Complete then t
    else
      var a := if t.state == Running then Accumulated(t, now) else t;
      a.(ticking := false, state := Complete)
  }

  /**
   * The interval callback. It fires only while the interval is registered;
   * reaching the duration clamps the elapsed time to it, cancels the
   * interval, completes, and sends tick(0, duration) and then complete;
   * otherwise it sends tick(remaining, elapsed).
   */
  function TickStep(t: TimerSnap, now: nat): (TimerSnap, seq<TimerEvent>)
    requires ClockFrom(t, now)
  {
    if !t.ticking then (t, [])
    else
      var a := Accumulated(t, now);
      if a.elapsedMs >= a.durationMs then
        (a.(elapsedMs := a.durationMs, ticking := false, state := Complete),
         [Tick(0.0, a.durationMs as real / 1000.0), Completed])
      else
        (a, [Tick((a.durationMs - a.elapsedMs) as real / 1000.0, a.elapsedMs as real / 1000.0)])
  }

  /** `getElapsed()` in seconds: the accumulated time, plus the live stretch since the reference instant while running. */
  function ElapsedAt(t: TimerSnap, now: nat): (r: real)
    requires ClockFrom(t, now)
    ensures r >= t.elapsedMs as real / 1000.0
    ensures t.state != Running ==> r == t.elapsedMs as real / 1000.0
    ensures t.state == Running ==> r == Accumulated(t, now).elapsedMs as real / 1000.0
  {
    var extra := if t.state == Running then now - t.lastTickAt else 0;
    (t.elapsedMs + extra) as real / 1000.0
  }

  /** `getRemaining()` in seconds: the duration less the elapsed time, never below zero. */
  function RemainingAt(t: TimerSnap, now: nat): (r: real)
    requires ClockFrom(t, now)
    ensures r >= 0.0
    ensures r <= t.durationMs as real / 1000.0
    ensures r == 0.0 <==> ElapsedAt(t, now) >= t.durationMs as real / 1000.0
  {
    var d := t.durationMs as real / 1000.0 - ElapsedAt(t, now);
    if d > 0.0 then d else 0.0
  }

  // ---------------------------------------------------------------- properties

  /** Every transition keeps the invariant. */
  lemma StepsKeepInv(t: TimerSnap, now: nat)
    requires Inv(t) && ClockFrom(t, now)
    ensures Inv(StartStep(t, now)) && Inv(PauseStep(t, now)) && Inv(ResumeStep(t, now))
    ensures Inv(StopStep(t, now)) && Inv(TickStep(t, now).0)
  {
  }

  /** Each state-changing call is a no-op outside its source state(s). */
  lemma NoOpsOutsideSourceState(t: TimerSnap, now: nat)
    requires ClockFrom(t, now)
    ensures t.state != Idle ==> StartStep(t, now) == t
    ensures t.state != Running ==> PauseStep(t, now) == t
    ensures t.state != Paused ==> ResumeStep(t, now) == t
    ensures t.state in {Idle, Complete} ==> StopStep(t, now) == t
  {
  }

  /** Once the timer is not running, a tick changes nothing and sends nothing. */
  lemma TickInertUnlessRunning(t: TimerSnap, now: nat)
    requires Inv(t) && ClockFrom(t, now) && t.state != Running
    ensures TickStep(t, now) == (t, [])
  {
  }

  /** Pausing twice is pausing once, and likewise for start, resume and stop. */
  lemma Idempotent(t: TimerSnap, a: nat, b: nat)
    requires ClockFrom(t, a) && a <= b
    ensures PauseStep(PauseStep(t, a), b) == PauseStep(t, a)
    ensures StartStep(StartStep(t, a), b) == StartStep(t, a)
    ensures ResumeStep(ResumeStep(t, a), b) == ResumeStep(t, a)
    ensures StopStep(StopStep(t, a), b) == StopStep(t, a)
  {
  }

  /** While paused the elapsed time is pinned, whatever the clock says. */
  lemma PausedElapsedPinned(t: TimerSnap, a: nat, b: nat)
    requires t.state == Running && ClockFrom(t, a) && a <= b
    ensures ElapsedAt(PauseStep(t, a), b) == ElapsedAt(t, a)
  {
  }

  /** Resuming keeps the elapsed time and restarts the live stretch from now. */
  lemma ResumeKeepsElapsed(t: TimerSnap, now: nat)
    requires t.state == Paused && ClockFrom(t, now)
    ensures ResumeStep(t, now).elapsedMs == t.elapsedMs
    ensures ElapsedAt(ResumeStep(t, now), now) == ElapsedAt(t, now)
  {
  }

  /** The start, pause, resume and stop calls never lower the accumulated time. */
  lemma ElapsedNeverLoweredByCalls(t: TimerSnap, now: nat)
    requires ClockFrom(t, now)
    ensures StartStep(t, now).elapsedMs >= t.elapsedMs
    ensures PauseStep(t, now).elapsedMs >= t.elapsedMs
    ensures ResumeStep(t, now).elapsedMs >= t.elapsedMs
    ensures StopStep(t, now).elapsedMs >= t.elapsedMs
  {
  }

  /**
   * A tick that acts either completes, with the elapsed time exactly the
   * duration and events tick(0, duration) then complete, or keeps running,
   * with the time still short of the duration and one tick whose remaining
   * and elapsed parts add up to the duration.
   */
  lemma TickOutcome(t: TimerSnap, now: nat)
    requires Inv(t) && ClockFrom(t, now) && t.state == Running
    ensures var (u, events) := TickStep(t, now);
      var reached := t.elapsedMs + (now - t.lastTickAt) >= t.durationMs;
      && (reached ==> u.state == Complete && u.elapsedMs == u.durationMs && !u.ticking
                      && events == [Tick(0.0, t.durationMs as real / 1000.0), Completed]
                      && RemainingAt(u, now) == 0.0)
      && (!reached ==> u.state == Running && u.elapsedMs < u.durationMs && |events| == 1
                       && events[0].Tick? && events[0].remaining > 0.0
                       && events[0].remaining + events[0].elapsed == t.durationMs as real / 1000.0
                       && events[0].elapsed == ElapsedAt(t, now))
      && u.durationMs == t.durationMs
  {
  }

  /** A tick never lowers the accumulated time as long as it had not passed the duration. */
  lemma TickKeepsElapsedWithinDuration(t: TimerSnap, now: nat)
    requires ClockFrom(t, now) && t.elapsedMs <= t.durationMs
    ensures TickStep(t, now).0.elapsedMs >= t.elapsedMs
    ensures t.ticking ==> TickStep(t, now).0.elapsedMs <= t.durationMs
  {
  }

  /**
   * The accumulated time can go down: a pause taken after the duration has
   * passed but before the next tick records more than the duration, and
   * the tick after the resume clamps it back to the duration.
   */
  lemma PauseOvershootThenClamp()
    ensures var t0 := StartStep(Initial(1), 0);
      var t1 := PauseStep(t0, 1090);
      var t2 := ResumeStep(t1, 2000);
      var t3 := TickStep(t2, 2250).0;
      && t1.state == Paused && t1.elapsedMs == 1090
      && t3.state == Complete && t3.elapsedMs == 1000
      && ElapsedAt(t3, 2250) < ElapsedAt(t1, 2000)
  {
  }

  /** A stop does not clamp: stopping after the duration passed leaves more than the duration. */
  lemma StopDoesNotClamp()
    ensures var t := StopStep(StartStep(Initial(1), 0), 1200);
      t.state == Complete && t.elapsedMs == 1200 && RemainingAt(t, 1200) == 0.0
  {
  }

  /**
   * Ten seconds: four seconds of running, a pause that holds the elapsed
   * time at four seconds however long it lasts, a resume, and six more
   * seconds; the tick then completes with nothing remaining.
   */
  lemma TenSecondScenario()
    ensures var t0 := StartStep(Initial(10), 0);
      var t1 := PauseStep(t0, 4000);
      var t2 := ResumeStep(t1, 9000);
      var (t3, events) := TickStep(t2, 15000);
      && ElapsedAt(t1, 4000) == 4.0 && ElapsedAt(t1, 9000) == 4.0
      && t3.state == Complete && RemainingAt(t3, 15000) == 0.0 && ElapsedAt(t3, 15000) == 10.0
      && events == [Tick(0.0, 10.0), Completed]
  {
  }

  // ---------------------------------------------------------------- the class

  class Timer {
    const durationMs: nat
    var elapsedMs: nat
    var state: TimerState
    var lastTickAt: nat
    var ticking: bool

    function Snap(): TimerSnap
      reads this
    {
      TimerSnap(durationMs, elapsedMs, state, lastTickAt, ticking)
    }

    ghost predicate Valid()
      reads this
    {
      Inv(Snap())
    }

    constructor (durationSeconds: nat)
      ensures Valid() && Snap() == Initial(durationSeconds)
    {
      durationMs := durationSeconds * 1000;
      elapsedMs := 0;
      state := Idle;
      lastTickAt := 0;
      ticking := false;
    }

    method Start(now: nat)
      requires Valid()
      modifies this
      ensures Valid() && Snap() == StartStep(old(Snap()), now)
    {
      if state != Idle {
        return;
      }
      state := Running;
      lastTickAt := now;
      ticking := true;
    }

    method Accumulate(now: nat)
      requires ClockFrom(Snap(), now)
      modifies this
      ensures Snap() == Accumulated(old(Snap()), now)
    {
      elapsedMs := elapsedMs + (now - lastTickAt);
      lastTickAt := now;
    }

    method Pause(now: nat)
      requires Valid() && ClockFrom(Snap(), now)
      modifies this
      ensures Valid() && Snap() == PauseStep(old(Snap()), now)
    {
      if state != Running {
        return;
      }
      Accumulate(now);
      ticking := false;
      state := Paused;
    }

    method Resume(now: nat)
      requires Valid()
      modifies this
      ensures Valid() && Snap() == ResumeStep(old(Snap()), now)
    {
      if state != Paused {
        return;
      }
      state := Running;
      lastTickAt := now;
      ticking := true;
    }

    method Stop(now: nat)
      requires Valid() && ClockFrom(Snap(), now)
      modifies this
      ensures Valid() && Snap() == StopStep(old(Snap()), now)
    {
      if state == Idle || state == Complete {
        return;
      }
      if state == Running {
        Accumulate(now);
      }
      ticking := false;
      state := Complete;
    }

    /** One firing of the interval; returns the notifications it sends, in order. */
    method Tick(now: nat) returns (events: seq<TimerEvent>)
      requires Valid() && ClockFrom(Snap(), now)
      modifies this
      ensures Valid() && (Snap(), events) == TickStep(old(Snap()), now)
    {
      if !ticking {
        return [];
      }
      Accumulate(now);
      if elapsedMs >= durationMs {
        elapsedMs := durationMs;
        ticking := false;
        state := Complete;
        events := [TimerEvent.Tick(0.0, durationMs as real / 1000.0), Completed];
        return;
      }
      var remaining := (durationMs - elapsedMs) as real / 1000.0;
      var elapsed := elapsedMs as real / 1000.0;
      events := [TimerEvent.Tick(remaining, elapsed)];
    }

    function GetState(): TimerState
      reads this
    {
      state
    }

    function GetElapsed(now: nat): real
      reads this
      requires ClockFrom(Snap(), now)
    {
      ElapsedAt(Snap(), now)
    }

    function GetRemaining(now: nat): real
      reads this
      requires ClockFrom(Snap(), now)
    {
      RemainingAt(Snap(), now)
    }

    function GetDuration(): real
      reads this
    {
      durationMs as real / 1000.0
    }
  }
}
