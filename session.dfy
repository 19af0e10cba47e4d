/**
 * A meditation session: a five-state lifecycle (idle, preparing, active,
 * paused, complete) wrapped around one `Timer`, which is created when the
 * session starts. The wall clock (`new Date()`) and the timer's monotonic
 * clock are the one explicit argument `now`, in milliseconds. The
 * notifications the session sends to its owner (`onStateChange`, `onTick`,
 * `onComplete`) are returned as a sequence of events, in the order they are
 * sent.
 */
module Sessions {
  import opened Options
  import Timing

  datatype SessionState = Idle | Preparing | Active | Paused | Complete

  datatype SessionEvent =
    | StateChanged(state: SessionState)
    | Ticked(remaining: real, elapsed: real)
    | Completed

  datatype SessionSnap = SessionSnap(
    durationSeconds: nat,
    state: SessionState,
    timer: Option<Timing.TimerSnap>,
    startedAt: Option<nat>,
    completedAt: Option<nat>)

  function Initial(durationSeconds: nat): SessionSnap {
    SessionSnap(durationSeconds, Idle, None, None, None)
  }

  /** The clock has not gone back past the timer's reference instant. */
  predicate ClockOk(s: SessionSnap, now: nat) {
    s.timer.Some? ==> Timing.ClockFrom(s.timer.value, now)
  }

  /**
   * How the session's state, its timer and its two instants hang together:
   * a timer exists exactly once the session has started; the timer runs
   * while the session is active and is paused while it is paused; the
   * completion instant is set exactly in the complete state and is not
   * before the start.
   */
  predicate Inv(s: SessionSnap) {
    && (s.timer.None? <==> s.startedAt.None?)
    && (s.state == Idle || s.state == Preparing ==> s.timer.None?)
    && (s.completedAt.Some? <==> s.state == Complete)
    && (s.state == Active ==> s.timer.Some? && s.timer.value.state == Timing.Running)
    && (s.state == Paused ==> s.timer.Some? && s.timer.value.state == Timing.Paused)
    && (s.state == Complete && s.timer.Some? ==> s.timer.value.state == Timing.Complete)
    && (s.timer.Some? ==>
          && Timing.Inv(s.timer.value)
          && s.timer.value.durationMs == s.durationSeconds * 1000
          && s.startedAt.value <= s.timer.value.lastTickAt)
    && (s.startedAt.Some? && s.completedAt.Some? ==> s.startedAt.value <= s.completedAt.value)
  }

  function PrepareStep(s: SessionSnap): (SessionSnap, seq<SessionEvent>) {
    if s.state != Idle then (s, [])
    else (s.(state := Preparing), [StateChanged(Preparing)])
  }

  /** Starting records the start instant, creates the timer, goes active, and starts the timer. */
  function StartStep(s: SessionSnap, now: nat): (SessionSnap, seq<SessionEvent>) {
    if s.state != Idle && s.state != Preparing then (s, [])
    else
      var t := Timing.StartStep(Timing.Initial(s.durationSeconds), now);
      (s.(startedAt := Some(now), timer := Some(t), state := Active), [StateChanged(Active)])
  }

  function PauseStep(s: SessionSnap, now: nat): (SessionSnap, seq<SessionEvent>)
    requires ClockOk(s, now)
  {
    if s.state != Active then (s, [])
    else
      var t := if s.timer.Some? then Some(Timing.PauseStep(s.timer.value, now)) else None;
      (s.(timer := t, state := Paused), [StateChanged(Paused)])
  }

  function ResumeStep(s: SessionSnap, now: nat): (SessionSnap, seq<SessionEvent>) {
    if s.state != Paused then (s, [])
    else
      var t := if s.timer.Some? then Some(Timing.ResumeStep(s.timer.value, now)) else None;
      (s.(timer := t, state := Active), [StateChanged(Active)])
  }

  /** Ending early records the completion instant, stops the timer and completes. */
  function StopStep(s: SessionSnap, now: nat): (SessionSnap, seq<SessionEvent>)
    requires ClockOk(s, now)
  {
    if s.state == Idle || s.state == Complete then (s, [])
    else
      var t := if s.timer.Some? then Some(Timing.StopStep(s.timer.value, now)) else None;
      (s.(completedAt := Some(now), timer := t, state := Complete), [StateChanged(Complete)])
  }

  /** The session's handler for one notification of its timer. */
  function OnTimerEvent(s: SessionSnap, e: Timing.TimerEvent, now: nat): (SessionSnap, seq<SessionEvent>) {
    match e
    case Tick(remaining, elapsed) => (s, [Ticked(remaining, elapsed)])
    case Completed => (s.(completedAt := Some(now), state := Complete), [StateChanged(Complete), Completed])
  }

  /** The handlers run for each notification, first to last. */
  function Deliver(s: SessionSnap, fired: seq<Timing.TimerEvent>, now: nat): (SessionSnap, seq<SessionEvent>)
    decreases |fired|
  {
    if fired == [] then (s, [])
    else
      var (s1, out1) := OnTimerEvent(s, fired[0], now);
      var (s2, out2) := Deliver(s1, fired[1..], now);
      (s2, out1 + out2)
  }

  /** One firing of the timer's interval, and the session's handling of what it sends. */
  function TickStep(s: SessionSnap, now: nat): (SessionSnap, seq<SessionEvent>)
    requires ClockOk(s, now)
  {
    if s.timer.None? then (s, [])
    else
      var (t, fired) := Timing.TickStep(s.timer.value, now);
      Deliver(s.(timer := Some(t)), fired, now)
  }

  /** `getElapsed()`: the timer's elapsed seconds, or zero before the start. */
  function ElapsedOf(s: SessionSnap, now: nat): real
    requires ClockOk(s, now)
  {
    if s.timer.Some? then Timing.ElapsedAt(s.timer.value, now) else 0.0
  }

  /** `getRemaining()`: the timer's remaining seconds, or the whole duration before the start. */
  function RemainingOf(s: SessionSnap, now: nat): real
    requires ClockOk(s, now)
  {
    if s.timer.Some? then Timing.RemainingAt(s.timer.value, now) else s.durationSeconds as real
  }

  /** `getTimerState()`. */
  function TimerStateOf(s: SessionSnap): Option<Timing.TimerState> {
    if s.timer.Some? then Some(s.timer.value.state) else None
  }

  /** `isFullCompletion()`: complete, and the timer has nothing left (no timer counts as one second left). */
  predicate IsFullCompletion(s: SessionSnap, now: nat)
    requires ClockOk(s, now)
  {
    s.state == Complete && (if s.timer.Some? then Timing.RemainingAt(s.timer.value, now) else 1.0) == 0.0
  }

  // ---------------------------------------------------------------- properties

  /**
   * A session ran in full exactly when it is complete, it has a timer, and
   * the timer's elapsed time has reached the planned duration.
   */
  lemma FullCompletionMeans(s: SessionSnap, now: nat)
    requires Inv(s) && ClockOk(s, now)
    ensures IsFullCompletion(s, now) <==>
      s.state == Complete && s.timer.Some? && RemainingOf(s, now) == 0.0
    ensures IsFullCompletion(s, now) <==>
      s.state == Complete && s.timer.Some? && ElapsedOf(s, now) >= s.durationSeconds as real
  {
  }

  /** Delivering a single notification is running its handler. */
  lemma DeliverOne(s: SessionSnap, e: Timing.TimerEvent, now: nat)
    ensures Deliver(s, [e], now) == OnTimerEvent(s, e, now)
  {
    assert [e][1..] == [];
    var out := OnTimerEvent(s, e, now).1;
    assert out + [] == out;
  }

  /** The handlers of a completing tick: after them the session is complete at `now`. */
  lemma DeliverCompletion(s: SessionSnap, r: real, e: real, now: nat)
    ensures Deliver(s, [Timing.Tick(r, e), Timing.Completed], now)
         == (s.(completedAt := Some(now), state := Complete), [Ticked(r, e), StateChanged(Complete), Completed])
  {
    var fired := [Timing.Tick(r, e), Timing.Completed];
    assert fired[1..] == [Timing.Completed];
    DeliverOne(s, Timing.Completed, now);
    assert [Ticked(r, e)] + [StateChanged(Complete), Completed] == [Ticked(r, e), StateChanged(Complete), Completed];
  }

  /** The handler of a plain tick only forwards it. */
  lemma DeliverTick(s: SessionSnap, r: real, e: real, now: nat)
    ensures Deliver(s, [Timing.Tick(r, e)], now) == (s, [Ticked(r, e)])
  {
    DeliverOne(s, Timing.Tick(r, e), now);
  }

  /**
   * A tick of an active session either forwards one tick whose parts add up
   * to the duration and stays active, or forwards tick(0, duration), goes
   * complete at `now` and announces the completion, in that order, with the
   * session then counting as fully completed.
   */
  lemma TickOfActive(s: SessionSnap, now: nat)
    requires Inv(s) && ClockOk(s, now) && s.state == Active
    ensures var (u, events) := TickStep(s, now);
      var t := s.timer.value;
      var reached := t.elapsedMs + (now - t.lastTickAt) >= t.durationMs;
      var t2 := Timing.TickStep(t, now).0;
      && ClockOk(u, now)
      && (reached ==>
            && u == s.(timer := Some(t2), completedAt := Some(now), state := Complete)
            && events == [Ticked(0.0, s.durationSeconds as real), StateChanged(Complete), Completed]
            && u.state == Complete && u.completedAt == Some(now)
            && IsFullCompletion(u, now))
      && (!reached ==>
            && u == s.(timer := Some(t2))
            && |events| == 1 && events[0].Ticked? && events[0].remaining > 0.0
            && events[0].remaining + events[0].elapsed == s.durationSeconds as real
            && u.state == Active && !IsFullCompletion(u, now))
  {
    var t := s.timer.value;
    Timing.TickOutcome(t, now);
    var (t2, fired) := Timing.TickStep(t, now);
    var s1 := s.(timer := Some(t2));
    if t.elapsedMs + (now - t.lastTickAt) >= t.durationMs {
      DeliverCompletion(s1, 0.0, t.durationMs as real / 1000.0, now);
    } else {
      DeliverTick(s1, fired[0].remaining, fired[0].elapsed, now);
    }
  }

  /** A tick of a session that is not active changes nothing and sends nothing. */
  lemma TickInertUnlessActive(s: SessionSnap, now: nat)
    requires Inv(s) && ClockOk(s, now) && s.state != Active
    ensures TickStep(s, now) == (s, [])
  {
    if s.timer.Some? {
      Timing.TickInertUnlessRunning(s.timer.value, now);
    }
  }

  /** Every operation keeps the invariant. */
  lemma StepsKeepInv(s: SessionSnap, now: nat)
    requires Inv(s) && ClockOk(s, now)
    ensures Inv(PrepareStep(s).0) && Inv(StartStep(s, now).0) && Inv(PauseStep(s, now).0)
    ensures Inv(ResumeStep(s, now).0) && Inv(StopStep(s, now).0) && Inv(TickStep(s, now).0)
  {
    if s.state == Active {
      TickOfActive(s, now);
      Timing.StepsKeepInv(s.timer.value, now);
      var t := Timing.PauseStep(s.timer.value, now);
      assert PauseStep(s, now).0 == s.(timer := Some(t), state := Paused);
    } else {
      TickInertUnlessActive(s, now);
    }
  }

  /**
   * Each call either does nothing and sends nothing, or moves to its target
   * state and sends exactly that state change.
   */
  lemma CallsAnnounceTheirState(s: SessionSnap, now: nat)
    requires ClockOk(s, now)
    ensures var (u, ev) := PrepareStep(s);
      if s.state == Idle then u.state == Preparing && ev == [StateChanged(Preparing)] else u == s && ev == []
    ensures var (u, ev) := StartStep(s, now);
      if s.state in {Idle, Preparing} then u.state == Active && ev == [StateChanged(Active)] else u == s && ev == []
    ensures var (u, ev) := PauseStep(s, now);
      if s.state == Active then u.state == Paused && ev == [StateChanged(Paused)] else u == s && ev == []
    ensures var (u, ev) := ResumeStep(s, now);
      if s.state == Paused then u.state == Active && ev == [StateChanged(Active)] else u == s && ev == []
    ensures var (u, ev) := StopStep(s, now);
      if s.state in {Preparing, Active, Paused} then u.state == Complete && ev == [StateChanged(Complete)]
      else u == s && ev == []
  {
  }

  /** A second start is a no-op: one timer per session. */
  lemma StartTwice(s: SessionSnap, a: nat, b: nat)
    ensures StartStep(StartStep(s, a).0, b) == (StartStep(s, a).0, [])
  {
  }

  /** Before the start there is no timer: nothing has elapsed and the whole duration remains. */
  lemma BeforeStart(s: SessionSnap, now: nat)
    requires Inv(s) && (s.state == Idle || s.state == Preparing)
    ensures ClockOk(s, now)
    ensures ElapsedOf(s, now) == 0.0 && RemainingOf(s, now) == s.durationSeconds as real
    ensures TimerStateOf(s) == None && !IsFullCompletion(s, now)
  {
  }

  /** Ending early, with time still left on the timer, is not a full completion. */
  lemma EarlyStopNotFull(s: SessionSnap, now: nat)
    requires Inv(s) && ClockOk(s, now) && (s.state == Active || s.state == Paused)
    requires ElapsedOf(s, now) < s.durationSeconds as real
    ensures var u := StopStep(s, now).0;
      u.state == Complete && u.completedAt == Some(now) && !IsFullCompletion(u, now)
  {
  }

  /** Ending before the timer exists is not a full completion. */
  lemma StopWhilePreparingNotFull(s: SessionSnap, now: nat)
    requires Inv(s) && s.state == Preparing
    ensures ClockOk(s, now)
    ensures var u := StopStep(s, now).0;
      u.state == Complete && u.timer.None? && !IsFullCompletion(u, now)
  {
  }

  /**
   * Ending an active session after its duration has passed but before the
   * next tick noticed it counts as a full completion, although the session
   * was stopped by hand.
   */
  lemma LateStopIsFull(s: SessionSnap, now: nat)
    requires Inv(s) && ClockOk(s, now) && s.state == Active
    requires ElapsedOf(s, now) >= s.durationSeconds as real
    ensures var u := StopStep(s, now).0;
      u.state == Complete && IsFullCompletion(u, now)
  {
  }

  /**
   * A one-minute session: prepared at 0, started at 1 s, paused at 31 s,
   * resumed at 40 s; the tick at 70 s finds 60 s elapsed and completes it.
   */
  lemma OneMinuteScenario()
    ensures var s0 := Initial(60);
      var (s1, e1) := PrepareStep(s0);
      var (s2, e2) := StartStep(s1, 1000);
      var (s3, e3) := PauseStep(s2, 31000);
      var (s4, e4) := ResumeStep(s3, 40000);
      var (s5, e5) := TickStep(s4, 70000);
      && e1 + e2 + e3 + e4 + e5 == [StateChanged(Preparing), StateChanged(Active), StateChanged(Paused),
                                    StateChanged(Active), Ticked(0.0, 60.0), StateChanged(Complete), Completed]
      && ClockOk(s5, 70000)
      && s5.state == Complete && s5.startedAt == Some(1000) && s5.completedAt == Some(70000)
      && ElapsedOf(s5, 70000) == 60.0 && IsFullCompletion(s5, 70000)
  {
    var s0 := Initial(60);
    var s4 := ResumeStep(PauseStep(StartStep(PrepareStep(s0).0, 1000).0, 31000).0, 40000).0;
    assert s4.timer == Some(Timing.TimerSnap(60000, 30000, Timing.Running, 40000, true));
    DeliverCompletion(s4.(timer := Some(Timing.TimerSnap(60000, 60000, Timing.Complete, 70000, false))), 0.0, 60.0, 70000);
  }

  // ---------------------------------------------------------------- the class

  class Session {
    const durationSeconds: nat
    var state: SessionState
    var timer: Timing.Timer?
    var startedAt: Option<nat>
    var completedAt: Option<nat>

    function Snap(): SessionSnap
      reads this, timer
    {
      SessionSnap(durationSeconds, state, if timer == null then None else Some(timer.Snap()), startedAt, completedAt)
    }

    ghost predicate Valid()
      reads this, timer
    {
      Inv(Snap())
    }

    constructor (durationSeconds: nat)
      ensures Valid() && Snap() == Initial(durationSeconds)
    {
      this.durationSeconds := durationSeconds;
      state := Idle;
      timer := null;
      startedAt := None;
      completedAt := None;
    }

    method Prepare() returns (events: seq<SessionEvent>)
      requires Valid()
      modifies this
      ensures Valid() && (Snap(), events) == PrepareStep(old(Snap()))
    {
      if state != Idle {
        return [];
      }
      state := Preparing;
      events := [StateChanged(Preparing)];
    }

    method Start(now: nat) returns (events: seq<SessionEvent>)
      requires Valid()
      modifies this
      ensures Valid() && (Snap(), events) == StartStep(old(Snap()), now)
      ensures old(state) == Idle || old(state) == Preparing ==> fresh(timer)
      ensures old(state) != Idle && old(state) != Preparing ==> timer == old(timer)
    {
      if state != Idle && state != Preparing {
        return [];
      }
      startedAt := Some(now);
      var t := new Timing.Timer(durationSeconds);
      timer := t;
      state := Active;
      events := [StateChanged(Active)];
      t.Start(now);
    }

    method Pause(now: nat) returns (events: seq<SessionEvent>)
      requires Valid() && ClockOk(Snap(), now)
      modifies this, timer
      ensures Valid() && (Snap(), events) == PauseStep(old(Snap()), now)
      ensures timer == old(timer)
    {
      if state != Active {
        return [];
      }
      if timer != null {
        timer.Pause(now);
      }
      state := Paused;
      events := [StateChanged(Paused)];
    }

    method Resume(now: nat) returns (events: seq<SessionEvent>)
      requires Valid() && ClockOk(Snap(), now)
      modifies this, timer
      ensures Valid() && (Snap(), events) == ResumeStep(old(Snap()), now)
      ensures timer == old(timer)
    {
      if state != Paused {
        return [];
      }
      if timer != null {
        timer.Resume(now);
      }
      state := Active;
      events := [StateChanged(Active)];
    }

    method Stop(now: nat) returns (events: seq<SessionEvent>)
      requires Valid() && ClockOk(Snap(), now)
      modifies this, timer
      ensures Valid() && (Snap(), events) == StopStep(old(Snap()), now)
      ensures timer == old(timer)
    {
      if state == Idle || state == Complete {
        return [];
      }
      completedAt := Some(now);
      if timer != null {
        timer.Stop(now);
      }
      state := Complete;
      events := [StateChanged(Complete)];
    }

    /** One firing of the timer's interval; returns what the session sends, in order. */
    method Tick(now: nat) returns (events: seq<SessionEvent>)
      requires Valid() && ClockOk(Snap(), now)
      modifies this, timer
      ensures Valid() && (Snap(), events) == TickStep(old(Snap()), now)
      ensures timer == old(timer)
    {
      ghost var before := Snap();
      StepsKeepInv(before, now);
      if timer == null {
        return [];
      }
      var fired := timer.Tick(now);
      events := Dispatch(fired, now);
    }

    /** Runs the handler for each of the timer's notifications, first to last. */
    method Dispatch(fired: seq<Timing.TimerEvent>, now: nat) returns (events: seq<SessionEvent>)
      modifies this
      ensures (Snap(), events) == Deliver(old(Snap()), fired, now)
      ensures timer == old(timer)
      decreases |fired|
    {
      if fired == [] {
        return [];
      }
      var first := OnTimer(fired[0], now);
      var rest := Dispatch(fired[1..], now);
      events := first + rest;
    }

    method OnTimer(e: Timing.TimerEvent, now: nat) returns (events: seq<SessionEvent>)
      modifies this
      ensures (Snap(), events) == OnTimerEvent(old(Snap()), e, now)
      ensures timer == old(timer)
    {
      match e
      case Tick(remaining, elapsed) =>
        events := [Ticked(remaining, elapsed)];
      case Completed =>
        completedAt := Some(now);
        state := Complete;
        events := [StateChanged(Complete), SessionEvent.Completed];
    }

    function GetState(): SessionState
      reads this
    {
      state
    }

    function GetTimerState(): Option<Timing.TimerState>
      reads this, timer
    {
      TimerStateOf(Snap())
    }

    function GetElapsed(now: nat): real
      reads this, timer
      requires ClockOk(Snap(), now)
    {
      ElapsedOf(Snap(), now)
    }

    function GetRemaining(now: nat): real
      reads this, timer
      requires ClockOk(Snap(), now)
    {
      RemainingOf(Snap(), now)
    }

    function GetDuration(): nat
      reads this
    {
      durationSeconds
    }

    function GetStartedAt(): Option<nat>
      reads this
    {
      startedAt
    }

    function GetCompletedAt(): Option<nat>
      reads this
    {
      completedAt
    }

    predicate IsFull(now: nat)
      reads this, timer
      requires ClockOk(Snap(), now)
    {
      IsFullCompletion(Snap(), now)
    }
  }

  // ---------------------------------------------------------------- clients

  /**
   * The one-minute session driven through the class: the calls report the
   * same events as the step functions, and the session ends fully complete.
   */
  method OneMinuteRun() returns (events: seq<SessionEvent>, full: bool)
    ensures events == [StateChanged(Preparing), StateChanged(Active), StateChanged(Paused),
                       StateChanged(Active), Ticked(0.0, 60.0), StateChanged(Complete), Completed]
    ensures full
  {
    OneMinuteScenario();
    var session := new Session(60);
    var e1 := session.Prepare();
    var e2 := session.Start(1000);
    var e3 := session.Pause(31000);
    var e4 := session.Resume(40000);
    var e5 := session.Tick(70000);
    events := e1 + e2 + e3 + e4 + e5;
    full := session.IsFull(70000);
  }

  /** Pausing one session leaves another session and its timer as they were. */
  method PauseLeavesOtherSession() returns (before: SessionSnap, after: SessionSnap, paused: SessionState)
    ensures after == before && before.state == Active && paused == Paused
  {
    var a := new Session(60);
    var b := new Session(30);
    var ea := a.Start(0);
    var eb := b.Start(0);
    before := b.Snap();
    var ep := a.Pause(1000);
    after := b.Snap();
    paused := a.GetState();
  }
}
