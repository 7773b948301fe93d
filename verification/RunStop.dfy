/**
  The board's run/stop bit as the firmware infers it.

  GP1 toggles a bit the firmware cannot read. It sees MM:SS frames only, and decides from them and
  from its own recent pulses whether the next request needs a pulse.
 */
module RunStop {
  import opened Words
  import opened Decode
  import opened Scoreboard

  /**
    The firmware's board beside the physical clock: its run bit, when that was last toggled, and for
    how long a frame sent before can still be on its way.
   */
  datatype World = World(now: nat, board: Board, bit: bool, lastPulse: Option<nat>, lag: nat)

  function Boot(lag: nat): World {
    World(0, DefaultBoard(), false, None, lag)
  }

  datatype Step = Tick(ms: nat) | Frame(min: byte, sec: byte) | Request(want: Option<bool>) | Other(region: Region)

  function Apply(w: World, step: Step): World {
    match step
    case Tick(ms) => w.(now := w.now + ms)
    case Frame(min, sec) => w.(board := Exec(w.board, SetClock(min, sec), w.now).board)
    case Request(want) =>
      var o := Exec(w.board, StartStop(want), w.now);
      if o.act then World(w.now, o.board, !w.bit, Some(w.now), w.lag) else w.(board := o.board)
    case Other(r) => w.(board := Exec(w.board, r, w.now).board)
  }

  /** The latest time at which a running clock is known to have been alive. */
  function LastSign(w: World): nat {
    var change := if w.board.lastChange.Some? then w.board.lastChange.value else 0;
    var pulse := if w.lastPulse.Some? then w.lastPulse.value else 0;
    Max(change, pulse)
  }

  /**
    What the physical clock and the other tasks do: MM:SS changes only while the clock runs or, with a
    frame still on its way, within the lag of the stop; while it runs it changes within 2 s of the
    last change or start; 00:00 is not reached; nobody resets the clock.
   */
  predicate Honest(w: World, step: Step) {
    match step
    case Tick(ms) => w.bit ==> w.now + ms < LastSign(w) + STOPPED_AFTER_MS
    case Frame(min, sec) =>
      && !IsZero(min, sec)
      && ((min == w.board.minutes && sec == w.board.seconds) || w.bit || InFlight(w))
    case Request(_) => true
    case Other(r) => !r.SetClock? && !r.StartStop? && !r.ClearPending?
  }

  predicate InFlight(w: World) {
    w.lastPulse.Some? && w.now < w.lastPulse.value + w.lag
  }

  /** A request that would start a stopped clock while the last MM:SS change is under 2 s old, but not this instant. */
  predicate Hasty(w: World, want: Option<bool>) {
    && !w.bit && !IsZero(w.board.minutes, w.board.seconds)
    && want != Some(false)
    && w.board.lastChange.Some?
    && w.board.lastChange.value < w.now < w.board.lastChange.value + STOPPED_AFTER_MS
  }

  /** A tick that came after the stop is under 2 s old, and the stop is no longer pending. */
  predicate Misled(w: World) {
    && !w.bit && !IsZero(w.board.minutes, w.board.seconds)
    && w.board.lastChange.Some? && w.lastPulse.Some?
    && w.lastPulse.value <= w.board.lastChange.value
    && w.now < w.board.lastChange.value + STOPPED_AFTER_MS
    && (w.board.pendingRunning.None? || w.lastPulse.value + STOPPED_AFTER_MS <= w.now)
  }

  /** A hasty request, or one that makes a misled firmware pulse. */
  predicate Misjudged(w: World, want: Option<bool>) {
    if Misled(w) then want != Some(true) else Hasty(w, want)
  }

  predicate Allowed(w: World, step: Step) {
    Honest(w, step) && (step.Request? ==> !Misjudged(w, step.want))
  }

  function Run(w: World, steps: seq<Step>): World
    decreases |steps|
  {
    if steps == [] then w else Apply(Run(w, steps[..|steps| - 1]), steps[|steps| - 1])
  }

  predicate AllAllowed(w: World, steps: seq<Step>)
    decreases |steps|
  {
    steps == [] ||
    (AllAllowed(w, steps[..|steps| - 1]) && Allowed(Run(w, steps[..|steps| - 1]), steps[|steps| - 1]))
  }

  // Invariant

  predicate PulseAgrees(w: World) {
    w.board.pendingRunning.Some? ==>
      && w.board.pendingRunning == Some(w.bit)
      && w.lastPulse.Some?
      && w.board.pendingAt == w.lastPulse
  }

  /** MM:SS shows that the clock has run since it was last toggled. */
  predicate SeenRunning(w: World) {
    && !IsZero(w.board.minutes, w.board.seconds)
    && w.board.lastChange.Some?
    && (w.lastPulse.Some? ==> w.lastPulse.value <= w.board.lastChange.value)
  }

  /** A start is pending and nothing before it looks like a running clock. */
  predicate StartPending(w: World) {
    && w.lastPulse.Some? && w.board.pendingRunning == Some(true)
    && (w.board.lastChange.Some? ==>
          && w.board.lastChange.value <= w.lastPulse.value
          && (IsZero(w.board.minutes, w.board.seconds) ||
              w.board.lastChange.value + STOPPED_AFTER_MS <= w.lastPulse.value))
  }

  predicate Inv(w: World) {
    && (w.lastPulse.Some? ==> w.lastPulse.value <= w.now)
    && (w.board.lastChange.Some? ==> w.board.lastChange.value <= w.now)
    && PulseAgrees(w)
    && if w.bit then
         w.now < LastSign(w) + STOPPED_AFTER_MS && (SeenRunning(w) || StartPending(w))
       else
         LooksRunning(w) ==>
           && w.lastPulse.Some?
           && var change, pulse := w.board.lastChange.value, w.lastPulse.value;
              || (change <= pulse && w.board.pendingRunning.Some?)
              || pulse <= change < pulse + w.lag
  }

  predicate LooksRunning(w: World) {
    && !IsZero(w.board.minutes, w.board.seconds)
    && w.board.lastChange.Some? && w.now < w.board.lastChange.value + STOPPED_AFTER_MS
  }

  /** After a refresh the firmware would act on the physical run bit. */
  predicate InStep(w: World) {
    Refreshed(w.board, w.now).board.Effective() == w.bit
  }

  /** Under the invariant the firmware is in step unless it is misled, and a refresh keeps it. */
  lemma RefreshIsExact(w: World)
    requires Inv(w)
    ensures InStep(w) <==> !Misled(w)
    ensures Inv(w.(board := Refreshed(w.board, w.now).board))
  {
  }

  lemma FrameKeepsInv(w: World, min: byte, sec: byte)
    requires Inv(w) && Honest(w, Frame(min, sec))
    ensures Inv(Apply(w, Frame(min, sec)))
  {
    var changed := w.board.minutes != min || w.board.seconds != sec;
    var b := w.board.(minutes := min, seconds := sec,
                      lastChange := if changed then Some(w.now) else w.board.lastChange);
    RefreshIsExact(w.(board := b));
  }

  lemma RequestKeepsInv(w: World, want: Option<bool>)
    requires Inv(w) && !Misjudged(w, want)
    ensures Inv(Apply(w, Request(want)))
  {
    RefreshIsExact(w);
    var o := Refreshed(w.board, w.now);
    assert o.board.lastChange == w.board.lastChange;
  }

  lemma ApplyKeepsInv(w: World, step: Step)
    requires Inv(w) && Allowed(w, step)
    ensures Inv(Apply(w, step))
  {
    match step
    case Tick(_) =>
    case Frame(min, sec) => FrameKeepsInv(w, min, sec);
    case Request(want) => RequestKeepsInv(w, want);
    case Other(r) => OtherKeepsInv(w, r);
  }

  lemma OtherKeepsInv(w: World, r: Region)
    requires Inv(w) && Honest(w, Other(r))
    ensures Inv(Apply(w, Other(r)))
  {
    if r.Refresh? {
      RefreshIsExact(w);
    } else {
      var b := Exec(w.board, r, w.now).board;
      assert b.minutes == w.board.minutes && b.seconds == w.board.seconds && b.lastChange == w.board.lastChange;
      assert b.pendingRunning == w.board.pendingRunning && b.pendingAt == w.board.pendingAt;
    }
  }

  lemma {:induction false} RunKeepsInv(w: World, steps: seq<Step>)
    requires Inv(w) && AllAllowed(w, steps)
    ensures Inv(Run(w, steps))
    decreases |steps|
  {
    if steps != [] {
      RunKeepsInv(w, steps[..|steps| - 1]);
      ApplyKeepsInv(Run(w, steps[..|steps| - 1]), steps[|steps| - 1]);
    }
  }

  // Main results

  /**
    Over every run from boot whose requests are not misjudged, after a refresh the firmware's run
    state is the physical one, so a start or stop request pulses exactly when it must, except while a
    late tick misleads it: for less than the lag and 2 s after a stop, and never without a lag.
   */
  lemma InferenceIsExact(lag: nat, steps: seq<Step>, want: bool)
    requires AllAllowed(Boot(lag), steps)
    ensures var w := Run(Boot(lag), steps);
            && (InStep(w) <==> !Misled(w))
            && (!Misled(w) ==> (Exec(w.board, StartStop(Some(want)), w.now).act <==> want != w.bit))
            && (Misled(w) ==> w.lastPulse.value <= w.now < w.lastPulse.value + lag + STOPPED_AFTER_MS && lag > 0)
  {
    RunKeepsInv(Boot(lag), steps);
    RunKeepsLag(Boot(lag), steps);
    RefreshIsExact(Run(Boot(lag), steps));
  }

  lemma {:induction false} RunKeepsLag(w: World, steps: seq<Step>)
    ensures Run(w, steps).lag == w.lag
    decreases |steps|
  {
    if steps != [] {
      RunKeepsLag(w, steps[..|steps| - 1]);
    }
  }

  /** A request the lag and 2 s after the last pulse is never misjudged, nor is one that repeats a state the firmware knows. */
  lemma SpacedIsNotMisjudged(lag: nat, steps: seq<Step>, want: Option<bool>)
    requires AllAllowed(Boot(lag), steps)
    requires var w := Run(Boot(lag), steps);
             || (want == Some(w.bit) && InStep(w))
             || w.lastPulse.None?
             || w.lastPulse.value + lag + STOPPED_AFTER_MS <= w.now
    ensures !Misjudged(Run(Boot(lag), steps), want)
  {
    RunKeepsInv(Boot(lag), steps);
    RunKeepsLag(Boot(lag), steps);
    RefreshIsExact(Run(Boot(lag), steps));
  }

  /** What follows a request: honest steps and no further request. */
  predicate Quiet(w: World, steps: seq<Step>)
    decreases |steps|
  {
    steps == [] ||
    (var before := steps[..|steps| - 1];
     var step := steps[|steps| - 1];
     Quiet(w, before) && Honest(Run(w, before), step) && !step.Request?)
  }

  /** Whatever honest steps follow, only a late tick can hide the run bit from the firmware. */
  ghost predicate StaysExact(w: World) {
    forall steps | Quiet(w, steps) :: InStep(Run(w, steps)) || Misled(Run(w, steps))
  }

  lemma {:induction false} QuietKeepsInv(w: World, steps: seq<Step>)
    requires Inv(w) && Quiet(w, steps)
    ensures Inv(Run(w, steps))
  {
    if steps != [] {
      QuietKeepsInv(w, steps[..|steps| - 1]);
      ApplyKeepsInv(Run(w, steps[..|steps| - 1]), steps[|steps| - 1]);
    }
  }

  /**
    The exact condition: from any reached world, the inference survives a request under every
    honest continuation if and only if the request is not misjudged.
   */
  lemma ExactUnlessMisjudged(lag: nat, steps: seq<Step>, want: Option<bool>)
    requires AllAllowed(Boot(lag), steps)
    ensures var w := Run(Boot(lag), steps);
            StaysExact(Apply(w, Request(want))) <==> !Misjudged(w, want)
  {
    RunKeepsInv(Boot(lag), steps);
    var w := Run(Boot(lag), steps);
    if !Misjudged(w, want) {
      NotMisjudgedStaysExact(w, want);
    } else if Misled(w) {
      MisledFails(w, want);
    } else {
      HastyFails(w, want);
    }
  }

  lemma NotMisjudgedStaysExact(w: World, want: Option<bool>)
    requires Inv(w) && !Misjudged(w, want)
    ensures StaysExact(Apply(w, Request(want)))
  {
    var w' := Apply(w, Request(want));
    ApplyKeepsInv(w, Request(want));
    forall rest | Quiet(w', rest)
      ensures InStep(Run(w', rest)) || Misled(Run(w', rest))
    {
      QuietKeepsInv(w', rest);
      RefreshIsExact(Run(w', rest));
    }
  }

  /** A misled firmware takes a stop or a toggle for a pulse that stops, and it starts the clock. */
  lemma MisledFails(w: World, want: Option<bool>)
    requires Inv(w) && Misled(w) && want != Some(true)
    ensures !StaysExact(Apply(w, Request(want)))
  {
    RefreshIsExact(w);
    var w0 := Apply(w, Request(want));
    assert Quiet(w0, []) && Run(w0, []) == w0;
    assert !InStep(Run(w0, [])) && !Misled(Run(w0, []));
  }

  /** A refresh while the old MM:SS change is fresh drops the pending start; at the 2 s mark the clock looks stopped. */
  lemma HastyFails(w: World, want: Option<bool>)
    requires Inv(w) && Hasty(w, want) && !Misled(w)
    ensures !StaysExact(Apply(w, Request(want)))
  {
    RefreshIsExact(w);
    var w0 := Apply(w, Request(want));
    var wait := w.board.lastChange.value + STOPPED_AFTER_MS - w.now;
    var first := [Other(Refresh)];
    var both := [Other(Refresh), Tick(wait)];
    assert first[..0] == [] && both[..1] == first;
    assert Run(w0, first) == Apply(w0, Other(Refresh));
    assert Quiet(w0, first);
    assert Quiet(w0, both);
    assert !InStep(Run(w0, both)) && !Misled(Run(w0, both));
  }

  // Back in step from anywhere

  /** Any world with its instants in the past: after a reset, a press of the board's own buttons, a first frame. */
  predicate Sound(w: World) {
    && (w.board.lastChange.Some? ==> w.board.lastChange.value <= w.now)
    && (w.lastPulse.Some? ==> w.lastPulse.value <= w.now)
    && (w.board.pendingAt.Some? ==> w.board.pendingAt.value <= w.now)
    && (w.board.pendingRunning.Some? ==> w.board.pendingAt.Some?)
  }

  /** No request since `from`: what was pending is older, and only a running clock or a late tick has changed MM:SS since. */
  predicate Settling(w: World, from: nat) {
    && from <= w.now && Sound(w)
    && (w.lastPulse.Some? ==> w.lastPulse.value <= from)
    && (w.board.pendingAt.Some? ==> w.board.pendingAt.value <= from)
    && (w.board.lastChange.Some? && w.board.lastChange.value > from ==>
          && !IsZero(w.board.minutes, w.board.seconds)
          && (w.bit || w.board.lastChange.value < from + w.lag))
    && (w.bit ==> w.now == from || w.now < LastSign(w) + STOPPED_AFTER_MS)
  }

  /** A refresh, or a region of another kind, touches of the clock only the pending request. */
  predicate OnlyPendingMoved(b: Board, b': Board) {
    && b'.minutes == b.minutes && b'.seconds == b.seconds && b'.lastChange == b.lastChange
    && ((b'.pendingRunning == b.pendingRunning && b'.pendingAt == b.pendingAt) ||
        (b'.pendingRunning.None? && b'.pendingAt.None?))
  }

  lemma RefreshOnlyMovesPending(b: Board, now: nat)
    requires b.pendingRunning.Some? ==> b.pendingAt.Some?
    ensures OnlyPendingMoved(b, Refreshed(b, now).board)
  {
  }

  lemma OtherOnlyMovesPending(b: Board, r: Region, now: nat)
    requires !r.SetClock? && !r.StartStop? && !r.ClearPending?
    requires b.pendingRunning.Some? ==> b.pendingAt.Some?
    ensures OnlyPendingMoved(b, Exec(b, r, now).board)
  {
    RefreshOnlyMovesPending(b, now);
  }

  lemma PendingMovedKeepsSettling(w: World, b: Board, from: nat)
    requires Settling(w, from) && OnlyPendingMoved(w.board, b)
    ensures Settling(w.(board := b), from)
  {
  }

  lemma StepKeepsSettling(w: World, step: Step, from: nat)
    requires Settling(w, from) && Honest(w, step) && !step.Request?
    ensures Settling(Apply(w, step), from)
  {
    match step
    case Tick(_) =>
    case Frame(min, sec) =>
      var changed := w.board.minutes != min || w.board.seconds != sec;
      var b := w.board.(minutes := min, seconds := sec,
                        lastChange := if changed then Some(w.now) else w.board.lastChange);
      assert Settling(w.(board := b), from);
      RefreshOnlyMovesPending(b, w.now);
      PendingMovedKeepsSettling(w.(board := b), Refreshed(b, w.now).board, from);
    case Other(r) =>
      OtherOnlyMovesPending(w.board, r, w.now);
      PendingMovedKeepsSettling(w, Exec(w.board, r, w.now).board, from);
  }

  lemma {:induction false} QuietKeepsSettling(w: World, steps: seq<Step>, from: nat)
    requires Settling(w, from) && Quiet(w, steps)
    ensures Settling(Run(w, steps), from)
    decreases |steps|
  {
    if steps != [] {
      QuietKeepsSettling(w, steps[..|steps| - 1], from);
      StepKeepsSettling(Run(w, steps[..|steps| - 1]), steps[|steps| - 1], from);
    }
  }

  lemma SettledIsInStep(w: World, from: nat)
    requires Settling(w, from) && from + w.lag + STOPPED_AFTER_MS <= w.now
    ensures InStep(w) && Inv(Apply(w, Other(Refresh)))
  {
  }

  /**
    Self-stabilisation: from any world, once the lag and 2 s have passed without a request the
    firmware knows the run bit, and after a refresh it goes on knowing it, but for late ticks, for as
    long as requests are not misjudged.
   */
  lemma SelfStabilises(w: World, quiet: seq<Step>, more: seq<Step>)
    requires Sound(w) && Quiet(w, quiet)
    requires w.now + w.lag + STOPPED_AFTER_MS <= Run(w, quiet).now
    requires AllAllowed(Apply(Run(w, quiet), Other(Refresh)), more)
    ensures InStep(Run(w, quiet))
    ensures var v := Run(Apply(Run(w, quiet), Other(Refresh)), more);
            InStep(v) <==> !Misled(v)
  {
    QuietKeepsSettling(w, quiet, w.now);
    RunKeepsLag(w, quiet);
    var v := Run(w, quiet);
    SettledIsInStep(v, w.now);
    RunKeepsInv(Apply(v, Other(Refresh)), more);
    RefreshIsExact(Run(Apply(v, Other(Refresh)), more));
  }

  // Inputs

  /** A concrete run: start at 3000, a change at 4000, stop at 4100, start again at 5900. */
  lemma StartTooSoonFails(lag: nat)
    ensures exists steps ::
              && AllAllowed(Boot(lag), steps)
              && Misjudged(Run(Boot(lag), steps), Some(true))
              && !StaysExact(Apply(Run(Boot(lag), steps), Request(Some(true))))
  {
    var s6 := StoppedAt4100(lag);
    var s7 := Extend(lag, s6, Tick(1800));
    RunKeepsInv(Boot(lag), s7);
    HastyFails(Run(Boot(lag), s7), Some(true));
  }

  lemma StoppedAt4100(lag: nat) returns (s6: seq<Step>)
    ensures AllAllowed(Boot(lag), s6)
    ensures var w := Run(Boot(lag), s6);
            && w.now == 4100 && !w.bit && w.lag == lag && w.lastPulse == Some(4100)
            && w.board.minutes == 7 && w.board.seconds == 29 && w.board.lastChange == Some(4000)
            && w.board.pendingRunning == Some(false) && w.board.pendingAt == Some(4100)
  {
    var s1 := Extend(lag, [], Tick(3000));
    var s2 := Extend(lag, s1, Request(Some(true)));
    var s3 := Extend(lag, s2, Tick(1000));
    var s4 := Extend(lag, s3, Frame(7, 29));
    var s5 := Extend(lag, s4, Tick(100));
    s6 := Extend(lag, s5, Request(Some(false)));
  }

  /** The same run with a tick that arrives 1 ms after the stop: 2 s after the stop the firmware is misled. */
  lemma LateTickMisleads(lag: nat)
    requires lag >= 2
    ensures exists steps :: AllAllowed(Boot(lag), steps) && Misled(Run(Boot(lag), steps))
  {
    var s6 := StoppedAt4100(lag);
    var s7 := Extend(lag, s6, Tick(1));
    var s8 := Extend(lag, s7, Frame(7, 28));
    var s9 := Extend(lag, s8, Tick(1999));
    assert Misled(Run(Boot(lag), s9));
  }

  lemma Extend(lag: nat, steps: seq<Step>, step: Step) returns (more: seq<Step>)
    requires AllAllowed(Boot(lag), steps) && Allowed(Run(Boot(lag), steps), step)
    ensures more == steps + [step]
    ensures AllAllowed(Boot(lag), more) && Run(Boot(lag), more) == Apply(Run(Boot(lag), steps), step)
  {
    more := steps + [step];
    assert more[..|more| - 1] == steps;
  }
}
