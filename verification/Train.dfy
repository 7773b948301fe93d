/**
  The set-timer train of `board_task` in `src/main.rs`: the min and sec pulses that take the display
  from what UART showed at the snapshot to the target, and the GP1 pulses that may come between.
 */
module Train {
  import opened Words
  import opened Decode
  import opened Scoreboard
  import opened Repulse
  import opened BoardTask

  function Abs(x: int): nat {
    if x < 0 then -x else x
  }

  /** Pulses still to come. */
  function Left(w: World): nat {
    Abs(w.task.dMin) + Abs(w.task.dSec)
  }

  function Distance(w: World, min: int, sec: int): nat {
    Abs(min - w.panel.min) + Abs(sec - w.panel.sec)
  }

  /** Scores, LED and aux, which may arrive while the train runs. */
  predicate Bystander(cmd: Command) {
    !cmd.StartStopToggle? && !cmd.Start? && !cmd.Stop? && !cmd.Reset? && !cmd.SetTimer?
  }

  /** A step of the train's time: MM:SS stays as UART last showed it and nobody else touches the clock. */
  predicate TrainStep(w: World, s: Step) {
    && Enabled(w, s)
    && match s.action
       case Command(cmd) => Bystander(cmd)
       case EndSetTimer => false
       case DrainPass => true
       case OtherTask(r) => Frozen(w.board, Entry(s.at, r))
  }

  predicate TrainSteps(w: World, steps: seq<Step>)
    decreases |steps|
  {
    steps == [] ||
    (TrainSteps(w, steps[..|steps| - 1]) && TrainStep(Run(w, steps[..|steps| - 1]), steps[|steps| - 1]))
  }

  function DrainPasses(steps: seq<Step>): nat
    decreases |steps|
  {
    if steps == [] then 0
    else DrainPasses(steps[..|steps| - 1]) + if steps[|steps| - 1].action.DrainPass? then 1 else 0
  }

  /** The display and what is still to be pulsed add up to the target, and stop requests no longer pulse. */
  ghost predicate OnTrack(w: World, min: int, sec: int) {
    && w.task.target.None? && w.task.homeDec == 0 && w.task.awayDec == 0
    && Toward(w, min, sec)
    && Calm(w.board, w.now)
  }

  predicate Toward(w: World, min: int, sec: int) {
    w.panel.min + w.task.dMin == min && w.panel.sec + w.task.dSec == sec
  }

  /** `v` has `passes` fewer pulses to go than `w`, and as many more behind it. */
  ghost predicate Pulsed(w: World, v: World, passes: nat) {
    && Left(v) + passes == Left(w)
    && v.panel.timePulses == w.panel.timePulses + passes
    && v.panel.startPulses == w.panel.startPulses
  }

  lemma BystanderStaysCalm(b: Board, r: Region, from: nat, at: nat)
    requires Calm(b, from) && from <= at
    requires Frozen(b, Entry(at, r))
    ensures Calm(Exec(b, r, at).board, at)
  {
    FrozenStepStaysCalm(b, from, Entry(at, r));
  }

  /** A pass that does not re-stop. */
  lemma DrainTakesOne(w: World, min: int, sec: int)
    requires w.task.homeDec == 0 && w.task.awayDec == 0 && HasPending(w.task) && Toward(w, min, sec)
    requires !Exec(w.board, StartStop(Some(false)), w.now).act
    ensures var v := Drain(w);
            && v.now == w.now && v.board == Exec(w.board, StartStop(Some(false)), w.now).board
            && v.task.target == w.task.target && v.task.homeDec == 0 && v.task.awayDec == 0
            && Toward(v, min, sec) && Pulsed(w, v, 1)
            && Distance(v, min, sec) == Distance(w, min, sec) - 1
  {
  }

  lemma DrainStaysOnTrack(w: World, at: nat, min: int, sec: int)
    requires OnTrack(w, min, sec) && w.now <= at && HasPending(w.task)
    ensures var v := Drain(w.(now := at));
            OnTrack(v, min, sec) && Pulsed(w, v, 1) && Distance(v, min, sec) == Distance(w, min, sec) - 1
  {
    var stop := StartStop(Some(false));
    var o := Exec(w.board, stop, at);
    assert !o.act && Calm(o.board, at) by {
      FrozenStepStaysCalm(w.board, w.now, Entry(at, stop));
    }
    DrainTakesOne(w.(now := at), min, sec);
  }

  lemma CommandStaysOnTrack(w: World, at: nat, cmd: Command, min: int, sec: int)
    requires OnTrack(w, min, sec) && w.now <= at && Bystander(cmd)
    ensures var v := Handle(w.(now := at), cmd);
            && OnTrack(v, min, sec) && v.task == w.task
            && v.panel.timePulses == w.panel.timePulses && v.panel.startPulses == w.panel.startPulses
  {
    RefreshStaysCalm(w.board, w.now, at);
    match cmd
    case IncHome => BystanderStaysCalm(w.board, HomeInc, w.now, at);
    case DecHome => BystanderStaysCalm(w.board, HomeDec, w.now, at);
    case IncAway => BystanderStaysCalm(w.board, AwayInc, w.now, at);
    case DecAway => BystanderStaysCalm(w.board, AwayDec, w.now, at);
    case ZeroScores => BystanderStaysCalm(w.board, ScoresZero, w.now, at);
    case LedOn => BystanderStaysCalm(w.board, SetLed(true), w.now, at);
    case LedOff => BystanderStaysCalm(w.board, SetLed(false), w.now, at);
    case Aux =>
  }

  lemma TrainStepStaysOnTrack(w: World, s: Step, min: int, sec: int)
    requires OnTrack(w, min, sec) && TrainStep(w, s)
    ensures var v := Next(w, s);
            var passes := if s.action.DrainPass? then 1 else 0;
            OnTrack(v, min, sec) && Pulsed(w, v, passes)
  {
    match s.action
    case Command(cmd) => CommandStaysOnTrack(w, s.at, cmd, min, sec);
    case DrainPass => DrainStaysOnTrack(w, s.at, min, sec);
    case OtherTask(r) => BystanderStaysCalm(w.board, r, w.now, s.at);
  }

  /**
    At every loop head of the train display plus pending is the target, each drain pass is one pulse
    toward it, and GP1 is not pulsed again.
   */
  lemma {:induction false} TrainStaysOnTrack(w: World, min: int, sec: int, steps: seq<Step>)
    requires OnTrack(w, min, sec) && TrainSteps(w, steps)
    ensures var v := Run(w, steps);
            OnTrack(v, min, sec) && Pulsed(w, v, DrainPasses(steps))
    decreases |steps|
  {
    if steps != [] {
      TrainStaysOnTrack(w, min, sec, steps[..|steps| - 1]);
      TrainStepStaysOnTrack(Run(w, steps[..|steps| - 1]), steps[|steps| - 1], min, sec);
    }
  }

  /** Once commands stop, draining alone finishes: as many passes as pulses left, each one enabled. */
  lemma DrainingFinishes(w: World, min: int, sec: int) returns (steps: seq<Step>)
    requires OnTrack(w, min, sec)
    ensures |steps| == Left(w) && forall k :: 0 <= k < |steps| ==> steps[k].action == DrainPass
    ensures TrainSteps(w, steps) && !HasPending(Run(w, steps).task)
    ensures Run(w, steps).panel.min == min && Run(w, steps).panel.sec == sec
  {
    steps := DrainSome(w, min, sec, Left(w));
    AllPulsed(w, Run(w, steps), min, sec);
  }

  lemma AllPulsed(w: World, v: World, min: int, sec: int)
    requires Toward(v, min, sec) && v.task.homeDec == 0 && v.task.awayDec == 0
    requires Pulsed(w, v, Left(w))
    ensures !HasPending(v.task) && v.panel.min == min && v.panel.sec == sec
  {
  }

  lemma NotAllPulsed(w: World, v: World, n: nat)
    requires Pulsed(w, v, n) && n < Left(w)
    ensures HasPending(v.task)
  {
  }

  lemma PulsedOnce(w: World, v: World, u: World, n: nat)
    requires Pulsed(w, v, n) && Pulsed(v, u, 1)
    ensures Pulsed(w, u, n + 1)
  {
  }

  lemma {:induction false} DrainSome(w: World, min: int, sec: int, n: nat) returns (steps: seq<Step>)
    requires OnTrack(w, min, sec) && n <= Left(w)
    ensures |steps| == n && forall k :: 0 <= k < n ==> steps[k].action == DrainPass
    ensures TrainSteps(w, steps) && OnTrack(Run(w, steps), min, sec) && Pulsed(w, Run(w, steps), n)
    decreases n
  {
    if n == 0 {
      steps := [];
    } else {
      var before := DrainSome(w, min, sec, n - 1);
      var v := Run(w, before);
      NotAllPulsed(w, v, n - 1);
      steps := before + [Step(v.now, DrainPass)];
      OneMore(w, before, v, min, sec);
      PulsedOnce(w, v, Run(w, steps), n - 1);
    }
  }

  lemma OneMore(w: World, before: seq<Step>, v: World, min: int, sec: int)
    requires TrainSteps(w, before) && v == Run(w, before)
    requires OnTrack(v, min, sec) && HasPending(v.task)
    ensures var steps := before + [Step(v.now, DrainPass)];
            TrainSteps(w, steps) && OnTrack(Run(w, steps), min, sec) && Pulsed(v, Run(w, steps), 1)
  {
    var s := Step(v.now, DrainPass);
    assert Enabled(v, s);
    assert (before + [s])[..|before|] == before;
    assert Run(w, before + [s]) == Drain(v.(now := v.now));
    DrainStaysOnTrack(v, v.now, min, sec);
  }

  // Trains under any UART traffic

  /** Anything but a reset or another set-timer command: starts, stops and UART changes included. */
  predicate KeepsTrain(a: Action) {
    !a.EndSetTimer? && (a.Command? ==> !a.cmd.Reset? && !a.cmd.SetTimer?)
  }

  lemma StepKeepsTarget(w: World, s: Step, min: int, sec: int)
    requires Enabled(w, s) && KeepsTrain(s.action) && Toward(w, min, sec)
    ensures var v := Next(w, s);
            Toward(v, min, sec) && v.panel.timePulses + Left(v) == w.panel.timePulses + Left(w)
  {
    var v := w.(now := s.at);
    match s.action
    case Command(cmd) => HandleKeepsTrain(v, cmd);
    case DrainPass => DrainMovesOneWay(v);
    case OtherTask(_) =>
  }

  lemma HandleKeepsTrain(w: World, cmd: Command)
    requires !cmd.Reset? && !cmd.SetTimer?
    ensures var v := Handle(w, cmd);
            && v.task.dMin == w.task.dMin && v.task.dSec == w.task.dSec
            && v.panel.min == w.panel.min && v.panel.sec == w.panel.sec && v.panel.timePulses == w.panel.timePulses
  {
  }

  lemma DrainMovesOneWay(w: World)
    ensures var v := Drain(w);
            && v.panel.min + v.task.dMin == w.panel.min + w.task.dMin
            && v.panel.sec + v.task.dSec == w.panel.sec + w.task.dSec
            && v.panel.timePulses + Left(v) == w.panel.timePulses + Left(w)
  {
  }

  /**
    Whatever UART shows and whoever starts or stops the clock meanwhile, display plus pending stays
    the target and every min or sec pulse takes one off the distance; run dry, the train is there.
   */
  lemma {:induction false} AnyTrainKeepsTarget(w: World, min: int, sec: int, steps: seq<Step>)
    requires Toward(w, min, sec) && forall k :: 0 <= k < |steps| ==> KeepsTrain(steps[k].action)
    ensures var v := Run(w, steps);
            && Toward(v, min, sec)
            && v.panel.timePulses + Left(v) == w.panel.timePulses + Left(w)
            && (!HasPending(v.task) ==> v.panel.min == min && v.panel.sec == sec && Left(v) == 0)
    decreases |steps|
  {
    if steps != [] {
      AnyTrainKeepsTarget(w, min, sec, steps[..|steps| - 1]);
      var v := Run(w, steps[..|steps| - 1]);
      if Enabled(v, steps[|steps| - 1]) {
        StepKeepsTarget(v, steps[|steps| - 1], min, sec);
      }
    }
  }

  lemma StepKeepsOrder(w: World, s: Step)
    requires Enabled(w, s) && KeepsTrain(s.action)
    ensures var v := Next(w, s);
            v.task.dMin != 0 ==> w.task.dMin != 0 && v.panel.sec == w.panel.sec && v.task.dSec == w.task.dSec
  {
    if s.action.Command? {
      HandleKeepsTrain(w.(now := s.at), s.action.cmd);
    }
  }

  /** Minutes first: seconds are not pulsed while a minute is still to go. */
  lemma {:induction false} MinutesBeforeSeconds(w: World, steps: seq<Step>)
    requires forall k :: 0 <= k < |steps| ==> KeepsTrain(steps[k].action)
    ensures var v := Run(w, steps);
            v.task.dMin != 0 ==> w.task.dMin != 0 && v.panel.sec == w.panel.sec && v.task.dSec == w.task.dSec
    decreases |steps|
  {
    if steps != [] {
      MinutesBeforeSeconds(w, steps[..|steps| - 1]);
      var v := Run(w, steps[..|steps| - 1]);
      if Enabled(v, steps[|steps| - 1]) {
        StepKeepsOrder(v, steps[|steps| - 1]);
      }
    }
  }

  // A set-timer command

  predicate OthersOnly(steps: seq<Step>) {
    forall k :: 0 <= k < |steps| ==> steps[k].action.OtherTask?
  }

  /**
    A set-timer command up to its snapshot at `snap`, other tasks running `mid` between its two locks,
    with UART showing what the display does at the snapshot.
   */
  ghost predicate SetsTimer(w: World, at: nat, min: byte, sec: byte, mid: seq<Step>, snap: nat, w3: World) {
    && Enabled(w, Step(at, Command(SetTimer(min, sec))))
    && var w1 := Next(w, Step(at, Command(SetTimer(min, sec))));
       var w2 := Run(w1, mid);
       && OthersOnly(mid)
       && w2.panel.min == w2.board.minutes <= MAX_MINUTES
       && w2.panel.sec == w2.board.seconds <= MAX_SECONDS
       && Enabled(w2, Step(snap, EndSetTimer))
       && w3 == Next(w2, Step(snap, EndSetTimer))
  }

  /** Where the snapshot leaves the train. */
  ghost predicate TrainBegins(w: World, w3: World, min: int, sec: int) {
    && w3.task.target.None? && w3.task.homeDec == 0 && w3.task.awayDec == 0
    && Toward(w3, min, sec)
    && Left(w3) <= 158
    && w3.panel.timePulses == w.panel.timePulses
    && w3.panel.min == w.panel.min && w3.panel.sec == w.panel.sec
    && w3.panel.startPulses <= w.panel.startPulses + 1
  }

  lemma {:induction false} OthersTouchNothing(w: World, steps: seq<Step>)
    requires OthersOnly(steps)
    ensures Run(w, steps).task == w.task && Run(w, steps).panel == w.panel
    decreases |steps|
  {
    if steps != [] {
      OthersTouchNothing(w, steps[..|steps| - 1]);
      assert steps[|steps| - 1].action.OtherTask?;
    }
  }

  lemma SnapshotBeginsTrain(w: World, at: nat)
    requires w.now <= at && w.task.target.Some?
    requires w.task.homeDec == 0 && w.task.awayDec == 0
    requires w.panel.min == w.board.minutes <= MAX_MINUTES && w.panel.sec == w.board.seconds <= MAX_SECONDS
    requires w.task.target.value.0 <= MAX_MINUTES && w.task.target.value.1 <= MAX_SECONDS
    ensures var (min, sec) := w.task.target.value;
            TrainBegins(w, Snapshot(w.(now := at)), min, sec)
  {
  }

  lemma SetTimerBeginsTrain(w: World, at: nat, min: byte, sec: byte, mid: seq<Step>, snap: nat, w3: World)
    requires w.task.homeDec == 0 && w.task.awayDec == 0
    requires SetsTimer(w, at, min, sec, mid, snap, w3)
    ensures TrainBegins(w, w3, Min(min, MAX_MINUTES), Min(sec, MAX_SECONDS))
  {
    var w1 := Next(w, Step(at, Command(SetTimer(min, sec))));
    OthersTouchNothing(w1, mid);
    SnapshotBeginsTrain(Run(w1, mid), snap);
  }

  /** The display is at the target, one min or sec pulse per unit of distance and at most 158 later. */
  ghost predicate TargetReached(w: World, v: World, min: int, sec: int) {
    && v.panel.min == min && v.panel.sec == sec
    && v.panel.timePulses - w.panel.timePulses == Distance(w, min, sec) <= 158
  }

  /**
    A set-timer command in any reached state, whatever UART shows and whoever starts or stops the
    clock after its snapshot: once the train has run dry the display shows the clamped target, after
    exactly as many min and sec pulses as the display was away from it, at most 158.
   */
  lemma SetTimerReachesTarget(min0: int, sec0: int, pre: seq<Step>, at: nat, min: byte, sec: byte,
                              mid: seq<Step>, snap: nat, w3: World, train: seq<Step>)
    requires SetsTimer(Run(Boot(min0, sec0), pre), at, min, sec, mid, snap, w3)
    requires forall k :: 0 <= k < |train| ==> KeepsTrain(train[k].action)
    requires !HasPending(Run(w3, train).task)
    ensures TargetReached(Run(Boot(min0, sec0), pre), Run(w3, train), Min(min, MAX_MINUTES), Min(sec, MAX_SECONDS))
    ensures w3.panel.startPulses <= Run(Boot(min0, sec0), pre).panel.startPulses + 1
  {
    var w := Run(Boot(min0, sec0), pre);
    ScoresAreConserved(min0, sec0, pre);
    SetTimerBeginsTrain(w, at, min, sec, mid, snap, w3);
    AnyTrainKeepsTarget(w3, Min(min, MAX_MINUTES), Min(sec, MAX_SECONDS), train);
    DryTrainIsThere(w, w3, Run(w3, train), Min(min, MAX_MINUTES), Min(sec, MAX_SECONDS));
  }

  lemma DryTrainIsThere(w: World, w3: World, v: World, min: int, sec: int)
    requires TrainBegins(w, w3, min, sec) && Toward(v, min, sec) && !HasPending(v.task)
    requires v.panel.timePulses + Left(v) == w3.panel.timePulses + Left(w3)
    ensures TargetReached(w, v, min, sec)
  {
  }

  // When GP1 stays silent

  /** Other tasks' regions that leave MM:SS alone, as between the two locks of a set-timer command. */
  predicate FrozenOnly(w: World, steps: seq<Step>)
    decreases |steps|
  {
    steps == [] ||
    (var before := steps[..|steps| - 1];
     var v := Run(w, before);
     var s := steps[|steps| - 1];
     FrozenOnly(w, before) && Enabled(v, s) && s.action.OtherTask? && Frozen(v.board, Entry(s.at, s.action.region)))
  }

  lemma {:induction false} FrozenOnlyStaysCalm(w: World, steps: seq<Step>)
    requires Calm(w.board, w.now) && FrozenOnly(w, steps)
    ensures var v := Run(w, steps);
            Calm(v.board, v.now) && v.task == w.task && v.panel == w.panel
    decreases |steps|
  {
    if steps != [] {
      FrozenOnlyStaysCalm(w, steps[..|steps| - 1]);
      var v := Run(w, steps[..|steps| - 1]);
      var s := steps[|steps| - 1];
      BystanderStaysCalm(v.board, s.action.region, v.now, s.at);
    }
  }

  predicate PendingFor(b: Board, want: bool, now: nat) {
    b.pendingRunning == Some(want) && b.pendingAt.Some? && now < b.pendingAt.value + STOPPED_AFTER_MS
  }

  /** MM:SS changed under 2 s ago with no stop under 2 s old, or a start is still unconfirmed. */
  predicate RestopDue(b: Board, now: nat) {
    if !IsZero(b.minutes, b.seconds) && b.lastChange.Some? && now < b.lastChange.value + STOPPED_AFTER_MS
    then !PendingFor(b, false, now)
    else PendingFor(b, true, now)
  }

  /** A pass of the train pulses GP1 instead of min or sec if and only if a re-stop is due. */
  lemma RestopsExactlyWhenDue(w: World)
    requires w.task.homeDec == 0 && w.task.awayDec == 0 && HasPending(w.task) && Dated(w.board, w.now)
    ensures var v := Drain(w);
            if RestopDue(w.board, w.now) then
              v.task == w.task && v.panel == PressedStart(w.panel, true)
            else
              Left(v) == Left(w) - 1 && v.panel.startPulses == w.panel.startPulses
  {
  }

  lemma RunExtends(w: World, steps: seq<Step>, s: Step)
    requires Enabled(Run(w, steps), s)
    ensures Run(w, steps + [s]) == Next(Run(w, steps), s)
  {
    assert (steps + [s])[..|steps|] == steps;
  }

  ghost predicate Silent(w: World) {
    forall train | TrainSteps(w, train) :: Run(w, train).panel.startPulses == w.panel.startPulses
  }

  lemma OnTrackIsSilent(w: World, min: int, sec: int)
    requires OnTrack(w, min, sec)
    ensures Silent(w)
  {
    forall train | TrainSteps(w, train)
      ensures Run(w, train).panel.startPulses == w.panel.startPulses
    {
      TrainStaysOnTrack(w, min, sec, train);
    }
  }

  lemma {:induction false} IdleStaysIdle(w: World, train: seq<Step>)
    requires !HasPending(w.task) && TrainSteps(w, train)
    ensures !HasPending(Run(w, train).task) && Run(w, train).panel.startPulses == w.panel.startPulses
    decreases |train|
  {
    if train != [] {
      IdleStaysIdle(w, train[..|train| - 1]);
      var v := Run(w, train[..|train| - 1]);
      var s := train[|train| - 1];
      if s.action.Command? {
        IdleCommand(v.(now := s.at), s.action.cmd);
      }
    }
  }

  lemma IdleCommand(w: World, cmd: Command)
    requires !HasPending(w.task) && Bystander(cmd)
    ensures !HasPending(Handle(w, cmd).task) && Handle(w, cmd).panel.startPulses == w.panel.startPulses
  {
  }

  /** As UART stands, a stop request now or later will pulse: a change under 2 s old and after the stop, or an unconfirmed start. */
  predicate WillRestop(b: Board, now: nat) {
    if !IsZero(b.minutes, b.seconds) && b.lastChange.Some? && now < b.lastChange.value + STOPPED_AFTER_MS
    then !(b.pendingRunning == Some(false) && b.pendingAt.Some? && b.lastChange.value <= b.pendingAt.value)
    else PendingFor(b, true, now)
  }

  lemma CalmUnlessWillRestop(b: Board, now: nat)
    requires Dated(b, now)
    ensures Calm(b, now) <==> !WillRestop(b, now)
  {
  }

  /** The pass to wait for: at once, or when the pending stop has expired. */
  lemma SomePassRestops(w: World)
    requires w.task.target.None? && w.task.homeDec == 0 && w.task.awayDec == 0 && HasPending(w.task)
    requires Dated(w.board, w.now) && WillRestop(w.board, w.now)
    ensures !Silent(w)
  {
    var b := w.board;
    var at := if b.pendingRunning == Some(false) then Max(w.now, b.pendingAt.value + STOPPED_AFTER_MS) else w.now;
    var s := Step(at, DrainPass);
    var train := [s];
    assert train[..0] == [] && TrainStep(w, s);
    assert TrainSteps(w, train);
    assert RestopDue(b, at);
    RestopsExactlyWhenDue(w.(now := at));
    assert Run(w, train) == Next(w, s);
  }

  /**
    Exactly when trains on a frozen clock leave GP1 alone, from any state: if there is nothing to
    pulse, or neither a late change nor an unconfirmed start stands against the stop.
   */
  lemma SilentExactlyWhen(w: World)
    requires w.task.target.None? && w.task.homeDec == 0 && w.task.awayDec == 0 && Dated(w.board, w.now)
    ensures Silent(w) <==> !HasPending(w.task) || !WillRestop(w.board, w.now)
  {
    if !HasPending(w.task) {
      forall train | TrainSteps(w, train)
        ensures Run(w, train).panel.startPulses == w.panel.startPulses
      {
        IdleStaysIdle(w, train);
      }
    } else if WillRestop(w.board, w.now) {
      SomePassRestops(w);
    } else {
      CalmUnlessWillRestop(w.board, w.now);
      OnTrackIsSilent(w, w.panel.min + w.task.dMin, w.panel.sec + w.task.dSec);
    }
  }

  lemma SetTimerIsDated(w: World, at: nat, min: byte, sec: byte, mid: seq<Step>, snap: nat, w3: World)
    requires Dated(w.board, w.now) && SetsTimer(w, at, min, sec, mid, snap, w3)
    ensures Dated(w3.board, w3.now) && w3.now == snap
  {
    StepKeepsDated(w, Step(at, Command(SetTimer(min, sec))));
    RunKeepsDated(Next(w, Step(at, Command(SetTimer(min, sec)))), mid);
  }

  /**
    For a set-timer command in any reached state, whatever UART showed between its two locks: with
    the clock frozen from the snapshot on, GP1 stays silent if and only if there is nothing to pulse
    or the snapshot finds nothing that will make the re-stop fire.
   */
  lemma TrainIsSilentExactlyWhen(min0: int, sec0: int, pre: seq<Step>, at: nat, min: byte, sec: byte,
                                 mid: seq<Step>, snap: nat, w3: World)
    requires SetsTimer(Run(Boot(min0, sec0), pre), at, min, sec, mid, snap, w3)
    ensures Silent(w3) <==> !HasPending(w3.task) || !WillRestop(w3.board, snap)
  {
    var w := Run(Boot(min0, sec0), pre);
    RunStaysDated(min0, sec0, pre);
    ScoresAreConserved(min0, sec0, pre);
    SetTimerBeginsTrain(w, at, min, sec, mid, snap, w3);
    SetTimerIsDated(w, at, min, sec, mid, snap, w3);
    SilentExactlyWhen(w3);
  }

  // Judged before the command, when no change comes between its two locks

  lemma SetTimerStaysCalm(w: World, at: nat, min: byte, sec: byte, mid: seq<Step>, snap: nat)
    requires w.now <= at && Dated(w.board, at) && !StopOverdue(w.board, at)
    requires var w1 := Handle(w.(now := at), SetTimer(min, sec));
             FrozenOnly(w1, mid) && Run(w1, mid).now <= snap
    ensures Calm(Run(Handle(w.(now := at), SetTimer(min, sec)), mid).board, snap)
  {
    var w1 := Handle(w.(now := at), SetTimer(min, sec));
    SettledUnlessOverdue(w.board, at);
    StopRequestIsCalm(w.board, at);
    FrozenOnlyStaysCalm(w1, mid);
    var w2 := Run(w1, mid);
    RefreshStaysCalm(w2.board, w2.now, snap);
  }

  /** MM:SS last changed after the stop that is or was pending. */
  predicate OverdueSince(b: Board, change: nat, stop: nat) {
    && !IsZero(b.minutes, b.seconds)
    && b.lastChange == Some(change)
    && stop < change
    && (b.pendingRunning.None? || (b.pendingRunning == Some(false) && b.pendingAt == Some(stop)))
  }

  lemma SetTimerKeepsOverdue(b: Board, at: nat)
    requires Dated(b, at) && StopOverdue(b, at)
    ensures OverdueSince(PulseDecided(b, Some(false), at).board, b.lastChange.value, b.pendingAt.value)
  {
  }

  lemma RegionKeepsOverdue(b: Board, r: Region, at: nat, change: nat, stop: nat)
    requires OverdueSince(b, change, stop) && OtherTaskRegion(r) && Frozen(b, Entry(at, r))
    ensures OverdueSince(Exec(b, r, at).board, change, stop)
  {
  }

  lemma {:induction false} FrozenOnlyStaysOverdue(w: World, steps: seq<Step>, change: nat, stop: nat)
    requires OverdueSince(w.board, change, stop) && FrozenOnly(w, steps)
    ensures OverdueSince(Run(w, steps).board, change, stop)
    decreases |steps|
  {
    if steps != [] {
      FrozenOnlyStaysOverdue(w, steps[..|steps| - 1], change, stop);
      var s := steps[|steps| - 1];
      RegionKeepsOverdue(Run(w, steps[..|steps| - 1]).board, s.action.region, s.at, change, stop);
    }
  }

  lemma OverdueWillRestop(b: Board, now: nat, change: nat, stop: nat)
    requires OverdueSince(b, change, stop)
    ensures WillRestop(b, now) <==> now < change + STOPPED_AFTER_MS
  {
  }

  /** What the snapshot finds is then what the command found. */
  lemma WillRestopIfOverdue(w: World, at: nat, min: byte, sec: byte, mid: seq<Step>, snap: nat, w3: World)
    requires Dated(w.board, w.now) && SetsTimer(w, at, min, sec, mid, snap, w3)
    requires FrozenOnly(Next(w, Step(at, Command(SetTimer(min, sec)))), mid)
    ensures WillRestop(w3.board, snap) <==>
              StopOverdue(w.board, at) && snap < w.board.lastChange.value + STOPPED_AFTER_MS
  {
    if StopOverdue(w.board, at) {
      var change, stop := w.board.lastChange.value, w.board.pendingAt.value;
      SetTimerKeepsOverdue(w.board, at);
      FrozenOnlyStaysOverdue(Next(w, Step(at, Command(SetTimer(min, sec)))), mid, change, stop);
      OverdueWillRestop(w3.board, snap, change, stop);
    } else {
      SetTimerIsDated(w, at, min, sec, mid, snap, w3);
      SetTimerStaysCalm(w, at, min, sec, mid, snap);
      CalmUnlessWillRestop(w3.board, snap);
    }
  }

  /**
    With no MM:SS change between the two locks either, GP1 stays silent if and only if there is
    nothing to pulse, no earlier stop was overdue when the command came, or the change that came
    after that stop is 2 s old at the snapshot.
   */
  lemma SilentUnlessOverdue(min0: int, sec0: int, pre: seq<Step>, at: nat, min: byte, sec: byte,
                            mid: seq<Step>, snap: nat, w3: World)
    requires SetsTimer(Run(Boot(min0, sec0), pre), at, min, sec, mid, snap, w3)
    requires FrozenOnly(Next(Run(Boot(min0, sec0), pre), Step(at, Command(SetTimer(min, sec)))), mid)
    ensures var b := Run(Boot(min0, sec0), pre).board;
            Silent(w3) <==>
              !HasPending(w3.task) || !StopOverdue(b, at) || b.lastChange.value + STOPPED_AFTER_MS <= snap
  {
    RunStaysDated(min0, sec0, pre);
    TrainIsSilentExactlyWhen(min0, sec0, pre, at, min, sec, mid, snap, w3);
    WillRestopIfOverdue(Run(Boot(min0, sec0), pre), at, min, sec, mid, snap, w3);
  }

  // Three runs in which GP1 is pulsed

  /** From boot at 7:30: set to 9:30, one pulse, its echo on UART at 100 ms, and the next pass. */
  function EchoedTrain(): seq<Step> {
    [
      Step(0, Command(SetTimer(9, 30))),
      Step(0, EndSetTimer),
      Step(50, DrainPass),
      Step(100, OtherTask(SetClock(8, 30))),
      Step(150, DrainPass)
    ]
  }

  lemma EchoedTrainBegins()
    ensures Run(Boot(7, 30), EchoedTrain()[..3]) == World(50, DefaultBoard(), Task(0, 0, 1, 0, None), Panel(0, 0, 8, 30, 0, 1, 0, 0))
  {
    var w := Boot(7, 30);
    var t := EchoedTrain();
    RunExtends(w, [], t[0]);
    assert t[..1] == [] + [t[0]];
    RunExtends(w, t[..1], t[1]);
    assert t[..2] == t[..1] + [t[1]];
    RunExtends(w, t[..2], t[2]);
    assert t[..3] == t[..2] + [t[2]];
  }

  /**
    With a board that echoes its own min and sec pulses on UART, the re-stop fires on a clock nobody
    started: a pass less than 2 s after the echo pulses GP1 unless a stop is itself under 2 s old.
   */
  lemma EchoMakesRestop(w: World, echo: Step, pass: Step)
    requires Dated(w.board, w.now) && w.task.homeDec == 0 && w.task.awayDec == 0
    requires w.task.target.None? && HasPending(w.task)
    requires echo.action.OtherTask? && echo.action.region.SetClock? && pass.action.DrainPass?
    requires w.now <= echo.at <= pass.at < echo.at + STOPPED_AFTER_MS
    requires var r := echo.action.region;
             && (r.min != w.board.minutes || r.sec != w.board.seconds)
             && !IsZero(r.min, r.sec)
    requires !PendingFor(w.board, false, echo.at)
    ensures Enabled(w, echo) && Enabled(Next(w, echo), pass)
    ensures Next(Next(w, echo), pass).panel == PressedStart(w.panel, true)
  {
    var v := Next(w, echo);
    assert v.board.lastChange == Some(echo.at) && v.board.pendingRunning.None?;
    assert Dated(v.board, pass.at);
    RestopsExactlyWhenDue(v.(now := pass.at));
  }

  lemma RunTwoMore(w: World, t: seq<Step>, n: nat)
    requires |t| == n + 2
    requires Enabled(Run(w, t[..n]), t[n]) && Enabled(Next(Run(w, t[..n]), t[n]), t[n + 1])
    ensures Run(w, t) == Next(Next(Run(w, t[..n]), t[n]), t[n + 1])
  {
    RunExtends(w, t[..n], t[n]);
    assert t[..n + 1] == t[..n] + [t[n]];
    RunExtends(w, t[..n + 1], t[n + 1]);
    assert t == t[..n + 1] + [t[n + 1]];
  }

  /** It happens from boot: the echo of the first pulse. */
  lemma EchoRestops()
    ensures Run(Boot(7, 30), EchoedTrain()).panel == Panel(0, 0, 8, 30, 1, 1, 0, 0)
  {
    var w := Boot(7, 30);
    var t := EchoedTrain();
    EchoedTrainBegins();
    EchoMakesRestop(Run(w, t[..3]), t[3], t[4]);
    RunTwoMore(w, t, 3);
  }

  /** A world with this MM:SS last changed at `change` and this pending request, in the middle of nothing else. */
  predicate Stands(w: World, min: byte, sec: byte, change: Option<nat>, pending: Option<bool>, pendingAt: Option<nat>) {
    && w.board.minutes == min && w.board.seconds == sec
    && w.board.lastChange == change
    && w.board.pendingRunning == pending && w.board.pendingAt == pendingAt
    && w.task.target.None? && !HasPending(w.task)
  }

  lemma StartsFromRest(w: World, s: Step)
    requires Stands(w, w.board.minutes, w.board.seconds, None, None, None) && w.now <= s.at && s.action == Command(Start)
    ensures var v := Next(w, s);
            && Stands(v, w.board.minutes, w.board.seconds, None, Some(true), Some(s.at))
            && v.now == s.at && v.panel == PressedStart(w.panel, true)
  {
  }

  lemma FrameArrives(w: World, s: Step, change: Option<nat>, pending: Option<bool>, since: nat)
    requires Stands(w, w.board.minutes, w.board.seconds, change, pending, Some(since)) && pending.Some?
    requires w.now <= s.at && since <= s.at < since + STOPPED_AFTER_MS
    requires s.action.OtherTask? && s.action.region.SetClock?
    requires var r := s.action.region;
             !IsZero(r.min, r.sec) && (r.min != w.board.minutes || r.sec != w.board.seconds)
    ensures var v := Next(w, s);
            var r := s.action.region;
            && (if pending.value then Stands(v, r.min, r.sec, Some(s.at), None, None)
                else Stands(v, r.min, r.sec, Some(s.at), pending, Some(since)))
            && v.now == s.at && v.panel == w.panel
  {
  }

  lemma StopsRunning(w: World, s: Step, change: nat)
    requires Stands(w, w.board.minutes, w.board.seconds, Some(change), None, None)
    requires !IsZero(w.board.minutes, w.board.seconds) && w.now <= s.at && s.action == Command(Stop)
    requires change <= s.at < change + STOPPED_AFTER_MS
    ensures var v := Next(w, s);
            && Stands(v, w.board.minutes, w.board.seconds, Some(change), Some(false), Some(s.at))
            && v.now == s.at && v.panel == PressedStart(w.panel, true)
  {
  }

  predicate IsFrame(a: Action) {
    a.OtherTask? && a.region.SetClock? && !IsZero(a.region.min, a.region.sec)
  }

  predicate SameFrame(a: Action, min: byte, sec: byte)
    requires IsFrame(a)
  {
    a.region.min == min && a.region.sec == sec
  }

  /** A start, a tick, a stop, and the tick that was on its way, each within 2 s of the one before. */
  predicate LateTick(w: World, t: seq<Step>) {
    && |t| == 4
    && t[0].action == Command(Start) && t[2].action == Command(Stop) && IsFrame(t[1].action) && IsFrame(t[3].action)
    && !SameFrame(t[1].action, w.board.minutes, w.board.seconds)
    && !SameFrame(t[3].action, t[1].action.region.min, t[1].action.region.sec)
    && w.now <= t[0].at <= t[1].at < t[0].at + STOPPED_AFTER_MS
    && t[1].at <= t[2].at < t[1].at + STOPPED_AFTER_MS
    && t[2].at < t[3].at < t[2].at + STOPPED_AFTER_MS
  }

  lemma StartedAndTicked(w: World, start: Step, frame: Step)
    requires Stands(w, w.board.minutes, w.board.seconds, None, None, None)
    requires start.action == Command(Start) && IsFrame(frame.action)
    requires !SameFrame(frame.action, w.board.minutes, w.board.seconds)
    requires w.now <= start.at <= frame.at < start.at + STOPPED_AFTER_MS
    ensures Enabled(w, start) && Enabled(Next(w, start), frame)
    ensures var v := Next(Next(w, start), frame);
            var r := frame.action.region;
            && Stands(v, r.min, r.sec, Some(frame.at), None, None)
            && v.now == frame.at && v.panel.startPulses == w.panel.startPulses + 1
  {
    StartsFromRest(w, start);
    FrameArrives(Next(w, start), frame, None, Some(true), start.at);
  }

  lemma StoppedAndTicked(w: World, stop: Step, frame: Step)
    requires Stands(w, w.board.minutes, w.board.seconds, Some(w.now), None, None)
    requires !IsZero(w.board.minutes, w.board.seconds)
    requires stop.action == Command(Stop) && IsFrame(frame.action)
    requires !SameFrame(frame.action, w.board.minutes, w.board.seconds)
    requires w.now <= stop.at < w.now + STOPPED_AFTER_MS && stop.at < frame.at < stop.at + STOPPED_AFTER_MS
    ensures Enabled(w, stop) && Enabled(Next(w, stop), frame)
    ensures var v := Next(Next(w, stop), frame);
            var r := frame.action.region;
            && Stands(v, r.min, r.sec, Some(frame.at), Some(false), Some(stop.at))
            && v.now == frame.at && v.panel.startPulses == w.panel.startPulses + 1
  {
    StopsRunning(w, stop, w.now);
    FrameArrives(Next(w, stop), frame, Some(w.now), Some(false), stop.at);
  }

  lemma LateTickRuns(w: World, t: seq<Step>)
    requires Stands(w, w.board.minutes, w.board.seconds, None, None, None) && LateTick(w, t)
    ensures var v := Run(w, t);
            var r := t[3].action.region;
            && Stands(v, r.min, r.sec, Some(t[3].at), Some(false), Some(t[2].at))
            && v.now == t[3].at && v.panel.startPulses == w.panel.startPulses + 2
  {
    assert t[..0] == [] && t[..2][..0] == [] && t[..2][0] == t[0] && t[..2][1] == t[1];
    StartedAndTicked(w, t[0], t[1]);
    RunTwoMore(w, t[..2], 0);
    StoppedAndTicked(Run(w, t[..2]), t[2], t[3]);
    RunTwoMore(w, t, 2);
  }

  /** A set-timer command while that stop is overdue, and a pass once it has expired. */
  lemma OverduePassStarts(w: World, stop: nat, change: nat, order: Step, snap: Step, pass: Step)
    requires Stands(w, w.board.minutes, w.board.seconds, Some(change), Some(false), Some(stop))
    requires !IsZero(w.board.minutes, w.board.seconds) && stop < change == w.now
    requires order.action.Command? && order.action.cmd.SetTimer? && Min(order.action.cmd.min, MAX_MINUTES) != w.board.minutes
    requires snap.action.EndSetTimer? && pass.action.DrainPass?
    requires w.now <= order.at < stop + STOPPED_AFTER_MS <= pass.at < change + STOPPED_AFTER_MS
    requires order.at <= snap.at <= pass.at
    ensures StopOverdue(w.board, order.at)
    ensures Enabled(w, order) && Enabled(Next(w, order), snap) && Enabled(Next(Next(w, order), snap), pass)
    ensures Next(Next(w, order), snap).panel == w.panel
    ensures Next(Next(Next(w, order), snap), pass).panel == PressedStart(w.panel, true)
  {
    SetTimerKeepsOverdue(w.board, order.at);
    var w3 := Next(Next(w, order), snap);
    assert OverdueSince(w3.board, change, stop);
    assert RestopDue(w3.board, pass.at) && Dated(w3.board, pass.at);
    RestopsExactlyWhenDue(w3.(now := pass.at));
  }

  /** From boot at 7:30: the clock is stopped from 200 on and UART frozen from 250 on. */
  function LateSteps(): seq<Step> {
    [
      Step(0, Command(Start)),
      Step(100, OtherTask(SetClock(7, 29))),
      Step(200, Command(Stop)),
      Step(250, OtherTask(SetClock(7, 28)))
    ]
  }

  /** It happens from boot: of three GP1 pulses the last starts the clock that the second had stopped. */
  lemma OverdueRestops()
    ensures var w := Run(Boot(7, 30), LateSteps());
            var order, snap, pass := Step(300, Command(SetTimer(9, 28))), Step(300, EndSetTimer), Step(2200, DrainPass);
            && StopOverdue(w.board, 300)
            && Enabled(w, order) && Enabled(Next(w, order), snap) && Enabled(Next(Next(w, order), snap), pass)
            && Next(Next(w, order), snap).panel.startPulses == 2
            && Next(Next(Next(w, order), snap), pass).panel.startPulses == 3
  {
    LateTickRuns(Boot(7, 30), LateSteps());
    OverduePassStarts(Run(Boot(7, 30), LateSteps()), 200, 250,
                      Step(300, Command(SetTimer(9, 28))), Step(300, EndSetTimer), Step(2200, DrainPass));
  }

  /**
    A set-timer command on a running clock whose last tick comes between its two locks: nothing is
    overdue, the command stops the clock, and a pass once that stop has expired starts it again.
   */
  lemma TickBetweenLocksRestops(w: World, change: nat, order: Step, tick: Step, snap: Step, pass: Step)
    requires Stands(w, w.board.minutes, w.board.seconds, Some(change), None, None)
    requires !IsZero(w.board.minutes, w.board.seconds) && change <= w.now <= order.at < change + STOPPED_AFTER_MS
    requires order.action.Command? && order.action.cmd.SetTimer?
    requires IsFrame(tick.action) && !SameFrame(tick.action, w.board.minutes, w.board.seconds)
    requires Min(order.action.cmd.min, MAX_MINUTES) != tick.action.region.min
    requires snap.action.EndSetTimer? && pass.action.DrainPass?
    requires order.at < tick.at <= snap.at <= pass.at
    requires tick.at < order.at + STOPPED_AFTER_MS <= pass.at < tick.at + STOPPED_AFTER_MS
    ensures !StopOverdue(w.board, order.at)
    ensures Enabled(w, order) && Enabled(Next(w, order), tick) && Enabled(Next(Next(w, order), tick), snap)
    ensures var w3 := Next(Next(Next(w, order), tick), snap);
            && w3.panel == PressedStart(w.panel, true)
            && Enabled(w3, pass) && Next(w3, pass).panel == PressedStart(w3.panel, true)
  {
    var w1 := Next(w, order);
    RunningSetTimerPulses(w, change, order);
    var w2 := Next(w1, tick);
    assert OverdueSince(w2.board, tick.at, order.at) && w2.task == w1.task && w2.panel == w1.panel;
    var w3 := Next(w2, snap);
    assert RestopDue(w3.board, pass.at) && Dated(w3.board, pass.at);
    RestopsExactlyWhenDue(w3.(now := pass.at));
  }

  lemma RunningSetTimerPulses(w: World, change: nat, order: Step)
    requires Stands(w, w.board.minutes, w.board.seconds, Some(change), None, None)
    requires !IsZero(w.board.minutes, w.board.seconds) && change <= w.now <= order.at < change + STOPPED_AFTER_MS
    requires order.action.Command? && order.action.cmd.SetTimer?
    ensures var w1 := Next(w, order);
            && w1.now == order.at && w1.panel == PressedStart(w.panel, true)
            && w1.board.minutes == w.board.minutes && w1.board.seconds == w.board.seconds
            && w1.board.pendingRunning == Some(false) && w1.board.pendingAt == Some(order.at)
            && w1.task == w.task.(target := w1.task.target) && w1.task.target.Some?
            && w1.task.target.value.0 == Min(order.action.cmd.min, MAX_MINUTES)
  {
  }

  /** From boot at 7:30: started, and one tick. */
  function RunningSteps(): seq<Step> {
    [Step(0, Command(Start)), Step(100, OtherTask(SetClock(7, 29)))]
  }

  /** It happens from boot: the tick arrives in the 50 ms of the stop pulse, and the third GP1 pulse starts the clock. */
  lemma TickBetweenLocks()
    ensures var w := Run(Boot(7, 30), RunningSteps());
            var order, tick := Step(1090, Command(SetTimer(99, 28))), Step(1100, OtherTask(SetClock(7, 28)));
            var snap, pass := Step(1140, EndSetTimer), Step(3090, DrainPass);
            && !StopOverdue(w.board, 1090)
            && Enabled(w, order) && Enabled(Next(w, order), tick) && Enabled(Next(Next(w, order), tick), snap)
            && var w3 := Next(Next(Next(w, order), tick), snap);
               w3.panel.startPulses == 2 && Enabled(w3, pass) && Next(w3, pass).panel.startPulses == 3
  {
    var t := RunningSteps();
    assert t[..0] == [];
    StartedAndTicked(Boot(7, 30), t[0], t[1]);
    RunTwoMore(Boot(7, 30), t, 0);
    TickBetweenLocksRestops(Run(Boot(7, 30), t), 100, Step(1090, Command(SetTimer(99, 28))),
                            Step(1100, OtherTask(SetClock(7, 28))), Step(1140, EndSetTimer), Step(3090, DrainPass));
  }
}
