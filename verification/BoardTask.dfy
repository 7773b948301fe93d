/**
  `board_task` of `src/main.rs`, hardware build: commands become pulses on the board's buttons.

  `Panel` is the physical board, moved only by pulses. The loop is modelled step by step: a command,
  the snapshot that ends a set-timer command, one pulse of the drain. Other tasks run in between.
 */
module BoardTask {
  import opened Words
  import opened Decode
  import opened Scoreboard
  import opened Repulse

  datatype Command =
    | StartStopToggle
    | Start
    | Stop
    | IncHome
    | DecHome
    | IncAway
    | DecAway
    | ZeroScores
    | Reset
    | LedOn
    | LedOff
    | SetTimer(min: byte, sec: byte)
    | Aux

  /** The board as its buttons leave it: it does not tick, and a reset pulse is counted but moves no time. */
  datatype Panel = Panel(
    home: int,
    away: int,
    min: int,
    sec: int,
    startPulses: nat,
    timePulses: nat,
    resetPulses: nat,
    auxPulses: nat)

  /** The loop's own counters; `target` is set between the two locks of a set-timer command. */
  datatype Task = Task(homeDec: u16, awayDec: u16, dMin: i16, dSec: i16, target: Option<(byte, byte)>)

  datatype World = World(now: nat, board: Board, task: Task, panel: Panel)

  function Boot(min: int, sec: int): World {
    World(0, DefaultBoard(), Task(0, 0, 0, 0, None), Panel(0, 0, min, sec, 0, 0, 0, 0))
  }

  predicate HasPending(t: Task) {
    t.homeDec > 0 || t.awayDec > 0 || t.dMin != 0 || t.dSec != 0
  }

  function SatInc(n: u16): u16 {
    if n < 0xFFFF then n + 1 else n
  }

  function PressedStart(p: Panel, act: bool): Panel {
    if act then p.(startPulses := p.startPulses + 1) else p
  }

  function Handle(w: World, cmd: Command): World {
    var t := w.task;
    var p := w.panel;
    match cmd
    case StartStopToggle =>
      var o := Exec(w.board, StartStop(None), w.now);
      w.(board := o.board, panel := PressedStart(p, o.act))
    case Start =>
      var o := Exec(w.board, StartStop(Some(true)), w.now);
      w.(board := o.board, panel := PressedStart(p, o.act))
    case Stop =>
      var o := Exec(w.board, StartStop(Some(false)), w.now);
      w.(board := o.board, panel := PressedStart(p, o.act))
    case IncHome =>
      var o := Exec(w.board, HomeInc, w.now);
      if !o.act then w
      else if t.homeDec > 0 then w.(board := o.board, task := t.(homeDec := t.homeDec - 1))
      else w.(board := o.board, panel := p.(home := p.home + 1))
    case DecHome =>
      var o := Exec(w.board, HomeDec, w.now);
      if !o.act then w
      else if t.homeDec > 0 then w.(board := o.board, task := t.(homeDec := SatInc(t.homeDec)))
      else w.(board := o.board, panel := p.(home := p.home - 1))
    case IncAway =>
      var o := Exec(w.board, AwayInc, w.now);
      if !o.act then w
      else if t.awayDec > 0 then w.(board := o.board, task := t.(awayDec := t.awayDec - 1))
      else w.(board := o.board, panel := p.(away := p.away + 1))
    case DecAway =>
      var o := Exec(w.board, AwayDec, w.now);
      if !o.act then w
      else if t.awayDec > 0 then w.(board := o.board, task := t.(awayDec := SatInc(t.awayDec)))
      else w.(board := o.board, panel := p.(away := p.away - 1))
    case ZeroScores =>
      w.(board := Exec(w.board, ScoresZero, w.now).board,
         task := t.(homeDec := 0, awayDec := 0),
         panel := p.(home := 0, away := 0))
    case Reset =>
      w.(board := Exec(w.board, ClearPending, w.now).board,
         task := t.(dMin := 0, dSec := 0),
         panel := p.(resetPulses := p.resetPulses + 1))
    case LedOn => w.(board := Exec(w.board, SetLed(true), w.now).board)
    case LedOff => w.(board := Exec(w.board, SetLed(false), w.now).board)
    case SetTimer(min, sec) =>
      var o := Exec(w.board, StartStop(Some(false)), w.now);
      w.(board := o.board, panel := PressedStart(p, o.act),
         task := t.(target := Some((Min(min, MAX_MINUTES), Min(sec, MAX_SECONDS)))))
    case Aux => w.(panel := p.(auxPulses := p.auxPulses + 1))
  }

  /** The second lock of a set-timer command: the deltas from the time UART shows now. */
  function Snapshot(w: World): World
    requires w.task.target.Some?
  {
    var (min, sec) := w.task.target.value;
    w.(task := w.task.(dMin := min as int - w.board.minutes, dSec := sec as int - w.board.seconds, target := None))
  }

  /** One pass of the loop with no command waiting. */
  function Drain(w: World): World {
    var t := w.task;
    var p := w.panel;
    if t.homeDec > 0 then
      w.(task := t.(homeDec := t.homeDec - 1), panel := p.(home := p.home - 1))
    else if t.awayDec > 0 then
      w.(task := t.(awayDec := t.awayDec - 1), panel := p.(away := p.away - 1))
    else if t.dMin != 0 || t.dSec != 0 then
      var o := Exec(w.board, StartStop(Some(false)), w.now);
      if o.act then w.(board := o.board, panel := PressedStart(p, true))
      else
        var q := p.(timePulses := p.timePulses + 1);
        if t.dMin > 0 then w.(board := o.board, task := t.(dMin := t.dMin - 1), panel := q.(min := p.min + 1))
        else if t.dMin < 0 then w.(board := o.board, task := t.(dMin := t.dMin + 1), panel := q.(min := p.min - 1))
        else if t.dSec > 0 then w.(board := o.board, task := t.(dSec := t.dSec - 1), panel := q.(sec := p.sec + 1))
        else w.(board := o.board, task := t.(dSec := t.dSec + 1), panel := q.(sec := p.sec - 1))
    else w
  }

  // The loop as an object

  class Buttons {
    var home: int
    var away: int
    var min: int
    var sec: int
    var startPulses: nat
    var timePulses: nat
    var resetPulses: nat
    var auxPulses: nat

    function Value(): Panel
      reads this
    {
      Panel(home, away, min, sec, startPulses, timePulses, resetPulses, auxPulses)
    }

    method PressStart()
      modifies this
      ensures Value() == PressedStart(old(Value()), true)
    {
      startPulses := startPulses + 1;
    }

    method PressHome(step: int)
      modifies this
      ensures Value() == old(Value()).(home := old(home) + step)
    {
      home := home + step;
    }

    method PressAway(step: int)
      modifies this
      ensures Value() == old(Value()).(away := old(away) + step)
    {
      away := away + step;
    }

    method PressClear()
      modifies this
      ensures Value() == old(Value()).(home := 0, away := 0)
    {
      home, away := 0, 0;
    }

    method PressReset()
      modifies this
      ensures Value() == old(Value()).(resetPulses := old(resetPulses) + 1)
    {
      resetPulses := resetPulses + 1;
    }

    method PressAux()
      modifies this
      ensures Value() == old(Value()).(auxPulses := old(auxPulses) + 1)
    {
      auxPulses := auxPulses + 1;
    }

    method PressMin(step: int)
      modifies this
      ensures Value() == old(Value()).(min := old(min) + step, timePulses := old(timePulses) + 1)
    {
      min, timePulses := min + step, timePulses + 1;
    }

    method PressSec(step: int)
      modifies this
      ensures Value() == old(Value()).(sec := old(sec) + step, timePulses := old(timePulses) + 1)
    {
      sec, timePulses := sec + step, timePulses + 1;
    }
  }

  class Driver {
    const state: ScoreboardState
    const events: Events
    const io: Buttons
    var pendingHomeDec: u16
    var pendingAwayDec: u16
    var pendingMin: i16
    var pendingSec: i16
    var target: Option<(byte, byte)>

    ghost function Value(now: nat): World
      reads this, state, io
    {
      World(now, state.Value(), Task(pendingHomeDec, pendingAwayDec, pendingMin, pendingSec, target), io.Value())
    }

    constructor (state: ScoreboardState, events: Events, io: Buttons)
      ensures this.state == state && this.events == events && this.io == io
      ensures Value(0) == World(0, state.Value(), Task(0, 0, 0, 0, None), io.Value())
    {
      this.state, this.events, this.io := state, events, io;
      pendingHomeDec, pendingAwayDec, pendingMin, pendingSec := 0, 0, 0, 0;
      target := None;
    }

    method StartStopCommand(want: Option<bool>, now: nat)
      modifies this, state, events, io
      ensures var o := PulseDecided(old(state.Value()), want, now);
              Value(now) == old(Value(now)).(board := o.board, panel := PressedStart(old(io.Value()), o.act))
    {
      var pulse := state.StartStopPulseFor(want, now, events);
      if pulse {
        io.PressStart();
      }
    }

    method HomeCommand(up: bool, now: nat)
      modifies this, state, events, io
      ensures Value(now) == Handle(old(Value(now)), if up then IncHome else DecHome)
    {
      var act := if up then state.home < SCORE_MAX else state.home > 0;
      if act {
        state.home := if up then state.home + 1 else state.home - 1;
        state.Publish(events);
        if pendingHomeDec > 0 {
          pendingHomeDec := if up then pendingHomeDec - 1 else SatInc(pendingHomeDec);
        } else {
          io.PressHome(if up then 1 else -1);
        }
      }
    }

    method AwayCommand(up: bool, now: nat)
      modifies this, state, events, io
      ensures Value(now) == Handle(old(Value(now)), if up then IncAway else DecAway)
    {
      var act := if up then state.away < SCORE_MAX else state.away > 0;
      if act {
        state.away := if up then state.away + 1 else state.away - 1;
        state.Publish(events);
        if pendingAwayDec > 0 {
          pendingAwayDec := if up then pendingAwayDec - 1 else SatInc(pendingAwayDec);
        } else {
          io.PressAway(if up then 1 else -1);
        }
      }
    }

    method ClearCommand(now: nat)
      modifies this, state, events, io
      ensures Value(now) == Handle(old(Value(now)), ZeroScores)
    {
      state.home, state.away := 0, 0;
      state.Publish(events);
      pendingHomeDec, pendingAwayDec := 0, 0;
      io.PressClear();
    }

    method ResetCommand(now: nat)
      modifies this, state, io
      ensures Value(now) == Handle(old(Value(now)), Reset)
    {
      pendingMin, pendingSec := 0, 0;
      state.pendingRunning, state.pendingAt := None, None;
      io.PressReset();
    }

    method LedCommand(on: bool, now: nat)
      modifies state, events
      ensures Value(now) == Handle(old(Value(now)), if on then LedOn else LedOff)
    {
      state.led := on;
      state.Publish(events);
    }

    method SetTimerCommand(min: byte, sec: byte, now: nat)
      modifies this, state, events, io
      ensures Value(now) == Handle(old(Value(now)), SetTimer(min, sec))
    {
      StartStopCommand(Some(false), now);
      target := Some((Min(min, MAX_MINUTES), Min(sec, MAX_SECONDS)));
    }

    method RunCommand(cmd: Command, now: nat)
      modifies this, state, events, io
      ensures Value(now) == Handle(old(Value(now)), cmd)
    {
      match cmd
      case StartStopToggle => StartStopCommand(None, now);
      case Start => StartStopCommand(Some(true), now);
      case Stop => StartStopCommand(Some(false), now);
      case IncHome => HomeCommand(true, now);
      case DecHome => HomeCommand(false, now);
      case IncAway => AwayCommand(true, now);
      case DecAway => AwayCommand(false, now);
      case ZeroScores => ClearCommand(now);
      case Reset => ResetCommand(now);
      case LedOn => LedCommand(true, now);
      case LedOff => LedCommand(false, now);
      case SetTimer(min, sec) => SetTimerCommand(min, sec, now);
      case Aux => io.PressAux();
    }

    method TakeSnapshot(now: nat)
      requires target.Some?
      modifies this
      ensures Value(now) == Snapshot(old(Value(now)))
    {
      var (min, sec) := target.value;
      pendingMin := min as int - state.minutes;
      pendingSec := sec as int - state.seconds;
      target := None;
    }

    method DrainOne(now: nat)
      modifies this, state, events, io
      ensures Value(now) == Drain(old(Value(now)))
    {
      if pendingHomeDec > 0 {
        io.PressHome(-1);
        pendingHomeDec := pendingHomeDec - 1;
      } else if pendingAwayDec > 0 {
        io.PressAway(-1);
        pendingAwayDec := pendingAwayDec - 1;
      } else if pendingMin != 0 || pendingSec != 0 {
        var pulse := state.StartStopPulseFor(Some(false), now, events);
        if pulse {
          io.PressStart();
          return;
        }
        if pendingMin > 0 {
          io.PressMin(1);
          pendingMin := pendingMin - 1;
        } else if pendingMin < 0 {
          io.PressMin(-1);
          pendingMin := pendingMin + 1;
        } else if pendingSec > 0 {
          io.PressSec(1);
          pendingSec := pendingSec - 1;
        } else if pendingSec < 0 {
          io.PressSec(-1);
          pendingSec := pendingSec + 1;
        }
      }
    }
  }

  // Whole runs

  datatype Action = Command(cmd: Command) | EndSetTimer | DrainPass | OtherTask(region: Region)

  datatype Step = Step(at: nat, action: Action)

  /** What the UART framer, the heartbeat, status requests and streams may do. */
  predicate OtherTaskRegion(r: Region) {
    r.SetClock? || r.Refresh? || r.Look?
  }

  predicate Enabled(w: World, s: Step) {
    && w.now <= s.at
    && match s.action
       case Command(_) => w.task.target.None?
       case EndSetTimer => w.task.target.Some?
       case DrainPass => w.task.target.None? && HasPending(w.task)
       case OtherTask(r) => OtherTaskRegion(r)
  }

  function Next(w: World, s: Step): World
    requires Enabled(w, s)
  {
    var v := w.(now := s.at);
    match s.action
    case Command(cmd) => Handle(v, cmd)
    case EndSetTimer => Snapshot(v)
    case DrainPass => Drain(v)
    case OtherTask(r) => v.(board := Exec(v.board, r, v.now).board)
  }

  /** A run; a step that is not enabled where it stands is skipped. */
  function Run(w: World, steps: seq<Step>): World
    decreases |steps|
  {
    if steps == [] then w
    else
      var v := Run(w, steps[..|steps| - 1]);
      var s := steps[|steps| - 1];
      if Enabled(v, s) then Next(v, s) else v
  }

  // Scores

  /** What the board shows is the Pico's score plus the decrements still owed to it. */
  predicate ScoresBalance(w: World) {
    && w.panel.home == w.board.home + w.task.homeDec
    && w.panel.away == w.board.away + w.task.awayDec
    && w.board.home <= SCORE_MAX && w.board.away <= SCORE_MAX
  }

  /** Any step from any balanced state keeps the balance, until a decrement counter saturates. */
  lemma StepKeepsBalance(w: World, s: Step)
    requires Enabled(w, s) && ScoresBalance(w)
    requires w.task.homeDec < 0xFFFF && w.task.awayDec < 0xFFFF
    ensures ScoresBalance(Next(w, s))
    ensures w.task.homeDec == 0 ==> Next(w, s).task.homeDec == 0
    ensures w.task.awayDec == 0 ==> Next(w, s).task.awayDec == 0
  {
    if s.action.Command? {
      var v := w.(now := s.at);
      HandleKeepsBalance(v, s.action.cmd);
    }
  }

  lemma HandleKeepsBalance(w: World, cmd: Command)
    requires ScoresBalance(w) && w.task.homeDec < 0xFFFF && w.task.awayDec < 0xFFFF
    ensures ScoresBalance(Handle(w, cmd))
    ensures w.task.homeDec == 0 ==> Handle(w, cmd).task.homeDec == 0
    ensures w.task.awayDec == 0 ==> Handle(w, cmd).task.awayDec == 0
  {
  }

  /** From boot, over every run, the board shows exactly the Pico's scores, within 0 to 99, and no decrement is ever owed. */
  lemma {:induction false} ScoresAreConserved(min: int, sec: int, steps: seq<Step>)
    ensures var w := Run(Boot(min, sec), steps);
            && ScoresBalance(w)
            && w.task.homeDec == 0 && w.task.awayDec == 0
            && w.panel.home == w.board.home && w.panel.away == w.board.away
    decreases |steps|
  {
    if steps != [] {
      ScoresAreConserved(min, sec, steps[..|steps| - 1]);
      var w := Run(Boot(min, sec), steps[..|steps| - 1]);
      if Enabled(w, steps[|steps| - 1]) {
        StepKeepsBalance(w, steps[|steps| - 1]);
      }
    }
  }

  /** While decrements are owed, commands for that score press nothing, and a pass works them off before anything else. */
  lemma OwedDecrementsFirst(w: World)
    ensures w.task.homeDec > 0 ==> Handle(w, IncHome).panel == Handle(w, DecHome).panel == w.panel
    ensures w.task.awayDec > 0 ==> Handle(w, IncAway).panel == Handle(w, DecAway).panel == w.panel
    ensures w.task.homeDec > 0 || w.task.awayDec > 0 ==>
              var v := Drain(w);
              && v.board == w.board && v.task.dMin == w.task.dMin && v.task.dSec == w.task.dSec
              && v.panel.min == w.panel.min && v.panel.sec == w.panel.sec
              && v.panel.home + v.panel.away == w.panel.home + w.panel.away - 1
              && (w.task.homeDec > 0 ==> v.panel.away == w.panel.away)
  {
  }

  lemma StepKeepsDated(w: World, s: Step)
    requires Enabled(w, s) && Dated(w.board, w.now)
    ensures var v := Next(w, s);
            v.now == s.at && Dated(v.board, v.now)
  {
    match s.action
    case Command(cmd) => HandleKeepsDated(w.(now := s.at), cmd);
    case EndSetTimer =>
    case DrainPass => ExecKeepsDated(w.board, StartStop(Some(false)), s.at);
    case OtherTask(r) => ExecKeepsDated(w.board, r, s.at);
  }

  lemma HandleKeepsDated(w: World, cmd: Command)
    requires Dated(w.board, w.now)
    ensures var v := Handle(w, cmd);
            v.now == w.now && Dated(v.board, v.now)
  {
    var r := RegionOf(cmd);
    ExecKeepsDated(w.board, r, w.now);
    HandleRunsRegion(w, cmd);
  }

  /** The lock-held region of a command, or none that writes. */
  function RegionOf(cmd: Command): Region {
    match cmd
    case StartStopToggle => StartStop(None)
    case Start => StartStop(Some(true))
    case Stop => StartStop(Some(false))
    case IncHome => HomeInc
    case DecHome => HomeDec
    case IncAway => AwayInc
    case DecAway => AwayDec
    case ZeroScores => ScoresZero
    case Reset => ClearPending
    case LedOn => SetLed(true)
    case LedOff => SetLed(false)
    case SetTimer(_, _) => StartStop(Some(false))
    case Aux => Look
  }

  lemma HandleRunsRegion(w: World, cmd: Command)
    ensures Handle(w, cmd).now == w.now && Handle(w, cmd).board == Exec(w.board, RegionOf(cmd), w.now).board
  {
  }

  lemma {:induction false} RunKeepsDated(w: World, steps: seq<Step>)
    requires Dated(w.board, w.now)
    ensures Dated(Run(w, steps).board, Run(w, steps).now)
    decreases |steps|
  {
    if steps != [] {
      RunKeepsDated(w, steps[..|steps| - 1]);
      var v := Run(w, steps[..|steps| - 1]);
      if Enabled(v, steps[|steps| - 1]) {
        StepKeepsDated(v, steps[|steps| - 1]);
      }
    }
  }

  lemma RunStaysDated(min: int, sec: int, steps: seq<Step>)
    ensures Dated(Run(Boot(min, sec), steps).board, Run(Boot(min, sec), steps).now)
  {
    RunKeepsDated(Boot(min, sec), steps);
  }

  // After a reset

  predicate SetsNoTimer(steps: seq<Step>) {
    forall k :: 0 <= k < |steps| ==> !(steps[k].action.Command? && steps[k].action.cmd.SetTimer?)
  }

  predicate NoTrain(t: Task) {
    t.target.None? && t.dMin == 0 && t.dSec == 0
  }

  predicate SameTime(p: Panel, q: Panel) {
    p.min == q.min && p.sec == q.sec && p.timePulses == q.timePulses
  }

  lemma {:induction false} NoTrainMovesNoTime(w: World, steps: seq<Step>)
    requires NoTrain(w.task) && SetsNoTimer(steps)
    ensures NoTrain(Run(w, steps).task) && SameTime(Run(w, steps).panel, w.panel)
    decreases |steps|
  {
    if steps != [] {
      NoTrainMovesNoTime(w, steps[..|steps| - 1]);
      var v := Run(w, steps[..|steps| - 1]);
      var s := steps[|steps| - 1];
      if Enabled(v, s) {
        StepMovesNoTime(v, s);
      }
    }
  }

  lemma StepMovesNoTime(w: World, s: Step)
    requires NoTrain(w.task) && Enabled(w, s) && !(s.action.Command? && s.action.cmd.SetTimer?)
    ensures NoTrain(Next(w, s).task) && SameTime(Next(w, s).panel, w.panel)
  {
  }

  /** A reset ends the train: from then on min and sec are not pulsed until another set-timer command. */
  lemma ResetEndsTrain(w: World, steps: seq<Step>)
    requires w.task.target.None? && SetsNoTimer(steps)
    ensures SameTime(Run(Handle(w, Reset), steps).panel, w.panel)
  {
    NoTrainMovesNoTime(Handle(w, Reset), steps);
  }

  /** No command waits for a train to end: at any loop head, pulses pending or not, it is taken at once. */
  lemma CommandsInterruptTrains(w: World, at: nat, cmd: Command)
    requires w.task.target.None? && w.now <= at
    ensures Run(w, [Step(at, Command(cmd))]) == Handle(w.(now := at), cmd)
  {
    assert [Step(at, Command(cmd))][..0] == [];
  }

  predicate AsksNothing(a: Action) {
    a.Command? ==> !a.cmd.StartStopToggle? && !a.cmd.Start? && !a.cmd.Stop? && !a.cmd.SetTimer?
  }

  lemma RegionAsksNothing(b: Board, r: Region, now: nat)
    requires b.pendingRunning.None? && !r.StartStop?
    ensures Exec(b, r, now).board.pendingRunning.None?
  {
  }

  lemma StepAsksNothing(w: World, s: Step)
    requires NoTrain(w.task) && w.board.pendingRunning.None? && Enabled(w, s) && AsksNothing(s.action)
    ensures NoTrain(Next(w, s).task) && Next(w, s).board.pendingRunning.None?
  {
    StepMovesNoTime(w, s);
    match s.action
    case Command(cmd) =>
      HandleRunsRegion(w.(now := s.at), cmd);
      RegionAsksNothing(w.board, RegionOf(cmd), s.at);
    case OtherTask(r) => RegionAsksNothing(w.board, r, s.at);
    case DrainPass =>
  }

  lemma {:induction false} NothingAskedNothingPending(w: World, steps: seq<Step>)
    requires NoTrain(w.task) && w.board.pendingRunning.None?
    requires forall k :: 0 <= k < |steps| ==> AsksNothing(steps[k].action)
    ensures NoTrain(Run(w, steps).task) && Run(w, steps).board.pendingRunning.None?
    decreases |steps|
  {
    if steps != [] {
      NothingAskedNothingPending(w, steps[..|steps| - 1]);
      var v := Run(w, steps[..|steps| - 1]);
      if Enabled(v, steps[|steps| - 1]) {
        StepAsksNothing(v, steps[|steps| - 1]);
      }
    }
  }

  /** A reset forgets earlier requests: the next start or stop pulses GP1 exactly if UART shows the opposite. */
  lemma ResetForgetsRequests(w: World, steps: seq<Step>, at: nat, want: bool)
    requires w.task.target.None? && forall k :: 0 <= k < |steps| ==> AsksNothing(steps[k].action)
    ensures var v := Run(Handle(w, Reset), steps).(now := at);
            var b := v.board;
            var v' := Handle(v, if want then Start else Stop);
            v'.panel.startPulses ==
              v.panel.startPulses + if want != ClockIsRunning(b.minutes, b.seconds, b.AgeMs(at)) then 1 else 0
  {
    NothingAskedNothingPending(Handle(w, Reset), steps);
  }

  // What the commands of a run add up to

  function Clamped(score: int): int {
    Max(0, Min(score, 99))
  }

  /** The commands of the steps that were enabled. */
  function Commands(w: World, steps: seq<Step>): seq<Command>
    decreases |steps|
  {
    if steps == [] then []
    else
      var before := steps[..|steps| - 1];
      var s := steps[|steps| - 1];
      Commands(w, before) + if Enabled(Run(w, before), s) && s.action.Command? then [s.action.cmd] else []
  }

  /** Scores as the buttons pressed say: up and down within 0 to 99, and back to 0. */
  function ScoreOf(cmds: seq<Command>, up: Command, down: Command): int
    decreases |cmds|
  {
    if cmds == [] then 0
    else
      var before := ScoreOf(cmds[..|cmds| - 1], up, down);
      var cmd := cmds[|cmds| - 1];
      if cmd == ZeroScores then 0
      else if cmd == up then Clamped(before + 1)
      else if cmd == down then Clamped(before - 1)
      else before
  }

  function LastLed(cmds: seq<Command>): bool
    decreases |cmds|
  {
    if cmds == [] then false
    else
      var cmd := cmds[|cmds| - 1];
      if cmd == LedOn then true else if cmd == LedOff then false else LastLed(cmds[..|cmds| - 1])
  }

  function Count(cmds: seq<Command>, cmd: Command): nat
    decreases |cmds|
  {
    if cmds == [] then 0
    else Count(cmds[..|cmds| - 1], cmd) + if cmds[|cmds| - 1] == cmd then 1 else 0
  }

  ghost predicate Tallies(w: World, cmds: seq<Command>) {
    && w.board.home == ScoreOf(cmds, IncHome, DecHome)
    && w.board.away == ScoreOf(cmds, IncAway, DecAway)
    && w.board.led == LastLed(cmds)
    && w.panel.resetPulses == Count(cmds, Reset)
    && w.panel.auxPulses == Count(cmds, Aux)
  }

  lemma ScoreAfter(cmds: seq<Command>, cmd: Command)
    ensures ScoreOf(cmds + [cmd], IncHome, DecHome) ==
              if cmd.ZeroScores? then 0 else if cmd.IncHome? then Clamped(ScoreOf(cmds, IncHome, DecHome) + 1)
              else if cmd.DecHome? then Clamped(ScoreOf(cmds, IncHome, DecHome) - 1) else ScoreOf(cmds, IncHome, DecHome)
    ensures ScoreOf(cmds + [cmd], IncAway, DecAway) ==
              if cmd.ZeroScores? then 0 else if cmd.IncAway? then Clamped(ScoreOf(cmds, IncAway, DecAway) + 1)
              else if cmd.DecAway? then Clamped(ScoreOf(cmds, IncAway, DecAway) - 1) else ScoreOf(cmds, IncAway, DecAway)
  {
    assert (cmds + [cmd])[..|cmds|] == cmds;
  }

  lemma OthersAfter(cmds: seq<Command>, cmd: Command)
    ensures LastLed(cmds + [cmd]) == if cmd.LedOn? then true else if cmd.LedOff? then false else LastLed(cmds)
    ensures Count(cmds + [cmd], Reset) == Count(cmds, Reset) + if cmd.Reset? then 1 else 0
    ensures Count(cmds + [cmd], Aux) == Count(cmds, Aux) + if cmd.Aux? then 1 else 0
  {
    assert (cmds + [cmd])[..|cmds|] == cmds;
  }

  /** A score command moves its score by one, within 0 to 99, or both to 0. */
  lemma HandleScores(w: World, cmd: Command)
    requires w.board.home <= 99 && w.board.away <= 99
    ensures var b := Handle(w, cmd).board;
            && b.home == (if cmd.ZeroScores? then 0
                          else Clamped(w.board.home + if cmd.IncHome? then 1 else if cmd.DecHome? then -1 else 0))
            && b.away == (if cmd.ZeroScores? then 0
                          else Clamped(w.board.away + if cmd.IncAway? then 1 else if cmd.DecAway? then -1 else 0))
  {
    HandleRunsRegion(w, cmd);
  }

  lemma HandleOthers(w: World, cmd: Command)
    ensures Handle(w, cmd).board.led == if cmd.LedOn? then true else if cmd.LedOff? then false else w.board.led
    ensures Handle(w, cmd).panel.resetPulses == w.panel.resetPulses + if cmd.Reset? then 1 else 0
    ensures Handle(w, cmd).panel.auxPulses == w.panel.auxPulses + if cmd.Aux? then 1 else 0
  {
  }

  /**
    GP1 is pulsed by every toggle, and by a start, stop or set-timer command that finds the clock in
    the other state; afterwards the firmware takes the clock to be as asked.
   */
  lemma PulsesAsAsked(w: World, cmd: Command)
    ensures var running := Refreshed(w.board, w.now).board.Effective();
            var asked := match cmd
                         case StartStopToggle => !running
                         case Start => true
                         case Stop => false
                         case SetTimer(_, _) => false
                         case _ => running;
            var v := Handle(w, cmd);
            && v.panel.startPulses == w.panel.startPulses + (if asked != running then 1 else 0)
            && (cmd.StartStopToggle? || cmd.Start? || cmd.Stop? || cmd.SetTimer? ==> v.board.Effective() == asked)
  {
  }

  lemma HandleTallies(w: World, cmds: seq<Command>, cmd: Command)
    requires Tallies(w, cmds) && w.board.home <= SCORE_MAX && w.board.away <= SCORE_MAX
    ensures Tallies(Handle(w, cmd), cmds + [cmd])
  {
    var v := Handle(w, cmd);
    assert v.board.home == ScoreOf(cmds + [cmd], IncHome, DecHome) && v.board.away == ScoreOf(cmds + [cmd], IncAway, DecAway) by {
      HandleScores(w, cmd);
      ScoreAfter(cmds, cmd);
    }
    HandleOthers(w, cmd);
    OthersAfter(cmds, cmd);
  }

  /**
    Over every run from boot the scores and the LED are those the commands say, and reset and aux
    were pulsed once for each of theirs.
   */
  lemma {:induction false} CommandsAddUp(min: int, sec: int, steps: seq<Step>)
    ensures Tallies(Run(Boot(min, sec), steps), Commands(Boot(min, sec), steps))
    decreases |steps|
  {
    if steps != [] {
      var before := steps[..|steps| - 1];
      var s := steps[|steps| - 1];
      CommandsAddUp(min, sec, before);
      ScoresAreConserved(min, sec, before);
      var w := Run(Boot(min, sec), before);
      if Enabled(w, s) {
        if s.action.Command? {
          HandleTallies(w.(now := s.at), Commands(Boot(min, sec), before), s.action.cmd);
        } else {
          OtherStepTallies(w, s, Commands(Boot(min, sec), before));
          assert Commands(Boot(min, sec), before) + [] == Commands(Boot(min, sec), before);
        }
      } else {
        assert Commands(Boot(min, sec), before) + [] == Commands(Boot(min, sec), before);
      }
    }
  }

  lemma OtherStepTallies(w: World, s: Step, cmds: seq<Command>)
    requires Tallies(w, cmds) && Enabled(w, s) && !s.action.Command?
    ensures Tallies(Next(w, s), cmds)
  {
  }
}
