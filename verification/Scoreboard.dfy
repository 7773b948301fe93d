/**
  The mutex-protected `ScoreboardState` of `src/main.rs`.

  `ScoreboardState` is the object the tasks share. `Board` is its value, and `Exec` says what
  each lock-held region does to that value; one region reads one time, `now`, in milliseconds.
 */
module Scoreboard {
  import opened Words
  import opened Decode

  const SCORE_MAX := 99

  datatype Visible = Visible(minutes: byte, seconds: byte, running: bool, home: u16, away: u16, led: bool)

  datatype Board = Board(
    minutes: byte,
    seconds: byte,
    running: bool,
    home: u16,
    away: u16,
    led: bool,
    lastChange: Option<nat>,
    pendingRunning: Option<bool>,
    pendingAt: Option<nat>,
    announced: Visible)
  {
    function View(): Visible {
      Visible(minutes, seconds, running, home, away, led)
    }

    function AgeMs(now: nat): u32 {
      match lastChange
      case Some(t) => if now < t then 0 else Min(now - t, U32_MAX)
      case None => U32_MAX
    }

    function PendingAgeMs(now: nat): nat {
      match pendingAt
      case Some(t) => if now < t then 0 else now - t
      case None => 0
    }

    /** The run state the firmware acts on: the pending request if there is one, else UART. */
    function Effective(): bool {
      if pendingRunning.Some? then pendingRunning.value else running
    }
  }

  /** The view shows this board, field by field. */
  predicate Shows(v: Visible, b: Board) {
    && v.minutes == b.minutes && v.seconds == b.seconds && v.running == b.running
    && v.home == b.home && v.away == b.away && v.led == b.led
  }

  function DefaultView(): Visible {
    Visible(7, 30, false, 0, 0, false)
  }

  function DefaultBoard(): Board {
    Board(7, 30, false, 0, 0, false, None, None, None, DefaultView())
  }

  /** Every lock-held region of the hardware build, named by what it does to the state. */
  datatype Region =
    | SetClock(min: byte, sec: byte)
    | Refresh
    | StartStop(want: Option<bool>)
    | HomeInc
    | HomeDec
    | AwayInc
    | AwayDec
    | ScoresZero
    | SetLed(on: bool)
    | ClearPending
    | Look

  /** The new value, how many wakes were sent, and whether the region asks for GPIO action. */
  datatype Outcome = Outcome(board: Board, wakes: nat, act: bool)

  function Published(b: Board, act: bool): Outcome {
    if b.View() != b.announced then Outcome(b.(announced := b.View()), 1, act) else Outcome(b, 0, act)
  }

  function Refreshed(b: Board, now: nat): Outcome {
    var running := ClockIsRunning(b.minutes, b.seconds, b.AgeMs(now));
    var pending := ResolvePendingRunning(b.pendingRunning, running, b.PendingAgeMs(now));
    Published(b.(running := running,
                 pendingRunning := pending,
                 pendingAt := if pending.None? then None else b.pendingAt), false)
  }

  function ClockSet(b: Board, min: byte, sec: byte, now: nat): Outcome {
    var changed := b.minutes != min || b.seconds != sec;
    Refreshed(b.(minutes := min, seconds := sec, lastChange := if changed then Some(now) else b.lastChange), now)
  }

  function PulseDecided(b: Board, want: Option<bool>, now: nat): Outcome {
    var o := Refreshed(b, now);
    var effective := o.board.Effective();
    if StartStopPulseNeeded(effective, want) then
      var goal := if want.Some? then want.value else !effective;
      Outcome(o.board.(pendingRunning := Some(goal), pendingAt := Some(now)), o.wakes, true)
    else
      o
  }

  function Exec(b: Board, r: Region, now: nat): Outcome {
    match r
    case SetClock(min, sec) => ClockSet(b, min, sec, now)
    case Refresh => Refreshed(b, now)
    case StartStop(want) => PulseDecided(b, want, now)
    case HomeInc => if b.home < SCORE_MAX then Published(b.(home := b.home + 1), true) else Outcome(b, 0, false)
    case HomeDec => if b.home > 0 then Published(b.(home := b.home - 1), true) else Outcome(b, 0, false)
    case AwayInc => if b.away < SCORE_MAX then Published(b.(away := b.away + 1), true) else Outcome(b, 0, false)
    case AwayDec => if b.away > 0 then Published(b.(away := b.away - 1), true) else Outcome(b, 0, false)
    case ScoresZero => Published(b.(home := 0, away := 0), true)
    case SetLed(on) => Published(b.(led := on), true)
    case ClearPending => Outcome(b.(pendingRunning := None, pendingAt := None), 0, true)
    case Look => Outcome(b, 0, false)
  }

  /** At every lock release the announced view is the visible one, and one wake went out per change of it. */
  lemma AnnouncedIsVisible(b: Board, r: Region, now: nat)
    requires b.announced == b.View()
    ensures var o := Exec(b, r, now);
            && o.board.announced == o.board.View()
            && o.wakes == if o.board.View() != b.View() then 1 else 0
  {
  }

  lemma ViewShowsExactly(v: Visible, b: Board)
    ensures v == b.View() <==> Shows(v, b)
  {
  }

  /** Without a wake neither the displayed time nor its age baseline nor `running` moved. */
  lemma NoWakeMeansClockUntouched(b: Board, r: Region, now: nat)
    requires b.announced == b.View()
    ensures var o := Exec(b, r, now);
            o.wakes == 0 ==> o.board.View() == b.View() && o.board.lastChange == b.lastChange
  {
  }

  /** `Watch` as its version counter: a receiver has an unseen wake when its own id is behind. */
  class Events {
    var currentId: nat

    constructor ()
      ensures currentId == 0
    {
      currentId := 0;
    }

    method Send()
      modifies this
      ensures currentId == old(currentId) + 1
    {
      currentId := currentId + 1;
    }
  }

  class ScoreboardState {
    var minutes: byte
    var seconds: byte
    var running: bool
    var home: u16
    var away: u16
    var led: bool
    var lastChange: Option<nat>
    var pendingRunning: Option<bool>
    var pendingAt: Option<nat>
    var announced: Visible

    function Value(): Board
      reads this
    {
      Board(minutes, seconds, running, home, away, led, lastChange, pendingRunning, pendingAt, announced)
    }

    constructor ()
      ensures Value() == DefaultBoard()
    {
      minutes, seconds, running := 7, 30, false;
      home, away, led := 0, 0, false;
      lastChange, pendingRunning, pendingAt := None, None, None;
      announced := DefaultView();
    }

    method Publish(events: Events)
      modifies this, events
      ensures var o := Published(old(Value()), false);
              Value() == o.board && events.currentId == old(events.currentId) + o.wakes
    {
      var view := Value().View();
      if view != announced {
        announced := view;
        events.Send();
      }
    }

    method RefreshRunning(now: nat, events: Events)
      modifies this, events
      ensures var o := Refreshed(old(Value()), now);
              Value() == o.board && events.currentId == old(events.currentId) + o.wakes
    {
      running := ClockIsRunning(minutes, seconds, Value().AgeMs(now));
      pendingRunning := ResolvePendingRunning(pendingRunning, running, Value().PendingAgeMs(now));
      if pendingRunning.None? {
        pendingAt := None;
      }
      Publish(events);
    }

    method SetClock(min: byte, sec: byte, now: nat, events: Events)
      modifies this, events
      ensures var o := ClockSet(old(Value()), min, sec, now);
              Value() == o.board && events.currentId == old(events.currentId) + o.wakes
    {
      if minutes != min || seconds != sec {
        lastChange := Some(now);
      }
      minutes := min;
      seconds := sec;
      RefreshRunning(now, events);
    }

    method StartStopPulseFor(want: Option<bool>, now: nat, events: Events) returns (pulse: bool)
      modifies this, events
      ensures var o := PulseDecided(old(Value()), want, now);
              Value() == o.board && events.currentId == old(events.currentId) + o.wakes && pulse == o.act
    {
      RefreshRunning(now, events);
      var effective := if pendingRunning.Some? then pendingRunning.value else running;
      pulse := StartStopPulseNeeded(effective, want);
      if pulse {
        pendingRunning := Some(if want.Some? then want.value else !effective);
        pendingAt := Some(now);
      }
    }
  }
}
