/**
  How often GP1 is pulsed, whatever the UART does: traces of lock-held regions at arbitrary times.
 */
module Repulse {
  import opened Words
  import opened Decode
  import opened Scoreboard

  datatype Entry = Entry(at: nat, region: Region)

  function After(b: Board, e: Entry): Board {
    Exec(b, e.region, e.at).board
  }

  function AfterAll(b: Board, trace: seq<Entry>): Board
    decreases |trace|
  {
    if trace == [] then b else AfterAll(After(b, trace[0]), trace[1..])
  }

  predicate Pulses(b: Board, e: Entry) {
    e.region.StartStop? && Exec(b, e.region, e.at).act
  }

  /** The run state a pulsing entry asks the board for. */
  function Goal(b: Board, e: Entry): Option<bool>
    requires Pulses(b, e)
  {
    After(b, e).pendingRunning
  }

  /** No entry pulses GP1 or resets. */
  predicate Uninterrupted(b: Board, trace: seq<Entry>)
    decreases |trace|
  {
    trace == [] ||
    (!Pulses(b, trace[0]) && !trace[0].region.ClearPending? && Uninterrupted(After(b, trace[0]), trace[1..]))
  }

  /** Some refresh along the trace finds UART `running` equal to `want`. */
  predicate Confirmed(b: Board, trace: seq<Entry>, want: bool)
    decreases |trace|
  {
    trace != [] &&
    (var r := trace[0].region;
     ((r.SetClock? || r.Refresh? || r.StartStop?) && After(b, trace[0]).running == want)
     || Confirmed(After(b, trace[0]), trace[1..], want))
  }

  /**
    Two GP1 pulses with the same goal, with no other pulse and no reset between them, are at least
    2 s apart or have a refresh between them at which UART agreed with that goal.
   */
  lemma NoSpuriousRepulse(b: Board, first: Entry, mid: seq<Entry>, last: Entry)
    requires first.at <= last.at && forall i :: 0 <= i < |mid| ==> first.at <= mid[i].at <= last.at
    requires Pulses(b, first) && Uninterrupted(After(b, first), mid)
    requires var b2 := AfterAll(After(b, first), mid);
             Pulses(b2, last) && Goal(b2, last) == Goal(b, first)
    ensures || first.at + STOPPED_AFTER_MS <= last.at
            || Confirmed(After(b, first), mid + [last], Goal(b, first).value)
  {
    if last.at < first.at + STOPPED_AFTER_MS {
      PendingSurvives(After(b, first), first.at, mid, last, Goal(b, first).value);
    }
  }

  lemma PendingOrConfirmed(b: Board, pulsedAt: nat, e: Entry, goal: bool)
    requires b.pendingRunning == Some(goal) && b.pendingAt == Some(pulsedAt)
    requires pulsedAt <= e.at < pulsedAt + STOPPED_AFTER_MS
    requires !e.region.ClearPending?
    ensures var b' := After(b, e);
            var r := e.region;
            if Pulses(b, e) then Goal(b, e) == Some(goal) ==> b'.running == goal
            else
              || (b'.pendingRunning == Some(goal) && b'.pendingAt == Some(pulsedAt))
              || ((r.SetClock? || r.Refresh? || r.StartStop?) && b'.running == goal)
  {
  }

  lemma {:induction false} PendingSurvives(b: Board, pulsedAt: nat, mid: seq<Entry>, last: Entry, goal: bool)
    requires b.pendingRunning == Some(goal) && b.pendingAt == Some(pulsedAt)
    requires forall i :: 0 <= i < |mid| ==> pulsedAt <= mid[i].at <= last.at
    requires pulsedAt <= last.at < pulsedAt + STOPPED_AFTER_MS
    requires Uninterrupted(b, mid)
    requires Pulses(AfterAll(b, mid), last) && Goal(AfterAll(b, mid), last) == Some(goal)
    ensures Confirmed(b, mid + [last], goal)
    decreases |mid|
  {
    if mid == [] {
      assert mid + [last] == [last];
      PendingOrConfirmed(b, pulsedAt, last, goal);
    } else {
      var b' := After(b, mid[0]);
      assert (mid + [last])[0] == mid[0] && (mid + [last])[1..] == mid[1..] + [last];
      PendingOrConfirmed(b, pulsedAt, mid[0], goal);
      if b'.pendingRunning == Some(goal) {
        PendingSurvives(b', pulsedAt, mid[1..], last, goal);
      }
    }
  }

  // A stop that is not followed by any MM:SS change

  /** The entry neither changes MM:SS nor starts, toggles or resets the clock. */
  predicate Frozen(b: Board, e: Entry) {
    && !e.region.ClearPending?
    && (e.region.SetClock? ==> e.region.min == b.minutes && e.region.sec == b.seconds)
    && (e.region.StartStop? ==> e.region.want == Some(false))
  }

  predicate FrozenTrace(b: Board, from: nat, trace: seq<Entry>)
    decreases |trace|
  {
    trace == [] ||
    (from <= trace[0].at && Frozen(b, trace[0]) && FrozenTrace(After(b, trace[0]), trace[0].at, trace[1..]))
  }

  predicate NoPulse(b: Board, trace: seq<Entry>)
    decreases |trace|
  {
    trace == [] || (!Pulses(b, trace[0]) && NoPulse(After(b, trace[0]), trace[1..]))
  }

  ghost predicate NeverPulsesAgain(b: Board, from: nat) {
    forall trace | FrozenTrace(b, from, trace) :: NoPulse(b, trace)
  }

  /** UART already shows the clock stopped, or the pending stop is no older than the last MM:SS change. */
  predicate Settled(b: Board) {
    || !b.running
    || (&& b.pendingAt.Some?
        && (b.lastChange.Some? ==> b.lastChange.value <= b.pendingAt.value))
  }

  predicate Dated(b: Board, now: nat) {
    && (b.lastChange.Some? ==> b.lastChange.value <= now)
    && (b.pendingAt.Some? ==> b.pendingAt.value <= now)
    && (b.pendingRunning.Some? ==> b.pendingAt.Some?)
  }

  lemma ExecKeepsDated(b: Board, r: Region, now: nat)
    requires Dated(b, now)
    ensures Dated(Exec(b, r, now).board, now)
  {
  }

  predicate LooksStopped(b: Board, now: nat) {
    !ClockIsRunning(b.minutes, b.seconds, b.AgeMs(now))
  }

  /** What keeps later stop requests from pulsing. */
  predicate Calm(b: Board, now: nat) {
    || (&& (b.pendingRunning == Some(true) ==> b.pendingAt.Some? && b.pendingAt.value + STOPPED_AFTER_MS <= now)
        && LooksStopped(b, now))
    || (&& b.pendingRunning == Some(false)
        && b.pendingAt.Some?
        && b.pendingAt.value <= now
        && (b.lastChange.Some? ==> b.lastChange.value <= b.pendingAt.value))
  }

  lemma FrozenStepStaysCalm(b: Board, from: nat, e: Entry)
    requires Calm(b, from) && from <= e.at && Frozen(b, e)
    ensures !Pulses(b, e) && Calm(After(b, e), e.at)
  {
    RefreshStaysCalm(b, from, e.at);
    match e.region
    case SetClock(min, sec) => assert ClockSet(b, min, sec, e.at) == Refreshed(b, e.at);
    case StartStop(want) => assert PulseDecided(b, want, e.at) == Refreshed(b, e.at);
    case ClearPending =>
    case Refresh =>
    case r => SameClockStaysCalm(b, After(b, e), e.at);
  }

  lemma SameClockStaysCalm(b: Board, b': Board, now: nat)
    requires Calm(b, now)
    requires b' == b.(home := b'.home, away := b'.away, led := b'.led, announced := b'.announced)
    ensures Calm(b', now)
  {
  }

  lemma RefreshStaysCalm(b: Board, from: nat, at: nat)
    requires Calm(b, from) && from <= at
    ensures Calm(Refreshed(b, at).board, at) && !Refreshed(b, at).board.Effective()
    ensures Calm(b, at)
  {
  }

  lemma {:induction false} CalmNeverPulses(b: Board, from: nat, trace: seq<Entry>)
    requires Calm(b, from) && FrozenTrace(b, from, trace)
    ensures NoPulse(b, trace)
    decreases |trace|
  {
    if trace != [] {
      FrozenStepStaysCalm(b, from, trace[0]);
      CalmNeverPulses(After(b, trace[0]), trace[0].at, trace[1..]);
    }
  }

  lemma StopRequestIsCalm(b: Board, now: nat)
    requires Dated(b, now)
    requires Settled(PulseDecided(b, Some(false), now).board)
    ensures Calm(PulseDecided(b, Some(false), now).board, now)
  {
  }

  /** A stop is pending, under 2 s old, and MM:SS has changed since it was pulsed: this request will not pulse. */
  predicate StopOverdue(b: Board, now: nat) {
    && !IsZero(b.minutes, b.seconds)
    && b.pendingRunning == Some(false)
    && b.pendingAt.Some?
    && b.lastChange.Some?
    && b.pendingAt.value < b.lastChange.value
    && now < b.pendingAt.value + STOPPED_AFTER_MS
  }

  lemma SettledUnlessOverdue(b: Board, now: nat)
    requires Dated(b, now)
    ensures var o := PulseDecided(b, Some(false), now);
            && (Settled(o.board) <==> !StopOverdue(b, now))
            && (o.act ==> Settled(o.board))
  {
  }

  /**
    After a stop request with no later MM:SS change, start, toggle or reset, no stop request ever
    pulses GP1 again if and only if no earlier stop was overdue when it came; a request that pulses
    never finds one so.
   */
  lemma StopIsFinalUnlessOverdue(b: Board, now: nat)
    requires Dated(b, now)
    ensures var o := PulseDecided(b, Some(false), now);
            && (NeverPulsesAgain(o.board, now) <==> !StopOverdue(b, now))
            && (o.act ==> !StopOverdue(b, now))
  {
    SettledUnlessOverdue(b, now);
    var b1 := PulseDecided(b, Some(false), now).board;
    if Settled(b1) {
      StopRequestIsCalm(b, now);
      forall trace | FrozenTrace(b1, now, trace)
        ensures NoPulse(b1, trace)
      {
        CalmNeverPulses(b1, now, trace);
      }
    } else {
      OverduePulses(b1, now);
    }
  }

  /** Once the pending stop expires, the clock still looks running. */
  lemma OverduePulses(b: Board, now: nat)
    requires Dated(b, now) && !Settled(b) && StopOverdue(b, now)
    ensures !NeverPulsesAgain(b, now)
  {
    var again := Entry(b.pendingAt.value + STOPPED_AFTER_MS, StartStop(Some(false)));
    assert Pulses(b, again);
    var trace := [again];
    assert |trace| == 1 && trace[0] == again && trace[1..] == [];
    assert Pulses(b, trace[0]);
    assert !NoPulse(b, trace);
    assert FrozenTrace(b, now, trace);
  }
}
