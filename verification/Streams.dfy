/**
  `/api/events`: up to four streams watching one scoreboard.

  A transition system over whole lock-held regions. Between any two steps of a stream the other
  tasks may run any regions, time may pass, and streams may come and go. `history` and the ids in
  `sent` are history variables: the announced views so far, and where each snapshot falls in them.
 */
module Streams {
  import opened Words
  import opened Scoreboard
  import opened Decode

  const MAX_EVENT_STREAMS := 4
  const IDLE_WAIT_MS := 30_000
  const KEEPALIVE_MS := 10_000

  /** Where a stream stands inside `write_events`. */
  datatype Phase =
    | Connected
    | Snapshotting
    | Writing
    | Arming
    | Waiting(armedAt: nat, stopAt: nat, keepAliveAt: nat)
    | Fired

  /** One written event: the view it carries and the wake counter when it was taken. */
  datatype Event = Event(id: nat, body: Visible)

  datatype Stream = Stream(atId: nat, phase: Phase, sent: seq<Event>)

  datatype System = System(
    now: nat,
    board: Board,
    currentId: nat,
    history: seq<Visible>,
    streams: map<nat, Stream>)

  function Boot(): System {
    System(0, DefaultBoard(), 0, [DefaultView()], map[])
  }

  datatype Step =
    | Tick(ms: nat)
    | OtherTask(region: Region)
    | Connect(k: nat)
    | Disconnect(k: nat)
    | DropOldSignals(k: nat)
    | TakeSnapshot(k: nat)
    | FinishWrite(k: nat)
    | Arm(k: nat)
    | Changed(k: nat)
    | KeepAlive(k: nat)
    | StopTimer(k: nat)
    | AfterStopTimer(k: nat)

  /** Runs one region: the board, the wake counter and the history of announced views. */
  function Locked(s: System, r: Region): System {
    var o := Exec(s.board, r, s.now);
    s.(board := o.board,
       currentId := s.currentId + o.wakes,
       history := if o.wakes == 0 then s.history else s.history + [o.board.announced])
  }

  function With(s: System, k: nat, st: Stream): System {
    s.(streams := s.streams[k := st])
  }

  /** The wait a stream arms: up to the 2 s mark of a running clock, else a long idle wait. */
  function StopWait(b: Board, now: nat): nat {
    var age := b.AgeMs(now);
    if !b.running then IDLE_WAIT_MS
    else if age >= STOPPED_AFTER_MS then 1
    else STOPPED_AFTER_MS - age
  }

  predicate IsWaiting(s: System, k: nat) {
    k in s.streams && s.streams[k].phase.Waiting?
  }

  predicate Enabled(s: System, step: Step) {
    match step
    case Tick(_) => true
    case OtherTask(_) => true
    case Connect(k) => k !in s.streams && |s.streams| < MAX_EVENT_STREAMS
    case Disconnect(k) => k in s.streams
    case DropOldSignals(k) => k in s.streams && s.streams[k].phase.Connected?
    case TakeSnapshot(k) => k in s.streams && s.streams[k].phase.Snapshotting?
    case FinishWrite(k) => k in s.streams && s.streams[k].phase.Writing?
    case Arm(k) => k in s.streams && s.streams[k].phase.Arming?
    case Changed(k) => k in s.streams && s.streams[k].phase.Waiting? && s.streams[k].atId < s.currentId
    case KeepAlive(k) => k in s.streams && s.streams[k].phase.Waiting? && s.streams[k].phase.keepAliveAt <= s.now
    case StopTimer(k) => k in s.streams && s.streams[k].phase.Waiting? && s.streams[k].phase.stopAt <= s.now
    case AfterStopTimer(k) => k in s.streams && s.streams[k].phase.Fired?
  }

  function Next(s: System, step: Step): System
    requires Enabled(s, step)
  {
    match step
    case Tick(ms) => s.(now := s.now + ms)
    case OtherTask(r) => Locked(s, r)
    case Connect(k) => With(s, k, Stream(0, Connected, []))
    case Disconnect(k) => s.(streams := s.streams - {k})
    case DropOldSignals(k) => With(s, k, s.streams[k].(atId := s.currentId, phase := Snapshotting))
    case TakeSnapshot(k) =>
      var s' := Locked(s, Refresh);
      var st := s.streams[k];
      With(s', k, st.(phase := Writing, sent := st.sent + [Event(s'.currentId, s'.board.View())]))
    case FinishWrite(k) => With(s, k, s.streams[k].(phase := Arming))
    case Arm(k) =>
      With(s, k, s.streams[k].(phase := Waiting(s.now, s.now + StopWait(s.board, s.now), s.now + KEEPALIVE_MS)))
    case Changed(k) => With(s, k, s.streams[k].(atId := s.currentId, phase := Snapshotting))
    case KeepAlive(k) => With(s, k, s.streams[k].(phase := Arming))
    case StopTimer(k) => With(Locked(s, Refresh), k, s.streams[k].(phase := Fired))
    case AfterStopTimer(k) =>
      var st := s.streams[k];
      if st.atId < s.currentId then
        With(s, k, st.(atId := s.currentId, phase := Snapshotting))
      else
        With(s, k, st.(phase := Arming))
  }

  /** A whole run; a step that is not enabled where it stands is skipped. */
  function Run(s: System, steps: seq<Step>): System
    decreases |steps|
  {
    if steps == [] then s
    else
      var s' := Run(s, steps[..|steps| - 1]);
      var step := steps[|steps| - 1];
      if Enabled(s', step) then Next(s', step) else s'
  }

  // Invariants

  ghost predicate HistoryInv(s: System) {
    && s.board.announced == s.board.View()
    && |s.history| == s.currentId + 1
    && s.history[s.currentId] == s.board.announced
    && s.history[0] == DefaultView()
    && (forall i, j :: 0 <= i < j < |s.history| && j == i + 1 ==> s.history[i] != s.history[j])
  }

  ghost predicate ClockInv(s: System) {
    && (s.board.running ==> s.board.lastChange.Some?)
    && (s.board.lastChange.Some? ==> s.board.lastChange.value <= s.now)
  }

  ghost predicate SentInv(s: System, st: Stream) {
    && st.atId <= s.currentId
    && (forall i :: 0 <= i < |st.sent| ==> st.sent[i].id < |s.history| && st.sent[i].body == s.history[st.sent[i].id])
    && (forall i, j :: 0 <= i < j < |st.sent| ==> st.sent[i].id <= st.sent[j].id)
    && (!st.phase.Connected? && !st.phase.Snapshotting? ==>
          st.sent != [] && st.atId <= st.sent[|st.sent| - 1].id)
  }

  /** The armed stop timer of a waiting stream that has seen every wake. */
  ghost predicate DeadlineInv(s: System, st: Stream) {
    st.phase.Waiting? ==>
      && st.phase.armedAt <= s.now
      && (st.atId == s.currentId && s.board.running ==>
            && s.board.lastChange.Some?
            && var flip := s.board.lastChange.value + STOPPED_AFTER_MS;
               flip <= st.phase.stopAt <= Max(flip, st.phase.armedAt + 1))
  }

  ghost predicate Inv(s: System) {
    && HistoryInv(s)
    && ClockInv(s)
    && |s.streams| <= MAX_EVENT_STREAMS
    && forall k :: k in s.streams ==> SentInv(s, s.streams[k]) && DeadlineInv(s, s.streams[k])
  }

  lemma LockedKeepsHistory(s: System, r: Region)
    requires HistoryInv(s) && ClockInv(s)
    ensures var s' := Locked(s, r);
            HistoryInv(s') && ClockInv(s') && s.history <= s'.history
  {
    AnnouncedIsVisible(s.board, r, s.now);
    NoWakeMeansClockUntouched(s.board, r, s.now);
  }

  lemma LockedKeepsStream(s: System, r: Region, st: Stream)
    requires HistoryInv(s) && SentInv(s, st) && DeadlineInv(s, st)
    ensures SentInv(Locked(s, r), st) && DeadlineInv(Locked(s, r), st)
  {
    NoWakeMeansClockUntouched(s.board, r, s.now);
    var s' := Locked(s, r);
    assert s.history <= s'.history && s.currentId <= s'.currentId;
    assert s'.currentId == s.currentId ==> s'.board.running == s.board.running && s'.board.lastChange == s.board.lastChange;
  }

  /** Any region of any task keeps the history and every stream's record of it. */
  lemma LockedKeepsInv(s: System, r: Region)
    requires Inv(s)
    ensures Inv(Locked(s, r))
    ensures s.history <= Locked(s, r).history
  {
    var s' := Locked(s, r);
    LockedKeepsHistory(s, r);
    assert s'.streams == s.streams;
    forall k | k in s'.streams
      ensures SentInv(s', s'.streams[k]) && DeadlineInv(s', s'.streams[k])
    {
      LockedKeepsStream(s, r, s.streams[k]);
    }
  }

  lemma FrameStream(s: System, s': System, st: Stream)
    requires SentInv(s, st) && DeadlineInv(s, st)
    requires s' == s.(streams := s'.streams)
    ensures SentInv(s', st) && DeadlineInv(s', st)
  {
  }

  lemma WithKeepsInv(s: System, k: nat, st: Stream)
    requires Inv(s)
    requires k in s.streams || |s.streams| < MAX_EVENT_STREAMS
    requires SentInv(s, st) && DeadlineInv(s, st)
    ensures Inv(With(s, k, st))
  {
    var s' := With(s, k, st);
    assert HistoryInv(s') && ClockInv(s');
    assert |s'.streams| <= MAX_EVENT_STREAMS by {
      assert s'.streams.Keys == s.streams.Keys + {k};
    }
    forall j | j in s'.streams
      ensures SentInv(s', s'.streams[j]) && DeadlineInv(s', s'.streams[j])
    {
      FrameStream(s, s', s'.streams[j]);
    }
  }

  lemma TakeSnapshotKeepsInv(s: System, k: nat)
    requires Inv(s) && Enabled(s, TakeSnapshot(k))
    ensures Inv(Next(s, TakeSnapshot(k)))
  {
    LockedKeepsInv(s, Refresh);
    var s' := Locked(s, Refresh);
    var st := s.streams[k];
    assert SentInv(s', s'.streams[k]);
    var sent := st.sent + [Event(s'.currentId, s'.board.View())];
    forall i | 0 <= i < |sent|
      ensures sent[i].id < |s'.history| && sent[i].body == s'.history[sent[i].id]
    {
      assert i < |st.sent| ==> sent[i] == st.sent[i];
    }
    WithKeepsInv(s', k, st.(phase := Writing, sent := sent));
  }

  lemma StopTimerKeepsInv(s: System, k: nat)
    requires Inv(s) && Enabled(s, StopTimer(k))
    ensures Inv(Next(s, StopTimer(k)))
  {
    LockedKeepsInv(s, Refresh);
    var s' := Locked(s, Refresh);
    assert SentInv(s', s'.streams[k]);
    WithKeepsInv(s', k, s.streams[k].(phase := Fired));
  }

  lemma TickKeepsInv(s: System, ms: nat)
    requires Inv(s)
    ensures Inv(s.(now := s.now + ms))
  {
    var s' := s.(now := s.now + ms);
    forall k | k in s'.streams
      ensures SentInv(s', s'.streams[k]) && DeadlineInv(s', s'.streams[k])
    {
      assert SentInv(s, s.streams[k]) && DeadlineInv(s, s.streams[k]);
    }
  }

  lemma DisconnectKeepsInv(s: System, k: nat)
    requires Inv(s) && k in s.streams
    ensures Inv(s.(streams := s.streams - {k}))
  {
    var s' := s.(streams := s.streams - {k});
    assert s'.streams.Keys == s.streams.Keys - {k};
    forall j | j in s'.streams
      ensures SentInv(s', s'.streams[j]) && DeadlineInv(s', s'.streams[j])
    {
      FrameStream(s, s', s.streams[j]);
    }
  }

  lemma NextKeepsInv(s: System, step: Step)
    requires Inv(s) && Enabled(s, step)
    ensures Inv(Next(s, step))
  {
    match step
    case Tick(ms) => TickKeepsInv(s, ms);
    case OtherTask(r) => LockedKeepsInv(s, r);
    case Disconnect(k) => DisconnectKeepsInv(s, k);
    case TakeSnapshot(k) => TakeSnapshotKeepsInv(s, k);
    case StopTimer(k) => StopTimerKeepsInv(s, k);
    case Connect(k) => WithKeepsInv(s, k, Stream(0, Connected, []));
    case _ => OwnStepKeepsInv(s, step);
  }

  /** The steps that move one stream and take no scoreboard region that writes. */
  lemma OwnStepKeepsInv(s: System, step: Step)
    requires Inv(s) && Enabled(s, step)
    requires step.DropOldSignals? || step.FinishWrite? || step.Arm? || step.Changed? || step.KeepAlive? || step.AfterStopTimer?
    ensures Inv(Next(s, step))
  {
    var k := step.k;
    var s' := Next(s, step);
    assert SentInv(s, s.streams[k]) && DeadlineInv(s, s.streams[k]);
    assert s' == With(s, k, s'.streams[k]);
    assert SentInv(s, s'.streams[k]);
    assert DeadlineInv(s, s'.streams[k]) by {
      assert s'.streams[k].phase.Waiting? ==> step.Arm?;
    }
    WithKeepsInv(s, k, s'.streams[k]);
  }

  lemma {:induction false} RunKeepsInv(steps: seq<Step>)
    ensures Inv(Run(Boot(), steps))
  {
    if steps != [] {
      RunKeepsInv(steps[..|steps| - 1]);
      var s := Run(Boot(), steps[..|steps| - 1]);
      var step := steps[|steps| - 1];
      if Enabled(s, step) {
        NextKeepsInv(s, step);
      }
    }
  }

  // Main results

  /** Each step sends one wake per change of the visible scoreboard and none otherwise. */
  lemma OneWakePerChange(steps: seq<Step>, step: Step)
    requires Enabled(Run(Boot(), steps), step)
    ensures var s := Run(Boot(), steps);
            var s' := Next(s, step);
            && Shows(s'.board.announced, s'.board)
            && s'.currentId == s.currentId + if Shows(s.board.announced, s'.board) then 0 else 1
  {
    RunKeepsInv(steps);
    var s := Run(Boot(), steps);
    ViewShowsExactly(s.board.announced, Next(s, step).board);
    ViewShowsExactly(Next(s, step).board.announced, Next(s, step).board);
    match step
    case OtherTask(r) => AnnouncedIsVisible(s.board, r, s.now);
    case TakeSnapshot(k) => AnnouncedIsVisible(s.board, Refresh, s.now);
    case StopTimer(k) => AnnouncedIsVisible(s.board, Refresh, s.now);
    case _ =>
  }

  /** In every reachable state a stream has been sent a subsequence, in order, of the announced views. */
  lemma SnapshotsFollowHistory(steps: seq<Step>, k: nat)
    requires k in Run(Boot(), steps).streams
    ensures var s := Run(Boot(), steps);
            var sent := s.streams[k].sent;
            && (forall i :: 0 <= i < |sent| ==> sent[i].id < |s.history| && sent[i].body == s.history[sent[i].id])
            && (forall i, j :: 0 <= i < j < |sent| ==> sent[i].id <= sent[j].id)
            && |s.history| == s.currentId + 1
            && (forall i, j :: 0 <= i < j < |s.history| && j == i + 1 ==> s.history[i] != s.history[j])
  {
    RunKeepsInv(steps);
    var s := Run(Boot(), steps);
    assert SentInv(s, s.streams[k]);
  }

  /**
    No lost update: in every reachable state a waiting stream whose last event is stale has an
    unseen wake, and acting on that wake sends it the scoreboard as it is then.
   */
  lemma NoLostUpdate(steps: seq<Step>, k: nat)
    requires IsWaiting(Run(Boot(), steps), k)
    ensures var s := Run(Boot(), steps);
            var st := s.streams[k];
            && st.sent != []
            && (!Shows(st.sent[|st.sent| - 1].body, s.board) ==>
                  && Enabled(s, Changed(k))
                  && var woken := Next(s, Changed(k));
                     && Enabled(woken, TakeSnapshot(k))
                     && var s' := Next(woken, TakeSnapshot(k));
                        var sent' := s'.streams[k].sent;
                        |sent'| == |st.sent| + 1 && Shows(sent'[|st.sent|].body, s'.board))
  {
    RunKeepsInv(steps);
    var s := Run(Boot(), steps);
    assert SentInv(s, s.streams[k]);
    ViewShowsExactly(s.streams[k].sent[|s.streams[k].sent| - 1].body, s.board);
  }

  /**
    In every reachable state a waiting stream that has seen every wake while the stored clock runs
    has its stop timer armed for the 2 s mark, or for 1 ms after arming when that has passed.
   */
  lemma StopDeadlineArmed(steps: seq<Step>, k: nat)
    requires IsWaiting(Run(Boot(), steps), k)
    ensures var s := Run(Boot(), steps);
            var st := s.streams[k];
            st.atId == s.currentId && s.board.running ==>
              && s.board.lastChange.Some?
              && var flip := s.board.lastChange.value + STOPPED_AFTER_MS;
                 flip <= st.phase.stopAt <= Max(flip, st.phase.armedAt + 1)
  {
    RunKeepsInv(steps);
    var s := Run(Boot(), steps);
    assert DeadlineInv(s, s.streams[k]);
  }

  /** When that timer fires, the flip to stopped is published and the stream goes on to send it. */
  lemma StopTimerPublishesFlip(steps: seq<Step>, k: nat)
    requires IsWaiting(Run(Boot(), steps), k)
    requires Enabled(Run(Boot(), steps), StopTimer(k))
    requires var s := Run(Boot(), steps); s.streams[k].atId == s.currentId && s.board.running
    ensures var s := Run(Boot(), steps);
            var fired := Next(s, StopTimer(k));
            && !fired.board.running
            && fired.currentId == s.currentId + 1
            && Next(fired, AfterStopTimer(k)).streams[k].phase.Snapshotting?
  {
    StopDeadlineArmed(steps, k);
    assert Run(Boot(), steps).board.announced == Run(Boot(), steps).board.View() by {
      RunKeepsInv(steps);
    }
    FiringPublishesFlip(Run(Boot(), steps), k);
  }

  lemma FiringPublishesFlip(s: System, k: nat)
    requires Enabled(s, StopTimer(k)) && s.streams[k].atId == s.currentId
    requires s.board.announced == s.board.View() && s.board.running && s.board.lastChange.Some?
    requires s.board.lastChange.value + STOPPED_AFTER_MS <= s.streams[k].phase.stopAt
    ensures var fired := Next(s, StopTimer(k));
            && !fired.board.running
            && fired.currentId == s.currentId + 1
            && Next(fired, AfterStopTimer(k)).streams[k].phase.Snapshotting?
  {
    assert s.board.AgeMs(s.now) >= STOPPED_AFTER_MS;
    AnnouncedIsVisible(s.board, Refresh, s.now);
    var fired := Next(s, StopTimer(k));
    assert fired.streams[k].atId == s.currentId && fired.streams[k].phase.Fired?;
  }

  /** Only the fifth connection at a time is turned away. */
  lemma TurnsAwayExactlyTheFifth(steps: seq<Step>, k: nat)
    requires k !in Run(Boot(), steps).streams
    ensures !Enabled(Run(Boot(), steps), Connect(k)) <==> |Run(Boot(), steps).streams| == 4
  {
    RunKeepsInv(steps);
  }

  /** Closing a stream, wherever it stands, makes room for another. */
  lemma DisconnectMakesRoom(steps: seq<Step>, k: nat, j: nat)
    requires k in Run(Boot(), steps).streams
    requires j == k || j !in Run(Boot(), steps).streams
    ensures Enabled(Run(Boot(), steps + [Disconnect(k)]), Connect(j))
  {
    RunKeepsInv(steps);
    var s := Run(Boot(), steps);
    RunExtends(Boot(), steps, Disconnect(k));
    assert (s.streams - {k}).Keys == s.streams.Keys - {k};
  }

  lemma {:induction false} TimeOnlyGrows(s: System, steps: seq<Step>)
    ensures s.now <= Run(s, steps).now
    decreases |steps|
  {
    if steps != [] {
      TimeOnlyGrows(s, steps[..|steps| - 1]);
    }
  }

  /** A stream that has seen every wake waits undisturbed until the next one or until one of its timers is due. */
  lemma {:induction false} WaitsUntilDue(s: System, k: nat, more: seq<Step>)
    requires IsWaiting(s, k) && s.streams[k].atId == s.currentId && Disconnect(k) !in more
    requires var v, w := Run(s, more), s.streams[k].phase;
             v.currentId == s.currentId && v.now < w.stopAt && v.now < w.keepAliveAt
    ensures k in Run(s, more).streams && Run(s, more).streams[k] == s.streams[k]
    decreases |more|
  {
    if more != [] {
      var before := more[..|more| - 1];
      var step := more[|more| - 1];
      var v := Run(s, before);
      assert step in more;
      WakesOnlyGrow(s, before);
      if Enabled(v, step) {
        WakesOnlyGrow(v, [step]);
        TimeOnlyGrows(v, [step]);
        RunExtends(v, [], step);
        assert [] + [step] == [step];
      }
      WaitsUntilDue(s, k, before);
    }
  }

  ghost predicate WaitsBounded(s: System) {
    forall k :: IsWaiting(s, k) ==>
      var w := s.streams[k].phase;
      && w.keepAliveAt == w.armedAt + 10_000
      && (w.stopAt == w.armedAt + 30_000 || w.armedAt < w.stopAt <= w.armedAt + 2000)
  }

  /** A stream is written to at least every ten seconds, and its other timer is for at most two seconds or for thirty. */
  lemma {:induction false} WaitsAreBounded(steps: seq<Step>)
    ensures WaitsBounded(Run(Boot(), steps))
    decreases |steps|
  {
    if steps != [] {
      WaitsAreBounded(steps[..|steps| - 1]);
      var s := Run(Boot(), steps[..|steps| - 1]);
      var step := steps[|steps| - 1];
      if Enabled(s, step) {
        forall k | IsWaiting(Next(s, step), k)
          ensures step == Arm(k) || (IsWaiting(s, k) && Next(s, step).streams[k] == s.streams[k])
        {
        }
      }
    }
  }

  // One event per visible change

  /** A snapshot taken now finds a wake its stream has not seen, or its own refresh sends one. */
  predicate SnapshotLeavesWake(s: System, k: nat)
    requires k in s.streams
  {
    || s.streams[k].atId < s.currentId
    || ClockIsRunning(s.board.minutes, s.board.seconds, s.board.AgeMs(s.now)) != s.board.running
  }

  /** From `s` on, with the stream connected and no further wake, another event is sent. */
  ghost predicate SendsAgain(s: System, k: nat)
    requires k in s.streams
  {
    exists more ::
      && Disconnect(k) !in more
      && var v := Run(s, more);
         v.currentId == s.currentId && k in v.streams && |v.streams[k].sent| > |s.streams[k].sent|
  }

  /**
    Exactly when an event is sent twice: with nothing further happening to the scoreboard, a stream
    sends again what it has just taken if and only if its receiver was behind when it took it, or
    that snapshot itself flipped the clock.
   */
  lemma EventRepeatsExactlyWhen(steps: seq<Step>, k: nat)
    requires Enabled(Run(Boot(), steps), TakeSnapshot(k))
    ensures var s := Run(Boot(), steps);
            var s' := Next(s, TakeSnapshot(k));
            SendsAgain(s', k) <==> SnapshotLeavesWake(s, k)
  {
    RunKeepsInv(steps);
    var s := Run(Boot(), steps);
    AnnouncedIsVisible(s.board, Refresh, s.now);
    var s' := Next(s, TakeSnapshot(k));
    TakeSnapshotKeepsInv(s, k);
    assert SnapshotLeavesWake(s, k) <==> s'.streams[k].atId < s'.currentId;
    if SnapshotLeavesWake(s, k) {
      var more := SendAgain(s', k);
    } else {
      forall more | Disconnect(k) !in more && Run(s', more).currentId == s'.currentId
        ensures k in Run(s', more).streams && Run(s', more).streams[k].sent == s'.streams[k].sent
      {
        SilentUntilWake(s', k, more);
      }
    }
  }

  /** Finish writing, arm, see the wake and take the snapshot: nothing else happens and an event is sent. */
  lemma SendAgain(s: System, k: nat) returns (more: seq<Step>)
    requires HistoryInv(s) && k in s.streams && s.streams[k].phase.Writing?
    requires s.streams[k].atId < s.currentId && Refreshed(s.board, s.now).wakes == 0
    ensures Disconnect(k) !in more
    ensures var v := Run(s, more);
            v.currentId == s.currentId && k in v.streams && |v.streams[k].sent| == |s.streams[k].sent| + 1
  {
    more := [FinishWrite(k), Arm(k), Changed(k), TakeSnapshot(k)];
    var s1 := Next(s, FinishWrite(k));
    RunExtends(s, [], FinishWrite(k));
    assert more[..1] == [] + [FinishWrite(k)];
    var s2 := Next(s1, Arm(k));
    RunExtends(s, more[..1], Arm(k));
    assert more[..2] == more[..1] + [Arm(k)];
    var s3 := Next(s2, Changed(k));
    RunExtends(s, more[..2], Changed(k));
    assert more[..3] == more[..2] + [Changed(k)];
    RunExtends(s, more[..3], TakeSnapshot(k));
    assert more == more[..3] + [TakeSnapshot(k)];
  }

  lemma {:induction false} WakesOnlyGrow(s: System, steps: seq<Step>)
    ensures s.currentId <= Run(s, steps).currentId
  {
    if steps != [] {
      WakesOnlyGrow(s, steps[..|steps| - 1]);
    }
  }

  /** A stream that has seen every wake sends nothing until the next one. */
  lemma {:induction false} SilentUntilWake(s: System, k: nat, more: seq<Step>)
    requires k in s.streams && s.streams[k].atId == s.currentId
    requires !s.streams[k].phase.Connected? && !s.streams[k].phase.Snapshotting?
    requires Disconnect(k) !in more && Run(s, more).currentId == s.currentId
    ensures var v := Run(s, more);
            && k in v.streams && v.streams[k].sent == s.streams[k].sent && v.streams[k].atId == s.currentId
            && !v.streams[k].phase.Connected? && !v.streams[k].phase.Snapshotting?
    decreases |more|
  {
    if more != [] {
      var before := more[..|more| - 1];
      var step := more[|more| - 1];
      assert step in more;
      WakesOnlyGrow(s, before);
      assert Run(s, before).currentId <= Run(s, more).currentId;
      SilentUntilWake(s, k, before);
    }
  }

  lemma {:induction false} RunAppend(s: System, a: seq<Step>, b: seq<Step>)
    ensures Run(s, a + b) == Run(Run(s, a), b)
    decreases |b|
  {
    if b == [] {
      assert a + b == a;
    } else {
      assert (a + b)[..|a + b| - 1] == a + b[..|b| - 1];
      RunAppend(s, a, b[..|b| - 1]);
    }
  }

  predicate LeavesAlone(k: nat, steps: seq<Step>) {
    TakeSnapshot(k) !in steps && Disconnect(k) !in steps
  }

  lemma {:induction false} ReadyStreamWaits(s: System, k: nat, steps: seq<Step>)
    requires k in s.streams && s.streams[k].phase.Snapshotting? && LeavesAlone(k, steps)
    ensures k in Run(s, steps).streams && Run(s, steps).streams[k] == s.streams[k]
    decreases |steps|
  {
    if steps != [] {
      assert steps[|steps| - 1] in steps;
      ReadyStreamWaits(s, k, steps[..|steps| - 1]);
    }
  }

  /**
    Signals from before a connection are dropped: whatever wakes came earlier, a new stream sends its
    first event again, with no further wake, if and only if a wake came between the drop and that
    event's snapshot, or the snapshot itself flipped the clock.
   */
  lemma FirstEventRepeatsExactlyWhen(steps: seq<Step>, k: nat, mid: seq<Step>)
    requires Enabled(Run(Boot(), steps), DropOldSignals(k)) && LeavesAlone(k, mid)
    ensures var s := Run(Boot(), steps);
            var v := Run(Next(s, DropOldSignals(k)), mid);
            && Enabled(v, TakeSnapshot(k))
            && (SendsAgain(Next(v, TakeSnapshot(k)), k) <==>
                  || s.currentId < v.currentId
                  || ClockIsRunning(v.board.minutes, v.board.seconds, v.board.AgeMs(v.now)) != v.board.running)
  {
    var s := Run(Boot(), steps);
    var d := Next(s, DropOldSignals(k));
    RunExtends(Boot(), steps, DropOldSignals(k));
    RunAppend(Boot(), steps + [DropOldSignals(k)], mid);
    ReadyStreamWaits(d, k, mid);
    WakesOnlyGrow(d, mid);
    EventRepeatsExactlyWhen(steps + [DropOldSignals(k)] + mid, k);
  }

  /** How a stream's last two events stand to its receiver's id. */
  ghost predicate NoTriple(st: Stream) {
    && (st.phase.Connected? ==> st.sent == [])
    && (forall i, j :: 0 <= i && j == i + 2 < |st.sent| ==> st.sent[i].id < st.sent[j].id)
    && (st.sent != [] && st.phase.Snapshotting? ==> Last(st).id <= st.atId)
    && (LastTwice(st) ==> Last(st).id <= st.atId && (st.phase.Snapshotting? ==> Last(st).id < st.atId))
  }

  function Last(st: Stream): Event
    requires st.sent != []
  {
    st.sent[|st.sent| - 1]
  }

  predicate LastTwice(st: Stream) {
    |st.sent| >= 2 && st.sent[|st.sent| - 2].id == Last(st).id
  }

  lemma AppendKeepsNoTriple(st: Stream, e: Event)
    requires NoTriple(st) && st.phase.Snapshotting? && st.atId <= e.id
    requires |st.sent| >= 2 ==> st.sent[|st.sent| - 2].id <= Last(st).id
    ensures NoTriple(st.(phase := Writing, sent := st.sent + [e]))
  {
    var sent := st.sent + [e];
    forall i, j | 0 <= i && j == i + 2 < |sent|
      ensures sent[i].id < sent[j].id
    {
      assert j < |st.sent| ==> sent[i] == st.sent[i] && sent[j] == st.sent[j];
    }
  }

  lemma SnapshotKeepsNoTriple(s: System, k: nat)
    requires Inv(s) && Enabled(s, TakeSnapshot(k)) && NoTriple(s.streams[k])
    ensures NoTriple(Next(s, TakeSnapshot(k)).streams[k])
  {
    var st := s.streams[k];
    assert SentInv(s, st);
    var s' := Locked(s, Refresh);
    AppendKeepsNoTriple(st, Event(s'.currentId, s'.board.View()));
  }

  /** A step that sends nothing, and starts a snapshot only on an unseen wake or a new connection. */
  lemma SameSentNoTriple(st: Stream, st': Stream, c: nat)
    requires NoTriple(st) && st'.sent == st.sent && st.atId <= st'.atId <= c
    requires st.sent != [] ==> Last(st).id <= c
    requires st'.phase.Connected? ==> st.sent == []
    requires st'.phase.Snapshotting? ==>
               st' == st || (st'.atId == c && (st.phase.Connected? || st.atId < c))
    ensures NoTriple(st')
  {
  }

  lemma NextKeepsNoTriple(s: System, step: Step, k: nat)
    requires Inv(s) && Enabled(s, step) && k in Next(s, step).streams
    requires k in s.streams ==> NoTriple(s.streams[k])
    ensures NoTriple(Next(s, step).streams[k])
  {
    if step == TakeSnapshot(k) {
      SnapshotKeepsNoTriple(s, k);
    } else if k in s.streams && Next(s, step).streams[k] != s.streams[k] {
      assert SentInv(s, s.streams[k]);
      SameSentNoTriple(s.streams[k], Next(s, step).streams[k], s.currentId);
    }
  }

  /** Over every run from boot a stream sends no view more than twice for one wake. */
  lemma {:induction false} NoEventThrice(steps: seq<Step>, k: nat)
    requires k in Run(Boot(), steps).streams
    ensures NoTriple(Run(Boot(), steps).streams[k])
    ensures var sent := Run(Boot(), steps).streams[k].sent;
            forall i, j :: 0 <= i && j == i + 2 < |sent| ==> sent[i].id < sent[j].id
    decreases |steps|
  {
    if steps != [] {
      var before := steps[..|steps| - 1];
      var s := Run(Boot(), before);
      var step := steps[|steps| - 1];
      RunKeepsInv(before);
      if k in s.streams {
        NoEventThrice(before, k);
      }
      if Enabled(s, step) {
        NextKeepsNoTriple(s, step, k);
      }
    }
  }

  lemma RunExtends(s: System, steps: seq<Step>, step: Step)
    requires Enabled(Run(s, steps), step)
    ensures Run(s, steps + [step]) == Next(Run(s, steps), step)
  {
    assert (steps + [step])[..|steps|] == steps;
  }

  /**
    The documented "one event per visible change" can be exceeded: a wake sent between dropping
    the old signals and taking the first snapshot makes a stream send the same event twice.
   */
  lemma EventCanRepeat()
    ensures exists steps ::
              var s := Run(Boot(), steps);
              && 0 in s.streams
              && |s.streams[0].sent| == 2
              && s.streams[0].sent[0] == s.streams[0].sent[1]
  {
    var bumped := DefaultBoard().(home := 1, announced := DefaultView().(home := 1));
    var e := Event(1, bumped.View());
    var s3 := System(0, bumped, 1, [DefaultView(), bumped.View()], map[0 := Stream(0, Snapshotting, [])]);
    var r1 := [Connect(0)];
    RunExtends(Boot(), [], Connect(0));
    assert [] + [Connect(0)] == r1;
    RunExtends(Boot(), r1, DropOldSignals(0));
    var r2 := r1 + [DropOldSignals(0)];
    RunExtends(Boot(), r2, OtherTask(HomeInc));
    var r3 := r2 + [OtherTask(HomeInc)];
    assert Run(Boot(), r3) == s3;
    RepeatFrom(s3, r3, e);
  }

  lemma RepeatFrom(s3: System, r3: seq<Step>, e: Event)
    requires Run(Boot(), r3) == s3
    requires s3.board == DefaultBoard().(home := 1, announced := DefaultView().(home := 1))
    requires e == Event(1, s3.board.View())
    requires s3 == System(0, s3.board, 1, [DefaultView(), s3.board.View()], map[0 := Stream(0, Snapshotting, [])])
    ensures exists steps ::
              var s := Run(Boot(), steps);
              && 0 in s.streams
              && |s.streams[0].sent| == 2
              && s.streams[0].sent[0] == s.streams[0].sent[1]
  {
    var s4 := With(s3, 0, Stream(0, Writing, [e]));
    assert Next(s3, TakeSnapshot(0)) == s4 by {
      assert Locked(s3, Refresh) == s3;
      assert [] + [e] == [e];
    }
    RunExtends(Boot(), r3, TakeSnapshot(0));
    var r4 := r3 + [TakeSnapshot(0)];
    RunExtends(Boot(), r4, FinishWrite(0));
    var r5 := r4 + [FinishWrite(0)];
    RunExtends(Boot(), r5, Arm(0));
    RepeatAgain(s3, s4, Run(Boot(), r5), r5 + [Arm(0)], e);
  }

  lemma RepeatAgain(s3: System, s4: System, s5: System, r6: seq<Step>, e: Event)
    requires s3.board == DefaultBoard().(home := 1, announced := DefaultView().(home := 1))
    requires e == Event(1, s3.board.View())
    requires s3.currentId == 1 && s4 == With(s3, 0, Stream(0, Writing, [e]))
    requires s5 == Next(s4, FinishWrite(0)) && Run(Boot(), r6) == Next(s5, Arm(0))
    ensures exists steps ::
              var s := Run(Boot(), steps);
              && 0 in s.streams
              && |s.streams[0].sent| == 2
              && s.streams[0].sent[0] == s.streams[0].sent[1]
  {
    RunExtends(Boot(), r6, Changed(0));
    var r7 := r6 + [Changed(0)];
    var s7 := Run(Boot(), r7);
    assert s7.streams[0] == Stream(1, Snapshotting, [e]);
    assert Locked(s7, Refresh) == s7;
    RunExtends(Boot(), r7, TakeSnapshot(0));
    assert [e] + [e] == [e, e];
    assert Run(Boot(), r7 + [TakeSnapshot(0)]).streams[0].sent == [e, e];
  }
}
