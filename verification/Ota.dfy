/**
  Firmware upload, `src/ota.rs`: the upload loop over a body that arrives in arbitrary pieces, and
  the busy and reset flags around it.

  The body and the DFU partition are objects that resolve their own nondeterminism: how many bytes a
  read returns, and whether a faulty device fails. What is proved holds for every resolution. The
  partition is written by whole erase blocks; whether it refuses writes once an update is marked is
  the device's choice, `locks`.
 */
module Ota {
  import opened Words

  const ERASE_SIZE := 4096
  const ACTIVE_CAPACITY := 896 * 1024
  const DFU_CAPACITY := ACTIVE_CAPACITY + 4 * 1024

  datatype ReadResult = Got(n: nat) | ReadError

  /** A request body: `stream` arrives, then end of file for ever. */
  class Body {
    const stream: seq<byte>
    const faulty: bool
    var pos: nat

    constructor (stream: seq<byte>, faulty: bool)
      ensures this.stream == stream && this.faulty == faulty && pos == 0
    {
      this.stream, this.faulty, pos := stream, faulty, 0;
    }

    /** Reads at least one and at most `hi - lo` bytes into `buf[lo..hi]`, or none at end of file. */
    method Read(buf: array<byte>, lo: nat, hi: nat) returns (r: ReadResult)
      requires pos <= |stream| && lo < hi <= buf.Length
      modifies `pos, buf
      ensures r.ReadError? ==> faulty
      ensures r.Got? ==>
                && pos == old(pos) + r.n <= |stream| && lo + r.n <= hi
                && (r.n == 0 <==> old(pos) == |stream|)
                && buf[..lo + r.n] == old(buf[..lo]) + stream[old(pos)..pos]
      ensures pos <= |stream|
    {
      if faulty {
        if * {
          return ReadError;
        }
      }
      if pos == |stream| {
        assert stream[pos..pos] == [];
        return Got(0);
      }
      var most := Min(hi - lo, |stream| - pos);
      var n: nat :| 1 <= n && n <= most;
      forall k | 0 <= k < n {
        buf[lo + k] := stream[pos + k];
      }
      pos := pos + n;
      r := Got(n);
    }
  }

  method ReadExactOrEof(body: Body, buf: array<byte>, want: nat) returns (r: ReadResult)
    requires body.pos <= |body.stream| && want <= buf.Length
    modifies body`pos, buf
    ensures body.pos <= |body.stream|
    ensures r.ReadError? ==> body.faulty
    ensures r.Got? ==>
              && r.n == Min(want, |body.stream| - old(body.pos))
              && body.pos == old(body.pos) + r.n
              && buf[..r.n] == body.stream[old(body.pos)..body.pos]
  {
    var filled := 0;
    while filled < want
      invariant filled <= want && body.pos == old(body.pos) + filled <= |body.stream|
      invariant buf[..filled] == body.stream[old(body.pos)..body.pos]
    {
      ghost var from, mid := old(body.pos), body.pos;
      var got := body.Read(buf, filled, want);
      assert got.Got? ==> body.stream[from..mid] + body.stream[mid..body.pos] == body.stream[from..body.pos];
      match got
      case Got(n) =>
        if n == 0 {
          return Got(filled);
        }
        filled := filled + n;
      case ReadError =>
        return ReadError;
    }
    r := Got(filled);
  }

  datatype Op = Write(offset: nat, len: nat) | MarkUpdated

  predicate OnBoundary(offset: nat) {
    offset % ERASE_SIZE == 0
  }

  /** The DFU partition and the update state; `log` records every operation asked of it. */
  class Updater {
    const dfu: array<byte>
    const faulty: bool
    const locks: bool
    var updated: bool
    ghost var log: seq<Op>

    constructor (faulty: bool, locks: bool)
      ensures dfu.Length == DFU_CAPACITY && fresh(dfu)
      ensures this.faulty == faulty && this.locks == locks && !updated && log == []
    {
      dfu := new byte[DFU_CAPACITY](_ => 0xFF);
      this.faulty, this.locks, updated, log := faulty, locks, false, [];
    }

    predicate Refuses()
      reads this
    {
      locks && updated
    }

    /** Erases a block and writes its first `n` bytes; what the rest of the block then holds is not promised. */
    method WriteFirmware(offset: nat, buf: array<byte>, n: nat) returns (ok: bool)
      requires OnBoundary(offset) && n <= ERASE_SIZE && offset + ERASE_SIZE <= dfu.Length
      requires n <= buf.Length && buf != dfu
      modifies `log, dfu
      ensures log == old(log) + [Write(offset, n)]
      ensures ok ==>
                && dfu[..offset + n] == old(dfu[..offset]) + buf[..n]
                && dfu[offset + ERASE_SIZE..] == old(dfu[offset + ERASE_SIZE..])
      ensures !ok ==> faulty || Refuses()
      ensures Refuses() ==> !ok && dfu[..] == old(dfu[..])
    {
      log := log + [Write(offset, n)];
      if Refuses() {
        return false;
      }
      if faulty {
        if * {
          return false;
        }
      }
      forall k | 0 <= k < ERASE_SIZE {
        dfu[offset + k] := if k < n then buf[k] else 0xFF;
      }
      assert dfu[..offset] == old(dfu[..offset]) && dfu[offset..offset + n] == buf[..n];
      assert dfu[..offset + n] == dfu[..offset] + dfu[offset..offset + n];
      ok := true;
    }

    method MarkAsUpdated() returns (ok: bool)
      modifies `log, `updated
      ensures log == old(log) + [MarkUpdated]
      ensures ok ==> updated
      ensures !ok ==> faulty
    {
      log := log + [MarkUpdated];
      updated := true;
      ok := true;
      if faulty {
        if * {
          updated := false;
          ok := false;
        }
      }
    }
  }

  /** What a client sends: the announced length and the bytes that arrive. */
  datatype Request = Request(contentLen: nat, body: seq<byte>)
  {
    /** The bytes of it that are ever written. */
    function Image(): seq<byte> {
      if contentLen > ACTIVE_CAPACITY then [] else body[..Min(contentLen, |body|)]
    }
  }

  /** The partition starts with the whole body asked for. */
  predicate Holds(dfu: seq<byte>, req: Request) {
    && |req.Image()| == req.contentLen > 0
    && req.contentLen <= |dfu| && dfu[..req.contentLen] == req.Image()
  }

  datatype OtaResult = Done | EmptyBody | TooLarge | Truncated | FlashFailed | ReadFailed

  /** What a device that does not fail answers, if it refuses writes or not. */
  function Verdict(contentLen: nat, received: nat, refused: bool): OtaResult {
    if contentLen == 0 then EmptyBody
    else if contentLen > ACTIVE_CAPACITY then TooLarge
    else if received == 0 then Truncated
    else if refused then FlashFailed
    else if received < contentLen then Truncated
    else Done
  }

  /** Whole erase blocks from 0, and a last one that may be short, covering `upto` bytes. */
  function Blocks(upto: nat): seq<Op>
    decreases upto
  {
    if upto == 0 then []
    else
      var last := (upto - 1) / ERASE_SIZE * ERASE_SIZE;
      Blocks(last) + [Write(last, upto - last)]
  }

  /** Write `k` is at the `k`-th block boundary and no longer than a block; together they tile `[0, upto)`. */
  lemma {:induction false} BlocksTile(upto: nat)
    ensures var ops := Blocks(upto);
            && (forall k :: 0 <= k < |ops| ==>
                  ops[k].Write? && ops[k].offset == 4096 * k && 0 < ops[k].len <= 4096)
            && (forall k :: 0 <= k < |ops| - 1 ==> ops[k].len == 4096)
            && (ops != [] ==> ops[|ops| - 1].offset + ops[|ops| - 1].len == upto)
            && (upto - 1) / ERASE_SIZE + 1 == |ops|
    decreases upto
  {
    if upto > 0 {
      var q := (upto - 1) / ERASE_SIZE;
      var last := q * ERASE_SIZE;
      BlocksTile(last);
      assert (last - 1) / ERASE_SIZE + 1 == q;
    }
  }

  lemma BoundaryGrows(offset: nat)
    requires OnBoundary(offset)
    ensures OnBoundary(offset + ERASE_SIZE)
  {
  }

  lemma BlocksGrow(offset: nat, n: nat)
    requires OnBoundary(offset) && 0 < n <= ERASE_SIZE
    ensures Blocks(offset + n) == Blocks(offset) + [Write(offset, n)]
  {
    assert (offset + n - 1) / ERASE_SIZE * ERASE_SIZE == offset;
  }

  /** One loop body's write: the partition follows the body by one more block. */
  method StoreBlock(body: Body, updater: Updater, offset: nat, chunk: array<byte>, n: nat, ghost before: seq<Op>) returns (ok: bool)
    requires updater.log == before + Blocks(offset)
    requires 0 < n <= chunk.Length == ERASE_SIZE && OnBoundary(offset)
    requires chunk != updater.dfu && offset + ERASE_SIZE <= updater.dfu.Length
    requires offset + n <= |body.stream| && chunk[..n] == body.stream[offset..offset + n]
    requires updater.dfu[..offset] == body.stream[..offset]
    modifies updater`log, updater.dfu
    ensures ok ==> updater.dfu[..offset + n] == body.stream[..offset + n]
    ensures !ok ==> updater.faulty || updater.Refuses()
    ensures updater.Refuses() ==> !ok && updater.dfu[..] == old(updater.dfu[..])
    ensures updater.log == before + Blocks(offset + n)
  {
    ok := updater.WriteFirmware(offset, chunk, n);
    BlocksGrow(offset, n);
    assert body.stream[..offset + n] == body.stream[..offset] + body.stream[offset..offset + n];
    assert before + Blocks(offset) + [Write(offset, n)] == before + (Blocks(offset) + [Write(offset, n)]);
  }

  /** The upload loop: `written` bytes were asked to be written, block by block. */
  method Upload(contentLen: nat, body: Body, updater: Updater) returns (r: OtaResult, ghost written: nat)
    requires 0 < contentLen <= ACTIVE_CAPACITY && body.pos == 0 && updater.dfu.Length == DFU_CAPACITY
    modifies body`pos, updater`log, updater.dfu
    ensures written <= Min(contentLen, |body.stream|)
    ensures updater.log == old(updater.log) + Blocks(written)
    ensures r == Done || r == Truncated || r == FlashFailed || r == ReadFailed
    ensures r == Done ==> written == contentLen && updater.dfu[..contentLen] == body.stream[..contentLen]
    ensures r == Truncated ==> |body.stream| < contentLen
    ensures r == FlashFailed ==> updater.faulty || updater.Refuses()
    ensures r == ReadFailed ==> body.faulty
    ensures updater.Refuses() ==> r != Done && updater.dfu[..] == old(updater.dfu[..])
    ensures updater.Refuses() && r == Truncated ==> body.stream == []
    ensures r == FlashFailed ==> body.stream != []
  {
    var offset := 0;
    var chunk := new byte[ERASE_SIZE](_ => 0);
    ghost var before := updater.log;
    while offset < contentLen
      invariant fresh(chunk) && chunk.Length == ERASE_SIZE
      invariant offset == body.pos <= Min(contentLen, |body.stream|)
      invariant OnBoundary(offset) || offset == |body.stream| < contentLen || offset == contentLen
      invariant updater.dfu[..offset] == body.stream[..offset]
      invariant updater.log == before + Blocks(offset)
      invariant updater.Refuses() ==> offset == 0 && updater.dfu[..] == old(updater.dfu[..])
      decreases contentLen - offset
    {
      var want := Min(chunk.Length, contentLen - offset);
      var got := ReadExactOrEof(body, chunk, want);
      if got.ReadError? {
        return ReadFailed, offset;
      }
      if got.n == 0 {
        return Truncated, offset;
      }
      var ok := StoreBlock(body, updater, offset, chunk, got.n, before);
      if !ok {
        return FlashFailed, offset + got.n;
      }
      if got.n == ERASE_SIZE {
        BoundaryGrows(offset);
      }
      offset := offset + got.n;
    }
    r, written := Done, offset;
  }

  /**
    Every write is part of the tiling of what was received; `mark_updated` is reached only once the
    partition holds the whole body; on a device that does not fail the result is exactly `Verdict`;
    and one that refuses writes is left as it was.
   */
  method RunOta(contentLen: nat, body: Body, updater: Updater)
    returns (r: OtaResult, ghost written: nat, ghost reachedMark: bool)
    requires body.pos == 0 && updater.dfu.Length == DFU_CAPACITY
    modifies body`pos, updater, updater.dfu
    ensures written <= Min(contentLen, |body.stream|) && (written > 0 ==> contentLen <= ACTIVE_CAPACITY)
    ensures updater.log == old(updater.log) + Blocks(written) + if reachedMark then [MarkUpdated] else []
    ensures reachedMark ==>
              && 0 < contentLen <= ACTIVE_CAPACITY && written == contentLen
              && updater.dfu[..contentLen] == body.stream[..contentLen]
    ensures !reachedMark ==> updater.updated == old(updater.updated)
    ensures r == Done ==> reachedMark && updater.updated && Holds(updater.dfu[..], Request(contentLen, body.stream))
    ensures r == EmptyBody <==> contentLen == 0
    ensures r == TooLarge <==> contentLen > 896 * 1024
    ensures r == Truncated ==> |body.stream| < contentLen && !reachedMark
    ensures r == FlashFailed ==> updater.faulty || old(updater.Refuses())
    ensures r == ReadFailed ==> body.faulty && !reachedMark
    ensures !updater.faulty && !body.faulty ==> r == Verdict(contentLen, |body.stream|, old(updater.Refuses()))
    ensures old(updater.Refuses()) ==> !reachedMark && updater.dfu[..] == old(updater.dfu[..])
  {
    written, reachedMark := 0, false;
    if contentLen == 0 {
      return EmptyBody, 0, false;
    }
    if contentLen > ACTIVE_CAPACITY {
      return TooLarge, 0, false;
    }
    r, written := Upload(contentLen, body, updater);
    if r != Done {
      return r, written, false;
    }
    reachedMark := true;
    var ok := updater.MarkAsUpdated();
    r := if ok then Done else FlashFailed;
  }

  // The busy and reset flags

  datatype Phase = Uploading(req: Request, written: nat) | Returned(ok: bool) | Released(ok: bool) | Replied(ok: bool)

  /**
    The flags and the partition the handlers share. `marked` is the upload last marked as the update,
    and `admitted` says whether another was let in since; both are history variables.
   */
  datatype Flags = Flags(
    locks: bool,
    busy: bool,
    reset: bool,
    dfu: seq<byte>,
    handlers: map<nat, Phase>,
    marked: Option<Request>,
    admitted: bool)

  function Boot(locks: bool): Flags {
    Flags(locks, false, false, seq(DFU_CAPACITY, _ => 0xFF), map[], None, false)
  }

  /** `rest` is what a short write leaves in the rest of its block. */
  datatype Step =
    | Arrive(h: nat, req: Request)
    | Store(h: nat, rest: seq<byte>)
    | Finish(h: nat, ok: bool)
    | Release(h: nat)
    | Reply(h: nat)

  predicate IsUploading(f: Flags, h: nat) {
    h in f.handlers && f.handlers[h].Uploading?
  }

  /** How much of its image an upload writes next: a block, or what is left. */
  function NextLen(u: Phase): nat
    requires u.Uploading? && u.written <= |u.req.Image()|
  {
    Min(ERASE_SIZE, |u.req.Image()| - u.written)
  }

  predicate CanStore(u: Phase, rest: seq<byte>, room: nat) {
    && u.Uploading? && u.written < |u.req.Image()|
    && OnBoundary(u.written) && u.written + ERASE_SIZE <= room
    && NextLen(u) + |rest| == ERASE_SIZE
  }

  /** Success needs the announced length written, and nothing else. */
  predicate Enabled(f: Flags, step: Step) {
    match step
    case Arrive(h, _) => h !in f.handlers
    case Store(h, rest) =>
      IsUploading(f, h) && CanStore(f.handlers[h], rest, |f.dfu|) && !(f.locks && f.marked.Some?)
    case Finish(h, ok) =>
      IsUploading(f, h) && (ok ==> f.handlers[h].written == f.handlers[h].req.contentLen > 0)
    case Release(h) => h in f.handlers && f.handlers[h].Returned?
    case Reply(h) => h in f.handlers && f.handlers[h].Released?
  }

  function Stored(dfu: seq<byte>, u: Phase, rest: seq<byte>): (dfu': seq<byte>)
    requires CanStore(u, rest, |dfu|)
    ensures |dfu'| == |dfu|
  {
    var end := u.written + NextLen(u);
    dfu[..u.written] + u.req.Image()[u.written..end] + rest + dfu[u.written + ERASE_SIZE..]
  }

  function Next(f: Flags, step: Step): Flags
    requires Enabled(f, step)
  {
    match step
    case Arrive(h, req) =>
      if f.busy then f.(handlers := f.handlers[h := Replied(false)])
      else f.(busy := true, handlers := f.handlers[h := Uploading(req, 0)], admitted := true)
    case Store(h, rest) =>
      var u := f.handlers[h];
      f.(dfu := Stored(f.dfu, u, rest), handlers := f.handlers[h := u.(written := u.written + NextLen(u))])
    case Finish(h, ok) =>
      var f' := f.(handlers := f.handlers[h := Returned(ok)]);
      if ok then f'.(marked := Some(f.handlers[h].req), admitted := false) else f'
    case Release(h) => f.(busy := false, handlers := f.handlers[h := Released(f.handlers[h].ok)])
    case Reply(h) => f.(reset := f.reset || f.handlers[h].ok, handlers := f.handlers[h := Replied(f.handlers[h].ok)])
  }

  function Run(f: Flags, steps: seq<Step>): Flags
    decreases |steps|
  {
    if steps == [] then f
    else
      var v := Run(f, steps[..|steps| - 1]);
      var step := steps[|steps| - 1];
      if Enabled(v, step) then Next(v, step) else v
  }

  predicate Active(f: Flags, h: nat) {
    h in f.handlers && (f.handlers[h].Uploading? || f.handlers[h].Returned?)
  }

  ghost predicate OneActive(f: Flags) {
    && (forall h, k :: Active(f, h) && Active(f, k) ==> h == k)
    && (f.busy <==> exists h :: Active(f, h))
  }

  /** What an upload has written is in the partition. */
  predicate Keeps(dfu: seq<byte>, u: Phase) {
    u.Uploading? ==>
      && u.written <= |u.req.Image()| && u.written <= |dfu|
      && (OnBoundary(u.written) || u.written == |u.req.Image()|)
      && dfu[..u.written] == u.req.Image()[..u.written]
  }

  /** A success still to be replied to, or replied to, has a mark; and what is marked is in the partition. */
  ghost predicate MarkInv(f: Flags) {
    && (forall h :: h in f.handlers && (f.handlers[h] == Returned(true) || f.handlers[h] == Released(true)) ==> f.marked.Some?)
    && (f.reset ==> f.marked.Some?)
    && (forall h :: IsUploading(f, h) ==> f.admitted)
    && (f.locks && f.marked.Some? ==> forall h :: IsUploading(f, h) ==> f.handlers[h].written == 0)
    && (f.marked.Some? && (f.locks || !f.admitted) ==> Holds(f.dfu, f.marked.value))
  }

  ghost predicate Inv(f: Flags) {
    && |f.dfu| == DFU_CAPACITY && OneActive(f) && MarkInv(f)
    && forall h :: h in f.handlers ==> Keeps(f.dfu, f.handlers[h])
  }

  lemma NextKeepsOneActive(f: Flags, step: Step)
    requires OneActive(f) && Enabled(f, step)
    ensures OneActive(Next(f, step))
  {
    var f' := Next(f, step);
    forall h | h != step.h
      ensures Active(f', h) <==> Active(f, h)
    {
    }
    if !step.Arrive? {
      assert Active(f, step.h) || step.Reply?;
    }
    assert Active(f', step.h) || !Active(f', step.h);
  }

  lemma StoreKeeps(dfu: seq<byte>, u: Phase, rest: seq<byte>)
    requires Keeps(dfu, u) && CanStore(u, rest, |dfu|)
    ensures Keeps(Stored(dfu, u, rest), u.(written := u.written + NextLen(u)))
    ensures var end := u.written + NextLen(u);
            && Stored(dfu, u, rest)[..end] == u.req.Image()[..end]
            && (rest != [] ==> end == |u.req.Image()| && Stored(dfu, u, rest)[end] == rest[0])
  {
    var end := u.written + NextLen(u);
    var image := u.req.Image();
    assert image[..end] == image[..u.written] + image[u.written..end];
  }

  /** Only the one upload that is running writes, so what it has written stays. */
  lemma NextKeepsWritten(f: Flags, step: Step)
    requires Inv(f) && Enabled(f, step)
    ensures var f' := Next(f, step);
            |f'.dfu| == DFU_CAPACITY && forall h :: h in f'.handlers ==> Keeps(f'.dfu, f'.handlers[h])
  {
    var f' := Next(f, step);
    forall h | h in f'.handlers
      ensures Keeps(f'.dfu, f'.handlers[h])
    {
      if step.Store? && IsUploading(f', h) {
        assert Active(f, h) && Active(f, step.h);
        StoreKeeps(f.dfu, f.handlers[h], step.rest);
      }
    }
  }

  lemma WholeBodyHolds(dfu: seq<byte>, u: Phase)
    requires u.Uploading? && Keeps(dfu, u) && u.written == u.req.contentLen > 0
    ensures Holds(dfu, u.req)
  {
    assert u.req.Image()[..u.written] == u.req.Image();
  }

  lemma NextKeepsMark(f: Flags, step: Step)
    requires Inv(f) && Enabled(f, step)
    ensures MarkInv(Next(f, step))
  {
    var f' := Next(f, step);
    forall h | IsUploading(f', h)
      ensures f'.admitted && !(step.Finish? && step.ok)
    {
      if step.Finish? {
        assert Active(f, h) && Active(f, step.h);
      } else if h != step.h {
        assert IsUploading(f, h);
      }
    }
    if step.Finish? && step.ok {
      WholeBodyHolds(f.dfu, f.handlers[step.h]);
    }
  }

  lemma {:induction false} RunKeepsInv(f: Flags, steps: seq<Step>)
    requires Inv(f)
    ensures Inv(Run(f, steps)) && Run(f, steps).locks == f.locks
    decreases |steps|
  {
    if steps != [] {
      RunKeepsInv(f, steps[..|steps| - 1]);
      var v := Run(f, steps[..|steps| - 1]);
      if Enabled(v, steps[|steps| - 1]) {
        NextKeepsOneActive(v, steps[|steps| - 1]);
        NextKeepsWritten(v, steps[|steps| - 1]);
        NextKeepsMark(v, steps[|steps| - 1]);
      }
    }
  }

  /**
    Over all interleavings of handlers at most one upload runs, and a reset follows a successful mark.
    The body marked is still in the partition if the device refuses writes by then, or if no other
    upload has been let in since.
   */
  lemma OneUploadAtATime(locks: bool, steps: seq<Step>)
    ensures var f := Run(Boot(locks), steps);
            && (forall h, k :: Active(f, h) && Active(f, k) ==> h == k)
            && (f.reset ==> f.marked.Some? && (locks || !f.admitted ==> Holds(f.dfu, f.marked.value)))
  {
    RunKeepsInv(Boot(locks), steps);
  }

  /** A pending reset does not keep uploads out: one is admitted if and only if no other is active. */
  lemma AdmittedExactlyWhenIdle(locks: bool, steps: seq<Step>, h: nat, req: Request)
    requires h !in Run(Boot(locks), steps).handlers
    ensures Next(Run(Boot(locks), steps), Arrive(h, req)).handlers[h] == Uploading(req, 0) <==>
              !exists k :: Active(Run(Boot(locks), steps), k)
  {
    RunKeepsInv(Boot(locks), steps);
  }

  ghost predicate SomeSuccess(f: Flags) {
    exists h :: h in f.handlers && f.handlers[h] == Replied(true)
  }

  lemma NextKeepsSuccess(f: Flags, step: Step)
    requires Enabled(f, step)
    ensures SomeSuccess(Next(f, step)) <==> SomeSuccess(f) || Next(f, step).handlers[step.h] == Replied(true)
  {
    var f' := Next(f, step);
    if SomeSuccess(f) {
      var h :| h in f.handlers && f.handlers[h] == Replied(true);
      assert f'.handlers[h] == Replied(true);
    }
    if SomeSuccess(f') {
      var h :| h in f'.handlers && f'.handlers[h] == Replied(true);
      assert h == step.h || f.handlers[h] == Replied(true);
    }
  }

  /** The board is told to reset if and only if some upload was answered with success; a busy answer is none. */
  lemma {:induction false} ResetExactlyWhen(locks: bool, steps: seq<Step>)
    ensures Run(Boot(locks), steps).reset <==> SomeSuccess(Run(Boot(locks), steps))
    decreases |steps|
  {
    if steps != [] {
      ResetExactlyWhen(locks, steps[..|steps| - 1]);
      var v := Run(Boot(locks), steps[..|steps| - 1]);
      if Enabled(v, steps[|steps| - 1]) {
        NextKeepsSuccess(v, steps[|steps| - 1]);
      }
    }
  }

  lemma RunExtends(f: Flags, steps: seq<Step>, step: Step)
    requires Enabled(Run(f, steps), step)
    ensures Run(f, steps + [step]) == Next(Run(f, steps), step)
  {
    assert (steps + [step])[..|steps|] == steps;
  }

  /** From the end of its transfer a handler releases the flag and answers; success also asks for the reset. */
  lemma CanAnswer(f: Flags, steps: seq<Step>, h: nat, ok: bool) returns (more: seq<Step>)
    requires Enabled(Run(f, steps), Finish(h, ok)) && NoneArrive(steps)
    ensures NoneArrive(more)
    ensures var u, v := Run(f, steps), Run(f, more);
            && v.handlers == u.handlers[h := Replied(ok)] && v.dfu == u.dfu && !v.busy
            && v.reset == (u.reset || ok)
            && v.marked == if ok then Some(u.handlers[h].req) else u.marked
  {
    RunExtends(f, steps, Finish(h, ok));
    RunExtends(f, steps + [Finish(h, ok)], Release(h));
    RunExtends(f, steps + [Finish(h, ok)] + [Release(h)], Reply(h));
    more := steps + [Finish(h, ok)] + [Release(h)] + [Reply(h)];
  }

  /** Every upload let in can end with an error, and then leaves the flag free and the mark as it was. */
  lemma AnyUploadCanFail(locks: bool, steps: seq<Step>, h: nat) returns (more: seq<Step>)
    requires IsUploading(Run(Boot(locks), steps), h)
    ensures NoneArrive(more)
    ensures var f, v := Run(Boot(locks), steps), Run(Run(Boot(locks), steps), more);
            h in v.handlers && v.handlers[h] == Replied(false) && !v.busy && v.reset == f.reset && v.marked == f.marked && v.dfu == f.dfu
  {
    more := CanAnswer(Run(Boot(locks), steps), [], h, false);
  }

  /** A whole body let in can be stored, marked and answered with success, unless the device refuses its writes. */
  lemma WholeUploadCanSucceed(locks: bool, steps: seq<Step>, h: nat) returns (more: seq<Step>)
    requires IsUploading(Run(Boot(locks), steps), h) && !(locks && Run(Boot(locks), steps).marked.Some?)
    requires var req := Run(Boot(locks), steps).handlers[h].req; |req.Image()| == req.contentLen > 0
    ensures NoneArrive(more)
    ensures var f, v := Run(Boot(locks), steps), Run(Run(Boot(locks), steps), more);
            var req := f.handlers[h].req;
            && h in v.handlers && v.handlers[h] == Replied(true)
            && !v.busy && v.reset && v.marked == Some(req) && Holds(v.dfu, req)
  {
    var f := Run(Boot(locks), steps);
    RunKeepsInv(Boot(locks), steps);
    var stores := StoresAll(f, h, 0);
    more := CanAnswer(f, stores, h, true);
  }

  // What the reset finds

  /** On a device that refuses writes once an update is marked, the mark and its image survive everything that follows. */
  lemma {:induction false} MarkedImageSurvives(steps: seq<Step>, more: seq<Step>)
    requires Run(Boot(true), steps).marked.Some?
    ensures var f := Run(Boot(true), steps);
            var v := Run(f, more);
            v.marked == f.marked && Holds(v.dfu, f.marked.value)
    decreases |more|
  {
    var f := Run(Boot(true), steps);
    RunKeepsInv(Boot(true), steps);
    RunKeepsInv(f, more);
    if more != [] {
      MarkedImageSurvives(steps, more[..|more| - 1]);
      RunKeepsInv(f, more[..|more| - 1]);
    }
  }

  predicate NoneArrive(steps: seq<Step>) {
    forall k :: 0 <= k < |steps| ==> !steps[k].Arrive?
  }

  /** Whatever the handlers already there go on to do, the image stays in the partition. */
  ghost predicate ImageStays(f: Flags, req: Request) {
    forall more | NoneArrive(more) :: Holds(Run(f, more).dfu, req)
  }

  /** Where both have a byte, they have the same. */
  predicate Agree(a: seq<byte>, b: seq<byte>) {
    forall i :: 0 <= i < |a| && i < |b| ==> a[i] == b[i]
  }

  /**
    An upload's blocks leave an image alone: they agree with it, and it does not reach into the rest
    of a block the upload has still to cut short.
   */
  predicate Spares(u: Phase, req: Request)
    requires u.Uploading?
  {
    var image := u.req.Image();
    && Agree(image, req.Image())
    && (u.written == |image| || OnBoundary(|image|) || |req.Image()| <= |image|)
  }

  lemma StepNoNewUpload(f: Flags, step: Step, h: nat)
    requires Enabled(f, step) && !step.Arrive? && IsUploading(Next(f, step), h)
    ensures IsUploading(f, h) && f.handlers[h].req == Next(f, step).handlers[h].req
    ensures f.handlers[h].written <= Next(f, step).handlers[h].written
  {
  }

  /** With no arrivals the uploads are those already there, further on. */
  lemma {:induction false} NoNewUploads(f: Flags, more: seq<Step>, h: nat)
    requires NoneArrive(more) && IsUploading(Run(f, more), h)
    ensures IsUploading(f, h) && f.handlers[h].req == Run(f, more).handlers[h].req
    ensures f.handlers[h].written <= Run(f, more).handlers[h].written
    decreases |more|
  {
    if more != [] {
      var v := Run(f, more[..|more| - 1]);
      var step := more[|more| - 1];
      assert !step.Arrive?;
      if Enabled(v, step) {
        StepNoNewUpload(v, step, h);
      }
      NoNewUploads(f, more[..|more| - 1], h);
    }
  }

  lemma StoreKeepsImage(dfu: seq<byte>, u: Phase, rest: seq<byte>, req: Request)
    requires Holds(dfu, req) && CanStore(u, rest, |dfu|) && Spares(u, req)
    ensures Holds(Stored(dfu, u, rest), req)
  {
    var dfu' := Stored(dfu, u, rest);
    var image := u.req.Image();
    if rest != [] {
      assert u.written + NextLen(u) == |image| && !OnBoundary(|image|);
    }
    forall i | 0 <= i < req.contentLen
      ensures dfu'[i] == req.Image()[i]
    {
      assert dfu[..req.contentLen][i] == dfu[i];
    }
  }

  lemma {:induction false} SparingUploadsKeepImage(f: Flags, req: Request, more: seq<Step>)
    requires Inv(f) && Holds(f.dfu, req) && NoneArrive(more)
    requires forall h :: IsUploading(f, h) ==> Spares(f.handlers[h], req)
    ensures Holds(Run(f, more).dfu, req)
    decreases |more|
  {
    if more != [] {
      var before := more[..|more| - 1];
      var step := more[|more| - 1];
      var v := Run(f, before);
      SparingUploadsKeepImage(f, req, before);
      if Enabled(v, step) && step.Store? {
        NoNewUploads(f, before, step.h);
        StoreKeepsImage(v.dfu, v.handlers[step.h], step.rest, req);
      }
    }
  }

  lemma {:induction false} RunFirst(f: Flags, step: Step, rest: seq<Step>)
    requires Enabled(f, step)
    ensures Run(f, [step] + rest) == Run(Next(f, step), rest)
    decreases |rest|
  {
    var all := [step] + rest;
    if rest == [] {
      assert all[..0] == [];
    } else {
      assert all[..|all| - 1] == [step] + rest[..|rest| - 1];
      RunFirst(f, step, rest[..|rest| - 1]);
    }
  }

  /** An upload left alone writes its whole image, and may leave any byte behind a short last write. */
  lemma {:induction false} StoresAll(f: Flags, h: nat, fill: byte) returns (more: seq<Step>)
    requires Inv(f) && !(f.locks && f.marked.Some?) && IsUploading(f, h)
    ensures NoneArrive(more)
    ensures var v := Run(f, more);
            var image := f.handlers[h].req.Image();
            && h in v.handlers && v.handlers[h] == f.handlers[h].(written := |image|)
            && |v.dfu| == |f.dfu| && |image| < |v.dfu|
            && v.dfu[..|image|] == image
            && (f.handlers[h].written < |image| && !OnBoundary(|image|) ==> v.dfu[|image|] == fill)
    decreases |f.handlers[h].req.Image()| - f.handlers[h].written
  {
    var u := f.handlers[h];
    var image := u.req.Image();
    assert Keeps(f.dfu, u);
    if u.written == |image| {
      more := [];
      assert image[..|image|] == image;
    } else {
      var step := Store(h, seq(ERASE_SIZE - NextLen(u), _ => fill));
      var f' := Next(f, step);
      assert f' == Run(f, [step]) by {
        assert [step][..0] == [];
      }
      RunKeepsInv(f, [step]);
      StoreKeeps(f.dfu, u, step.rest);
      var rest := StoresAll(f', h, fill);
      more := [step] + rest;
      RunFirst(f, step, rest);
      LastBlock(u, f', h, step);
      if f'.handlers[h].written == |image| {
        DoneStoresNothing(f', h, rest);
      }
    }
  }

  lemma LastBlock(u: Phase, f': Flags, h: nat, step: Step)
    requires step.Store? && u.Uploading? && CanStore(u, step.rest, DFU_CAPACITY)
    requires h in f'.handlers && f'.handlers[h] == u.(written := u.written + NextLen(u))
    ensures f'.handlers[h].written == |u.req.Image()| && !OnBoundary(|u.req.Image()|) ==> step.rest != []
  {
  }

  lemma {:induction false} DoneStoresNothing(f: Flags, h: nat, more: seq<Step>)
    requires Inv(f) && IsUploading(f, h) && f.handlers[h].written == |f.handlers[h].req.Image()| && NoneArrive(more)
    ensures Run(f, more).dfu == f.dfu
    decreases |more|
  {
    if more != [] {
      var before := more[..|more| - 1];
      DoneStoresNothing(f, h, before);
      var v := Run(f, before);
      var step := more[|more| - 1];
      if Enabled(v, step) && step.Store? {
        NoNewUploads(f, before, step.h);
        assert Active(f, h) && Active(f, step.h);
      }
    }
  }

  lemma UnsparingUploadSpoils(f: Flags, req: Request, h: nat)
    requires Inv(f) && !f.locks && Holds(f.dfu, req) && IsUploading(f, h) && !Spares(f.handlers[h], req)
    ensures !ImageStays(f, req)
  {
    var image := f.handlers[h].req.Image();
    if !Agree(image, req.Image()) {
      var i :| 0 <= i < |image| && i < |req.Image()| && image[i] != req.Image()[i];
      var more := StoresAll(f, h, 0);
      DiffersAt(Run(f, more).dfu, image, req, i);
    } else {
      var fill: byte := if req.Image()[|image|] == 0 then 1 else 0;
      assert Keeps(f.dfu, f.handlers[h]);
      var more := StoresAll(f, h, fill);
      assert Run(f, more).dfu[..req.contentLen][|image|] == fill;
    }
  }

  lemma DiffersAt(dfu: seq<byte>, image: seq<byte>, req: Request, i: nat)
    requires |image| <= |dfu| && dfu[..|image|] == image
    requires i < |image| && i < |req.Image()| && image[i] != req.Image()[i]
    ensures !Holds(dfu, req)
  {
    assert dfu[i] == dfu[..|image|][i];
    assert req.contentLen <= |dfu| && i < req.contentLen ==> dfu[..req.contentLen][i] == dfu[i];
  }

  /**
    Exactly when, on a device that goes on accepting writes, an image in the partition is safe from
    the uploads already let in: if all their blocks leave it alone.
   */
  lemma ImageStaysExactlyWhen(steps: seq<Step>, req: Request)
    requires Holds(Run(Boot(false), steps).dfu, req)
    ensures var f := Run(Boot(false), steps);
            ImageStays(f, req) <==> forall h :: IsUploading(f, h) ==> Spares(f.handlers[h], req)
  {
    var f := Run(Boot(false), steps);
    RunKeepsInv(Boot(false), steps);
    if forall h :: IsUploading(f, h) ==> Spares(f.handlers[h], req) {
      forall more | NoneArrive(more)
        ensures Holds(Run(f, more).dfu, req)
      {
        SparingUploadsKeepImage(f, req, more);
      }
    } else {
      var h :| IsUploading(f, h) && !Spares(f.handlers[h], req);
      UnsparingUploadSpoils(f, req, h);
    }
  }
}
