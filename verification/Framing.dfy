/**
  The UART framer inside `read_serial` of `src/main.rs`: six-byte frames found by their first byte alone.
 */
module Framing {
  import opened Words
  import opened Decode

  type Time = (byte, byte)

  /** The bytes kept of an unfinished frame, and the times decoded so far. */
  datatype Fed = Fed(partial: seq<byte>, times: seq<Time>)

  predicate IsPartial(partial: seq<byte>) {
    |partial| < PACKET_LEN
  }

  function TimeOf(frame: seq<byte>): (times: seq<Time>)
    requires |frame| == PACKET_LEN
    ensures |times| <= 1
  {
    var t := ParseClockPacket(frame);
    if t.Some? then [t.value] else []
  }

  function Step(partial: seq<byte>, b: byte): (f: Fed)
    requires IsPartial(partial)
    ensures IsPartial(f.partial)
  {
    if partial == [] && b != PACKET_SOF then Fed([], [])
    else
      var p := partial + [b];
      if |p| < PACKET_LEN then Fed(p, []) else Fed([], TimeOf(p))
  }

  function Feed(partial: seq<byte>, bytes: seq<byte>): (f: Fed)
    requires IsPartial(partial)
    ensures IsPartial(f.partial)
    decreases |bytes|
  {
    if bytes == [] then Fed(partial, [])
    else
      var s := Step(partial, bytes[0]);
      var rest := Feed(s.partial, bytes[1..]);
      Fed(rest.partial, s.times + rest.times)
  }

  class Framer {
    const packetBuf: array<byte>
    var bufIdx: nat

    ghost predicate Valid()
      reads this
    {
      packetBuf.Length == PACKET_LEN && bufIdx < PACKET_LEN
    }

    ghost function Value(): seq<byte>
      requires Valid()
      reads this, packetBuf
    {
      packetBuf[..bufIdx]
    }

    constructor ()
      ensures Valid() && Value() == [] && fresh(packetBuf)
    {
      packetBuf := new byte[PACKET_LEN](_ => 0);
      bufIdx := 0;
    }

    /** One byte of a read: `times` holds the `set_clock` call it makes, if any. */
    method Accept(b: byte) returns (times: seq<Time>)
      requires Valid()
      modifies this, packetBuf
      ensures Valid()
      ensures Fed(Value(), times) == Step(old(Value()), b)
    {
      times := [];
      ghost var partial := Value();
      if bufIdx == 0 {
        if b != PACKET_SOF {
          return;
        }
        packetBuf[0] := b;
        bufIdx := 1;
        assert Value() == partial + [b];
        return;
      }
      packetBuf[bufIdx] := b;
      bufIdx := bufIdx + 1;
      assert packetBuf[..bufIdx] == partial + [b];
      if bufIdx < PACKET_LEN {
        return;
      }
      bufIdx := 0;
      assert packetBuf[..] == partial + [b];
      var time := ParseClockPacket(packetBuf[..]);
      if time.Some? {
        times := [time.value];
      }
    }

    /** One successful read: `times` are the `set_clock` calls it makes, in order. */
    method Receive(bytes: seq<byte>) returns (times: seq<Time>)
      requires Valid()
      modifies this, packetBuf
      ensures Valid()
      ensures Fed(Value(), times) == Feed(old(Value()), bytes)
    {
      times := [];
      ghost var start := Value();
      for k := 0 to |bytes|
        invariant Valid()
        invariant Fed(Value(), times) == Feed(start, bytes[..k])
      {
        FeedOneMore(start, bytes[..k], bytes[k]);
        assert bytes[..k + 1] == bytes[..k] + [bytes[k]];
        var more := Accept(bytes[k]);
        times := times + more;
      }
      assert bytes[..|bytes|] == bytes;
    }

    /** A read error drops the unfinished frame. */
    method ReadError()
      requires Valid()
      modifies this
      ensures Valid() && Value() == []
    {
      bufIdx := 0;
    }
  }

  /** Where one read ends and the next begins makes no difference. */
  lemma {:induction false} ChunksDoNotMatter(partial: seq<byte>, a: seq<byte>, b: seq<byte>)
    requires IsPartial(partial)
    ensures var fa := Feed(partial, a);
            var fb := Feed(fa.partial, b);
            Feed(partial, a + b) == Fed(fb.partial, fa.times + fb.times)
    decreases |a|
  {
    if a == [] {
      assert a + b == b;
    } else {
      assert (a + b)[1..] == a[1..] + b;
      ChunksDoNotMatter(Step(partial, a[0]).partial, a[1..], b);
    }
  }

  lemma FeedOneMore(partial: seq<byte>, bytes: seq<byte>, b: byte)
    requires IsPartial(partial)
    ensures var f := Feed(partial, bytes);
            var s := Step(f.partial, b);
            Feed(partial, bytes + [b]) == Fed(s.partial, f.times + s.times)
  {
    ChunksDoNotMatter(partial, bytes, [b]);
    var f := Feed(partial, bytes);
    assert [b][1..] == [];
    assert Feed(f.partial, [b]) == Fed(Step(f.partial, b).partial, Step(f.partial, b).times + []);
  }

  /** Every time decoded, from any bytes at all, is displayable. */
  lemma {:induction false} TimesInRange(partial: seq<byte>, bytes: seq<byte>)
    requires IsPartial(partial)
    ensures forall k :: 0 <= k < |Feed(partial, bytes).times| ==>
              Feed(partial, bytes).times[k].0 <= MAX_MINUTES && Feed(partial, bytes).times[k].1 <= MAX_SECONDS
    decreases |bytes|
  {
    if bytes != [] {
      TimesInRange(Step(partial, bytes[0]).partial, bytes[1..]);
    }
  }

  // Synchronisation

  type Frame = f: seq<byte> | |f| == PACKET_LEN && f[0] == PACKET_SOF witness [PACKET_SOF, 0, 0, 0, 0, 0]

  predicate NoSof(bytes: seq<byte>) {
    forall k :: 0 <= k < |bytes| ==> bytes[k] != PACKET_SOF
  }

  function Flatten(frames: seq<Frame>): seq<byte> {
    if frames == [] then [] else frames[0] + Flatten(frames[1..])
  }

  predicate Displayable(f: Frame) {
    f[3] <= 99 && f[4] <= 59
  }

  /** The times the board sent: those of its frames, in order, without the ones no display can show. */
  function TimesSent(frames: seq<Frame>): (times: seq<Time>)
    ensures (forall k :: 0 <= k < |frames| ==> Displayable(frames[k])) ==>
              |times| == |frames| && forall k :: 0 <= k < |frames| ==> times[k] == (frames[k][3], frames[k][4])
    ensures (forall k :: 0 <= k < |frames| ==> !Displayable(frames[k])) ==> times == []
  {
    if frames == [] then [] else Sent(frames[0]) + TimesSent(frames[1..])
  }

  function Sent(f: Frame): seq<Time> {
    if Displayable(f) then [(f[3], f[4])] else []
  }

  lemma DecodesWhatWasSent(f: Frame)
    ensures TimeOf(f) == Sent(f)
  {
    assert f == ClockFrame(f[1], f[2], f[3], f[4], f[5]);
    ParsesExactlyWhenSent(f, f[3], f[4]);
  }

  /** Bytes that only extend the unfinished frame, up to completing it. */
  lemma {:induction false} Fills(partial: seq<byte>, bytes: seq<byte>)
    requires IsPartial(partial) && |partial + bytes| <= PACKET_LEN
    requires partial != [] || (bytes != [] && bytes[0] == PACKET_SOF)
    ensures Feed(partial, bytes) ==
              if |partial + bytes| < PACKET_LEN then Fed(partial + bytes, []) else Fed([], TimeOf(partial + bytes))
    decreases |bytes|
  {
    if bytes == [] {
      assert partial + bytes == partial;
    } else {
      var p := partial + [bytes[0]];
      assert p + bytes[1..] == partial + bytes;
      if |p| < PACKET_LEN {
        Fills(p, bytes[1..]);
      } else {
        assert bytes[1..] == [];
        assert p == partial + bytes;
      }
    }
  }

  /** With nothing kept, fewer than six bytes leave nothing kept exactly when none of them starts a frame. */
  lemma {:induction false} SkipsExactlyWhen(bytes: seq<byte>)
    requires |bytes| < PACKET_LEN
    ensures Feed([], bytes).partial == [] <==> NoSof(bytes)
    ensures Feed([], bytes).times == []
    decreases |bytes|
  {
    if bytes != [] {
      if bytes[0] == PACKET_SOF {
        Fills([], bytes);
      } else {
        SkipsExactlyWhen(bytes[1..]);
        assert NoSof(bytes) <==> NoSof(bytes[1..]) by {
          assert forall k :: 1 <= k < |bytes| ==> bytes[k] == bytes[1..][k - 1];
        }
      }
    }
  }

  /** One frame into any framer state: at most one time comes out. */
  lemma FrameFrom(partial: seq<byte>, f: Frame)
    requires IsPartial(partial)
    ensures |Feed(partial, f).times| <= 1
    ensures partial == [] ==> Feed(partial, f) == Fed([], Sent(f))
    ensures partial != [] ==> Feed(partial, f).partial == Feed([], f[PACKET_LEN - |partial|..]).partial
  {
    var m := PACKET_LEN - |partial|;
    var head, tail := f[..m], f[m..];
    assert f == head + tail;
    ChunksDoNotMatter(partial, head, tail);
    Fills(partial, head);
    if partial == [] {
      assert head == f && [] + f == f && tail == [];
      DecodesWhatWasSent(f);
    } else {
      SkipsExactlyWhen(tail);
    }
  }

  /**
    Exactly when: out of step by `k` bytes, a frame brings the framer into step if and only if none of
    its last `k` bytes is the start byte.
   */
  lemma InStepExactlyWhen(partial: seq<byte>, f: Frame)
    requires IsPartial(partial) && partial != []
    ensures Feed(partial, f).partial == [] <==> NoSof(f[PACKET_LEN - |partial|..])
  {
    FrameFrom(partial, f);
    SkipsExactlyWhen(f[PACKET_LEN - |partial|..]);
  }

  /** In step, exactly the times sent are decoded, in order, whatever the other bytes. */
  lemma {:induction false} InStepDecodesAll(frames: seq<Frame>)
    ensures Feed([], Flatten(frames)) == Fed([], TimesSent(frames))
    decreases |frames|
  {
    if frames != [] {
      ChunksDoNotMatter([], frames[0], Flatten(frames[1..]));
      FrameFrom([], frames[0]);
      InStepDecodesAll(frames[1..]);
    }
  }

  /**
    Self-synchronisation: from any state, once one frame without a start byte inside it has gone by,
    misread at most once, exactly the times sent later are decoded, in order.
   */
  lemma SelfSynchronises(partial: seq<byte>, frames: seq<Frame>) returns (misread: seq<Time>)
    requires IsPartial(partial) && frames != []
    requires partial != [] ==> NoSof(frames[0][1..])
    ensures |misread| <= 1
    ensures partial == [] ==> misread == Sent(frames[0])
    ensures Feed(partial, Flatten(frames)) == Fed([], misread + TimesSent(frames[1..]))
  {
    misread := Feed(partial, frames[0]).times;
    ChunksDoNotMatter(partial, frames[0], Flatten(frames[1..]));
    FrameFrom(partial, frames[0]);
    if partial != [] {
      var m := PACKET_LEN - |partial|;
      SubSlice(frames[0], 1, PACKET_LEN, m - 1, PACKET_LEN - 1);
      var inner, tail := frames[0][1..], frames[0][m..];
      assert forall k :: 0 <= k < |tail| ==> tail[k] == inner[k + m - 1];
      InStepExactlyWhen(partial, frames[0]);
    }
    InStepDecodesAll(frames[1..]);
  }

  /** A frame of 96 minutes read from its fourth byte on: the start byte, and what the next frame adds. */
  function Shifted(f: Frame): Frame
    requires f[3] == PACKET_SOF
  {
    f[3..] + f[..3]
  }

  lemma ShiftedRound(f: Frame)
    requires f[3] == PACKET_SOF
    ensures Feed(f[3..], f) == Fed(f[3..], Sent(Shifted(f)))
  {
    assert f == f[..3] + f[3..];
    ChunksDoNotMatter(f[3..], f[..3], f[3..]);
    Fills(f[3..], f[..3]);
    Fills([], f[3..]);
    assert [] + f[3..] == f[3..];
    DecodesWhatWasSent(Shifted(f));
    assert Sent(Shifted(f)) + [] == Sent(Shifted(f));
  }

  lemma {:induction false} StaysShifted(f: Frame, n: nat)
    requires f[3] == PACKET_SOF
    ensures Feed(f[3..], Flatten(seq(n, _ => f))) == Fed(f[3..], TimesSent(seq(n, _ => Shifted(f))))
    decreases n
  {
    var frames, read := seq(n, _ => f), seq(n, _ => Shifted(f));
    if n > 0 {
      assert frames[1..] == seq(n - 1, _ => f) && read[1..] == seq(n - 1, _ => Shifted(f));
      ChunksDoNotMatter(f[3..], f, Flatten(frames[1..]));
      ShiftedRound(f);
      StaysShifted(f, n - 1);
    }
  }

  /**
    Without that assumption: an empty framer that first sees the second half of a steady 96-minute
    frame reads 96 minutes and, for seconds, the check byte, if it passes for seconds, for ever.
   */
  lemma CanStayOutOfStep(f: Frame, n: nat)
    requires f[3] == PACKET_SOF
    ensures Feed([], f[3..] + Flatten(seq(n, _ => f))) == Fed(f[3..], TimesSent(seq(n, _ => Shifted(f))))
    ensures Sent(Shifted(f)) == if f[1] <= MAX_SECONDS then [(96, f[1])] else []
  {
    ChunksDoNotMatter([], f[3..], Flatten(seq(n, _ => f)));
    Fills([], f[3..]);
    assert [] + f[3..] == f[3..];
    StaysShifted(f, n);
    assert Shifted(f)[3] == f[0] && Shifted(f)[4] == f[1];
  }
}
