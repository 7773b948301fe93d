/**
  The receive task of the UART probe, `examples/uart-test.rs`: the same framer with byte counters.
 */
module UartRx {
  import opened Words
  import opened Decode
  import Framing

  const RX_LINE := 16

  /**
    The task's state and its wrapping counters. `preLock` and `dropped` are history variables: bytes
    skipped before the first frame, and bytes of unfinished frames thrown away by errors.
   */
  datatype Rx = Rx(
    packet: seq<byte>,
    strays: seq<byte>,
    locked: bool,
    pkts: u32,
    errs: u32,
    stray: u32,
    preLock: nat,
    dropped: nat)

  function Boot(): Rx {
    Rx([], [], false, 0, 0, 0, 0, 0)
  }

  function Add(counter: u32, n: nat): u32 {
    (counter + n) % U32_MOD
  }

  /** `take_stray`. */
  function TakeStray(rx: Rx): Rx {
    rx.(stray := Add(rx.stray, |rx.strays|), strays := [])
  }

  function OnByte(rx: Rx, b: byte): Rx {
    if rx.packet == [] then
      if b == PACKET_SOF then rx.(packet := [b])
      else if !rx.locked then rx.(preLock := rx.preLock + 1)
      else
        var r := if |rx.strays| >= RX_LINE then TakeStray(rx) else rx;
        r.(strays := r.strays + [b])
    else
      var p := rx.packet + [b];
      if |p| < PACKET_LEN then rx.(packet := p)
      else if |p| == PACKET_LEN && ParseClockPacket(p).Some? then
        rx.(packet := [], pkts := Add(rx.pkts, 1), locked := true)
      else rx.(packet := [], stray := Add(rx.stray, |p|))
  }

  function OnBytes(rx: Rx, bytes: seq<byte>): Rx
    decreases |bytes|
  {
    if bytes == [] then rx else OnByte(OnBytes(rx, bytes[..|bytes| - 1]), bytes[|bytes| - 1])
  }

  function OnError(rx: Rx): Rx {
    rx.(errs := Add(rx.errs, 1), dropped := rx.dropped + |rx.packet|, packet := [])
  }

  /** The 50 ms timer; `stalled` when the unfinished frame has seen no byte for 250 ms. */
  function OnTimeout(rx: Rx, stalled: bool): Rx {
    TakeStray(if stalled then rx.(stray := Add(rx.stray, |rx.packet|), packet := []) else rx)
  }

  predicate Bounded(rx: Rx) {
    |rx.packet| < PACKET_LEN && |rx.strays| <= RX_LINE
  }

  class RxTask {
    const packet: array<byte>
    const strayBuf: array<byte>
    var pktN: nat
    var strayN: nat
    var haveLogged: bool
    var rxPkts: u32
    var rxErrs: u32
    var rxStray: u32
    ghost var preLock: nat
    ghost var dropped: nat

    ghost predicate Valid()
      reads this
    {
      && packet.Length == PACKET_LEN && pktN < PACKET_LEN
      && strayBuf.Length == RX_LINE && strayN <= RX_LINE
      && packet != strayBuf
    }

    ghost function Value(): (rx: Rx)
      requires Valid()
      reads this, packet, strayBuf
      ensures Bounded(rx)
    {
      Rx(packet[..pktN], strayBuf[..strayN], haveLogged, rxPkts, rxErrs, rxStray, preLock, dropped)
    }

    constructor ()
      ensures Valid() && Value() == Boot() && fresh(packet) && fresh(strayBuf)
    {
      packet := new byte[PACKET_LEN](_ => 0);
      strayBuf := new byte[RX_LINE](_ => 0);
      pktN, strayN, haveLogged := 0, 0, false;
      rxPkts, rxErrs, rxStray := 0, 0, 0;
      preLock, dropped := 0, 0;
    }

    method TakeStrayBytes()
      requires Valid()
      modifies this
      ensures Valid() && Value() == TakeStray(old(Value()))
    {
      if strayN == 0 {
        return;
      }
      rxStray := Add(rxStray, strayN);
      strayN := 0;
    }

    method Accept(b: byte)
      requires Valid()
      modifies this, packet, strayBuf
      ensures Valid() && Value() == OnByte(old(Value()), b)
    {
      ghost var was := Value();
      if pktN == 0 {
        if b != PACKET_SOF {
          if haveLogged {
            if strayN == strayBuf.Length {
              TakeStrayBytes();
            }
            ghost var strays := strayBuf[..strayN];
            strayBuf[strayN] := b;
            strayN := strayN + 1;
            assert strayBuf[..strayN] == strays + [b];
          } else {
            preLock := preLock + 1;
          }
          return;
        }
        packet[0] := b;
        pktN := 1;
        assert packet[..1] == [b];
        return;
      }
      packet[pktN] := b;
      pktN := pktN + 1;
      assert packet[..pktN] == was.packet + [b];
      assert strayBuf[..strayN] == was.strays;
      if pktN < PACKET_LEN {
        return;
      }
      pktN := 0;
      assert packet[..] == was.packet + [b];
      if ParseClockPacket(packet[..]).Some? {
        rxPkts := Add(rxPkts, 1);
        haveLogged := true;
      } else {
        rxStray := Add(rxStray, PACKET_LEN);
      }
    }

    method Read(bytes: seq<byte>)
      requires Valid()
      modifies this, packet, strayBuf
      ensures Valid() && Value() == OnBytes(old(Value()), bytes)
    {
      ghost var start := Value();
      for k := 0 to |bytes|
        invariant Valid() && Value() == OnBytes(start, bytes[..k])
      {
        assert bytes[..k + 1][..k] == bytes[..k];
        Accept(bytes[k]);
      }
      assert bytes[..|bytes|] == bytes;
    }

    method ReadError()
      requires Valid()
      modifies this
      ensures Valid() && Value() == OnError(old(Value()))
    {
      rxErrs := Add(rxErrs, 1);
      dropped := dropped + pktN;
      pktN := 0;
    }

    method Timeout(stalled: bool)
      requires Valid()
      modifies this
      ensures Valid() && Value() == OnTimeout(old(Value()), stalled)
    {
      if pktN > 0 && stalled {
        rxStray := Add(rxStray, pktN);
        pktN := 0;
      }
      TakeStrayBytes();
    }
  }

  // Whole runs

  datatype Event = Bytes(bytes: seq<byte>) | Error | Timeout(stalled: bool)

  function OnEvent(rx: Rx, e: Event): Rx {
    match e
    case Bytes(bytes) => OnBytes(rx, bytes)
    case Error => OnError(rx)
    case Timeout(stalled) => OnTimeout(rx, stalled)
  }

  function Run(rx: Rx, events: seq<Event>): Rx
    decreases |events|
  {
    if events == [] then rx else OnEvent(Run(rx, events[..|events| - 1]), events[|events| - 1])
  }

  function Received(events: seq<Event>): nat
    decreases |events|
  {
    if events == [] then 0
    else
      var last := events[|events| - 1];
      Received(events[..|events| - 1]) + if last.Bytes? then |last.bytes| else 0
  }

  /** Everything the state accounts for, with the wrapping counters taken as they stand. */
  function Accounted(rx: Rx): nat {
    rx.preLock + rx.dropped + rx.stray + |rx.strays| + PACKET_LEN * rx.pkts + |rx.packet|
  }

  /** Equal modulo the width of the counters. */
  predicate Same(a: int, b: int) {
    (a - b) % U32_MOD == 0
  }

  lemma SameTrans(a: int, b: int, c: int)
    requires Same(a, b) && Same(b, c)
    ensures Same(a, c)
  {
  }

  lemma AddWraps(counter: u32, n: nat)
    ensures Same(Add(counter, n), counter + n)
    ensures Same(PACKET_LEN * Add(counter, 1), PACKET_LEN * counter + PACKET_LEN)
  {
  }

  lemma TakeStrayBalances(rx: Rx)
    ensures Same(Accounted(TakeStray(rx)), Accounted(rx))
  {
    AddWraps(rx.stray, |rx.strays|);
  }

  lemma ByteBalances(rx: Rx, b: byte)
    requires Bounded(rx)
    ensures Bounded(OnByte(rx, b)) && Same(Accounted(OnByte(rx, b)), Accounted(rx) + 1)
  {
    AddWraps(rx.pkts, 1);
    AddWraps(rx.stray, PACKET_LEN);
    TakeStrayBalances(rx);
  }

  lemma {:induction false} BytesBalance(rx: Rx, bytes: seq<byte>)
    requires Bounded(rx)
    ensures Bounded(OnBytes(rx, bytes)) && Same(Accounted(OnBytes(rx, bytes)), Accounted(rx) + |bytes|)
    decreases |bytes|
  {
    if bytes != [] {
      var before := bytes[..|bytes| - 1];
      var mid := OnBytes(rx, before);
      BytesBalance(rx, before);
      ByteBalances(mid, bytes[|bytes| - 1]);
      SameTrans(Accounted(OnBytes(rx, bytes)), Accounted(mid) + 1, Accounted(rx) + |bytes|);
    }
  }

  lemma TimeoutBalances(rx: Rx, stalled: bool)
    requires Bounded(rx)
    ensures Bounded(OnTimeout(rx, stalled)) && Same(Accounted(OnTimeout(rx, stalled)), Accounted(rx))
  {
    AddWraps(rx.stray, |rx.packet|);
    var mid := if stalled then rx.(stray := Add(rx.stray, |rx.packet|), packet := []) else rx;
    TakeStrayBalances(mid);
    SameTrans(Accounted(OnTimeout(rx, stalled)), Accounted(mid), Accounted(rx));
  }

  /**
    Conservation: over any run of reads, errors and timeouts every byte received is accounted for
    exactly once, up to the wrap of the counters, and the buffers never overflow.
   */
  lemma {:induction false} EveryByteAccounted(events: seq<Event>)
    ensures var rx := Run(Boot(), events);
            Bounded(rx) && Same(Accounted(rx), Received(events))
    decreases |events|
  {
    if events != [] {
      var rx := Run(Boot(), events[..|events| - 1]);
      var e := events[|events| - 1];
      EveryByteAccounted(events[..|events| - 1]);
      match e
      case Bytes(bytes) =>
        BytesBalance(rx, bytes);
        SameTrans(Accounted(OnBytes(rx, bytes)), Accounted(rx) + |bytes|, Received(events));
      case Error =>
      case Timeout(stalled) =>
        TimeoutBalances(rx, stalled);
        SameTrans(Accounted(OnTimeout(rx, stalled)), Accounted(rx), Received(events));
    }
  }

  lemma ByteFrames(rx: Rx, b: byte)
    requires Bounded(rx)
    ensures var s := Framing.Step(rx.packet, b);
            var rx' := OnByte(rx, b);
            && rx'.packet == s.partial
            && rx'.pkts == Add(rx.pkts, |s.times|)
            && (rx'.locked <==> rx.locked || s.times != [])
  {
  }

  lemma AddAdds(counter: u32, m: nat, n: nat)
    ensures Add(Add(counter, m), n) == Add(counter, m + n)
  {
  }

  /** Between errors and stalls the probe frames exactly as the firmware does and counts its valid frames. */
  lemma {:induction false} FramesAsFirmwareDoes(rx: Rx, bytes: seq<byte>)
    requires Bounded(rx)
    ensures var f := Framing.Feed(rx.packet, bytes);
            var rx' := OnBytes(rx, bytes);
            && rx'.packet == f.partial
            && rx'.pkts == Add(rx.pkts, |f.times|)
            && (rx'.locked <==> rx.locked || f.times != [])
    decreases |bytes|
  {
    if bytes != [] {
      var before := bytes[..|bytes| - 1];
      var b := bytes[|bytes| - 1];
      var mid := OnBytes(rx, before);
      var f := Framing.Feed(rx.packet, before);
      var s := Framing.Step(f.partial, b);
      assert Framing.Feed(rx.packet, bytes) == Framing.Fed(s.partial, f.times + s.times) by {
        assert bytes == before + [b];
        Framing.FeedOneMore(rx.packet, before, b);
      }
      assert mid.packet == f.partial && mid.pkts == Add(rx.pkts, |f.times|)
             && (mid.locked <==> rx.locked || f.times != []) by {
        FramesAsFirmwareDoes(rx, before);
      }
      assert Bounded(mid) by {
        BytesBalance(rx, before);
      }
      ByteFrames(mid, b);
      AddAdds(rx.pkts, |f.times|, |s.times|);
      assert |f.times + s.times| == |f.times| + |s.times|;
    }
  }

  // Where the bytes go

  /** How many bytes a framer meets between frames. */
  function Skipped(partial: seq<byte>, bytes: seq<byte>): nat
    requires Framing.IsPartial(partial)
    decreases |bytes|
  {
    if bytes == [] then 0
    else
      (if partial == [] && bytes[0] != 0x60 then 1 else 0) +
      Skipped(Framing.Step(partial, bytes[0]).partial, bytes[1..])
  }

  /** How many whole packets it rejects. */
  function Rejected(partial: seq<byte>, bytes: seq<byte>): nat
    requires Framing.IsPartial(partial)
    decreases |bytes|
  {
    if bytes == [] then 0
    else
      var s := Framing.Step(partial, bytes[0]);
      (if |partial| == 5 && s.times == [] then 1 else 0) + Rejected(s.partial, bytes[1..])
  }

  lemma {:induction false} FirstByte(rx: Rx, bytes: seq<byte>)
    requires bytes != []
    ensures OnBytes(rx, bytes) == OnBytes(OnByte(rx, bytes[0]), bytes[1..])
    decreases |bytes|
  {
    var n := |bytes| - 1;
    if n == 0 {
      assert bytes[..0] == [] && bytes[1..] == [];
      assert OnBytes(rx, []) == rx;
    } else {
      FirstByte(rx, bytes[..n]);
      assert bytes[..n][1..] == bytes[1..][..n - 1];
    }
  }

  lemma CountFirst(partial: seq<byte>, bytes: seq<byte>)
    requires Framing.IsPartial(partial) && bytes != []
    ensures var rest := Framing.Step(partial, bytes[0]).partial;
            && Skipped(partial, bytes) == Skipped(partial, [bytes[0]]) + Skipped(rest, bytes[1..])
            && Rejected(partial, bytes) == Rejected(partial, [bytes[0]]) + Rejected(rest, bytes[1..])
  {
    assert [bytes[0]][1..] == [];
  }

  /** Strays counted and still to be counted, as the wrapping counter will show them. */
  function StrayTotal(rx: Rx): u32 {
    Add(rx.stray, |rx.strays|)
  }

  /**
    Bytes between frames are strays once a frame has been seen and are not counted before; the bytes
    of a rejected packet are strays either way; and a valid frame is never counted as stray.
   */
  predicate Sorted(rx: Rx, rx': Rx, skipped: nat, rejected: nat) {
    && (rx.locked ==>
          rx'.locked && rx'.preLock == rx.preLock && StrayTotal(rx') == Add(StrayTotal(rx), skipped + 6 * rejected))
    && (!rx'.locked ==>
          && rx'.strays == rx.strays && rx'.preLock == rx.preLock + skipped
          && StrayTotal(rx') == Add(StrayTotal(rx), 6 * rejected))
    && rx'.errs == rx.errs && rx'.dropped == rx.dropped
  }

  lemma SortedByte(rx: Rx, b: byte)
    requires Bounded(rx)
    ensures Sorted(rx, OnByte(rx, b), Skipped(rx.packet, [b]), Rejected(rx.packet, [b]))
  {
    CountOne(rx.packet, b);
    ByteStrays(rx, b);
  }

  lemma CountOne(partial: seq<byte>, b: byte)
    requires Framing.IsPartial(partial)
    ensures Skipped(partial, [b]) == if partial == [] && b != 0x60 then 1 else 0
    ensures Rejected(partial, [b]) == if |partial| == 5 && Framing.Step(partial, b).times == [] then 1 else 0
  {
    assert [b][1..] == [];
  }

  lemma ByteStrays(rx: Rx, b: byte)
    requires Bounded(rx)
    ensures var rx' := OnByte(rx, b);
            var skipped := if rx.packet == [] && b != 0x60 then 1 else 0;
            var rejected := if |rx.packet| == 5 && Framing.Step(rx.packet, b).times == [] then 1 else 0;
            Sorted(rx, rx', skipped, rejected)
  {
    AddAdds(rx.stray, |rx.strays|, 1);
    AddAdds(rx.stray, |rx.strays|, 6);
    AddAdds(rx.stray, 6, |rx.strays|);
    AddAdds(rx.stray, |rx.strays|, 0);
    if rx.packet == [] {
      if b != 0x60 && rx.locked && |rx.strays| >= RX_LINE {
        assert StrayTotal(TakeStray(rx)) == StrayTotal(rx);
      }
    } else {
      ByteFrames(rx, b);
    }
  }

  lemma SortedChain(a: Rx, b: Rx, c: Rx, s1: nat, r1: nat, s2: nat, r2: nat)
    requires Sorted(a, b, s1, r1) && Sorted(b, c, s2, r2)
    ensures Sorted(a, c, s1 + s2, r1 + r2)
  {
    AddAdds(StrayTotal(a), s1 + 6 * r1, s2 + 6 * r2);
    AddAdds(StrayTotal(a), 6 * r1, 6 * r2);
  }

  lemma {:induction false} StraysExactly(rx: Rx, bytes: seq<byte>)
    requires Bounded(rx)
    ensures Sorted(rx, OnBytes(rx, bytes), Skipped(rx.packet, bytes), Rejected(rx.packet, bytes))
    decreases |bytes|
  {
    if bytes != [] {
      var b, rest := bytes[0], bytes[1..];
      var mid := OnByte(rx, b);
      assert Bounded(mid) && mid.packet == Framing.Step(rx.packet, b).partial by {
        ByteBalances(rx, b);
        ByteFrames(rx, b);
      }
      FirstByte(rx, bytes);
      SortedByte(rx, b);
      StraysExactly(mid, rest);
      CountFirst(rx.packet, bytes);
      SortedChain(rx, mid, OnBytes(mid, rest), Skipped(rx.packet, [b]), Rejected(rx.packet, [b]),
                  Skipped(mid.packet, rest), Rejected(mid.packet, rest));
    }
  }

  function Errors(events: seq<Event>): nat
    decreases |events|
  {
    if events == [] then 0
    else Errors(events[..|events| - 1]) + if events[|events| - 1].Error? then 1 else 0
  }

  /** Only read errors drop bytes uncounted, and each is counted and drops at most five. */
  lemma {:induction false} ErrorsAreCounted(events: seq<Event>)
    ensures var rx := Run(Boot(), events);
            rx.errs == Errors(events) % U32_MOD && rx.dropped <= 5 * Errors(events)
    decreases |events|
  {
    if events != [] {
      var before := events[..|events| - 1];
      var e := events[|events| - 1];
      ErrorsAreCounted(before);
      EveryByteAccounted(before);
      if e.Bytes? {
        StraysExactly(Run(Boot(), before), e.bytes);
      }
    }
  }

  /** An error throws away the unfinished frame and nothing else, and counts it nowhere else. */
  lemma ErrorDropsFrame(rx: Rx)
    ensures var rx' := OnError(rx);
            rx' == rx.(packet := [], errs := rx'.errs, dropped := rx'.dropped) && Accounted(rx') == Accounted(rx)
  {
  }

  /** After the 50 ms timer nothing waits to be counted, and an unfinished frame only if it is not stalled. */
  lemma TimeoutFlushes(rx: Rx, stalled: bool)
    requires Bounded(rx)
    ensures var rx' := OnTimeout(rx, stalled);
            && rx' == rx.(strays := [], packet := if stalled then [] else rx.packet, stray := rx'.stray)
            && Same(rx'.stray, rx.stray + |rx.strays| + if stalled then |rx.packet| else 0)
  {
    TimeoutBalances(rx, stalled);
  }
}
