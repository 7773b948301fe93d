/**
  `dhcp_task` of `src/net_services.rs`: one packet at a time against the lease table, and what
  clients can rely on over whole runs (section 4.3.2 of RFC 2131).
 */
module DhcpServer {
  import opened Words
  import opened DhcpPacket
  import opened Leases

  const REPLY_BUF := 400

  datatype Decision = Ignore | Reply(msgType: byte, yiaddr: seq<byte>)

  function MacOf(req: seq<byte>): Mac
    requires |req| >= HEADER_LEN
  {
    Mac(req[28], req[29], req[30], req[31], req[32], req[33])
  }

  /** Any DHCP message, of whatever type, takes or refreshes a lease. */
  predicate IsServed(req: seq<byte>) {
    |req| >= HEADER_LEN && DhcpMsgType(req).Some?
  }

  function NextTable(t: Table, req: seq<byte>): (t': Table)
    requires |t.leases| == POOL_SIZE
    ensures |t'.leases| == POOL_SIZE
  {
    if IsServed(req) then Serve(t, MacOf(req)) else t
  }

  function Decide(t: Table, req: seq<byte>): Decision
    requires |t.leases| == POOL_SIZE
  {
    if !IsServed(req) then Ignore
    else
      var yi := OfferedIp(Choose(t.leases, MacOf(req)));
      var msg := DhcpMsgType(req).value;
      var want := RequestedIp(req);
      if msg == DHCP_DISCOVER then Reply(DHCP_OFFER, yi)
      else if msg != DHCP_REQUEST then Ignore
      else if want.Some? && want.value != yi then Reply(DHCP_NAK, [0, 0, 0, 0])
      else Reply(DHCP_ACK, yi)
  }

  /**
    The type of answer, over the packet's own option list: an OFFER (2) to a DISCOVER (1), and to a
    REQUEST (3) a NAK (6) exactly when it names another address than its slot's, else an ACK (5).
    A packet of any other type takes a lease and is not answered.
   */
  lemma ReplyTypeExactlyWhen(t: Table, req: seq<byte>, slot: byte)
    requires |t.leases| == POOL_SIZE && slot < 8
    requires |req| >= 240 ==> slot == Choose(t.leases, MacOf(req))
    ensures var d := Decide(t, req);
            var own := [192, 168, 0, 10 + slot];
            var refused := exists address :: AsksFor(req, address) && address != own;
            && (d == Reply(2, own) <==> IsOfType(req, 1))
            && (d == Reply(6, [0, 0, 0, 0]) <==> IsOfType(req, 3) && refused)
            && (d == Reply(5, own) <==> IsOfType(req, 3) && !refused)
            && (d == Ignore <==> !IsOfType(req, 1) && !IsOfType(req, 3))
    ensures NextTable(t, req) != t <==> exists msg: byte :: IsOfType(req, msg)
    ensures NextTable(t, req) != t ==>
              var m := NextTable(t, req).leases[slot].mac;
              [m.b0, m.b1, m.b2, m.b3, m.b4, m.b5] == req[28..34]
  {
    ReadsTypeAndAddress(req);
  }

  class Server {
    const leases: array<Lease>
    const reply: array<byte>
    var stamp: u32

    ghost predicate Valid()
      reads this
    {
      leases.Length == POOL_SIZE && reply.Length == REPLY_BUF
    }

    ghost function Value(): Table
      reads this, leases
    {
      Table(leases[..], stamp)
    }

    constructor ()
      ensures Valid() && fresh(leases) && fresh(reply)
      ensures Value() == NewTable(POOL_SIZE)
    {
      leases := new Lease[POOL_SIZE](_ => EMPTY);
      reply := new byte[REPLY_BUF](_ => 0);
      stamp := 0;
      new;
      assert leases[..] == NewTable(POOL_SIZE).leases;
    }

    /** Sends what `Decide` says, as a packet that decodes to that message type and address for that client. */
    method Handle(req: seq<byte>) returns (sent: Option<seq<byte>>)
      requires Valid()
      modifies this, leases, reply
      ensures Valid()
      ensures Value() == NextTable(old(Value()), req)
      ensures var d := Decide(old(Value()), req);
              && (sent.Some? <==> d.Reply?)
              && (d.Reply? ==>
                    && |sent.value| >= 300
                    && DhcpMsgType(sent.value) == Some(d.msgType)
                    && OptionsFrom(sent.value, HEADER_LEN) == ReplyOptions(d.msgType)
                    && sent.value[4..8] == req[4..8]
                    && sent.value[16..20] == d.yiaddr
                    && sent.value[28..44] == req[28..44])
    {
      if |req| < HEADER_LEN {
        return None;
      }
      var mac := MacOf(req);
      var msg := DhcpMsgType(req);
      if msg.None? {
        return None;
      }
      var slot: byte;
      slot, stamp := SlotForMac(leases, stamp, mac);
      var yi := OfferedIp(slot);
      var replyType;
      if msg.value == DHCP_DISCOVER {
        replyType := DHCP_OFFER;
      } else if msg.value == DHCP_REQUEST {
        var want := RequestedIp(req);
        replyType := if want.Some? && want.value != yi then DHCP_NAK else DHCP_ACK;
      } else {
        return None;
      }
      var yiaddr := if replyType == DHCP_NAK then [0, 0, 0, 0] else yi;
      assert Decide(old(Value()), req) == Reply(replyType, yiaddr);
      sent := Send(req, yiaddr, replyType);
    }

    method Send(req: seq<byte>, yiaddr: seq<byte>, msgType: byte) returns (sent: Option<seq<byte>>)
      requires Valid() && |req| >= HEADER_LEN && |yiaddr| == 4
      modifies reply
      ensures sent.Some? && |sent.value| >= 300
      ensures DhcpMsgType(sent.value) == Some(msgType)
      ensures OptionsFrom(sent.value, HEADER_LEN) == ReplyOptions(msgType)
      ensures sent.value[4..8] == req[4..8] && sent.value[28..44] == req[28..44]
      ensures sent.value[16..20] == if msgType == DHCP_NAK then [0, 0, 0, 0] else yiaddr
    {
      ghost var was := reply[..];
      var len := WriteOfferOrAck(req, reply, yiaddr, msgType);
      ghost var bytes := ReplyBytes(req, yiaddr, msgType);
      ReplyDecodes(req, yiaddr, msgType, was[|bytes|..], len.value);
      assert reply[..len.value] == (bytes + was[|bytes|..])[..len.value];
      sent := Some(reply[..len.value]);
    }
  }

  // Whole runs

  function Run(t: Table, reqs: seq<seq<byte>>): (t': Table)
    requires |t.leases| == POOL_SIZE
    ensures |t'.leases| == POOL_SIZE
    decreases |reqs|
  {
    if reqs == [] then t else NextTable(Run(t, reqs[..|reqs| - 1]), reqs[|reqs| - 1])
  }

  /** The clients served, in order. */
  function Served(reqs: seq<seq<byte>>): (macs: seq<Mac>)
    ensures |macs| <= |reqs|
    decreases |reqs|
  {
    if reqs == [] then []
    else
      var last := reqs[|reqs| - 1];
      Served(reqs[..|reqs| - 1]) + if IsServed(last) then [MacOf(last)] else []
  }

  lemma {:induction false} RunServesAll(t: Table, reqs: seq<seq<byte>>)
    requires |t.leases| == POOL_SIZE
    ensures Run(t, reqs) == ServeAll(t, Served(reqs))
    decreases |reqs|
  {
    if reqs != [] {
      var before := reqs[..|reqs| - 1];
      RunServesAll(t, before);
      var macs := Served(reqs);
      if IsServed(reqs[|reqs| - 1]) {
        assert macs[..|macs| - 1] == Served(before);
      } else {
        assert macs == Served(before);
      }
    }
  }

  lemma {:induction false} RunAppend(t: Table, a: seq<seq<byte>>, b: seq<seq<byte>>)
    requires |t.leases| == POOL_SIZE
    ensures Run(t, a + b) == Run(Run(t, a), b)
    decreases |b|
  {
    if b == [] {
      assert a + b == a;
    } else {
      assert (a + b)[..|a + b| - 1] == a + b[..|b| - 1];
      RunAppend(t, a, b[..|b| - 1]);
    }
  }

  ghost predicate Injective(leases: seq<Lease>) {
    forall i, j :: 0 <= i < j < |leases| && leases[i].mac != NO_MAC ==> leases[i].mac != leases[j].mac
  }

  lemma {:induction false} RunStaysInjective(reqs: seq<seq<byte>>)
    ensures Injective(Run(NewTable(POOL_SIZE), reqs).leases)
    decreases |reqs|
  {
    if reqs != [] {
      var before := Run(NewTable(POOL_SIZE), reqs[..|reqs| - 1]);
      var req := reqs[|reqs| - 1];
      RunStaysInjective(reqs[..|reqs| - 1]);
      if IsServed(req) {
        var c := Choose(before.leases, MacOf(req));
        assert forall j :: 0 <= j < |before.leases| && before.leases[j].mac == MacOf(req) != NO_MAC ==> j == c;
      }
    }
  }

  /** After any number of packets two clients in the table have different addresses, all in .10 to .17. */
  lemma AddressesAreDistinct(reqs: seq<seq<byte>>, i: nat, j: nat)
    requires i < j < POOL_SIZE
    requires Run(NewTable(POOL_SIZE), reqs).leases[i].mac != NO_MAC
    ensures Run(NewTable(POOL_SIZE), reqs).leases[i].mac != Run(NewTable(POOL_SIZE), reqs).leases[j].mac
    ensures OfferedIp(i) != OfferedIp(j)
    ensures forall k: byte :: k < POOL_SIZE ==> OfferedIp(k)[..3] == SERVER_IP[..3] && 10 <= OfferedIp(k)[3] <= 17
  {
    RunStaysInjective(reqs);
  }

  /** Every OFFER and ACK carries the address of the one slot that then holds the sender. */
  lemma ReplyCarriesOwnSlot(reqs: seq<seq<byte>>, req: seq<byte>)
    requires Decide(Run(NewTable(POOL_SIZE), reqs), req).Reply?
    ensures var t := Run(NewTable(POOL_SIZE), reqs);
            var t' := NextTable(t, req);
            var c := Choose(t.leases, MacOf(req));
            && t'.leases[c].mac == MacOf(req)
            && (MacOf(req) != NO_MAC ==> forall i :: 0 <= i < POOL_SIZE && t'.leases[i].mac == MacOf(req) ==> i == c)
            && (Decide(t, req).msgType != DHCP_NAK ==> Decide(t, req).yiaddr == OfferedIp(c))
  {
    var all := reqs + [req];
    assert all[..|all| - 1] == reqs;
    RunStaysInjective(all);
  }

  /**
    A client offered an address that then requests it gets an ACK for it, provided at most seven
    distinct other clients were served in between.
   */
  lemma OfferedIsAcked(pre: seq<seq<byte>>, offer: seq<byte>, mid: seq<seq<byte>>, request: seq<byte>)
    requires |pre| + 1 + |mid| < U32_MOD
    requires var t := Run(NewTable(POOL_SIZE), pre);
             && Decide(t, offer).Reply? && DhcpMsgType(offer) == Some(DHCP_DISCOVER)
             && IsServed(request) && DhcpMsgType(request) == Some(DHCP_REQUEST)
             && MacOf(request) == MacOf(offer) != NO_MAC
             && RequestedIp(request) == Some(Decide(t, offer).yiaddr)
    requires |Others(Served(mid), MacOf(offer))| <= 7
    ensures var t := Run(NewTable(POOL_SIZE), pre);
            Decide(Run(NewTable(POOL_SIZE), pre + [offer] + mid), request) == Reply(DHCP_ACK, Decide(t, offer).yiaddr)
  {
    var t1, order1 := AfterServing(pre, offer);
    var mac := MacOf(offer);
    RunAppend(NewTable(POOL_SIZE), pre + [offer], mid);
    RunServesAll(t1, mid);
    LeaseIsRetained(t1, order1, mac, order1[0].slot, Served(mid));
  }

  /** Once served, a client heads the recency list. */
  lemma AfterServing(pre: seq<seq<byte>>, req: seq<byte>) returns (t1: Table, order1: seq<Holder>)
    requires |pre| + 1 < U32_MOD
    requires IsServed(req) && MacOf(req) != NO_MAC
    ensures t1 == Run(NewTable(POOL_SIZE), pre + [req]) && t1.stamp <= |pre| + 1
    ensures Represents(t1, order1) && order1 != []
    ensures order1[0] == Holder(MacOf(req), Choose(Run(NewTable(POOL_SIZE), pre).leases, MacOf(req)))
  {
    RunServesAll(NewTable(POOL_SIZE), pre);
    assert (pre + [req])[..|pre|] == pre;
    t1, order1 := BootHeadsList(POOL_SIZE, Served(pre), MacOf(req));
  }
}
