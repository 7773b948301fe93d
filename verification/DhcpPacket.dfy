/**
  DHCP messages of `src/net_proto.rs`: the option scanner and the reply writer
  (sections 3.1, 3.2 and 9.6 of RFC 2132).
 */
module DhcpPacket {
  import opened Words

  const HEADER_LEN := 240
  const MAGIC: seq<byte> := [99, 130, 83, 99]
  const SERVER_IP: seq<byte> := [192, 168, 0, 1]
  const POOL_START := 10
  const POOL_SIZE := 8

  const DHCP_DISCOVER: byte := 1
  const DHCP_OFFER: byte := 2
  const DHCP_REQUEST: byte := 3
  const DHCP_ACK: byte := 5
  const DHCP_NAK: byte := 6

  const PAD: byte := 0
  const END: byte := 255

  function OfferedIp(slot: byte): seq<byte>
    requires slot < 0x100 - POOL_START
  {
    [192, 168, 0, POOL_START + slot]
  }

  // Reading options

  /** What the scan from offset `i` finds for `code`. */
  function FindFrom(packet: seq<byte>, i: nat, code: byte): Option<seq<byte>>
    decreases |packet| - i
  {
    if i >= |packet| then None
    else if packet[i] == PAD then FindFrom(packet, i + 1, code)
    else if packet[i] == END || i + 1 >= |packet| then None
    else
      var end := i + 2 + packet[i + 1];
      if end > |packet| then None
      else if packet[i] == code then Some(packet[i + 2..end])
      else FindFrom(packet, end, code)
  }

  predicate IsDhcp(packet: seq<byte>) {
    |packet| >= HEADER_LEN && packet[236..240] == MAGIC
  }

  function OptionOf(packet: seq<byte>, code: byte): Option<seq<byte>> {
    if IsDhcp(packet) then FindFrom(packet, HEADER_LEN, code) else None
  }

  function DhcpMsgType(packet: seq<byte>): Option<byte> {
    var v := OptionOf(packet, 53);
    if v.Some? && v.value != [] then Some(v.value[0]) else None
  }

  function RequestedIp(packet: seq<byte>): Option<seq<byte>> {
    var v := OptionOf(packet, 50);
    if v.Some? && |v.value| == 4 then v else None
  }

  method FindOption(packet: seq<byte>, code: byte) returns (r: Option<seq<byte>>)
    ensures r == OptionOf(packet, code)
  {
    if |packet| < HEADER_LEN || packet[236..240] != MAGIC {
      return None;
    }
    var i := HEADER_LEN;
    while i < |packet|
      invariant HEADER_LEN <= i
      invariant FindFrom(packet, HEADER_LEN, code) == FindFrom(packet, i, code)
      decreases |packet| - i
    {
      if packet[i] == PAD {
        i := i + 1;
      } else if packet[i] == END {
        break;
      } else {
        if i + 1 >= |packet| {
          break;
        }
        var end := i + 2 + packet[i + 1];
        if end > |packet| {
          break;
        }
        if packet[i] == code {
          return Some(packet[i + 2..end]);
        }
        i := end;
      }
    }
    r := None;
  }

  // The option list of a message

  datatype Opt = Opt(code: byte, data: seq<byte>)

  function FirstMatch(opts: seq<Opt>, code: byte): Option<seq<byte>> {
    if opts == [] then None
    else if opts[0].code == code then Some(opts[0].data)
    else FirstMatch(opts[1..], code)
  }

  predicate Encodable(opts: seq<Opt>) {
    forall k :: 0 <= k < |opts| ==> opts[k].code != PAD && opts[k].code != END && |opts[k].data| <= 255
  }

  function OptHead(o: Opt): (head: seq<byte>)
    ensures |head| == 2
  {
    [o.code, |o.data| % 0x100]
  }

  function EncodeOpt(o: Opt): seq<byte> {
    OptHead(o) + o.data
  }

  function Encode(opts: seq<Opt>): seq<byte> {
    if opts == [] then [] else EncodeOpt(opts[0]) + Encode(opts[1..])
  }

  /** The options of any packet, well formed or not, up to END or the first truncated one. */
  function OptionsFrom(packet: seq<byte>, i: nat): seq<Opt>
    decreases |packet| - i
  {
    if i >= |packet| then []
    else if packet[i] == PAD then OptionsFrom(packet, i + 1)
    else if packet[i] == END || i + 1 >= |packet| || i + 2 + packet[i + 1] > |packet| then []
    else
      var end := i + 2 + packet[i + 1];
      [Opt(packet[i], packet[i + 2..end])] + OptionsFrom(packet, end)
  }

  /** On every packet the scan returns the first option with the code asked for. */
  lemma {:induction false} FindsFirstMatch(packet: seq<byte>, i: nat, code: byte)
    ensures code != PAD && code != END ==> FindFrom(packet, i, code) == FirstMatch(OptionsFrom(packet, i), code)
    ensures code == PAD || code == END ==> FindFrom(packet, i, code) == None
    decreases |packet| - i
  {
    if i < |packet| {
      if packet[i] == PAD {
        FindsFirstMatch(packet, i + 1, code);
      } else if packet[i] != END && i + 1 < |packet| && i + 2 + packet[i + 1] <= |packet| {
        var end := i + 2 + packet[i + 1];
        FindsFirstMatch(packet, end, code);
        var opts := OptionsFrom(packet, i);
        assert opts[1..] == OptionsFrom(packet, end);
      }
    }
  }

  /** Round trip: an encoded list followed by END, or by nothing, reads back as that list. */
  lemma {:induction false} DecodesEncoded(packet: seq<byte>, i: nat, opts: seq<Opt>)
    requires Encodable(opts)
    requires At(packet, i, Encode(opts))
    requires i + |Encode(opts)| == |packet| || packet[i + |Encode(opts)|] == END
    ensures OptionsFrom(packet, i) == opts
    decreases |opts|
  {
    if opts != [] {
      EncodedHead(packet, i, opts);
      var end := i + 2 + |opts[0].data|;
      OptionsHead(packet, i, opts[0]);
      DecodesEncoded(packet, end, opts[1..]);
      assert opts == [opts[0]] + opts[1..];
    }
  }

  lemma OptionsHead(packet: seq<byte>, i: nat, o: Opt)
    requires o.code != PAD && o.code != END && |o.data| <= 255
    requires At(packet, i + 2, o.data) && packet[i] == o.code && packet[i + 1] == |o.data|
    ensures OptionsFrom(packet, i) == [o] + OptionsFrom(packet, i + 2 + |o.data|)
  {
  }

  lemma OptAt(packet: seq<byte>, i: nat, o: Opt, rest: seq<byte>)
    requires |o.data| <= 255 && At(packet, i, EncodeOpt(o) + rest)
    ensures var n := |o.data|;
            && packet[i] == o.code && packet[i + 1] == n
            && At(packet, i + 2, o.data) && At(packet, i + 2 + n, rest)
  {
    assert EncodeOpt(o) + rest == OptHead(o) + (o.data + rest);
    SplitSlice(packet, i, OptHead(o), o.data + rest);
    SplitSlice(packet, i + 2, o.data, rest);
  }

  lemma EncodedHead(packet: seq<byte>, i: nat, opts: seq<Opt>)
    requires opts != [] && |opts[0].data| <= 255
    requires At(packet, i, Encode(opts))
    ensures var n := |opts[0].data|;
            var rest := Encode(opts[1..]);
            && |Encode(opts)| == 2 + n + |rest|
            && packet[i] == opts[0].code && packet[i + 1] == n
            && At(packet, i + 2, opts[0].data)
            && At(packet, i + 2 + n, rest)
  {
    OptAt(packet, i, opts[0], Encode(opts[1..]));
  }

  /** Encode, then find: the first option with that code, whatever follows END. */
  lemma EncodeThenFind(head: seq<byte>, opts: seq<Opt>, tail: seq<byte>, code: byte)
    requires |head| == HEADER_LEN && IsDhcp(head) && Encodable(opts)
    ensures OptionOf(head + Encode(opts) + [END] + tail, code) ==
              if code == PAD || code == END then None else FirstMatch(opts, code)
  {
    var p := head + Encode(opts) + [END] + tail;
    Parts(head, Encode(opts), [END] + tail);
    assert p == head + Encode(opts) + ([END] + tail);
    SubSlice(p, 0, HEADER_LEN, 236, 240);
    assert p[HEADER_LEN + |Encode(opts)|..][0] == END;
    DecodesEncoded(p, HEADER_LEN, opts);
    FindsFirstMatch(p, HEADER_LEN, code);
  }

  lemma {:induction false} EncodeAppend(opts: seq<Opt>, o: Opt)
    ensures Encode(opts + [o]) == Encode(opts) + EncodeOpt(o)
    decreases |opts|
  {
    if opts == [] {
      assert opts + [o] == [o];
      assert [o][1..] == [];
    } else {
      assert (opts + [o])[1..] == opts[1..] + [o];
      EncodeAppend(opts[1..], o);
    }
  }

  // Writing a reply

  const CAPTIVE_URI: seq<byte> :=
    [0x68, 0x74, 0x74, 0x70, 0x3a, 0x2f, 0x2f, 0x31, 0x39, 0x32, 0x2e, 0x31, 0x36, 0x38, 0x2e, 0x30, 0x2e, 0x31, 0x2f]

  const LAN: seq<byte> := [0x6c, 0x61, 0x6e]

  const ADDRESS_OPTIONS: seq<Opt> :=
    [Opt(1, [255, 255, 255, 0]), Opt(3, SERVER_IP), Opt(6, SERVER_IP), Opt(51, [0, 1, 81, 128])]

  const NAME_OPTIONS: seq<Opt> :=
    [Opt(28, [192, 168, 0, 255]), Opt(15, LAN), Opt(114, CAPTIVE_URI), Opt(160, CAPTIVE_URI)]

  function ReplyOptions(msgType: byte): seq<Opt> {
    [Opt(53, [msgType]), Opt(54, SERVER_IP)] +
    if msgType == DHCP_NAK then [] else ADDRESS_OPTIONS + NAME_OPTIONS
  }

  function HeaderByte(req: seq<byte>, yiaddr: seq<byte>, msgType: byte, k: nat): byte
    requires |req| >= HEADER_LEN && |yiaddr| == 4 && k < HEADER_LEN
  {
    if k == 0 then 2
    else if k == 1 then 1
    else if k == 2 then 6
    else if 4 <= k < 8 then req[k]
    else if 16 <= k < 20 && msgType != DHCP_NAK then yiaddr[k - 16]
    else if 20 <= k < 24 then SERVER_IP[k - 20]
    else if 28 <= k < 44 then req[k]
    else if 236 <= k then MAGIC[k - 236]
    else 0
  }

  function ReplyHeader(req: seq<byte>, yiaddr: seq<byte>, msgType: byte): (h: seq<byte>)
    requires |req| >= HEADER_LEN && |yiaddr| == 4
    ensures |h| == HEADER_LEN
  {
    seq(HEADER_LEN, k requires 0 <= k < HEADER_LEN => HeaderByte(req, yiaddr, msgType, k))
  }

  function ReplyBytes(req: seq<byte>, yiaddr: seq<byte>, msgType: byte): seq<byte>
    requires |req| >= HEADER_LEN && |yiaddr| == 4
  {
    ReplyHeader(req, yiaddr, msgType) + Encode(ReplyOptions(msgType)) + [END]
  }

  /** The buffer holds the header and these options up to `i`, and is as it was from `i` on. */
  ghost predicate Progress(out: array<byte>, i: nat, head: seq<byte>, opts: seq<Opt>, was: seq<byte>)
    reads out
  {
    && i <= out.Length == |was|
    && out[..i] == head + Encode(opts)
    && out[i..] == was[i..]
  }

  /** The `push` closure; an option that does not fit is silently dropped. */
  method Push(out: array<byte>, i: nat, code: byte, data: seq<byte>,
              ghost head: seq<byte>, ghost opts: seq<Opt>, ghost was: seq<byte>)
    returns (i': nat, ghost opts': seq<Opt>)
    requires Progress(out, i, head, opts, was)
    modifies out
    ensures Progress(out, i', head, opts', was)
    ensures if i + 2 + |data| >= out.Length then i' == i && opts' == opts
            else i' == i + 2 + |data| && opts' == opts + [Opt(code, data)]
  {
    if i + 2 + |data| >= out.Length {
      return i, opts;
    }
    ghost var done := out[..i];
    out[i] := code;
    out[i + 1] := |data| % 0x100;
    CopyInto(out, i + 2, data);
    i' := i + 2 + |data|;
    opts' := opts + [Opt(code, data)];
    EncodeAppend(opts, Opt(code, data));
    ghost var opt := EncodeOpt(Opt(code, data));
    assert out[..i'] == done + opt;
    assert done + opt == head + (Encode(opts) + opt);
    assert out[i'..] == was[i..][2 + |data|..];
    SubSlice(was, i, |was|, 2 + |data|, |was| - i);
  }

  method WriteHeader(req: seq<byte>, out: array<byte>, yiaddr: seq<byte>, msgType: byte)
    requires |req| >= HEADER_LEN && |yiaddr| == 4 && out.Length >= HEADER_LEN
    modifies out
    ensures out[..HEADER_LEN] == ReplyHeader(req, yiaddr, msgType)
    ensures out[HEADER_LEN..] == old(out[HEADER_LEN..])
  {
    forall k | 0 <= k < HEADER_LEN {
      out[k] := 0;
    }
    out[0] := 2;
    out[1] := 1;
    out[2] := 6;
    CopyInto(out, 4, req[4..8]);
    if msgType != DHCP_NAK {
      CopyInto(out, 16, yiaddr);
    }
    CopyInto(out, 20, SERVER_IP);
    CopyInto(out, 28, req[28..44]);
    CopyInto(out, 236, MAGIC);
    forall k | 0 <= k < HEADER_LEN
      ensures out[k] == HeaderByte(req, yiaddr, msgType, k)
    {
    }
    assert forall k :: HEADER_LEN <= k < out.Length ==> out[k] == old(out[k]);
  }

  method PushAddresses(out: array<byte>, i: nat, ghost head: seq<byte>, ghost opts: seq<Opt>, ghost was: seq<byte>)
    returns (i': nat, ghost opts': seq<Opt>)
    requires Progress(out, i, head, opts, was) && i + 24 < out.Length
    modifies out
    ensures Progress(out, i', head, opts', was) && i' == i + 24 && opts' == opts + ADDRESS_OPTIONS
  {
    i', opts' := Push(out, i, 1, [255, 255, 255, 0], head, opts, was);
    i', opts' := Push(out, i', 3, SERVER_IP, head, opts', was);
    i', opts' := Push(out, i', 6, SERVER_IP, head, opts', was);
    i', opts' := Push(out, i', 51, [0, 1, 81, 128], head, opts', was);
  }

  method PushNames(out: array<byte>, i: nat, ghost head: seq<byte>, ghost opts: seq<Opt>, ghost was: seq<byte>)
    returns (i': nat, ghost opts': seq<Opt>)
    requires Progress(out, i, head, opts, was) && i + 53 < out.Length
    modifies out
    ensures Progress(out, i', head, opts', was) && i' == i + 53 && opts' == opts + NAME_OPTIONS
  {
    i', opts' := Push(out, i, 28, [192, 168, 0, 255], head, opts, was);
    i', opts' := Push(out, i', 15, LAN, head, opts', was);
    i', opts' := Push(out, i', 114, CAPTIVE_URI, head, opts', was);
    i', opts' := Push(out, i', 160, CAPTIVE_URI, head, opts', was);
  }

  method Finish(out: array<byte>, i: nat, ghost head: seq<byte>, ghost opts: seq<Opt>, ghost was: seq<byte>)
    requires Progress(out, i, head, opts, was) && i < out.Length
    modifies out
    ensures i == |head + Encode(opts)|
    ensures out[..] == head + Encode(opts) + [END] + was[i + 1..]
  {
    out[i] := END;
    assert out[..i] == head + Encode(opts);
    assert out[i + 1..] == was[i..][1..];
    assert out[..] == out[..i] + [END] + out[i + 1..];
  }

  /** Fails exactly on a short request or buffer; otherwise every option is written and nothing after END changes. */
  method WriteOfferOrAck(req: seq<byte>, out: array<byte>, yiaddr: seq<byte>, msgType: byte) returns (r: Option<nat>)
    requires |yiaddr| == 4
    modifies out
    ensures r.None? <==> |req| < HEADER_LEN || out.Length < 360
    ensures r.None? ==> out[..] == old(out[..])
    ensures r.Some? ==>
              var bytes := ReplyBytes(req, yiaddr, msgType);
              && |bytes| <= 327
              && out[..] == bytes + old(out[..])[|bytes|..]
              && r.value == Max(|bytes|, 300) <= out.Length
  {
    if |req| < HEADER_LEN || out.Length < 360 {
      return None;
    }
    ghost var was := out[..];
    WriteHeader(req, out, yiaddr, msgType);
    ghost var head := ReplyHeader(req, yiaddr, msgType);
    ghost var opts: seq<Opt> := [];
    var i := HEADER_LEN;
    i, opts := Push(out, i, 53, [msgType], head, opts, was);
    i, opts := Push(out, i, 54, SERVER_IP, head, opts, was);
    if msgType != DHCP_NAK {
      i, opts := PushAddresses(out, i, head, opts, was);
      i, opts := PushNames(out, i, head, opts, was);
    }
    assert opts == ReplyOptions(msgType);
    Finish(out, i, head, opts, was);
    r := Some(Max(i + 1, 300));
  }

  lemma PaddedDecodes(head: seq<byte>, opts: seq<Opt>, stale: seq<byte>, n: nat)
    requires |head| == HEADER_LEN && Encodable(opts)
    requires |head + Encode(opts) + [END]| <= n <= |head + Encode(opts) + [END] + stale|
    ensures var p := (head + Encode(opts) + [END] + stale)[..n];
            p[..HEADER_LEN] == head && OptionsFrom(p, HEADER_LEN) == opts
  {
    var enc := Encode(opts);
    var full := head + enc + [END] + stale;
    var p := full[..n];
    var end := HEADER_LEN + |enc|;
    Parts(head, enc, [END] + stale);
    assert full == head + enc + ([END] + stale);
    SubSlice(full, 0, n, 0, HEADER_LEN);
    SubSlice(full, 0, n, HEADER_LEN, end);
    assert p[end] == full[end..][0];
    DecodesEncoded(p, HEADER_LEN, opts);
  }

  lemma HeaderFields(p: seq<byte>, req: seq<byte>, yiaddr: seq<byte>, msgType: byte)
    requires |req| >= HEADER_LEN && |yiaddr| == 4
    requires |p| >= HEADER_LEN && p[..HEADER_LEN] == ReplyHeader(req, yiaddr, msgType)
    ensures IsDhcp(p) && p[4..8] == req[4..8] && p[28..44] == req[28..44]
    ensures p[16..20] == (if msgType == DHCP_NAK then [0, 0, 0, 0] else yiaddr)
    ensures p[..4] == [2, 1, 6, 0] && p[20..24] == [192, 168, 0, 1]
    ensures forall k :: 8 <= k < 16 || 24 <= k < 28 || 44 <= k < 236 ==> p[k] == 0
  {
    var head := ReplyHeader(req, yiaddr, msgType);
    assert forall k :: 0 <= k < HEADER_LEN ==> p[k] == head[k];
    assert p[236..240] == MAGIC;
  }

  /**
    A reply on the wire decodes to exactly the options pushed, whatever stale bytes follow END, and
    carries the request's transaction id and hardware address and the address given.
   */
  lemma ReplyDecodes(req: seq<byte>, yiaddr: seq<byte>, msgType: byte, stale: seq<byte>, n: nat)
    requires |req| >= HEADER_LEN && |yiaddr| == 4
    requires var bytes := ReplyBytes(req, yiaddr, msgType); |bytes| <= n <= |bytes + stale|
    ensures var p := (ReplyBytes(req, yiaddr, msgType) + stale)[..n];
            && IsDhcp(p)
            && OptionsFrom(p, HEADER_LEN) == ReplyOptions(msgType)
            && DhcpMsgType(p) == Some(msgType)
            && p[4..8] == req[4..8] && p[28..44] == req[28..44]
            && p[16..20] == (if msgType == DHCP_NAK then [0, 0, 0, 0] else yiaddr)
            && p[..4] == [2, 1, 6, 0] && p[20..24] == [192, 168, 0, 1]
            && (forall k :: 8 <= k < 16 || 24 <= k < 28 || 44 <= k < 236 ==> p[k] == 0)
  {
    var p := (ReplyBytes(req, yiaddr, msgType) + stale)[..n];
    PaddedDecodes(ReplyHeader(req, yiaddr, msgType), ReplyOptions(msgType), stale, n);
    HeaderFields(p, req, yiaddr, msgType);
    FindsFirstMatch(p, HEADER_LEN, 53);
  }

  /** `msg` is the first byte of the packet's option 53, which section 9.6 of RFC 2132 calls the message type. */
  predicate IsOfType(packet: seq<byte>, msg: byte) {
    && |packet| >= 240 && packet[236..240] == [99, 130, 83, 99]
    && var kind := FirstMatch(OptionsFrom(packet, 240), 53);
       kind.Some? && kind.value != [] && kind.value[0] == msg
  }

  /** The packet names four bytes as the address it wants in its option 50. */
  predicate AsksFor(packet: seq<byte>, address: seq<byte>) {
    |address| == 4 && FirstMatch(OptionsFrom(packet, 240), 50) == Some(address)
  }

  /** What `dhcp_msg_type` and `requested_ip` return, over the packet's own option list. */
  lemma ReadsTypeAndAddress(packet: seq<byte>)
    ensures forall msg: byte :: DhcpMsgType(packet) == Some(msg) <==> IsOfType(packet, msg)
    ensures DhcpMsgType(packet).Some? ==>
              forall address :: RequestedIp(packet) == Some(address) <==> AsksFor(packet, address)
  {
    FindsFirstMatch(packet, 240, 53);
    FindsFirstMatch(packet, 240, 50);
  }

  /** `n` as four bytes, the most significant first. */
  function BigEndian32(n: u32): seq<byte> {
    [n / 0x100_0000, n / 0x1_0000 % 0x100, n / 0x100 % 0x100, n % 0x100]
  }

  /** What a client reads in a reply's options: the server, and unless it is refused its network for one day. */
  lemma ClientReads(req: seq<byte>, yiaddr: seq<byte>, msgType: byte, stale: seq<byte>, n: nat)
    requires |req| >= HEADER_LEN && |yiaddr| == 4
    requires var bytes := ReplyBytes(req, yiaddr, msgType); |bytes| <= n <= |bytes + stale|
    ensures var server := [192, 168, 0, 1];
            OptionsFrom((ReplyBytes(req, yiaddr, msgType) + stale)[..n], 240) ==
              [Opt(53, [msgType]), Opt(54, server)] +
              if msgType == 6 then []
              else [Opt(1, [255, 255, 255, 0]), Opt(3, server), Opt(6, server), Opt(51, BigEndian32(24 * 60 * 60))] +
                   [Opt(28, [192, 168, 0, 255]), Opt(15, Ascii("lan"))] +
                   [Opt(114, Ascii("http://192.168.0.1/")), Opt(160, Ascii("http://192.168.0.1/"))]
  {
    ReplyDecodes(req, yiaddr, msgType, stale, n);
    assert LAN == Ascii("lan");
    assert CAPTIVE_URI == Ascii("http://192.168.0.1/");
    assert NAME_OPTIONS == [Opt(28, [192, 168, 0, 255]), Opt(15, LAN)] + [Opt(114, CAPTIVE_URI), Opt(160, CAPTIVE_URI)];
  }
}
