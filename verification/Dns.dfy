/**
  The DNS hijack of `src/net_proto.rs`: finding the end of the question and building the reply
  (sections 4.1.1 to 4.1.4 of RFC 1035).
 */
module Dns {
  import opened Words
  import opened Names
  import opened DhcpPacket

  const HEADER := 12

  // skip_name

  function NameEnd(q: seq<byte>, i: nat): Option<nat>
    decreases |q| - i
  {
    if i >= |q| then None
    else if q[i] == 0 then Some(i + 1)
    else if IsPointer(q[i]) then if i + 1 < |q| then Some(i + 2) else None
    else if i + 1 + q[i] > |q| then None
    else NameEnd(q, i + 1 + q[i])
  }

  method SkipName(q: seq<byte>, start: nat) returns (r: Option<nat>)
    ensures r == NameEnd(q, start)
  {
    var i := start;
    while true
      invariant 0 <= i && NameEnd(q, start) == NameEnd(q, i)
      decreases |q| - i
    {
      if i >= |q| {
        return None;
      }
      var len := q[i];
      if len == 0 {
        return Some(i + 1);
      }
      if IsPointer(len) {
        return if i + 1 < |q| then Some(i + 2) else None;
      }
      i := i + 1 + len;
      if i > |q| {
        return None;
      }
    }
  }

  /** A result lies past the start and depends only on the bytes before it. */
  lemma {:induction false} NameEndIsLocal(q: seq<byte>, i: nat, q': seq<byte>)
    requires NameEnd(q, i).Some?
    ensures i < NameEnd(q, i).value <= |q|
    ensures NameEnd(q, i).value <= |q'| && q[..NameEnd(q, i).value] == q'[..NameEnd(q, i).value] ==>
              NameEnd(q', i) == NameEnd(q, i)
    decreases |q| - i
  {
    var e := NameEnd(q, i).value;
    if q[i] != 0 && !IsPointer(q[i]) {
      NameEndIsLocal(q, i + 1 + q[i], q');
    }
    if e <= |q'| && q[..e] == q'[..e] {
      assert forall k :: 0 <= k < e ==> q[..e][k] == q[k] && q'[..e][k] == q'[k];
    }
  }

  /** What closes a name: the root byte, or a two-byte pointer. */
  predicate Closes(tail: seq<byte>) {
    tail == [0] || (|tail| == 2 && IsPointer(tail[0]))
  }

  ghost predicate IsWireName(bytes: seq<byte>, labels: seq<seq<byte>>, tail: seq<byte>) {
    && Closes(tail)
    && (forall k :: 0 <= k < |labels| ==> 0 < |labels[k]| < 0xC0)
    && bytes == Labels(labels) + tail
  }

  /** `skip_name` returns `e` if and only if the bytes from `i` to `e` are labels and a closing. */
  lemma FindsWireName(q: seq<byte>, i: nat, e: nat)
    ensures NameEnd(q, i) == Some(e) <==> i <= e <= |q| && exists labels, tail :: IsWireName(q[i..e], labels, tail)
  {
    if NameEnd(q, i) == Some(e) {
      var labels, tail := ReadName(q, i);
    }
    if i <= e <= |q| && exists labels, tail :: IsWireName(q[i..e], labels, tail) {
      var labels, tail :| IsWireName(q[i..e], labels, tail);
      WireNameIsFound(q, i, e, labels, tail);
    }
  }

  lemma {:induction false} ReadName(q: seq<byte>, i: nat) returns (labels: seq<seq<byte>>, tail: seq<byte>)
    requires NameEnd(q, i).Some?
    ensures i < NameEnd(q, i).value <= |q|
    ensures IsWireName(q[i..NameEnd(q, i).value], labels, tail)
    decreases |q| - i
  {
    var e := NameEnd(q, i).value;
    if q[i] == 0 || IsPointer(q[i]) {
      labels, tail := [], q[i..e];
    } else {
      var len := q[i];
      var rest;
      rest, tail := ReadName(q, i + 1 + len);
      labels := [q[i + 1..i + 1 + len]] + rest;
      assert labels[1..] == rest;
      OneLabelRead(q, i, e, rest, tail);
    }
  }

  lemma OneLabelRead(q: seq<byte>, i: nat, e: nat, rest: seq<seq<byte>>, tail: seq<byte>)
    requires i < |q| && i + 1 + q[i] <= e <= |q|
    requires q[i + 1 + q[i]..e] == Labels(rest) + tail
    ensures q[i..e] == Labels([q[i + 1..i + 1 + q[i]]] + rest) + tail
  {
    var len := q[i];
    var label' := q[i + 1..i + 1 + len];
    assert ([label'] + rest)[1..] == rest;
    assert q[i..i + 1] == [len];
    JoinSlices(q, i, i + 1, i + 1 + len);
    JoinSlices(q, i, i + 1 + len, e);
    assert [len] + label' + (Labels(rest) + tail) == ([len] + label' + Labels(rest)) + tail;
  }

  lemma {:induction false} WireNameIsFound(q: seq<byte>, i: nat, e: nat, labels: seq<seq<byte>>, tail: seq<byte>)
    requires i <= e <= |q| && IsWireName(q[i..e], labels, tail)
    ensures NameEnd(q, i) == Some(e)
    decreases |labels|
  {
    if labels == [] {
      assert q[i..e] == tail;
      assert tail[0] == q[i];
    } else {
      var next := OneLabelOnWire(q, i, e, labels, tail);
      WireNameIsFound(q, next, e, labels[1..], tail);
    }
  }

  lemma OneLabelOnWire(q: seq<byte>, i: nat, e: nat, labels: seq<seq<byte>>, tail: seq<byte>) returns (next: nat)
    requires i <= e <= |q| && IsWireName(q[i..e], labels, tail) && labels != []
    ensures next <= e && IsWireName(q[next..e], labels[1..], tail)
    ensures NameEnd(q, i) == NameEnd(q, next)
  {
    var rest := Labels(labels[1..]) + tail;
    next := i + 1 + |labels[0]|;
    assert q[i..e] == [|labels[0]| % 0x100] + labels[0] + rest;
    LabelOnWire(q, i, labels[0], rest);
    LabelSkipped(q, i, |labels[0]|);
    assert q[next..e] == rest;
  }

  lemma LabelSkipped(q: seq<byte>, i: nat, len: nat)
    requires 0 < len < 0xC0 && i + 1 + len <= |q| && q[i] == len
    ensures NameEnd(q, i) == NameEnd(q, i + 1 + len)
  {
  }

  // The reply

  function QuestionEnd(query: seq<byte>, n: nat): (r: Option<nat>)
    ensures r.Some? ==> HEADER + 4 < r.value <= n <= |query|
  {
    if n < HEADER || n > |query| then None
    else
      var end := NameEnd(query[..n], HEADER);
      if end.None? || end.value + 4 > n then None
      else
        NameEndIsLocal(query[..n], HEADER, []);
        Some(end.value + 4)
  }

  function DnsQtype(query: seq<byte>, n: nat): Option<u16> {
    var end := QuestionEnd(query, n);
    if end.None? then None else Some(FromBigEndian(query[end.value - 4], query[end.value - 3]))
  }

  const ANSWER: seq<byte> := [0xC0, 12, 0, 1, 0, 1, 0, 0, 0, 30, 0, 4] + SERVER_IP

  function ReplyHead(query: seq<byte>, answers: byte): (h: seq<byte>)
    requires |query| >= HEADER
    ensures |h| == HEADER
  {
    [query[0], query[1], 0x81, 0x80, query[4], query[5], 0, answers, 0, 0, 0, 0]
  }

  /** The reply for a buffer of `room` bytes: the question alone, with one A record if it was asked for and fits. */
  function Reply(query: seq<byte>, n: nat, room: nat): Option<seq<byte>> {
    var end := QuestionEnd(query, n);
    if end.None? || room < end.value then None
    else
      var answered := DnsQtype(query, n) == Some(1) && end.value + 16 <= room;
      Some(ReplyHead(query, if answered then 1 else 0) + query[HEADER..end.value] + if answered then ANSWER else [])
  }

  method BuildDnsReply(query: seq<byte>, n: nat, out: array<byte>) returns (r: Option<nat>)
    modifies out
    ensures var reply := Reply(query, n, out.Length);
            && (r.None? <==> reply.None?)
            && (r.None? ==> out[..] == old(out[..]))
            && (r.Some? ==> r.value == |reply.value| && out[..] == reply.value + old(out[..])[|reply.value|..])
  {
    if n < HEADER || n > |query| {
      return None;
    }
    var q := query[..n];
    var nameEnd := SkipName(q, HEADER);
    if nameEnd.None? || nameEnd.value + 4 > n {
      return None;
    }
    ghost var _ := QuestionEnd(query, n);
    var qtype := FromBigEndian(q[nameEnd.value], q[nameEnd.value + 1]);
    var end := nameEnd.value + 4;
    if out.Length < end {
      return None;
    }
    ghost var was := out[..];
    var answered := qtype == 1 && end + 16 <= out.Length;
    WriteQuestion(query, end, if answered then 1 else 0, out);
    var len := end;
    if answered {
      WriteAnswer(out, len);
      len := len + 16;
    }
    assert out[len..] == was[len..] by {
      SubSlice(was, end, |was|, len - end, |was| - end);
    }
    assert out[..len] == Reply(query, n, out.Length).value;
    assert out[..] == out[..len] + out[len..];
    r := Some(len);
  }

  /** Copies the header and question and rewrites the flags and counts. */
  method WriteQuestion(query: seq<byte>, end: nat, answers: byte, out: array<byte>)
    requires HEADER <= end <= |query| && end <= out.Length
    modifies out
    ensures out[..end] == ReplyHead(query, answers) + query[HEADER..end]
    ensures out[end..] == old(out[end..])
  {
    forall k | 0 <= k < end {
      out[k] := query[k];
    }
    out[2], out[3] := 0x81, 0x80;
    out[6], out[7] := 0, answers;
    out[8], out[9], out[10], out[11] := 0, 0, 0, 0;
    ghost var want := ReplyHead(query, answers) + query[HEADER..end];
    forall k | 0 <= k < end
      ensures out[k] == want[k]
    {
    }
  }

  method WriteAnswer(out: array<byte>, at: nat)
    requires at + 16 <= out.Length
    modifies out
    ensures out[..at + 16] == old(out[..at]) + ANSWER
    ensures out[at + 16..] == old(out[at + 16..])
  {
    CopyInto(out, at, ANSWER);
  }

  /**
    A reply holds the same question and nothing else of the query, asks the same type, fits the
    buffer, and counts one answer exactly when it carries one.
   */
  lemma ReplyKeepsQuestion(query: seq<byte>, n: nat, room: nat)
    requires Reply(query, n, room).Some?
    ensures var b := Reply(query, n, room).value;
            var end := QuestionEnd(query, n).value;
            && |b| <= room
            && QuestionEnd(b, |b|) == Some(end)
            && b[HEADER..end] == query[HEADER..end]
            && DnsQtype(b, |b|) == DnsQtype(query, n)
            && b[0..2] == query[0..2] && b[4..6] == query[4..6]
            && (FromBigEndian(b[6], b[7]) == if |b| > end then 1 else 0)
            && (|b| > end ==> b[end..] == ANSWER)
            && b[8..12] == [0, 0, 0, 0]
  {
    var b := Reply(query, n, room).value;
    var end := QuestionEnd(query, n).value;
    var tail := b[end..];
    assert b[HEADER..end] == query[HEADER..end];
    assert tail == if DnsQtype(query, n) == Some(1) && end + 16 <= room then ANSWER else [];
    SameQuestion(query, n, b);
    assert b[0..2] == query[0..2] && b[4..6] == query[4..6] && b[8..12] == [0, 0, 0, 0];
  }

  lemma SameQuestion(query: seq<byte>, n: nat, b: seq<byte>)
    requires QuestionEnd(query, n).Some?
    requires QuestionEnd(query, n).value <= |b|
    requires b[HEADER..QuestionEnd(query, n).value] == query[HEADER..QuestionEnd(query, n).value]
    ensures QuestionEnd(b, |b|) == QuestionEnd(query, n) && DnsQtype(b, |b|) == DnsQtype(query, n)
  {
    var end := QuestionEnd(query, n).value;
    forall k | HEADER <= k < end
      ensures b[k] == query[k]
    {
      assert b[k] == b[HEADER..end][k - HEADER];
    }
    SameNameEnd(query[..n], b, HEADER, end - 4);
    assert b[..|b|] == b;
  }

  /** The scan looks at no byte before its start. */
  lemma {:induction false} SameNameEnd(q: seq<byte>, q': seq<byte>, i: nat, e: nat)
    requires NameEnd(q, i) == Some(e)
    requires e <= |q'| && forall k :: i <= k < e && k < |q| ==> q[k] == q'[k]
    ensures NameEnd(q', i) == Some(e)
    decreases |q| - i
  {
    NameEndIsLocal(q, i, []);
    if q[i] != 0 && !IsPointer(q[i]) {
      NameEndIsLocal(q, i + 1 + q[i], []);
      SameNameEnd(q, q', i + 1 + q[i], e);
    }
  }

  /** Replying to one's own reply, with the same room, gives it back. */
  lemma ReplyIsIdempotent(query: seq<byte>, n: nat, room: nat)
    requires Reply(query, n, room).Some?
    ensures var b := Reply(query, n, room).value;
            Reply(b, |b|, room) == Some(b)
  {
    ReplyKeepsQuestion(query, n, room);
    var b := Reply(query, n, room).value;
    var end := QuestionEnd(query, n).value;
    var again := Reply(b, |b|, room).value;
    assert ReplyHead(b, b[7]) == b[..HEADER];
    assert b == b[..HEADER] + b[HEADER..end] + b[end..];
  }

  /** Which packets are answered: a whole question that the room can take back. */
  lemma RepliesExactlyWhen(query: seq<byte>, n: nat, room: nat)
    ensures Reply(query, n, room).Some? <==>
              && n <= |query|
              && exists e: nat :: 12 <= e && e + 4 <= n && e + 4 <= room &&
                   exists labels, tail :: IsWireName(query[12..e], labels, tail)
  {
    if 12 <= n <= |query| {
      var q := query[..n];
      forall e: nat | 12 <= e <= n
        ensures q[12..e] == query[12..e]
        ensures NameEnd(q, 12) == Some(e) <==> exists labels, tail :: IsWireName(query[12..e], labels, tail)
      {
        SubSlice(query, 0, n, 12, e);
        FindsWireName(q, 12, e);
      }
      if NameEnd(q, 12).Some? {
        NameEndIsLocal(q, 12, []);
      }
    }
  }

  /** A query as it is sent: twelve bytes of header, a name, type, class, and whatever else. */
  function Query(head: seq<byte>, name: seq<byte>, qtype: u16, class_: seq<byte>, more: seq<byte>): seq<byte> {
    head + name + [qtype / 0x100, qtype % 0x100] + class_ + more
  }

  lemma QuestionFound(head: seq<byte>, labels: seq<seq<byte>>, tail: seq<byte>, qtype: u16, class_: seq<byte>,
                      more: seq<byte>, n: nat)
    requires |head| == 12 && |class_| == 2 && IsWireName(Labels(labels) + tail, labels, tail)
    requires |head| + |Labels(labels) + tail| + 4 <= n <= |Query(head, Labels(labels) + tail, qtype, class_, more)|
    ensures var name := Labels(labels) + tail;
            var query := Query(head, name, qtype, class_, more);
            && QuestionEnd(query, n) == Some(16 + |name|)
            && DnsQtype(query, n) == Some(qtype)
            && query[..12] == head && query[12..16 + |name|] == name + [qtype / 0x100, qtype % 0x100] + class_
  {
    var name := Labels(labels) + tail;
    var query := Query(head, name, qtype, class_, more);
    var e := 12 + |name|;
    assert query == head + name + ([qtype / 0x100, qtype % 0x100] + class_ + more);
    Parts(head, name, [qtype / 0x100, qtype % 0x100] + class_ + more);
    SubSlice(query, 0, n, 12, e);
    WireNameIsFound(query[..n], 12, e, labels, tail);
    assert query[e..e + 4] == [qtype / 0x100, qtype % 0x100] + class_;
    assert query[12..e + 4] == query[12..e] + query[e..e + 4];
  }

  /**
    The hijack: a query for any name is answered whatever follows it, with the question as it came and
    with one record exactly when an address (type A, 1) was asked for and 16 more bytes fit. The record
    points back at the name asked and gives the board's address for 30 seconds.
   */
  lemma HijacksExactlyAddressQueries(head: seq<byte>, labels: seq<seq<byte>>, tail: seq<byte>, qtype: u16,
                                     class_: seq<byte>, more: seq<byte>, n: nat, room: nat)
    requires |head| == 12 && |class_| == 2 && IsWireName(Labels(labels) + tail, labels, tail)
    requires |head| + |Labels(labels) + tail| + 4 <= n <= |Query(head, Labels(labels) + tail, qtype, class_, more)|
    ensures var name := Labels(labels) + tail;
            var question := name + [qtype / 0x100, qtype % 0x100] + class_;
            var carries := qtype == 1 && 12 + |question| + 16 <= room;
            Reply(Query(head, name, qtype, class_, more), n, room) ==
              if 12 + |question| > room then None
              else Some(head[..2] + [0x81, 0x80] + head[4..6] + [0, if carries then 1 else 0, 0, 0, 0, 0] + question +
                        if carries then [0xC0, 12] + [0, 1] + [0, 1] + [0, 0, 0, 30] + [0, 4] + [192, 168, 0, 1] else [])
  {
    var name := Labels(labels) + tail;
    var query := Query(head, name, qtype, class_, more);
    QuestionFound(head, labels, tail, qtype, class_, more, n);
    assert forall k :: 0 <= k < 12 ==> query[k] == query[..12][k];
    var answers: byte := if qtype == 1 && 16 + |name| + 16 <= room then 1 else 0;
    assert ReplyHead(query, answers) == head[..2] + [0x81, 0x80] + head[4..6] + [0, answers, 0, 0, 0, 0];
    assert ANSWER == [0xC0, 12] + [0, 1] + [0, 1] + [0, 0, 0, 30] + [0, 4] + [192, 168, 0, 1];
  }

  /** The record's pointer leads any reader back to the name in the question. */
  lemma RecordNamesTheQuestion(query: seq<byte>, n: nat, room: nat, hops: nat)
    requires Reply(query, n, room).Some?
    requires |Reply(query, n, room).value| > QuestionEnd(query, n).value
    ensures var b := Reply(query, n, room).value;
            Walk(b, QuestionEnd(query, n).value, hops + 1) == [Jump] + Walk(b, 12, hops)
  {
    ReplyKeepsQuestion(query, n, room);
    JumpsBack(Reply(query, n, room).value, QuestionEnd(query, n).value, hops);
  }

  lemma JumpsBack(b: seq<byte>, end: nat, hops: nat)
    requires end <= |b| && b[end..] == ANSWER
    ensures Walk(b, end, hops + 1) == [Jump] + Walk(b, 12, hops)
  {
    assert b[end] == b[end..][0] && b[end + 1] == b[end..][1];
  }
}
