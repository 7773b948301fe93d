/**
  `mdns_task` of `src/net_services.rs` reads its whole packet buffer, what an earlier packet left
  behind the bytes received included. When does that decide the answer?
 */
module StaleBytes {
  import opened Words
  import opened Names
  import opened Mdns
  import Dns

  const PACKET_BUF := 512

  function Fill(n: nat, b: byte): (z: seq<byte>)
    ensures |z| == n && forall k :: 0 <= k < n ==> z[k] == b
  {
    seq(n, _ => b)
  }

  function Zeros(n: nat): (z: seq<byte>)
    ensures |z| == n
  {
    Fill(n, 0)
  }

  // Matching a name of which only a prefix was received, in a buffer of `room` bytes

  /** The bytes the labels from `k` on take on the wire. */
  function Need(labels: seq<seq<byte>>, k: nat): (n: nat)
    requires k <= |labels|
    ensures n > 0
    decreases |labels| - k
  {
    if k == |labels| then 1 else 1 + |labels[k]| + Need(labels, k + 1)
  }

  lemma {:induction false} NeedIsLength(labels: seq<seq<byte>>, k: nat)
    requires k <= |labels|
    ensures |EncodeName(labels[k..])| == Need(labels, k)
    decreases |labels| - k
  {
    if k < |labels| {
      EncodeNameHead(labels[k..]);
      assert labels[k..][1..] == labels[k + 1..];
      NeedIsLength(labels, k + 1);
    }
  }

  /** With nothing known from `i` on, the labels left can stand there, or behind a pointer there for one more hop. */
  predicate Fits(room: nat, i: nat, hops: nat, labels: seq<seq<byte>>, k: nat)
    requires k <= |labels|
  {
    || (i + Need(labels, k) <= room && |labels| - k <= hops)
    || (i + 1 < room && |labels| - k < hops)
  }

  /**
    The match from `i` is still alive where it needs a byte not in `r`, and what is left of it fits:
    at the next length byte, a pointer's second byte, or inside a label whose received part agrees.
   */
  ghost predicate RunsOff(r: seq<byte>, room: nat, i: nat, hops: nat, labels: seq<seq<byte>>, k: nat)
    requires k <= |labels|
    decreases hops, 0
  {
    if i >= |r| then Fits(room, i, hops, labels, k)
    else if k == |labels| || hops == 0 then false
    else if IsPointer(r[i]) then
      if i + 1 < |r| then RunsOff(r, room, Target(r[i], r[i + 1]), hops - 1, labels, k)
      else exists lo: byte :: MayMatch(r + [lo], room, Target(r[i], lo), hops - 1, labels, k)
    else if i + 1 + r[i] <= |r| then
      LabelAt(r, i, labels[k]) && RunsOff(r, room, i + 1 + r[i], hops - 1, labels, k + 1)
    else
      HalfLabel(r, i, labels[k]) && Fits(room, i + 1 + r[i], hops - 1, labels, k + 1)
  }

  ghost predicate MayMatch(r: seq<byte>, room: nat, i: nat, hops: nat, labels: seq<seq<byte>>, k: nat)
    requires k <= |labels|
    decreases hops, 1
  {
    Accepts(r, i, hops, labels, k) || RunsOff(r, room, i, hops, labels, k)
  }

  predicate HalfLabel(r: seq<byte>, i: nat, name: seq<byte>)
    requires i < |r| < i + 1 + r[i]
  {
    r[i] == |name| && EqLabel(r[i + 1..], name[..|r| - i - 1])
  }

  lemma {:induction false} AcceptedFits(q: seq<byte>, i: nat, hops: nat, labels: seq<seq<byte>>, k: nat)
    requires k <= |labels| && Accepts(q, i, hops, labels, k)
    ensures Fits(|q|, i, hops, labels, k) && |labels| - k <= hops
    decreases hops
  {
    if k < |labels| {
      if IsPointer(q[i]) {
        AcceptedFits(q, Target(q[i], q[i + 1]), hops - 1, labels, k);
      } else {
        AcceptedFits(q, i + 1 + q[i], hops - 1, labels, k + 1);
      }
    }
  }

  lemma HalfAgrees(r: seq<byte>, s: seq<byte>, i: nat, name: seq<byte>)
    requires i < |r| < i + 1 + r[i]
    requires LabelAt(r + s, i, name)
    ensures HalfLabel(r, i, name)
  {
    var q := r + s;
    var n := |r| - i - 1;
    var bytes := q[i + 1..i + 1 + q[i]];
    forall k | 0 <= k < n
      ensures Lower(r[i + 1..][k]) == Lower(name[..n][k])
    {
      assert bytes[k] == r[i + 1..][k] && Lower(bytes[k]) == Lower(name[k]);
    }
  }

  lemma SameLabelAt(r: seq<byte>, s: seq<byte>, i: nat, name: seq<byte>)
    requires i < |r| && i + 1 + r[i] <= |r|
    ensures LabelAt(r + s, i, name) == LabelAt(r, i, name)
  {
    assert (r + s)[i + 1..i + 1 + r[i]] == r[i + 1..i + 1 + r[i]];
  }

  /** A match that does not run off is settled by the bytes received. */
  lemma {:induction false} Settles(r: seq<byte>, s: seq<byte>, i: nat, hops: nat, labels: seq<seq<byte>>, k: nat)
    requires k <= |labels| && !RunsOff(r, |r + s|, i, hops, labels, k)
    ensures Accepts(r + s, i, hops, labels, k) == Accepts(r, i, hops, labels, k)
    decreases hops
  {
    var q := r + s;
    if i >= |r| {
      if Accepts(q, i, hops, labels, k) {
        AcceptedFits(q, i, hops, labels, k);
      }
    } else if k < |labels| && hops > 0 {
      assert q[i] == r[i];
      if IsPointer(r[i]) {
        if i + 1 < |r| {
          Settles(r, s, Target(r[i], r[i + 1]), hops - 1, labels, k);
        } else if s != [] {
          var lo := s[0];
          assert q == (r + [lo]) + s[1..] && q[i + 1] == lo;
          assert !MayMatch(r + [lo], |q|, Target(r[i], lo), hops - 1, labels, k);
          Settles(r + [lo], s[1..], Target(r[i], lo), hops - 1, labels, k);
        }
      } else if i + 1 + r[i] <= |r| {
        SameLabelAt(r, s, i, labels[k]);
        if LabelAt(r, i, labels[k]) {
          Settles(r, s, i + 1 + r[i], hops - 1, labels, k + 1);
        }
      } else if Accepts(q, i, hops, labels, k) {
        AcceptedFits(q, i + 1 + r[i], hops - 1, labels, k + 1);
        HalfAgrees(r, s, i, labels[k]);
      }
    }
  }

  // Bytes that make it succeed, with room to spare

  lemma {:induction false} RunsOffCompletes(r: seq<byte>, room: nat, i: nat, hops: nat, labels: seq<seq<byte>>, k: nat)
    returns (s: seq<byte>)
    requires k <= |labels| && Encodable(labels) && RunsOff(r, room, i, hops, labels, k)
    requires |r| + 2 * Need(labels, k) + hops <= room <= PACKET_BUF
    ensures |r + s| == room && Accepts(r + s, i, hops, labels, k)
    decreases hops, 0
  {
    if i >= |r| {
      s := NameBehind(r, room, i, hops, labels, k);
    } else if IsPointer(r[i]) {
      if i + 1 < |r| {
        s := RunsOffCompletes(r, room, Target(r[i], r[i + 1]), hops - 1, labels, k);
      } else {
        var lo: byte :| MayMatch(r + [lo], room, Target(r[i], lo), hops - 1, labels, k);
        var more := Completion(r + [lo], room, Target(r[i], lo), hops - 1, labels, k);
        s := [lo] + more;
        assert r + s == r + [lo] + more;
      }
    } else if i + 1 + r[i] <= |r| {
      s := RunsOffCompletes(r, room, i + 1 + r[i], hops - 1, labels, k + 1);
      SameLabelAt(r, s, i, labels[k]);
    } else {
      s := LabelCompleted(r, room, i, hops, labels, k);
    }
  }

  lemma {:induction false} Completion(r: seq<byte>, room: nat, i: nat, hops: nat, labels: seq<seq<byte>>, k: nat)
    returns (s: seq<byte>)
    requires k <= |labels| && Encodable(labels) && MayMatch(r, room, i, hops, labels, k)
    requires |r| + 2 * Need(labels, k) + hops <= room <= PACKET_BUF
    ensures |r + s| == room && Accepts(r + s, i, hops, labels, k)
    decreases hops, 1
  {
    if RunsOff(r, room, i, hops, labels, k) {
      s := RunsOffCompletes(r, room, i, hops, labels, k);
    } else {
      s := Zeros(room - |r|);
      Settles(r, s, i, hops, labels, k);
    }
  }

  lemma NameBehind(r: seq<byte>, room: nat, i: nat, hops: nat, labels: seq<seq<byte>>, k: nat) returns (s: seq<byte>)
    requires k <= |labels| && Encodable(labels) && |r| <= i && Fits(room, i, hops, labels, k)
    requires |r| + 2 * Need(labels, k) <= room <= PACKET_BUF
    ensures |r + s| == room && Accepts(r + s, i, hops, labels, k)
  {
    var name := EncodeName(labels[k..]);
    NeedIsLength(labels, k);
    if i + |name| <= room && |labels| - k <= hops {
      s := Zeros(i - |r|) + name + Zeros(room - i - |name|);
      assert (r + s)[i..i + |name|] == name;
      PlainIsAccepted(r + s, i, hops, labels[k..], labels, k);
    } else {
      s := PointerBehind(r, room, i, hops, labels, k);
    }
  }

  /** The labels right behind `r`, and at `i` a pointer to them. */
  lemma PointerBehind(r: seq<byte>, room: nat, i: nat, hops: nat, labels: seq<seq<byte>>, k: nat) returns (s: seq<byte>)
    requires k <= |labels| && Encodable(labels) && |labels| - k < hops && k < |labels|
    requires |r| + Need(labels, k) <= i && i + 1 < room <= PACKET_BUF
    ensures |r + s| == room && Accepts(r + s, i, hops, labels, k)
  {
    var name := EncodeName(labels[k..]);
    NeedIsLength(labels, k);
    s := name + Zeros(i - |r| - |name|) + [0xC0 + |r| / 0x100, |r| % 0x100] + Zeros(room - i - 2);
    var q := r + s;
    assert q[|r|..|r| + |name|] == name;
    PlainIsAccepted(q, |r|, hops - 1, labels[k..], labels, k);
    assert q[i] == 0xC0 + |r| / 0x100 && q[i + 1] == |r| % 0x100;
    assert Target(q[i], q[i + 1]) == |r|;
  }

  lemma LabelCompleted(r: seq<byte>, room: nat, i: nat, hops: nat, labels: seq<seq<byte>>, k: nat) returns (s: seq<byte>)
    requires k < |labels| && Encodable(labels) && hops > 0
    requires i < |r| < i + 1 + r[i] && !IsPointer(r[i]) && HalfLabel(r, i, labels[k])
    requires Fits(room, i + 1 + r[i], hops - 1, labels, k + 1)
    requires |r| + 2 * Need(labels, k) <= room <= PACKET_BUF
    ensures |r + s| == room && Accepts(r + s, i, hops, labels, k)
  {
    var left := labels[k][|r| - i - 1..];
    var more := NameBehind(r + left, room, i + 1 + r[i], hops - 1, labels, k + 1);
    HalfCompleted(r, more, i, labels[k]);
    LabelAccepted(r + left + more, i, hops, labels, k);
    s := left + more;
    assert r + s == r + left + more;
  }

  lemma LabelAccepted(q: seq<byte>, i: nat, hops: nat, labels: seq<seq<byte>>, k: nat)
    requires k < |labels| && hops > 0 && i < |q| && !IsPointer(q[i])
    requires LabelAt(q, i, labels[k]) && Accepts(q, i + 1 + q[i], hops - 1, labels, k + 1)
    ensures Accepts(q, i, hops, labels, k)
  {
  }

  lemma HalfCompleted(r: seq<byte>, more: seq<byte>, i: nat, name: seq<byte>)
    requires i < |r| < i + 1 + r[i] && r[i] > 0 && HalfLabel(r, i, name)
    ensures LabelAt(r + name[|r| - i - 1..] + more, i, name)
  {
    var n := |r| - i - 1;
    var bytes := r[i + 1..] + name[n..];
    assert (r + name[n..] + more)[i + 1..i + 1 + r[i]] == bytes;
    forall j | 0 <= j < |bytes|
      ensures Lower(bytes[j]) == Lower(name[j])
    {
      assert j < n ==> Lower(r[i + 1..][j]) == Lower(name[..n][j]);
    }
  }

  // Bytes that make it fail, in the firmware's buffer

  /** Length 0xBF is neither a pointer nor a label of ours nor the root. */
  const NOTHING: byte := 0xBF

  predicate Letters(labels: seq<seq<byte>>) {
    forall k, j :: 0 <= k < |labels| && 0 <= j < |labels[k]| ==> 0x40 <= labels[k][j] < 0x80
  }

  predicate LooksLike(r: seq<byte>, name: seq<byte>)
    requires |r| >= 12 && name != []
  {
    r[2] == |name| && Lower(r[3]) == Lower(name[0])
  }

  /** A second byte with which the pointer in the last byte of `r` leads nowhere. */
  function DeadEnd(r: seq<byte>, name: seq<byte>): byte
    requires |r| >= 12 && name != []
  {
    if r[|r| - 1] != 0xC0 then 0xFF else if LooksLike(r, name) then 3 else 2
  }

  lemma DeadEndMisses(r: seq<byte>, s: seq<byte>, hops: nat, labels: seq<seq<byte>>, k: nat)
    requires k < |labels| && Encodable(labels) && Letters(labels)
    requires 12 <= |r| && r[2] < 0x80 && IsPointer(r[|r| - 1])
    requires |r + s| == PACKET_BUF && s != [] && s[0] == DeadEnd(r, labels[k])
    ensures !Accepts(r + s, Target(r[|r| - 1], s[0]), hops, labels, k)
  {
    var q := r + s;
    var name := labels[k];
    assert 0x40 <= name[0] < 0x80;
    assert q[2] == r[2] && q[3] == r[3];
    if LabelAt(q, 2, name) {
      assert q[3..3 + q[2]][0] == q[3];
    }
  }

  lemma {:induction false} RunsOffMisses(r: seq<byte>, i: nat, hops: nat, labels: seq<seq<byte>>, k: nat)
    returns (s: seq<byte>)
    requires k <= |labels| && Encodable(labels) && Letters(labels)
    requires 12 <= |r| <= PACKET_BUF && r[2] < 0x80
    requires RunsOff(r, PACKET_BUF, i, hops, labels, k)
    ensures |r + s| == PACKET_BUF && !Accepts(r + s, i, hops, labels, k)
    decreases hops
  {
    s := Fill(PACKET_BUF - |r|, NOTHING);
    if i < |r| {
      if IsPointer(r[i]) {
        if i + 1 < |r| {
          s := RunsOffMisses(r, Target(r[i], r[i + 1]), hops - 1, labels, k);
        } else if |r| < PACKET_BUF {
          var lo := DeadEnd(r, labels[k]);
          s := [lo] + Fill(PACKET_BUF - |r| - 1, NOTHING);
          DeadEndMisses(r, s, hops - 1, labels, k);
        }
      } else if i + 1 + r[i] <= |r| {
        s := RunsOffMisses(r, i + 1 + r[i], hops - 1, labels, k + 1);
        SameLabelAt(r, s, i, labels[k]);
      } else {
        NothingBreaksLabel(r, i, labels[k]);
      }
    }
  }

  lemma NothingBreaksLabel(r: seq<byte>, i: nat, name: seq<byte>)
    requires i < |r| < i + 1 + r[i] && |r| <= PACKET_BUF
    requires forall j :: 0 <= j < |name| ==> 0x40 <= name[j] < 0x80
    ensures !LabelAt(r + Fill(PACKET_BUF - |r|, NOTHING), i, name)
  {
    var q := r + Fill(PACKET_BUF - |r|, NOTHING);
    if i + 1 + q[i] <= |q| && q[i] == |name| {
      var j := |r| - i - 1;
      var bytes := q[i + 1..i + 1 + q[i]];
      assert bytes[j] == q[|r|] == NOTHING;
      assert Lower(bytes[j]) != Lower(name[j]);
    }
  }

  // The answer

  /** Header, name end and question type of the bytes received would let an answer through. */
  predicate Asks(r: seq<byte>) {
    && |r| >= 12 && r[2] < 0x80
    && var end := Dns.NameEnd(r, 12);
       && end.Some? && end.value + 4 <= |r|
       && var qtype := FromBigEndian(r[end.value], r[end.value + 1]);
          qtype == 1 || qtype == 255
  }

  ghost predicate NameRunsOff(r: seq<byte>, room: nat, labels: seq<seq<byte>>) {
    RunsOff(r, room, 12, MAX_HOPS, labels, 0)
  }

  lemma AnswerByMatches(r: seq<byte>, s: seq<byte>)
    ensures Answer(r + s, |r|) ==
              if !Asks(r) then None
              else if NameMatches(r + s, 12, SHORT) then Some(SHORT_NAME)
              else if NameMatches(r + s, 12, LONG) then Some(LONG_NAME)
              else None
  {
    var q := r + s;
    var end, end' := Dns.NameEnd(q, 12), Dns.NameEnd(r, 12);
    if |r| >= 12 {
      if end.Some? && end.value + 4 <= |r| {
        Dns.SameNameEnd(q, r, 12, end.value);
      } else if end'.Some? && end'.value + 4 <= |r| {
        Dns.SameNameEnd(r, q, 12, end'.value);
      }
    }
  }

  lemma NotBoth(q: seq<byte>)
    ensures !NameMatches(q, 12, LONG) || !NameMatches(q, 12, SHORT)
  {
    MatchesExactlyWhen(q, 12, LONG);
    MatchesExactlyWhen(q, 12, SHORT);
    var met := LabelsIn(Walk(q, 12, MAX_HOPS + 1));
    if EqLabels(met, LONG) && EqLabels(met, SHORT) {
      assert EqLabel(met[0], LONG[0]) && EqLabel(met[0], SHORT[0]);
    }
  }

  /** Whatever fills the buffer behind the bytes received, the answer is the same. */
  ghost predicate AnswerIsSettled(r: seq<byte>) {
    forall s, s' :: |r + s| == PACKET_BUF == |r + s'| ==> Answer(r + s, |r|) == Answer(r + s', |r|)
  }

  /** It is no question to answer, or the match of neither name runs off the bytes received. */
  ghost predicate ReceivedDecides(r: seq<byte>) {
    !Asks(r) || (!NameRunsOff(r, PACKET_BUF, LONG) && !NameRunsOff(r, PACKET_BUF, SHORT))
  }

  /** What the longest of our names and the hops can take up behind a packet. */
  const SPARE := 44

  /**
    What was received settles the answer if and only if it decides it. (In a packet that leaves fewer
    than 44 bytes of the buffer it does if it decides it, by `DecidedIsSettled`.)
   */
  lemma AnswerSettledExactlyWhen(r: seq<byte>)
    requires |r| + SPARE <= PACKET_BUF
    ensures AnswerIsSettled(r) <==> ReceivedDecides(r)
  {
    if ReceivedDecides(r) {
      DecidedIsSettled(r);
    } else if NameRunsOff(r, PACKET_BUF, SHORT) {
      var s, s' := BothMatches(r, SHORT);
      AnswerByMatches(r, s);
      AnswerByMatches(r, s');
      assert Answer(r + s, |r|) != Answer(r + s', |r|);
    } else {
      var s, s' := BothMatches(r, LONG);
      AnswerByMatches(r, s);
      AnswerByMatches(r, s');
      NotBoth(r + s);
      assert Answer(r + s, |r|) != Answer(r + s', |r|);
    }
  }

  lemma BothMatches(r: seq<byte>, labels: seq<seq<byte>>) returns (s: seq<byte>, s': seq<byte>)
    requires |r| + SPARE <= PACKET_BUF && Asks(r) && NameRunsOff(r, PACKET_BUF, labels)
    requires labels == LONG || labels == SHORT
    ensures |r + s| == PACKET_BUF == |r + s'|
    ensures NameMatches(r + s, 12, labels) && !NameMatches(r + s', 12, labels)
  {
    OurNames();
    s := RunsOffCompletes(r, PACKET_BUF, 12, MAX_HOPS, labels, 0);
    s' := RunsOffMisses(r, 12, MAX_HOPS, labels, 0);
  }

  lemma OurNames()
    ensures Encodable(LONG) && Letters(LONG) && Need(LONG, 0) == 18
    ensures Encodable(SHORT) && Letters(SHORT) && Need(SHORT, 0) == 10
  {
    assert Need(LONG, 2) == 1 && Need(LONG, 1) == 7;
    assert Need(SHORT, 2) == 1 && Need(SHORT, 1) == 7;
  }

  lemma DecidedIsSettled(r: seq<byte>)
    requires ReceivedDecides(r)
    ensures AnswerIsSettled(r)
  {
    forall s, s' | |r + s| == PACKET_BUF == |r + s'|
      ensures Answer(r + s, |r|) == Answer(r + s', |r|)
    {
      SettledAnswer(r, s, s');
    }
  }

  lemma SettledAnswer(r: seq<byte>, s: seq<byte>, s': seq<byte>)
    requires Asks(r) ==>
               && !NameRunsOff(r, |r + s|, LONG) && !NameRunsOff(r, |r + s|, SHORT)
               && !NameRunsOff(r, |r + s'|, LONG) && !NameRunsOff(r, |r + s'|, SHORT)
    ensures Answer(r + s, |r|) == Answer(r + s', |r|)
  {
    AnswerByMatches(r, s);
    AnswerByMatches(r, s');
    if Asks(r) {
      Settles(r, s, 12, MAX_HOPS, LONG, 0);
      Settles(r, s', 12, MAX_HOPS, LONG, 0);
      Settles(r, s, 12, MAX_HOPS, SHORT, 0);
      Settles(r, s', 12, MAX_HOPS, SHORT, 0);
    }
  }

  /** The name at `i` is labels and a root byte, without a compression pointer. */
  predicate EndsAtRoot(r: seq<byte>, i: nat)
    decreases |r| - i
  {
    && i < |r|
    && (r[i] == 0 || (!IsPointer(r[i]) && EndsAtRoot(r, i + 1 + r[i])))
  }

  lemma {:induction false} PlainNeverRunsOff(r: seq<byte>, room: nat, i: nat, hops: nat, labels: seq<seq<byte>>, k: nat)
    requires k <= |labels| && EndsAtRoot(r, i)
    ensures !RunsOff(r, room, i, hops, labels, k)
    decreases hops
  {
    if r[i] != 0 && k < |labels| && hops > 0 {
      PlainNeverRunsOff(r, room, i + 1 + r[i], hops - 1, labels, k + 1);
    }
  }

  /** In particular a query without compression is answered by its own bytes alone, in a buffer of any size. */
  lemma AnswerIgnoresStaleBytes(r: seq<byte>, s: seq<byte>, s': seq<byte>)
    requires EndsAtRoot(r, 12)
    ensures Answer(r + s, |r|) == Answer(r + s', |r|)
  {
    PlainNeverRunsOff(r, |r + s|, 12, MAX_HOPS, LONG, 0);
    PlainNeverRunsOff(r, |r + s|, 12, MAX_HOPS, SHORT, 0);
    PlainNeverRunsOff(r, |r + s'|, 12, MAX_HOPS, LONG, 0);
    PlainNeverRunsOff(r, |r + s'|, 12, MAX_HOPS, SHORT, 0);
    SettledAnswer(r, s, s');
  }

  // An input

  /** 18 received bytes, a query whose name is a pointer to offset 18, and what the buffer held before. */
  function PointerQuery(stale: seq<byte>): seq<byte> {
    Zeros(12) + [0xC0, 18, 0, 1, 0, 1] + stale
  }

  /** With a compression pointer the same 18 bytes received are answered or not by what lies behind them. */
  lemma StaleBytesCanDecide()
    ensures var left := SHORT_NAME + Zeros(PACKET_BUF - 18 - |SHORT_NAME|);
            Answer(PointerQuery(left), 18) == Some(SHORT_NAME)
    ensures Answer(PointerQuery(Zeros(PACKET_BUF - 18)), 18) == None
  {
    var left := SHORT_NAME + Zeros(PACKET_BUF - 18 - |SHORT_NAME|);
    NamesAreEncoded();
    PointerQueryParts(left);
    var q := PointerQuery(left);
    assert q[18..18 + |EncodeName(SHORT)|] == EncodeName(SHORT);
    PlainIsAccepted(q, 18, MAX_HOPS - 1, SHORT, SHORT, 0);
    assert NameMatches(q, 12, SHORT);
    var zeros := Zeros(PACKET_BUF - 18);
    PointerQueryParts(zeros);
    var r := PointerQuery(zeros);
    assert r[18] == r[18..][0] == 0;
    PointerToRoot(r, SHORT);
    PointerToRoot(r, LONG);
  }

  lemma PointerToRoot(q: seq<byte>, labels: seq<seq<byte>>)
    requires |q| > 18 && q[12] == 0xC0 && Target(q[12], q[13]) == 18 && q[18] == 0 && labels != []
    ensures !NameMatches(q, 12, labels)
  {
    assert !Accepts(q, 18, MAX_HOPS - 1, labels, 0);
  }

  lemma PointerQueryParts(stale: seq<byte>)
    ensures var q := PointerQuery(stale);
            && |q| == 18 + |stale| && q[18..] == stale && q[2] == 0
            && q[12] == 0xC0 && q[13] == 18 && q[14] == 0 && q[15] == 1
            && Target(q[12], q[13]) == 18
            && Dns.NameEnd(q, 12) == Some(14)
  {
  }
}
