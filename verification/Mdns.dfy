/** Answering `scoreboard.local` and `sb.local`: the accept logic of `mdns_task` and its answers. */
module Mdns {
  import opened Words
  import opened Names
  import opened DhcpPacket
  import Dns

  const SCOREBOARD: seq<byte> := [0x73, 0x63, 0x6f, 0x72, 0x65, 0x62, 0x6f, 0x61, 0x72, 0x64]
  const SB: seq<byte> := [0x73, 0x62]
  const LOCAL: seq<byte> := [0x6c, 0x6f, 0x63, 0x61, 0x6c]
  const LONG: seq<seq<byte>> := [SCOREBOARD, LOCAL]
  const SHORT: seq<seq<byte>> := [SB, LOCAL]
  const LONG_NAME: seq<byte> := [10] + SCOREBOARD + [5] + LOCAL + [0]
  const SHORT_NAME: seq<byte> := [2] + SB + [5] + LOCAL + [0]

  predicate NameIsOurs(q: seq<byte>) {
    NameMatches(q, 12, LONG) || NameMatches(q, 12, SHORT)
  }

  const ANSWER_HEAD: seq<byte> := [0, 0, 0x84, 0, 0, 0, 0, 1, 0, 0, 0, 0]
  const ANSWER_TAIL: seq<byte> := [0, 1, 0x80, 1, 0, 0, 0, 120, 0, 4] + SERVER_IP

  function AnswerBytes(name: seq<byte>): seq<byte> {
    ANSWER_HEAD + name + ANSWER_TAIL
  }

  method WriteMdnsA(out: array<byte>, name: seq<byte>) returns (r: Option<nat>)
    modifies out
    ensures r.None? <==> out.Length < 12 + |name| + 16
    ensures r.None? ==> out[..] == old(out[..])
    ensures r.Some? ==> r.value == |AnswerBytes(name)| && out[..] == AnswerBytes(name) + old(out[..])[r.value..]
  {
    if out.Length < 12 + |name| + 16 {
      return None;
    }
    ghost var was := out[..];
    WriteAnswerHead(out);
    var i := 12;
    CopyInto(out, i, name);
    i := i + |name|;
    assert out[..i] == ANSWER_HEAD + name && out[i..] == was[i..];
    CopyInto(out, i, ANSWER_TAIL);
    i := i + 14;
    assert out[..i] == AnswerBytes(name) && out[i..] == was[i..];
    assert out[..] == out[..i] + out[i..];
    r := Some(i);
  }

  method WriteAnswerHead(out: array<byte>)
    requires out.Length >= 12
    modifies out
    ensures out[..12] == ANSWER_HEAD && out[12..] == old(out[12..])
  {
    forall k | 0 <= k < 12 {
      out[k] := 0;
    }
    out[2] := 0x84;
    out[3] := 0;
    out[7] := 1;
  }

  /** The answer name `mdns_task` picks for `n` bytes received into the packet buffer. */
  function Answer(pkt: seq<byte>, n: nat): Option<seq<byte>>
    requires n <= |pkt|
  {
    if n < 12 || pkt[2] >= 0x80 then None
    else
      var end := Dns.NameEnd(pkt, 12);
      if end.None? || end.value + 4 > n || !NameIsOurs(pkt) then None
      else
        var qtype := FromBigEndian(pkt[end.value], pkt[end.value + 1]);
        if qtype != 1 && qtype != 255 then None
        else if NameMatches(pkt, 12, SHORT) then Some(SHORT_NAME)
        else Some(LONG_NAME)
  }

  /** The two names the firmware writes are encodings of the two it recognises. */
  lemma NamesAreEncoded()
    ensures LONG_NAME == EncodeName(LONG) && SHORT_NAME == EncodeName(SHORT)
  {
    assert LONG[1..] == [LOCAL] && SHORT[1..] == [LOCAL] && [LOCAL][1..] == [];
    assert Labels([LOCAL]) == [5] + LOCAL;
    assert Labels(LONG) == [10] + SCOREBOARD + Labels([LOCAL]);
    assert Labels(SHORT) == [2] + SB + Labels([LOCAL]);
  }

  /** Whatever follows in the buffer, a packet written for either name is recognised as that name. */
  lemma RecognisesOwnNames(labels: seq<seq<byte>>, rest: seq<byte>)
    requires labels == LONG || labels == SHORT
    ensures NameMatches(AnswerBytes(EncodeName(labels)) + rest, 12, labels)
    ensures NameIsOurs(AnswerBytes(EncodeName(labels)) + rest)
  {
    var q := AnswerBytes(EncodeName(labels)) + rest;
    assert q[12..12 + |EncodeName(labels)|] == EncodeName(labels);
    AcceptsPlainNames(q, 12, labels, labels);
  }

  lemma NamesAreText()
    ensures LONG == [Ascii("scoreboard"), Ascii("local")]
    ensures SHORT == [Ascii("sb"), Ascii("local")]
    ensures SameName([Ascii("Scoreboard"), Ascii("LOCAL")], LONG)
  {
    assert SCOREBOARD == Ascii("scoreboard") && SB == Ascii("sb") && LOCAL == Ascii("local");
  }

  /** The packets sent: an authoritative answer holding one address record of the name, kept for two minutes. */
  lemma AnswerOnWire(labels: seq<seq<byte>>)
    requires Names.Encodable(labels)
    ensures var b := AnswerBytes(EncodeName(labels));
            var end := 12 + |EncodeName(labels)|;
            && Dns.NameEnd(b, 12) == Some(end)
            && b[..12] == [0, 0] + [0x84, 0] + [0, 0] + [0, 1] + [0, 0] + [0, 0]
            && b[end..] == [0, 1] + [0x80, 1] + BigEndian32(120) + [0, 4] + [192, 168, 0, 1]
  {
    var b, name := AnswerBytes(EncodeName(labels)), EncodeName(labels);
    Parts(ANSWER_HEAD, name, ANSWER_TAIL);
    assert b[12..12 + |name|] == name;
    Dns.WireNameIsFound(b, 12, 12 + |name|, labels, [0]);
  }

  /**
    Which plain queries are answered, and how: those for an address or for anything, of either name
    in any letter case, and with the name that was asked for.
   */
  lemma AnswersExactlyOwnNames(head: seq<byte>, sent: seq<seq<byte>>, qtype: u16, class_: seq<byte>, more: seq<byte>, n: nat)
    requires |head| == 12 && |class_| == 2 && Names.Encodable(sent)
    requires 16 + |EncodeName(sent)| <= n <= |Dns.Query(head, EncodeName(sent), qtype, class_, more)|
    ensures var asked := head[2] < 0x80 && (qtype == 1 || qtype == 255);
            Answer(Dns.Query(head, EncodeName(sent), qtype, class_, more), n) ==
              if asked && SameName(sent, [Ascii("sb"), Ascii("local")]) then Some([2] + Ascii("sb") + [5] + Ascii("local") + [0])
              else if asked && SameName(sent, [Ascii("scoreboard"), Ascii("local")]) then
                Some([10] + Ascii("scoreboard") + [5] + Ascii("local") + [0])
              else None
  {
    var name := EncodeName(sent);
    var pkt := Dns.Query(head, name, qtype, class_, more);
    Dns.QuestionFound(head, sent, [0], qtype, class_, more, |pkt|);
    assert pkt[..|pkt|] == pkt && pkt[2] == pkt[..12][2];
    assert At(pkt, 12, name) by {
      SubSlice(pkt, 12, 16 + |name|, 0, |name|);
    }
    AcceptsPlainNames(pkt, 12, sent, SHORT);
    AcceptsPlainNames(pkt, 12, sent, LONG);
    NamesAreText();
  }

  /** An answer names what was asked: the walk through the query spells the labels of the name sent. */
  lemma AnswersTheNameAsked(pkt: seq<byte>, n: nat)
    requires n <= |pkt| && Answer(pkt, n).Some?
    ensures exists labels ::
              && Answer(pkt, n).value == EncodeName(labels)
              && EqLabels(LabelsIn(Walk(pkt, 12, MAX_HOPS + 1)), labels)
  {
    NamesAreEncoded();
    var labels := if NameMatches(pkt, 12, SHORT) then SHORT else LONG;
    MatchesExactlyWhen(pkt, 12, labels);
    assert Answer(pkt, n).value == EncodeName(labels);
  }

  /** No packet with the response bit is taken for a query. */
  lemma NeverAnswersAnAnswer(pkt: seq<byte>, n: nat)
    requires n <= |pkt| && |pkt| > 2 && pkt[2] >= 0x80
    ensures Answer(pkt, n) == None
  {
  }

  /** So neither an answer nor an announcement of the firmware itself is ever answered. */
  lemma OwnPacketsAreNotAnswered(name: seq<byte>, rest: seq<byte>, n: nat)
    requires n <= |AnswerBytes(name) + rest|
    ensures Answer(AnswerBytes(name) + rest, n) == None
  {
    assert (AnswerBytes(name) + rest)[2] == 0x84;
    NeverAnswersAnAnswer(AnswerBytes(name) + rest, n);
  }
}
