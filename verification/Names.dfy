/**
  Compressed domain names (sections 2.3.3, 3.1 and 4.1.4 of RFC 1035) as `src/net_services.rs`
  matches them and `src/ap_log.rs` prints them.
 */
module Names {
  import opened Words

  // The walk through a name

  datatype Item = Label(bytes: seq<byte>) | Jump | Root | Malformed

  /** `b & 0xC0 == 0xC0`. Lengths 64 to 191 are taken as plain labels. */
  predicate IsPointer(b: byte) {
    b >= 0xC0
  }

  /** `((hi & 0x3F) << 8) | lo` of a pointer, whose two tag bits are set. */
  function Target(hi: byte, lo: byte): nat
    requires IsPointer(hi)
  {
    FromBigEndian(hi - 0xC0, lo)
  }

  function ItemAt(q: seq<byte>, i: nat): Item {
    if i >= |q| then Malformed
    else if q[i] == 0 then Root
    else if IsPointer(q[i]) then if i + 1 >= |q| then Malformed else Jump
    else if i + 1 + q[i] > |q| then Malformed
    else Label(q[i + 1..i + 1 + q[i]])
  }

  predicate GoesOn(item: Item) {
    item.Label? || item.Jump?
  }

  /** Where the walk goes on after a label or a jump. */
  function After(q: seq<byte>, i: nat): nat
    requires GoesOn(ItemAt(q, i))
  {
    if IsPointer(q[i]) then Target(q[i], q[i + 1]) else i + 1 + q[i]
  }

  /** The first `n` items met from offset `i`, following pointers; it ends early at the root or at a malformed item. */
  function Walk(q: seq<byte>, i: nat, n: nat): (items: seq<Item>)
    ensures |items| <= n
    decreases n, |q|
  {
    if n == 0 then []
    else if GoesOn(ItemAt(q, i)) then [ItemAt(q, i)] + Walk(q, After(q, i), n - 1)
    else [ItemAt(q, i)]
  }

  function LabelsIn(items: seq<Item>): seq<seq<byte>> {
    if items == [] then []
    else (if items[0].Label? then [items[0].bytes] else []) + LabelsIn(items[1..])
  }

  predicate Ends(items: seq<Item>) {
    items != [] && items[|items| - 1] == Root
  }

  /** A walk that reaches the root is the same whatever larger limit it is given. */
  lemma {:induction false} FinishedWalk(q: seq<byte>, i: nat, n: nat, more: nat)
    requires Ends(Walk(q, i, n)) && more >= |Walk(q, i, n)|
    ensures Walk(q, i, more) == Walk(q, i, n)
    decreases n
  {
    var w := Walk(q, i, n);
    if GoesOn(w[0]) {
      var rest := Walk(q, After(q, i), n - 1);
      assert w == [w[0]] + rest;
      assert rest != [] && rest[|rest| - 1] == w[|w| - 1];
      FinishedWalk(q, After(q, i), n - 1, more - 1);
    }
  }

  // Matching

  const MAX_HOPS := 8

  function Lower(b: byte): byte {
    if 0x41 <= b <= 0x5A then b + 0x20 else b
  }

  predicate EqLabel(a: seq<byte>, b: seq<byte>) {
    |a| == |b| && forall k :: 0 <= k < |a| ==> Lower(a[k]) == Lower(b[k])
  }

  predicate EqLabels(a: seq<seq<byte>>, b: seq<seq<byte>>) {
    |a| == |b| && forall k :: 0 <= k < |a| ==> EqLabel(a[k], b[k])
  }

  /** `u` is a capital letter and `l` the same letter in lower case. */
  predicate IsCapitalOf(u: byte, l: byte) {
    'A' as int <= u <= 'Z' as int && l == u + 0x20
  }

  /** The same text, ASCII letter case aside (section 2.3.3 of RFC 1035). */
  predicate SameText(a: seq<byte>, b: seq<byte>) {
    |a| == |b| && forall k :: 0 <= k < |a| ==> a[k] == b[k] || IsCapitalOf(a[k], b[k]) || IsCapitalOf(b[k], a[k])
  }

  predicate SameName(a: seq<seq<byte>>, b: seq<seq<byte>>) {
    |a| == |b| && forall k :: 0 <= k < |a| ==> SameText(a[k], b[k])
  }

  /** `eq_ignore_ascii_case` over whole names tells apart everything but letter case. */
  lemma IgnoresExactlyCase(a: seq<seq<byte>>, b: seq<seq<byte>>)
    ensures EqLabels(a, b) <==> SameName(a, b)
  {
    forall x: byte, y: byte
      ensures Lower(x) == Lower(y) <==> x == y || IsCapitalOf(x, y) || IsCapitalOf(y, x)
    {
    }
  }

  predicate LabelAt(q: seq<byte>, i: nat, name: seq<byte>)
    requires i < |q|
  {
    q[i] != 0 && q[i] == |name| && i + 1 + q[i] <= |q| && EqLabel(q[i + 1..i + 1 + q[i]], name)
  }

  /** With this many hops left, the name at `i` spells the labels from `k` on. */
  predicate Accepts(q: seq<byte>, i: nat, hops: nat, labels: seq<seq<byte>>, k: nat)
    requires k <= |labels|
    decreases hops, |q|
  {
    if k == |labels| then i < |q| && q[i] == 0
    else
      && hops > 0 && i < |q|
      && if IsPointer(q[i]) then
           i + 1 < |q| && Accepts(q, Target(q[i], q[i + 1]), hops - 1, labels, k)
         else
           && LabelAt(q, i, labels[k])
           && Accepts(q, i + 1 + q[i], hops - 1, labels, k + 1)
  }

  predicate NameMatches(q: seq<byte>, i: nat, labels: seq<seq<byte>>) {
    Accepts(q, i, MAX_HOPS, labels, 0)
  }

  /** Terminates on every buffer, pointer cycles included, and decides `NameMatches`. */
  method QnameMatches(q: seq<byte>, start: nat, labels: seq<seq<byte>>) returns (matches: bool)
    ensures matches <==> NameMatches(q, start, labels)
  {
    var i := start;
    var hops := 0;
    for k := 0 to |labels|
      invariant 0 <= i && hops <= MAX_HOPS
      invariant NameMatches(q, start, labels) == Accepts(q, i, MAX_HOPS - hops, labels, k)
    {
      while true
        invariant 0 <= i && hops <= MAX_HOPS
        invariant NameMatches(q, start, labels) == Accepts(q, i, MAX_HOPS - hops, labels, k)
        decreases MAX_HOPS - hops
      {
        hops := hops + 1;
        if hops > MAX_HOPS || i >= |q| {
          return false;
        }
        var len := q[i];
        if IsPointer(len) {
          if i + 1 >= |q| {
            return false;
          }
          i := Target(len, q[i + 1]);
          continue;
        }
        if !LabelAt(q, i, labels[k]) {
          return false;
        }
        i := i + 1 + len;
        break;
      }
    }
    matches := i < |q| && q[i] == 0;
  }

  /**
    A name is accepted if and only if its walk reaches the root in at most eight labels and jumps,
    not straight after a jump, and the labels met are the expected ones up to ASCII case.
   */
  lemma MatchesExactlyWhen(q: seq<byte>, i: nat, labels: seq<seq<byte>>)
    ensures NameMatches(q, i, labels) <==>
              var walk := Walk(q, i, 8 + 1);
              && Ends(walk)
              && (|walk| > 1 ==> walk[|walk| - 2].Label?)
              && EqLabels(LabelsIn(walk), labels)
  {
    AcceptsExactlyWhen(q, i, MAX_HOPS, labels, 0);
    assert labels[0..] == labels;
  }

  ghost predicate WalkSpells(walk: seq<Item>, labels: seq<seq<byte>>) {
    && Ends(walk)
    && (|walk| > 1 ==> walk[|walk| - 2].Label?)
    && EqLabels(LabelsIn(walk), labels)
  }

  lemma {:induction false} AcceptsExactlyWhen(q: seq<byte>, i: nat, hops: nat, labels: seq<seq<byte>>, k: nat)
    requires k <= |labels|
    ensures Accepts(q, i, hops, labels, k) <==> WalkSpells(Walk(q, i, hops + 1), labels[k..])
    decreases hops
  {
    var walk := Walk(q, i, hops + 1);
    if GoesOn(walk[0]) {
      var next := After(q, i);
      var rest := Walk(q, next, hops);
      var more := walk[0].Label?;
      assert walk == [walk[0]] + rest;
      if more {
        LabelInWalk(walk[0].bytes, rest, labels[k..]);
      } else {
        JumpInWalk(rest, labels[k..]);
      }
      if k < |labels| {
        assert labels[k..][1..] == labels[k + 1..];
        if hops > 0 {
          AcceptsExactlyWhen(q, next, hops - 1, labels, if more then k + 1 else k);
        }
      }
    } else {
      assert walk == [walk[0]];
      assert LabelsIn(walk) == [];
    }
  }

  lemma JumpInWalk(rest: seq<Item>, labels: seq<seq<byte>>)
    ensures WalkSpells([Jump] + rest, labels) <==> labels != [] && WalkSpells(rest, labels)
  {
    var walk := [Jump] + rest;
    assert walk[1..] == rest;
    assert LabelsIn(walk) == LabelsIn(rest);
    if |rest| > 1 {
      assert walk[|walk| - 2] == rest[|rest| - 2] && walk[|walk| - 1] == rest[|rest| - 1];
      if rest[|rest| - 2].Label? {
        LabelCounts(rest, |rest| - 2);
      }
    } else if |rest| == 1 {
      assert rest == [rest[0]] && LabelsIn(rest[1..]) == [];
    }
  }

  lemma LabelInWalk(bytes: seq<byte>, rest: seq<Item>, labels: seq<seq<byte>>)
    ensures WalkSpells([Label(bytes)] + rest, labels) <==>
              labels != [] && EqLabel(bytes, labels[0]) && WalkSpells(rest, labels[1..])
  {
    var walk := [Label(bytes)] + rest;
    assert walk[1..] == rest;
    assert LabelsIn(walk) == [bytes] + LabelsIn(rest);
    if labels != [] {
      EqLabelsCons(bytes, LabelsIn(rest), labels);
    }
    if rest != [] {
      assert walk[|walk| - 1] == rest[|rest| - 1];
      assert |rest| > 1 ==> walk[|walk| - 2] == rest[|rest| - 2];
    }
  }

  lemma {:induction false} LabelCounts(items: seq<Item>, k: nat)
    requires k < |items| && items[k].Label?
    ensures LabelsIn(items) != []
    decreases |items|
  {
    if k > 0 {
      LabelCounts(items[1..], k - 1);
    }
  }

  lemma EqLabelsCons(first: seq<byte>, rest: seq<seq<byte>>, labels: seq<seq<byte>>)
    requires labels != []
    ensures EqLabels([first] + rest, labels) <==> EqLabel(first, labels[0]) && EqLabels(rest, labels[1..])
  {
    var all := [first] + rest;
    if EqLabels(all, labels) {
      assert EqLabel(all[0], labels[0]);
      assert forall k :: 0 <= k < |rest| ==> rest[k] == all[k + 1];
    }
  }

  // Plain encodings

  /** Uncompressed labels on the wire, each behind its length. */
  function Labels(labels: seq<seq<byte>>): seq<byte> {
    if labels == [] then [] else [|labels[0]| % 0x100] + labels[0] + Labels(labels[1..])
  }

  function EncodeName(labels: seq<seq<byte>>): seq<byte> {
    Labels(labels) + [0]
  }

  predicate Encodable(labels: seq<seq<byte>>) {
    forall k :: 0 <= k < |labels| ==> 1 <= |labels[k]| <= 63
  }

  lemma LabelOnWire(q: seq<byte>, i: nat, first: seq<byte>, rest: seq<byte>)
    requires |first| < 0x100 && At(q, i, [|first| % 0x100] + first + rest)
    ensures q[i] == |first| && At(q, i + 1, first) && At(q, i + 1 + |first|, rest)
  {
    assert [|first| % 0x100] + first + rest == [|first| % 0x100] + (first + rest);
    SplitSlice(q, i, [|first| % 0x100], first + rest);
    SplitSlice(q, i + 1, first, rest);
  }

  lemma EncodeNameHead(labels: seq<seq<byte>>)
    requires labels != []
    ensures EncodeName(labels) == [|labels[0]| % 0x100] + labels[0] + EncodeName(labels[1..])
  {
  }

  lemma EncodedHead(q: seq<byte>, i: nat, labels: seq<seq<byte>>)
    requires labels != [] && |labels[0]| <= 63 && At(q, i, EncodeName(labels))
    ensures var len := |labels[0]|;
            && q[i] == len && i + 1 + len <= |q|
            && At(q, i + 1, labels[0])
            && At(q, i + 1 + len, EncodeName(labels[1..]))
  {
    EncodeNameHead(labels);
    LabelOnWire(q, i, labels[0], EncodeName(labels[1..]));
  }

  lemma {:induction false} PlainIsAccepted(q: seq<byte>, i: nat, hops: nat, sent: seq<seq<byte>>, labels: seq<seq<byte>>, k: nat)
    requires Encodable(sent) && At(q, i, EncodeName(sent))
    requires k <= |labels| && (|sent| <= hops || |labels| <= k + hops)
    ensures Accepts(q, i, hops, labels, k) <==> EqLabels(sent, labels[k..])
    decreases |sent|
  {
    if sent == [] {
      assert q[i..i + 1][0] == q[i];
    } else {
      EncodedHead(q, i, sent);
      if k < |labels| {
        PlainIsAccepted(q, i + 1 + |sent[0]|, hops - 1, sent[1..], labels, k + 1);
        assert sent == [sent[0]] + sent[1..] && labels[k..][1..] == labels[k + 1..];
        EqLabelsCons(sent[0], sent[1..], labels[k..]);
      }
    }
  }

  /**
    A name without pointers is recognised if and only if it is the name expected, letter case aside,
    unless both have more than eight labels.
   */
  lemma AcceptsPlainNames(q: seq<byte>, i: nat, sent: seq<seq<byte>>, labels: seq<seq<byte>>)
    requires Encodable(sent) && At(q, i, EncodeName(sent))
    requires |sent| <= MAX_HOPS || |labels| <= MAX_HOPS
    ensures NameMatches(q, i, labels) <==> SameName(sent, labels)
  {
    PlainIsAccepted(q, i, MAX_HOPS, sent, labels, 0);
    assert labels[0..] == labels;
    IgnoresExactlyCase(sent, labels);
  }

  // Printing

  const PRINT_HOPS := 10
  const DOT: byte := 0x2e

  function Join(labels: seq<seq<byte>>): seq<byte> {
    if labels == [] then []
    else if |labels| == 1 then labels[0]
    else labels[0] + [DOT] + Join(labels[1..])
  }

  function Append(text: seq<byte>, bytes: seq<byte>): seq<byte> {
    (if text == [] then [] else text + [DOT]) + bytes
  }

  /** Appends dotted labels to text already written. */
  function Extend(text: seq<byte>, labels: seq<seq<byte>>): seq<byte>
    decreases |labels|
  {
    if labels == [] then text
    else Extend(Append(text, labels[0]), labels[1..])
  }

  lemma {:induction false} ExtendIsJoin(text: seq<byte>, labels: seq<seq<byte>>)
    requires forall k :: 0 <= k < |labels| ==> labels[k] != []
    ensures Extend(text, labels) ==
              if labels == [] then text else if text == [] then Join(labels) else text + [DOT] + Join(labels)
    decreases |labels|
  {
    if labels != [] {
      var text' := Append(text, labels[0]);
      ExtendIsJoin(text', labels[1..]);
      if |labels| > 1 {
        assert text != [] ==> text' + [DOT] + Join(labels[1..]) == text + [DOT] + (labels[0] + [DOT] + Join(labels[1..]));
        assert text == [] ==> text' == labels[0];
      }
    }
  }

  lemma {:induction false} ExtendKeepsText(text: seq<byte>, labels: seq<seq<byte>>)
    ensures text <= Extend(text, labels)
    decreases |labels|
  {
    if labels != [] {
      ExtendKeepsText(Append(text, labels[0]), labels[1..]);
    }
  }

  lemma {:induction false} WalkLabelsNonEmpty(q: seq<byte>, i: nat, n: nat)
    ensures forall k :: 0 <= k < |LabelsIn(Walk(q, i, n))| ==> LabelsIn(Walk(q, i, n))[k] != []
    decreases n
  {
    var walk := Walk(q, i, n);
    if walk != [] && GoesOn(walk[0]) {
      assert walk[1..] == Walk(q, After(q, i), n - 1);
      WalkLabelsNonEmpty(q, After(q, i), n - 1);
    }
  }

  /** The dotted name the walk from offset 12 meets in its first ten items. */
  function PrintedName(pkt: seq<byte>): seq<byte> {
    Join(LabelsIn(Walk(pkt, 12, PRINT_HOPS)))
  }

  /** What has been printed, and what the rest of the walk will add; nothing past `o` is touched. */
  ghost predicate Printing(out: array<byte>, o: nat, was: seq<byte>, name: seq<byte>, rest: seq<Item>)
    reads out
  {
    && o <= out.Length == |was|
    && out[o..] == was[o..]
    && (name == Extend(out[..o], LabelsIn(rest)) || (o == out.Length && out[..o] <= name))
  }

  lemma PrintingStops(out: array<byte>, o: nat, was: seq<byte>, name: seq<byte>, rest: seq<Item>)
    requires Printing(out, o, was, name, rest)
    requires LabelsIn(rest) == [] || o == out.Length
    ensures o == Min(|name|, out.Length) && out[..o] == name[..o]
  {
    ExtendKeepsText(out[..o], LabelsIn(rest));
  }

  lemma JumpAddsNothing(out: array<byte>, o: nat, was: seq<byte>, name: seq<byte>, walk: seq<Item>)
    requires Printing(out, o, was, name, walk) && walk != [] && walk[0].Jump?
    ensures Printing(out, o, was, name, walk[1..])
  {
    assert LabelsIn(walk) == LabelsIn(walk[1..]);
  }

  lemma PrintingStarts(out: array<byte>, pkt: seq<byte>)
    ensures Printing(out, 0, out[..], PrintedName(pkt), Walk(pkt, 12, PRINT_HOPS))
  {
    WalkLabelsNonEmpty(pkt, 12, PRINT_HOPS);
    ExtendIsJoin([], LabelsIn(Walk(pkt, 12, PRINT_HOPS)));
    assert out[..0] == [];
  }

  /** Writes exactly as much of the dotted name as fits, and nothing after it. */
  method FormatQname(pkt: seq<byte>, out: array<byte>) returns (o: nat)
    modifies out
    ensures o == Min(|PrintedName(pkt)|, out.Length)
    ensures out[..o] == PrintedName(pkt)[..o]
    ensures out[o..] == old(out[..])[o..]
  {
    var i := 12;
    o := 0;
    var hops := 0;
    ghost var name := PrintedName(pkt);
    ghost var was := out[..];
    ghost var walk := Walk(pkt, i, PRINT_HOPS);
    PrintingStarts(out, pkt);
    while true
      invariant 0 <= i && hops <= PRINT_HOPS
      invariant walk == Walk(pkt, i, PRINT_HOPS - hops)
      invariant Printing(out, o, was, name, walk)
      decreases PRINT_HOPS - hops
    {
      hops := hops + 1;
      if hops > PRINT_HOPS || i >= |pkt| || o >= out.Length {
        break;
      }
      var len := pkt[i];
      if len == 0 {
        break;
      }
      if IsPointer(len) {
        if i + 1 >= |pkt| {
          break;
        }
        i := Target(len, pkt[i + 1]);
        JumpAddsNothing(out, o, was, name, walk);
        walk := walk[1..];
        continue;
      }
      if i + 1 + len > |pkt| {
        break;
      }
      ghost var rest := Walk(pkt, i + 1 + len, PRINT_HOPS - hops);
      LabelPrinted(out[..o], Min(|Append(out[..o], pkt[i + 1..i + 1 + len])|, out.Length), out.Length, name,
                   pkt[i + 1..i + 1 + len], rest);
      o := WriteLabel(out, o, pkt[i + 1..i + 1 + len], was);
      i := i + 1 + len;
      walk := rest;
    }
    PrintingStops(out, o, was, name, walk);
  }

  lemma ExtendByLabel(text: seq<byte>, walk: seq<Item>, bytes: seq<byte>, rest: seq<Item>)
    requires walk == [Label(bytes)] + rest
    ensures Extend(text, LabelsIn(walk)) == Extend(Append(text, bytes), LabelsIn(rest))
  {
    assert walk[1..] == rest;
    assert LabelsIn(walk) == [bytes] + LabelsIn(rest);
    assert LabelsIn(walk)[1..] == LabelsIn(rest);
  }

  /** As much of `bytes` as fits. */
  method WriteFitting(out: array<byte>, at: nat, bytes: seq<byte>) returns (o: nat)
    requires at <= out.Length
    modifies out
    ensures o == Min(at + |bytes|, out.Length)
    ensures out[..o] == old(out[..at]) + bytes[..o - at]
    ensures out[o..] == old(out[..])[o..]
  {
    var n := Min(|bytes|, out.Length - at);
    ghost var was := out[..];
    CopyInto(out, at, bytes[..n]);
    Copied(was, out[..], at, bytes[..n]);
    o := at + n;
  }

  method WriteDot(out: array<byte>, at: nat)
    requires at < out.Length
    modifies out
    ensures out[..at + 1] == old(out[..at]) + [DOT]
    ensures out[at + 1..] == old(out[at + 1..])
  {
    out[at] := DOT;
  }

  lemma SameTail(now: seq<byte>, was: seq<byte>, i: nat, j: nat)
    requires i <= j <= |was| == |now| && now[i..] == was[i..]
    ensures now[j..] == was[j..]
  {
    assert now[i..][j - i..] == now[j..] && was[i..][j - i..] == was[j..];
  }

  /** One label after what is already there, with its dot, cut off where the buffer ends. */
  method WriteLabel(out: array<byte>, at: nat, bytes: seq<byte>, ghost was: seq<byte>) returns (o: nat)
    requires at < out.Length == |was| && out[at..] == was[at..]
    modifies out
    ensures o == Min(|Append(old(out[..at]), bytes)|, out.Length)
    ensures out[..o] == Append(old(out[..at]), bytes)[..o]
    ensures out[o..] == was[o..]
  {
    o := at;
    if o > 0 {
      SameTail(out[..], was, o, o + 1);
      WriteDot(out, o);
      o := o + 1;
      if o >= out.Length {
        return;
      }
    }
    ghost var from, prefix := o, out[..o];
    SameTail(out[..], was, o, Min(o + |bytes|, out.Length));
    o := WriteFitting(out, o, bytes);
    PrefixOfAppend(prefix, bytes, o - from);
  }

  /** A label written keeps the rest of the walk in step with the text. */
  lemma LabelPrinted(text: seq<byte>, o: nat, room: nat, name: seq<byte>, bytes: seq<byte>, rest: seq<Item>)
    requires name == Extend(text, LabelsIn([Label(bytes)] + rest)) && |text| < room
    requires o == Min(|Append(text, bytes)|, room)
    ensures var printed := Append(text, bytes)[..o];
            name == Extend(printed, LabelsIn(rest)) || (o == room && printed <= name)
  {
    var whole := Append(text, bytes);
    ExtendByLabel(text, [Label(bytes)] + rest, bytes, rest);
    ExtendKeepsText(whole, LabelsIn(rest));
    assert whole[..|whole|] == whole;
  }

  lemma PrefixOfAppend(a: seq<byte>, b: seq<byte>, n: nat)
    requires n <= |b|
    ensures a + b[..n] <= a + b && (n == |b| ==> a + b[..n] == a + b)
  {
    assert n == |b| ==> b[..n] == b;
    assert a + b == a + b[..n] + b[n..];
  }

  lemma WalkTakesLabel(q: seq<byte>, i: nat, n: nat)
    requires n > 0 && ItemAt(q, i).Label?
    ensures LabelsIn(Walk(q, i, n)) == [ItemAt(q, i).bytes] + LabelsIn(Walk(q, After(q, i), n - 1))
  {
    var rest := Walk(q, After(q, i), n - 1);
    assert ([ItemAt(q, i)] + rest)[1..] == rest;
  }

  lemma WalkEnds(q: seq<byte>, i: nat, n: nat)
    requires ItemAt(q, i) == Root
    ensures LabelsIn(Walk(q, i, n)) == []
  {
    assert LabelsIn([Root][1..]) == [];
  }

  lemma PlainLabel(q: seq<byte>, i: nat, labels: seq<seq<byte>>)
    requires labels != [] && Encodable(labels) && At(q, i, EncodeName(labels))
    ensures ItemAt(q, i) == Label(labels[0])
    ensures After(q, i) == i + 1 + |labels[0]| && At(q, After(q, i), EncodeName(labels[1..]))
  {
    EncodedHead(q, i, labels);
  }

  lemma {:induction false} WalkReadsPlain(q: seq<byte>, i: nat, labels: seq<seq<byte>>, n: nat)
    requires Encodable(labels) && At(q, i, EncodeName(labels)) && |labels| <= n
    ensures LabelsIn(Walk(q, i, n)) == labels
    decreases |labels|
  {
    if labels == [] {
      assert q[i..i + 1][0] == q[i];
      WalkEnds(q, i, n);
    } else {
      PlainLabel(q, i, labels);
      WalkReadsPlain(q, After(q, i), labels[1..], n - 1);
      WalkTakesLabel(q, i, n);
    }
  }

  /** A name without pointers prints as its labels, up to ten of them, with dots between. */
  lemma PrintsPlainName(pkt: seq<byte>, labels: seq<seq<byte>>)
    requires Encodable(labels) && At(pkt, 12, EncodeName(labels)) && |labels| <= 10
    ensures PrintedName(pkt) == Join(labels)
  {
    WalkReadsPlain(pkt, 12, labels, 10);
  }

  lemma JoinsWithDots()
    ensures Join([Ascii("sb"), Ascii("local")]) == Ascii("sb.local")
    ensures Join([Ascii("a"), Ascii("b"), Ascii("c")]) == Ascii("a.b.c")
  {
    assert [Ascii("sb"), Ascii("local")][1..] == [Ascii("local")];
    assert [Ascii("a"), Ascii("b"), Ascii("c")][1..] == [Ascii("b"), Ascii("c")];
    assert [Ascii("b"), Ascii("c")][1..] == [Ascii("c")];
  }

  /** When the walk takes at most ten steps before the root, the printed name is the whole name. */
  lemma PrintsWholeName(pkt: seq<byte>, n: nat)
    requires Ends(Walk(pkt, 12, 10 + 1)) && n > 10
    ensures PrintedName(pkt) == Join(LabelsIn(Walk(pkt, 12, n)))
  {
    assert Walk(pkt, 12, n) == Walk(pkt, 12, PRINT_HOPS + 1) by {
      FinishedWalk(pkt, 12, PRINT_HOPS + 1, n);
    }
    DropRoot(pkt, 12, PRINT_HOPS);
  }

  /** One more step of the limit adds at most one item. */
  lemma {:induction false} WalkPrefix(q: seq<byte>, i: nat, n: nat)
    ensures Walk(q, i, n) <= Walk(q, i, n + 1)
    ensures |Walk(q, i, n)| == Min(n, |Walk(q, i, n + 1)|)
    decreases n
  {
    if n > 0 && GoesOn(ItemAt(q, i)) {
      WalkPrefix(q, After(q, i), n - 1);
      assert Walk(q, i, n) == [ItemAt(q, i)] + Walk(q, After(q, i), n - 1);
      assert Walk(q, i, n + 1) == [ItemAt(q, i)] + Walk(q, After(q, i), n);
    }
  }

  lemma {:induction false} LabelsBeforeRoot(items: seq<Item>)
    ensures LabelsIn(items + [Root]) == LabelsIn(items)
    decreases |items|
  {
    if items == [] {
      assert LabelsIn([Root][1..]) == [];
    } else {
      assert (items + [Root])[1..] == items[1..] + [Root];
      LabelsBeforeRoot(items[1..]);
    }
  }

  lemma DropRoot(q: seq<byte>, i: nat, n: nat)
    requires Ends(Walk(q, i, n + 1))
    ensures LabelsIn(Walk(q, i, n)) == LabelsIn(Walk(q, i, n + 1))
  {
    WalkPrefix(q, i, n);
    var w := Walk(q, i, n);
    if Walk(q, i, n + 1) != w {
      assert Walk(q, i, n + 1) == w + [Root];
      LabelsBeforeRoot(w);
    }
  }
}
