/**
  The DHCP lease table of `src/net_proto.rs`: slots, wrapping use counters, and the
  recency list that `slot_for_mac` stands for.
 */
module Leases {
  import opened Words

  datatype Mac = Mac(b0: byte, b1: byte, b2: byte, b3: byte, b4: byte, b5: byte)

  const NO_MAC := Mac(0, 0, 0, 0, 0, 0)

  datatype Lease = Lease(mac: Mac, stamp: u32)

  const EMPTY := Lease(NO_MAC, 0)

  // What slot_for_mac does to a table

  /** First index holding `mac`, or the length of the table. */
  function IndexOf(t: seq<Lease>, mac: Mac): (i: nat)
    ensures i <= |t|
    ensures i < |t| ==> t[i].mac == mac
    ensures forall j :: 0 <= j < i ==> t[j].mac != mac
  {
    if t == [] || t[0].mac == mac then 0 else 1 + IndexOf(t[1..], mac)
  }

  /** The last of the entries with the least stamp. */
  function Oldest(t: seq<Lease>): (i: nat)
    requires t != []
    ensures i < |t|
    ensures forall j :: 0 <= j < |t| ==> t[i].stamp <= t[j].stamp
    ensures forall j :: i < j < |t| ==> t[i].stamp < t[j].stamp
  {
    var n := |t| - 1;
    if n == 0 then 0
    else
      var i := Oldest(t[..n]);
      if t[n].stamp <= t[i].stamp then n else i
  }

  function Choose(t: seq<Lease>, mac: Mac): (i: nat)
    requires t != []
    ensures i < |t|
  {
    var hit := IndexOf(t, mac);
    var free := IndexOf(t, NO_MAC);
    if hit < |t| then hit else if free < |t| then free else Oldest(t)
  }

  datatype Table = Table(leases: seq<Lease>, stamp: u32)

  function Serve(t: Table, mac: Mac): (t': Table)
    requires t.leases != []
    ensures |t'.leases| == |t.leases|
  {
    var stamp := WrappingInc(t.stamp);
    Table(t.leases[Choose(t.leases, mac) := Lease(mac, stamp)], stamp)
  }

  function ServeAll(t: Table, macs: seq<Mac>): (t': Table)
    requires t.leases != []
    ensures |t'.leases| == |t.leases|
    decreases |macs|
  {
    if macs == [] then t else Serve(ServeAll(t, macs[..|macs| - 1]), macs[|macs| - 1])
  }

  lemma FirstIndex(t: seq<Lease>, mac: Mac, i: nat)
    requires i <= |t| && (i < |t| ==> t[i].mac == mac)
    requires forall j :: 0 <= j < i ==> t[j].mac != mac
    ensures i == IndexOf(t, mac)
  {
  }

  method FindMac(leases: array<Lease>, mac: Mac) returns (i: nat)
    ensures i == IndexOf(leases[..], mac)
  {
    i := 0;
    while i < leases.Length && leases[i].mac != mac
      invariant i <= leases.Length
      invariant forall j :: 0 <= j < i ==> leases[j].mac != mac
    {
      i := i + 1;
    }
    FirstIndex(leases[..], mac, i);
  }

  method SlotForMac(leases: array<Lease>, stamp: u32, mac: Mac) returns (slot: byte, stamp': u32)
    requires leases.Length > 0
    modifies leases
    ensures var t := Serve(Table(old(leases[..]), stamp), mac);
            leases[..] == t.leases && stamp' == t.stamp
    ensures slot == Choose(old(leases[..]), mac) % 0x100
  {
    stamp' := WrappingInc(stamp);
    var hit := FindMac(leases, mac);
    if hit < leases.Length {
      leases[hit] := leases[hit].(stamp := stamp');
      return hit % 0x100, stamp';
    }
    var free := FindMac(leases, NO_MAC);
    if free < leases.Length {
      leases[free] := Lease(mac, stamp');
      return free % 0x100, stamp';
    }
    var i := 0;
    var best := leases[0].stamp;
    for k := 0 to leases.Length
      invariant i < leases.Length && (k == 0 ==> i == 0) && (k > 0 ==> i < k)
      invariant best == leases[i].stamp
      invariant forall j :: 0 <= j < k ==> best <= leases[j].stamp
      invariant forall j :: i < j < k ==> best < leases[j].stamp
    {
      if leases[k].stamp <= best {
        best := leases[k].stamp;
        i := k;
      }
    }
    ghost var o := Oldest(leases[..]);
    assert leases[..][o].stamp == leases[..][i].stamp;
    leases[i] := Lease(mac, stamp');
    slot := i % 0x100;
  }

  // The recency list

  /** A client holding a slot. The list of holders runs from the most to the least recently used. */
  datatype Holder = Holder(mac: Mac, slot: nat)

  function Position(order: seq<Holder>, mac: Mac): (p: nat)
    ensures p <= |order|
    ensures p < |order| ==> order[p].mac == mac
    ensures forall j :: 0 <= j < p ==> order[j].mac != mac
  {
    if order == [] || order[0].mac == mac then 0 else 1 + Position(order[1..], mac)
  }

  predicate Uses(order: seq<Holder>, slot: nat) {
    exists a :: 0 <= a < |order| && order[a].slot == slot
  }

  /** The least slot from `from` on that nobody holds, or `n`. */
  function FirstFree(order: seq<Holder>, from: nat, n: nat): (s: nat)
    requires from <= n
    ensures from <= s <= n
    ensures s < n ==> !Uses(order, s)
    ensures forall k :: from <= k < s ==> Uses(order, k)
    decreases n - from
  {
    if from == n || !Uses(order, from) then from else FirstFree(order, from + 1, n)
  }

  function Remove(order: seq<Holder>, v: nat): (rest: seq<Holder>)
    requires v < |order|
    ensures |rest| == |order| - 1
    ensures forall a :: 0 <= a < v ==> rest[a] == order[a]
    ensures forall a :: v <= a < |rest| ==> rest[a] == order[a + 1]
  {
    order[..v] + order[v + 1..]
  }

  /** Puts a new holder first; the all-zero MAC marks an empty slot and so holds nothing. */
  function Enter(order: seq<Holder>, mac: Mac, slot: nat): seq<Holder> {
    if mac == NO_MAC then order else [Holder(mac, slot)] + order
  }

  /** Who gives up their place: the client itself, nobody if a slot is free, else the last holder. */
  function Victim(order: seq<Holder>, n: nat, mac: Mac): (v: nat)
    ensures v <= |order|
  {
    var p := Position(order, mac);
    if p < |order| || order == [] || FirstFree(order, 0, n) < n then p else |order| - 1
  }

  /** The slot the list gives a client. */
  function ListSlot(order: seq<Holder>, n: nat, mac: Mac): nat {
    var v := Victim(order, n, mac);
    if v < |order| then order[v].slot else FirstFree(order, 0, n)
  }

  /** One request: the client goes to the front, in its own slot, a free slot, or the last holder's. */
  function Touch(order: seq<Holder>, n: nat, mac: Mac): seq<Holder> {
    var v := Victim(order, n, mac);
    if v < |order| then Enter(Remove(order, v), mac, order[v].slot)
    else Enter(order, mac, FirstFree(order, 0, n))
  }

  function TouchAll(order: seq<Holder>, n: nat, macs: seq<Mac>): seq<Holder>
    decreases |macs|
  {
    if macs == [] then order else Touch(TouchAll(order, n, macs[..|macs| - 1]), n, macs[|macs| - 1])
  }

  ghost predicate Holds(leases: seq<Lease>, h: Holder) {
    h.slot < |leases| && leases[h.slot].mac == h.mac != NO_MAC
  }

  /** The list names every holder once, in the slot it holds. */
  ghost predicate Lists(leases: seq<Lease>, order: seq<Holder>) {
    && (forall a :: 0 <= a < |order| ==> Holds(leases, order[a]))
    && (forall a, b :: 0 <= a < b < |order| ==> order[a].slot != order[b].slot && order[a].mac != order[b].mac)
    && (forall i {:trigger Uses(order, i)} :: 0 <= i < |leases| && leases[i].mac != NO_MAC ==> Uses(order, i))
  }

  /** Stamps fall along the list, from no more than the counter. */
  ghost predicate ByRecency(t: Table, order: seq<Holder>)
    requires Lists(t.leases, order)
  {
    && (forall a :: 0 <= a < |order| ==> Holds(t.leases, order[a]) && t.leases[order[a].slot].stamp <= t.stamp)
    && (forall a, b :: 0 <= a < b < |order| ==>
          && Holds(t.leases, order[a]) && Holds(t.leases, order[b])
          && t.leases[order[b].slot].stamp < t.leases[order[a].slot].stamp)
  }

  ghost predicate Represents(t: Table, order: seq<Holder>) {
    Lists(t.leases, order) && ByRecency(t, order)
  }

  lemma FreeSlotsAgree(leases: seq<Lease>, order: seq<Holder>)
    requires Lists(leases, order)
    ensures IndexOf(leases, NO_MAC) == FirstFree(order, 0, |leases|)
  {
    forall k | 0 <= k < |leases|
      ensures Uses(order, k) <==> leases[k].mac != NO_MAC
    {
      if Uses(order, k) {
        var a :| 0 <= a < |order| && order[a].slot == k;
        assert Holds(leases, order[a]);
      }
    }
  }

  lemma HitSlot(leases: seq<Lease>, order: seq<Holder>, mac: Mac)
    requires Lists(leases, order) && mac != NO_MAC
    ensures var p := Position(order, mac);
            IndexOf(leases, mac) == if p < |order| then order[p].slot else |leases|
  {
    var p := Position(order, mac);
    var i := IndexOf(leases, mac);
    if p < |order| {
      assert Holds(leases, order[p]);
    }
    if i < |leases| {
      assert Uses(order, i);
      var a :| 0 <= a < |order| && order[a].slot == i;
      assert Holds(leases, order[a]);
    }
  }

  lemma OldestIsLast(t: Table, order: seq<Holder>)
    requires t.leases != [] && Represents(t, order)
    requires IndexOf(t.leases, NO_MAC) == |t.leases|
    ensures order != [] && Oldest(t.leases) == order[|order| - 1].slot
  {
    var o := Oldest(t.leases);
    assert t.leases[o].mac != NO_MAC;
    assert Uses(order, o);
    var a :| 0 <= a < |order| && order[a].slot == o;
    assert Holds(t.leases, order[a]) && Holds(t.leases, order[|order| - 1]);
  }

  /** The slot the code picks is the one the list picks. */
  lemma ChoosesListSlot(t: Table, order: seq<Holder>, mac: Mac)
    requires t.leases != [] && Represents(t, order)
    ensures Choose(t.leases, mac) == ListSlot(order, |t.leases|, mac)
  {
    FreeSlotsAgree(t.leases, order);
    var p := Position(order, mac);
    if mac != NO_MAC {
      HitSlot(t.leases, order, mac);
    }
    assert forall a :: 0 <= a < |order| ==> Holds(t.leases, order[a]);
    if p == |order| && IndexOf(t.leases, NO_MAC) == |t.leases| {
      OldestIsLast(t, order);
    }
  }

  // Leaving and entering the list

  lemma LeaveKeepsLists(leases: seq<Lease>, order: seq<Holder>, v: nat, stamp: u32)
    requires Lists(leases, order) && v < |order|
    ensures order[v].slot < |leases|
    ensures Lists(leases[order[v].slot := Lease(NO_MAC, stamp)], Remove(order, v))
  {
    assert Holds(leases, order[v]);
    var leases' := leases[order[v].slot := Lease(NO_MAC, stamp)];
    var order' := Remove(order, v);
    forall a | 0 <= a < |order'|
      ensures Holds(leases', order'[a])
    {
      assert Holds(leases, order[if a < v then a else a + 1]);
    }
    forall i | 0 <= i < |leases'| && leases'[i].mac != NO_MAC
      ensures Uses(order', i)
    {
      assert Uses(order, i);
      var a :| 0 <= a < |order| && order[a].slot == i;
      assert order'[if a < v then a else a - 1].slot == i;
    }
  }

  lemma LeaveKeepsRecency(t: Table, order: seq<Holder>, v: nat, stamp: u32)
    requires Represents(t, order) && v < |order|
    ensures order[v].slot < |t.leases|
    ensures Represents(t.(leases := t.leases[order[v].slot := Lease(NO_MAC, stamp)]), Remove(order, v))
  {
    LeaveKeepsLists(t.leases, order, v, stamp);
    var rest := Remove(order, v);
    var leases' := t.leases[order[v].slot := Lease(NO_MAC, stamp)];
    forall a | 0 <= a < |rest|
      ensures Holds(leases', rest[a]) && leases'[rest[a].slot] == t.leases[rest[a].slot]
    {
    }
  }

  lemma EnterKeepsLists(leases: seq<Lease>, order: seq<Holder>, mac: Mac, slot: nat, stamp: u32)
    requires Lists(leases, order) && slot < |leases| && leases[slot].mac == NO_MAC
    requires forall a :: 0 <= a < |order| ==> order[a].mac != mac
    ensures Lists(leases[slot := Lease(mac, stamp)], Enter(order, mac, slot))
  {
    var leases' := leases[slot := Lease(mac, stamp)];
    assert forall a :: 0 <= a < |order| ==> Holds(leases, order[a]) && Holds(leases', order[a]);
    if mac == NO_MAC {
      forall i | 0 <= i < |leases'| && leases'[i].mac != NO_MAC
        ensures Uses(order, i)
      {
        assert leases[i].mac != NO_MAC;
      }
    } else {
      NewHolderUses(leases, order, Holder(mac, slot), stamp);
    }
  }

  lemma NewHolderUses(leases: seq<Lease>, order: seq<Holder>, h: Holder, stamp: u32)
    requires Lists(leases, order) && h.slot < |leases| && leases[h.slot].mac == NO_MAC && h.mac != NO_MAC
    ensures forall i {:trigger Uses([h] + order, i)} ::
              0 <= i < |leases| && leases[h.slot := Lease(h.mac, stamp)][i].mac != NO_MAC ==> Uses([h] + order, i)
  {
    var order' := [h] + order;
    forall i | 0 <= i < |leases| && leases[h.slot := Lease(h.mac, stamp)][i].mac != NO_MAC
      ensures Uses(order', i)
    {
      if i == h.slot {
        assert order'[0].slot == i;
      } else {
        assert Uses(order, i);
        var a :| 0 <= a < |order| && order[a].slot == i;
        assert order'[a + 1].slot == i;
      }
    }
  }

  lemma EnterKeepsRecency(t: Table, order: seq<Holder>, mac: Mac, slot: nat)
    requires Represents(t, order) && slot < |t.leases| && t.leases[slot].mac == NO_MAC
    requires forall a :: 0 <= a < |order| ==> order[a].mac != mac
    requires t.stamp + 1 < U32_MOD
    ensures Represents(Table(t.leases[slot := Lease(mac, t.stamp + 1)], t.stamp + 1), Enter(order, mac, slot))
  {
    EnterKeepsLists(t.leases, order, mac, slot, t.stamp + 1);
    forall a | 0 <= a < |order|
      ensures Holds(t.leases, order[a]) && order[a].slot != slot
    {
    }
  }

  // One request

  /** A request finds its slot vacated by the victim, if any, and then enters. */
  lemma Vacate(t: Table, order: seq<Holder>, mac: Mac) returns (t0: Table, rest: seq<Holder>)
    requires t.leases != [] && Represents(t, order)
    ensures Represents(t0, rest) && t0.stamp == t.stamp
    ensures var c := Choose(t.leases, mac);
            && |t0.leases| == |t.leases| && t0.leases[c].mac == NO_MAC
            && Serve(t, mac) == Table(t0.leases[c := Lease(mac, WrappingInc(t.stamp))], WrappingInc(t.stamp))
            && Touch(order, |t.leases|, mac) == Enter(rest, mac, c)
    ensures forall a :: 0 <= a < |rest| ==> rest[a].mac != mac
  {
    ChoosesListSlot(t, order, mac);
    FreeSlotsAgree(t.leases, order);
    var v := Victim(order, |t.leases|, mac);
    if v < |order| {
      LeaveKeepsRecency(t, order, v, 0);
      t0 := t.(leases := t.leases[order[v].slot := Lease(NO_MAC, 0)]);
      rest := Remove(order, v);
    } else {
      t0, rest := t, order;
    }
  }

  /** Who holds which slot follows the list, whatever the stamps do. */
  lemma ServeKeepsLists(t: Table, order: seq<Holder>, mac: Mac)
    requires t.leases != [] && Represents(t, order)
    ensures Lists(Serve(t, mac).leases, Touch(order, |t.leases|, mac))
  {
    var t0, rest := Vacate(t, order, mac);
    EnterKeepsLists(t0.leases, rest, mac, Choose(t.leases, mac), WrappingInc(t.stamp));
  }

  /**
    `slot_for_mac` refines the recency list for as long as the counter does not wrap.
   */
  lemma ServeRefinesLru(t: Table, order: seq<Holder>, mac: Mac)
    requires t.leases != [] && Represents(t, order)
    requires t.stamp + 1 < U32_MOD
    ensures Represents(Serve(t, mac), Touch(order, |t.leases|, mac))
  {
    var t0, rest := Vacate(t, order, mac);
    var c := Choose(t.leases, mac);
    var t' := Table(t0.leases[c := Lease(mac, t0.stamp + 1)], t0.stamp + 1);
    var order' := Enter(rest, mac, c);
    assert t' == Serve(t, mac) && order' == Touch(order, |t.leases|, mac);
    assert Represents(t', order') by {
      EnterKeepsRecency(t0, rest, mac, c);
    }
  }

  // Whole runs

  function NewTable(n: nat): Table {
    Table(seq(n, _ => EMPTY), 0)
  }

  lemma {:induction false} StampAfter(t: Table, macs: seq<Mac>)
    requires t.leases != []
    requires t.stamp + |macs| < U32_MOD
    ensures ServeAll(t, macs).stamp == t.stamp + |macs|
    decreases |macs|
  {
    if macs != [] {
      StampAfter(t, macs[..|macs| - 1]);
    }
  }

  lemma {:induction false} RunRefinesLru(t: Table, order: seq<Holder>, macs: seq<Mac>)
    requires t.leases != [] && Represents(t, order)
    requires t.stamp + |macs| < U32_MOD
    ensures Represents(ServeAll(t, macs), TouchAll(order, |t.leases|, macs))
    decreases |macs|
  {
    if macs != [] {
      var before := macs[..|macs| - 1];
      assert Represents(Serve(ServeAll(t, before), macs[|macs| - 1]),
                        Touch(TouchAll(order, |t.leases|, before), |t.leases|, macs[|macs| - 1])) by {
        StampAfter(t, before);
        RunRefinesLru(t, order, before);
        ServeRefinesLru(ServeAll(t, before), TouchAll(order, |t.leases|, before), macs[|macs| - 1]);
      }
    }
  }

  /** From the empty table, any run shorter than the counter keeps the table an LRU list. */
  lemma BootRefinesLru(n: nat, macs: seq<Mac>)
    requires 0 < n && |macs| < U32_MOD
    ensures Represents(ServeAll(NewTable(n), macs), TouchAll([], n, macs))
  {
    RunRefinesLru(NewTable(n), [], macs);
  }

  /** A client served after any run from the empty table heads the list. */
  lemma BootHeadsList(n: nat, macs: seq<Mac>, mac: Mac) returns (t1: Table, order1: seq<Holder>)
    requires 0 < n && |macs| + 1 < U32_MOD && mac != NO_MAC
    ensures t1 == Serve(ServeAll(NewTable(n), macs), mac) && t1.stamp == |macs| + 1
    ensures Represents(t1, order1) && order1 != []
    ensures order1[0] == Holder(mac, Choose(ServeAll(NewTable(n), macs).leases, mac))
  {
    var t := ServeAll(NewTable(n), macs);
    StampAfter(NewTable(n), macs);
    BootRefinesLru(n, macs);
    t1, order1 := ServeToFront(t, TouchAll([], n, macs), mac);
  }

  lemma ServeToFront(t: Table, order: seq<Holder>, mac: Mac) returns (t1: Table, order1: seq<Holder>)
    requires t.leases != [] && Represents(t, order) && t.stamp + 1 < U32_MOD && mac != NO_MAC
    ensures t1 == Serve(t, mac) && Represents(t1, order1)
    ensures order1 != [] && order1[0] == Holder(mac, Choose(t.leases, mac))
  {
    t1, order1 := Serve(t, mac), Touch(order, |t.leases|, mac);
    ServeRefinesLru(t, order, mac);
    var _, _ := Vacate(t, order, mac);
  }

  // Retention

  function Others(macs: seq<Mac>, mac: Mac): set<Mac> {
    (set m | m in macs) - {mac}
  }

  /** `mac` holds `slot`, and everyone ahead of it is in `since`. */
  ghost predicate Behind(order: seq<Holder>, mac: Mac, slot: nat, since: set<Mac>, p: nat) {
    && p < |order| && order[p] == Holder(mac, slot)
    && forall a :: 0 <= a < p ==> order[a].mac in since
  }

  lemma {:induction false} DistinctPrefix(order: seq<Holder>, p: nat, macs: set<Mac>)
    requires p <= |order|
    requires forall a, b :: 0 <= a < b < |order| ==> order[a].mac != order[b].mac
    requires forall a :: 0 <= a < p ==> order[a].mac in macs
    ensures p <= |macs|
    decreases p
  {
    if p > 0 {
      DistinctPrefix(order, p - 1, macs - {order[p - 1].mac});
    }
  }

  lemma {:induction false} EverySlotUsed(order: seq<Holder>, n: nat)
    requires forall s :: 0 <= s < n ==> Uses(order, s)
    ensures n <= |order|
    decreases n
  {
    if n > 0 {
      assert Uses(order, n - 1);
      var v :| 0 <= v < |order| && order[v].slot == n - 1;
      var rest := Remove(order, v);
      forall s | 0 <= s < n - 1
        ensures Uses(rest, s)
      {
        assert Uses(order, s);
        var a :| 0 <= a < |order| && order[a].slot == s;
        assert rest[if a < v then a else a - 1].slot == s;
      }
      EverySlotUsed(rest, n - 1);
    }
  }

  /** Fewer than `n` distinct clients since its last use cannot make `mac` the victim. */
  lemma NotTheVictim(leases: seq<Lease>, order: seq<Holder>, other: Mac, mac: Mac, slot: nat, since: set<Mac>, p: nat)
    requires Lists(leases, order) && Behind(order, mac, slot, since, p)
    requires other != mac && other in since && |since| < |leases|
    ensures Victim(order, |leases|, other) != p
  {
    var q := Position(order, other);
    if q == |order| && FirstFree(order, 0, |leases|) == |leases| {
      EverySlotUsed(order, |leases|);
      if p == |order| - 1 {
        DistinctPrefix(order, p, since - {other});
      }
    }
  }

  /** A request pushes `mac` back by at most one place, behind the requester, or brings it to the front. */
  lemma TouchKeepsHolder(leases: seq<Lease>, order: seq<Holder>, m: Mac, mac: Mac, slot: nat, since: set<Mac>, p: nat)
    returns (p': nat)
    requires Lists(leases, order) && mac != NO_MAC
    requires Behind(order, mac, slot, since, p)
    requires m == mac || (m in since && |since| < |leases|)
    ensures Behind(Touch(order, |leases|, m), mac, slot, since, p')
  {
    var v := Victim(order, |leases|, m);
    if m == mac {
      p' := 0;
    } else {
      NotTheVictim(leases, order, m, mac, slot, since, p);
      var order' := Touch(order, |leases|, m);
      var shift := if m == NO_MAC then 0 else 1;
      p' := (if v < p then p - 1 else p) + shift;
      forall a | 0 <= a < p'
        ensures order'[a].mac in since
      {
        var b := a - shift;
        assert b >= 0 ==> order'[a] == order[if b < v then b else b + 1];
      }
    }
  }

  /**
    A lease is kept, in its slot, until at least as many distinct other clients as there are slots
    have been served since.
   */
  lemma {:induction false} LeaseIsRetained(t: Table, order: seq<Holder>, mac: Mac, slot: nat, macs: seq<Mac>)
    requires t.leases != [] && Represents(t, order)
    requires order != [] && order[0] == Holder(mac, slot)
    requires t.stamp + |macs| < U32_MOD
    requires |Others(macs, mac)| < |t.leases|
    ensures var t' := ServeAll(t, macs);
            slot < |t'.leases| && t'.leases[slot].mac == mac && Choose(t'.leases, mac) == slot
  {
    var p := HolderAfter(t, order, mac, slot, macs, Others(macs, mac));
    RunRefinesLru(t, order, macs);
    var t' := ServeAll(t, macs);
    var order' := TouchAll(order, |t.leases|, macs);
    assert Holds(t'.leases, order'[p]);
    HitSlot(t'.leases, order', mac);
  }

  lemma {:induction false} HolderAfter(t: Table, order: seq<Holder>, mac: Mac, slot: nat, macs: seq<Mac>, since: set<Mac>)
    returns (p: nat)
    requires t.leases != [] && Represents(t, order)
    requires order != [] && order[0] == Holder(mac, slot)
    requires t.stamp + |macs| < U32_MOD
    requires Others(macs, mac) <= since && |since| < |t.leases|
    ensures Behind(TouchAll(order, |t.leases|, macs), mac, slot, since, p)
    decreases |macs|
  {
    assert Holds(t.leases, order[0]);
    if macs == [] {
      p := 0;
    } else {
      var before := macs[..|macs| - 1];
      var m := macs[|macs| - 1];
      assert m in macs && Others(before, mac) <= Others(macs, mac);
      p := HolderAfter(t, order, mac, slot, before, since);
      RunRefinesLru(t, order, before);
      p := TouchKeepsHolder(ServeAll(t, before).leases, TouchAll(order, |t.leases|, before), m, mac, slot, since, p);
    }
  }

  /** Everyone in `since` is ahead of `mac`, if `mac` still holds a slot at all. */
  ghost predicate AllAhead(order: seq<Holder>, mac: Mac, since: set<Mac>) {
    Position(order, mac) < |order| ==> forall x :: x in since ==> Position(order, x) < Position(order, mac)
  }

  lemma {:induction false} PositionIs(order: seq<Holder>, a: nat)
    requires a < |order|
    requires forall b, c :: 0 <= b < c < |order| ==> order[b].mac != order[c].mac
    ensures Position(order, order[a].mac) == a
  {
    var p := Position(order, order[a].mac);
    assert p <= a;
  }

  lemma StaysAhead(order: seq<Holder>, h: Holder, v: nat, x: Mac, p: nat)
    requires v <= |order| && Position(order, x) < p < |order| && Position(order, x) != v && p != v
    ensures Position([h] + (if v < |order| then Remove(order, v) else order), x) < if p < v then p + 1 else p
  {
    var a := Position(order, x);
    var order' := [h] + (if v < |order| then Remove(order, v) else order);
    PositionAtMost(order', if a < v then a + 1 else a, x);
  }

  lemma PositionAtMost(order: seq<Holder>, a: nat, mac: Mac)
    requires a < |order| && order[a].mac == mac
    ensures Position(order, mac) <= a
  {
  }

  lemma TouchPutsAhead(leases: seq<Lease>, order: seq<Holder>, m: Mac, mac: Mac, since: set<Mac>)
    requires Lists(leases, order) && AllAhead(order, mac, since)
    requires m != NO_MAC && m != mac && mac !in since
    ensures AllAhead(Touch(order, |leases|, m), mac, since + {m})
  {
    var order' := Touch(order, |leases|, m);
    var v := Victim(order, |leases|, m);
    var p' := Position(order', mac);
    assert Position(order', m) == 0;
    if p' < |order'| {
      var p := if p' - 1 < v then p' - 1 else p';
      assert order[p].mac == mac;
      PositionIs(order, p);
      forall x | x in since + {m}
        ensures Position(order', x) < p'
      {
        if x != m {
          StaysAhead(order, order'[0], v, x, p);
        }
      }
    }
  }

  lemma {:induction false} CountAhead(order: seq<Holder>, since: set<Mac>, p: nat)
    requires p <= |order|
    requires forall x :: x in since ==> Position(order, x) < p
    ensures |since| <= p
    decreases p
  {
    if p == 0 {
      forall x
        ensures x !in since
      {
        var _ := Position(order, x);
      }
      assert since == {};
    } else {
      var fewer := since - {order[p - 1].mac};
      CountAhead(order, fewer, p - 1);
      assert since <= fewer + {order[p - 1].mac};
    }
  }

  lemma {:induction false} NoMoreThanSlots(order: seq<Holder>, slots: set<nat>)
    requires forall a :: 0 <= a < |order| ==> order[a].slot in slots
    requires forall a, b :: 0 <= a < b < |order| ==> order[a].slot != order[b].slot
    ensures |order| <= |slots|
    decreases |order|
  {
    if order != [] {
      NoMoreThanSlots(order[1..], slots - {order[0].slot});
    }
  }

  lemma {:induction false} SlotRange(n: nat) returns (slots: set<nat>)
    ensures |slots| == n && forall s: nat :: s in slots <==> s < n
  {
    slots := {};
    if n > 0 {
      slots := SlotRange(n - 1);
      slots := slots + {n - 1};
    }
  }

  lemma {:induction false} AheadAfter(t: Table, order: seq<Holder>, mac: Mac, macs: seq<Mac>)
    requires t.leases != [] && Represents(t, order)
    requires t.stamp + |macs| < U32_MOD
    requires mac !in macs && NO_MAC !in macs
    ensures AllAhead(TouchAll(order, |t.leases|, macs), mac, Others(macs, mac))
    decreases |macs|
  {
    if macs == [] {
      assert Others(macs, mac) == {};
    } else {
      var before := macs[..|macs| - 1];
      var m := macs[|macs| - 1];
      assert m in macs && Others(macs, mac) == Others(before, mac) + {m};
      AheadAfter(t, order, mac, before);
      RunRefinesLru(t, order, before);
      TouchPutsAhead(ServeAll(t, before).leases, TouchAll(order, |t.leases|, before), m, mac, Others(before, mac));
    }
  }

  /**
    Exactly when: between two uses of its lease a client keeps it if and only if fewer distinct
    other clients than there are slots were served.
   */
  lemma LeaseIsKeptExactlyWhen(t: Table, order: seq<Holder>, mac: Mac, slot: nat, macs: seq<Mac>)
    requires t.leases != [] && Represents(t, order)
    requires order != [] && order[0] == Holder(mac, slot)
    requires t.stamp + |macs| < U32_MOD
    requires mac !in macs && NO_MAC !in macs
    ensures IndexOf(ServeAll(t, macs).leases, mac) < |t.leases| <==> |Others(macs, mac)| < |t.leases|
  {
    var n := |t.leases|;
    var t' := ServeAll(t, macs);
    assert Holds(t.leases, order[0]);
    if |Others(macs, mac)| < n {
      LeaseIsRetained(t, order, mac, slot, macs);
    } else {
      var order' := TouchAll(order, n, macs);
      AheadAfter(t, order, mac, macs);
      assert Lists(t'.leases, order') by {
        RunRefinesLru(t, order, macs);
      }
      HitSlot(t'.leases, order', mac);
      var slots := SlotRange(n);
      forall a | 0 <= a < |order'|
        ensures order'[a].slot in slots
      {
        assert Holds(t'.leases, order'[a]);
      }
      NoMoreThanSlots(order', slots);
      if Position(order', mac) < |order'| {
        CountAhead(order', Others(macs, mac), Position(order', mac));
      }
    }
  }
}
