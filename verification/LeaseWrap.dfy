/**
  What the wrap of its 32-bit use counter does to the lease table of `src/net_proto.rs`: when the slots
  it hands out are still those of the recency list.
 */
module LeaseWrap {
  import opened Words
  import opened Leases

  // One request

  ghost predicate FollowsList(leases: seq<Lease>, order: seq<Holder>)
    requires leases != []
  {
    forall other :: Choose(leases, other) == ListSlot(order, |leases|, other)
  }

  ghost predicate Stamped(leases: seq<Lease>) {
    forall i :: 0 <= i < |leases| && leases[i].mac != NO_MAC ==> leases[i].stamp > 0
  }

  lemma {:induction false} StampedAfter(n: nat, macs: seq<Mac>)
    requires 0 < n && |macs| < U32_MOD
    ensures Stamped(ServeAll(NewTable(n), macs).leases)
    decreases |macs|
  {
    if macs != [] {
      StampedAfter(n, macs[..|macs| - 1]);
      StampAfter(NewTable(n), macs[..|macs| - 1]);
    }
  }

  /** The stamp that wrapped to 0 makes its slot the oldest of a full table. */
  lemma WrappedIsOldest(t: Table, mac: Mac)
    requires t.leases != [] && t.stamp == U32_MAX && mac != NO_MAC && Stamped(t.leases)
    requires IndexOf(Serve(t, mac).leases, NO_MAC) == |t.leases|
    ensures Oldest(Serve(t, mac).leases) == Choose(t.leases, mac)
  {
    var t' := Serve(t, mac);
    var c := Choose(t.leases, mac);
    assert t'.leases[c].stamp == 0;
    forall i | 0 <= i < |t'.leases| && i != c
      ensures t'.leases[i].stamp > 0
    {
      assert t'.leases[i].mac != NO_MAC;
    }
  }

  /**
    Exactly when: after a request of a real client the table still hands out the slots of the recency
    list, to whoever asks next, if and only if the counter did not wrap, a slot is free, or there is
    only one.
   */
  lemma LruExactlyUntilWrap(t: Table, order: seq<Holder>, mac: Mac)
    requires t.leases != [] && Represents(t, order) && Stamped(t.leases) && mac != NO_MAC
    ensures var n := |t.leases|;
            var order' := Touch(order, n, mac);
            FollowsList(Serve(t, mac).leases, order') <==>
              t.stamp < U32_MAX || FirstFree(order', 0, n) < n || n == 1
  {
    var t' := Serve(t, mac);
    var order' := Touch(order, |t.leases|, mac);
    ServeKeepsLists(t, order, mac);
    FreeSlotsAgree(t'.leases, order');
    if t.stamp < U32_MAX {
      ServeRefinesLru(t, order, mac);
      forall other
        ensures Choose(t'.leases, other) == ListSlot(order', |t'.leases|, other)
      {
        ChoosesListSlot(t', order', other);
      }
    } else if FirstFree(order', 0, |t.leases|) < |t.leases| {
      forall other
        ensures Choose(t'.leases, other) == ListSlot(order', |t'.leases|, other)
      {
        FreeSlotChosen(t'.leases, order', other);
      }
    } else {
      WrappedIsOldest(t, mac);
      assert order' != [] && order'[0].slot == Choose(t.leases, mac) by {
        var _, _ := Vacate(t, order, mac);
      }
      FirstIsNotLast(t'.leases, order');
    }
  }

  lemma FreeSlotChosen(leases: seq<Lease>, order: seq<Holder>, other: Mac)
    requires leases != [] && Lists(leases, order) && FirstFree(order, 0, |leases|) < |leases|
    ensures Choose(leases, other) == ListSlot(order, |leases|, other)
  {
    FreeSlotsAgree(leases, order);
    assert forall a :: 0 <= a < |order| ==> Holds(leases, order[a]);
    if other != NO_MAC {
      HitSlot(leases, order, other);
    }
  }

  /** A full table whose oldest slot is the list's first follows the list only if it has one slot. */
  lemma FirstIsNotLast(leases: seq<Lease>, order: seq<Holder>)
    requires leases != [] && Lists(leases, order) && FirstFree(order, 0, |leases|) == |leases|
    requires order != [] && Oldest(leases) == order[0].slot
    ensures FollowsList(leases, order) <==> |leases| == 1
  {
    FreeSlotsAgree(leases, order);
    EverySlotUsed(order, |leases|);
    forall a | 0 <= a < |order|
      ensures order[a].slot < |leases| && order[a].mac != NO_MAC
    {
      assert Holds(leases, order[a]);
    }
    if |leases| == 1 {
      forall other
        ensures Choose(leases, other) == ListSlot(order, |leases|, other)
      {
      }
    } else {
      assert Choose(leases, NO_MAC) == order[0].slot;
      assert ListSlot(order, |leases|, NO_MAC) == order[|order| - 1].slot;
    }
  }

  // Whole runs, across any number of wraps

  /** The number of the last request `mac` made, counted from 1, or 0. */
  function LastUse(macs: seq<Mac>, mac: Mac): (use: nat)
    ensures use <= |macs|
    decreases |macs|
  {
    if macs == [] then 0
    else if macs[|macs| - 1] == mac then |macs|
    else LastUse(macs[..|macs| - 1], mac)
  }

  /** What the table keeps of that number. */
  function StampOf(macs: seq<Mac>, mac: Mac): u32 {
    LastUse(macs, mac) % U32_MOD
  }

  /** Each holder's stamp is the number of its last request modulo 2^32, and these numbers fall along the list. */
  ghost predicate Counted(leases: seq<Lease>, order: seq<Holder>, macs: seq<Mac>) {
    && (forall a :: 0 <= a < |order| ==>
          && Holds(leases, order[a])
          && 0 < LastUse(macs, order[a].mac)
          && leases[order[a].slot].stamp == StampOf(macs, order[a].mac))
    && (forall a, b :: 0 <= a < b < |order| ==> LastUse(macs, order[b].mac) < LastUse(macs, order[a].mac))
  }

  ghost predicate InStep(t: Table, order: seq<Holder>, macs: seq<Mac>) {
    t.stamp == |macs| % U32_MOD && Lists(t.leases, order) && Counted(t.leases, order, macs)
  }

  /** A client without a slot finds none free. */
  predicate Evicts(order: seq<Holder>, n: nat, mac: Mac) {
    Position(order, mac) == |order| && FirstFree(order, 0, n) == n
  }

  /** Of the holders the least recently used has the least stamp, and of equal ones the last slot. */
  ghost predicate LastIsLeast(order: seq<Holder>, macs: seq<Mac>)
    requires order != []
  {
    var last := order[|order| - 1];
    forall a :: 0 <= a < |order| - 1 ==>
      TableOrder(StampOf(macs, last.mac), last.slot, StampOf(macs, order[a].mac), order[a].slot)
  }

  /** The table takes a slot with this stamp before that one. */
  predicate TableOrder(stamp: u32, slot: nat, stamp': u32, slot': nat) {
    stamp < stamp' || (stamp == stamp' && slot' < slot)
  }

  lemma FullListHolds(leases: seq<Lease>, order: seq<Holder>)
    requires leases != [] && Lists(leases, order) && FirstFree(order, 0, |leases|) == |leases|
    ensures order != []
    ensures forall i :: 0 <= i < |leases| ==> leases[i].mac != NO_MAC && Uses(order, i)
  {
    FreeSlotsAgree(leases, order);
    forall i | 0 <= i < |leases|
      ensures leases[i].mac != NO_MAC && Uses(order, i)
    {
    }
    assert Uses(order, 0);
  }

  lemma OldestBeats(leases: seq<Lease>, i: nat, j: nat)
    requires i < |leases| && j < |leases| && i != j
    ensures Oldest(leases) == i ==> TableOrder(leases[i].stamp, i, leases[j].stamp, j)
    ensures Oldest(leases) == j ==> !TableOrder(leases[i].stamp, i, leases[j].stamp, j)
  {
  }

  lemma OldestIsLastExactlyWhen(leases: seq<Lease>, order: seq<Holder>, macs: seq<Mac>)
    requires leases != [] && Lists(leases, order) && Counted(leases, order, macs)
    requires FirstFree(order, 0, |leases|) == |leases|
    ensures order != [] && (Oldest(leases) == order[|order| - 1].slot <==> LastIsLeast(order, macs))
  {
    FullListHolds(leases, order);
    var last := order[|order| - 1];
    assert Holds(leases, last);
    var o := Oldest(leases);
    assert Uses(order, o);
    var at :| 0 <= at < |order| && order[at].slot == o;
    if at == |order| - 1 {
      forall a | 0 <= a < |order| - 1
        ensures TableOrder(StampOf(macs, last.mac), last.slot, StampOf(macs, order[a].mac), order[a].slot)
      {
        assert Holds(leases, order[a]);
        OldestBeats(leases, last.slot, order[a].slot);
      }
    } else {
      assert Holds(leases, order[at]);
      OldestBeats(leases, last.slot, order[at].slot);
      assert !TableOrder(StampOf(macs, last.mac), last.slot, StampOf(macs, order[at].mac), order[at].slot);
    }
  }

  /** The table picks the list's slot for the next client exactly when it need not evict, or the last is least. */
  lemma AgreesExactlyWhen(t: Table, order: seq<Holder>, macs: seq<Mac>, mac: Mac)
    requires t.leases != [] && InStep(t, order, macs)
    ensures Evicts(order, |t.leases|, mac) ==> order != []
    ensures Choose(t.leases, mac) == ListSlot(order, |t.leases|, mac) <==>
              (Evicts(order, |t.leases|, mac) ==> LastIsLeast(order, macs))
  {
    FreeSlotsAgree(t.leases, order);
    if FirstFree(order, 0, |t.leases|) < |t.leases| {
      FreeSlotChosen(t.leases, order, mac);
    } else {
      OldestIsLastExactlyWhen(t.leases, order, macs);
      FullListHolds(t.leases, order);
      if mac != NO_MAC {
        HitSlot(t.leases, order, mac);
      }
      assert forall a :: 0 <= a < |order| ==> Holds(t.leases, order[a]);
    }
  }

  lemma LastUseAfter(macs: seq<Mac>, m: Mac, mac: Mac)
    ensures LastUse(macs + [m], mac) == if m == mac then |macs| + 1 else LastUse(macs, mac)
  {
    assert (macs + [m])[..|macs|] == macs;
  }

  lemma LeaveKeepsCounted(leases: seq<Lease>, order: seq<Holder>, macs: seq<Mac>, v: nat)
    requires Lists(leases, order) && Counted(leases, order, macs) && v < |order|
    ensures order[v].slot < |leases|
    ensures Counted(leases[order[v].slot := Lease(NO_MAC, 0)], Remove(order, v), macs)
  {
    LeaveKeepsLists(leases, order, v, 0);
    var rest := Remove(order, v);
    var leases' := leases[order[v].slot := Lease(NO_MAC, 0)];
    forall a | 0 <= a < |rest|
      ensures Holds(leases', rest[a]) && rest[a] == order[if a < v then a else a + 1]
      ensures leases'[rest[a].slot] == leases[rest[a].slot]
    {
    }
  }

  lemma EnterKeepsCounted(leases: seq<Lease>, order: seq<Holder>, macs: seq<Mac>, mac: Mac, slot: nat)
    requires Lists(leases, order) && Counted(leases, order, macs)
    requires slot < |leases| && leases[slot].mac == NO_MAC
    requires forall a :: 0 <= a < |order| ==> order[a].mac != mac
    ensures Counted(leases[slot := Lease(mac, StampOf(macs + [mac], mac))], Enter(order, mac, slot), macs + [mac])
  {
    var order' := Enter(order, mac, slot);
    var leases' := leases[slot := Lease(mac, StampOf(macs + [mac], mac))];
    forall a | 0 <= a < |order|
      ensures Holds(leases, order[a]) && order[a].slot != slot
      ensures LastUse(macs + [mac], order[a].mac) == LastUse(macs, order[a].mac)
    {
      LastUseAfter(macs, mac, order[a].mac);
    }
    LastUseAfter(macs, mac, mac);
    if mac != NO_MAC {
      assert forall a :: 1 <= a < |order'| ==> order'[a] == order[a - 1];
    }
  }

  lemma NextCount(count: nat, stamp: u32)
    requires stamp == count % U32_MOD
    ensures WrappingInc(stamp) == (count + 1) % U32_MOD
  {
  }

  /** A request answered as the list would answer it keeps table and list in step. */
  lemma AgreementKeepsInStep(t: Table, order: seq<Holder>, macs: seq<Mac>, mac: Mac)
    requires t.leases != [] && InStep(t, order, macs)
    requires Choose(t.leases, mac) == ListSlot(order, |t.leases|, mac)
    ensures InStep(Serve(t, mac), Touch(order, |t.leases|, mac), macs + [mac])
  {
    FreeSlotsAgree(t.leases, order);
    var v := Victim(order, |t.leases|, mac);
    var c := Choose(t.leases, mac);
    var leases, rest := t.leases, order;
    if v < |order| {
      LeaveKeepsLists(t.leases, order, v, 0);
      LeaveKeepsCounted(t.leases, order, macs, v);
      leases, rest := t.leases[order[v].slot := Lease(NO_MAC, 0)], Remove(order, v);
    }
    assert leases[c].mac == NO_MAC;
    LastUseAfter(macs, mac, mac);
    NextCount(|macs|, t.stamp);
    assert forall a :: 0 <= a < |rest| ==> rest[a].mac != mac;
    EnterKeepsLists(leases, rest, mac, c, WrappingInc(t.stamp));
    EnterKeepsCounted(leases, rest, macs, mac, c);
    assert Serve(t, mac).leases == leases[c := Lease(mac, WrappingInc(t.stamp))];
  }

  /** The table after a run gives this client the slot the recency list does. */
  predicate Follows(n: nat, macs: seq<Mac>, mac: Mac)
    requires n > 0
  {
    Choose(ServeAll(NewTable(n), macs).leases, mac) == ListSlot(TouchAll([], n, macs), n, mac)
  }

  /** If the list evicts for this client, the stamps tell which holder is the least recently used. */
  ghost predicate StampsTell(n: nat, macs: seq<Mac>, mac: Mac) {
    var order := TouchAll([], n, macs);
    Evicts(order, n, mac) ==> order != [] && LastIsLeast(order, macs)
  }

  /** Every request of the run, from the empty table. */
  predicate FollowsThroughout(n: nat, macs: seq<Mac>)
    requires n > 0
    decreases |macs|
  {
    macs == [] ||
    (FollowsThroughout(n, macs[..|macs| - 1]) && Follows(n, macs[..|macs| - 1], macs[|macs| - 1]))
  }

  ghost predicate StampsTellThroughout(n: nat, macs: seq<Mac>)
    decreases |macs|
  {
    macs == [] ||
    (StampsTellThroughout(n, macs[..|macs| - 1]) && StampsTell(n, macs[..|macs| - 1], macs[|macs| - 1]))
  }

  lemma OneMoreInStep(n: nat, macs: seq<Mac>)
    requires n > 0 && macs != []
    requires var before := macs[..|macs| - 1];
             && Follows(n, before, macs[|macs| - 1])
             && InStep(ServeAll(NewTable(n), before), TouchAll([], n, before), before)
    ensures InStep(ServeAll(NewTable(n), macs), TouchAll([], n, macs), macs)
  {
    var before, mac := macs[..|macs| - 1], macs[|macs| - 1];
    var t, order := ServeAll(NewTable(n), before), TouchAll([], n, before);
    assert InStep(Serve(t, mac), Touch(order, n, mac), macs) by {
      AgreementKeepsInStep(t, order, before, mac);
      assert before + [mac] == macs;
    }
  }

  lemma {:induction false} FollowingStaysInStep(n: nat, macs: seq<Mac>)
    requires n > 0 && FollowsThroughout(n, macs)
    ensures InStep(ServeAll(NewTable(n), macs), TouchAll([], n, macs), macs)
    decreases |macs|
  {
    if macs != [] {
      FollowingStaysInStep(n, macs[..|macs| - 1]);
      OneMoreInStep(n, macs);
    }
  }

  /**
    Exactly when: a run of any length from the empty table gives every client the slot that the
    recency list gives it if and only if, whenever the list evicts, the request counts taken modulo
    2^32 still put its last holder first.
   */
  lemma {:induction false} LruThroughoutExactlyWhen(n: nat, macs: seq<Mac>)
    requires n > 0
    ensures FollowsThroughout(n, macs) <==> StampsTellThroughout(n, macs)
    decreases |macs|
  {
    if macs != [] {
      var before, mac := macs[..|macs| - 1], macs[|macs| - 1];
      LruThroughoutExactlyWhen(n, before);
      if FollowsThroughout(n, before) {
        assert Follows(n, before, mac) <==> StampsTell(n, before, mac) by {
          FollowingStaysInStep(n, before);
          AgreesExactlyWhen(ServeAll(NewTable(n), before), TouchAll([], n, before), before, mac);
        }
      }
    }
  }

  /** No count has wrapped between the least and the most recently used: the stamps tell. */
  lemma SameEpochTells(leases: seq<Lease>, order: seq<Holder>, macs: seq<Mac>)
    requires order != [] && Counted(leases, order, macs)
    requires LastUse(macs, order[0].mac) / U32_MOD == LastUse(macs, order[|order| - 1].mac) / U32_MOD
    ensures LastIsLeast(order, macs)
  {
    var last := order[|order| - 1];
    forall a | 0 <= a < |order| - 1
      ensures StampOf(macs, last.mac) < StampOf(macs, order[a].mac)
    {
      var least, use, most := LastUse(macs, last.mac), LastUse(macs, order[a].mac), LastUse(macs, order[0].mac);
      assert least < use <= most;
      SameQuotient(least, use, most);
    }
  }

  lemma SameQuotient(a: nat, b: nat, c: nat)
    requires a < b <= c && a / U32_MOD == c / U32_MOD
    ensures a % U32_MOD < b % U32_MOD
  {
  }

  // A run that ends in the wrap

  /** Distinct real clients, as many as a pool of bytes can number. */
  function Client(k: byte): Mac
    requires k < 0xFF
  {
    Mac(0, 0, 0, 0, 0, k + 1)
  }

  /** Client 0 over and over, then one request each from clients 1 to `m - 1`. */
  function BusyFirst(m: nat, times: nat): (macs: seq<Mac>)
    requires 1 <= m <= 0xFF
    ensures |macs| == times + m - 1
    decreases m
  {
    if m == 1 then seq(times, _ => Client(0)) else BusyFirst(m - 1, times) + [Client(m - 1)]
  }

  function BusyLease(m: nat, times: nat, i: nat): Lease
    requires m <= 0xFF && times + m <= U32_MOD
  {
    if i < m then Lease(Client(i), times + i) else EMPTY
  }

  /** A table of `n` slots after that. */
  function BusyTable(n: nat, m: nat, times: nat): (t: Table)
    requires 1 <= m <= 0xFF && times + m <= U32_MOD
    ensures |t.leases| == n
  {
    Table(seq(n, i requires 0 <= i < n => BusyLease(m, times, i)), times + m - 1)
  }

  lemma {:induction false} ServesFirst(n: nat, times: nat)
    requires 1 <= n && 1 <= times < U32_MOD
    ensures ServeAll(NewTable(n), seq(times, _ => Client(0))) == BusyTable(n, 1, times)
    decreases times
  {
    var macs := seq(times, _ => Client(0));
    var before := macs[..times - 1];
    assert before == seq(times - 1, _ => Client(0));
    var t := ServeAll(NewTable(n), before);
    if times == 1 {
      assert t == NewTable(n);
    } else {
      ServesFirst(n, times - 1);
    }
    assert IndexOf(t.leases, Client(0)) == (if times == 1 then n else 0);
    assert times == 1 ==> IndexOf(t.leases, NO_MAC) == 0;
    assert Serve(t, Client(0)).leases == BusyTable(n, 1, times).leases;
  }

  lemma ServesNext(n: nat, m: nat, times: nat)
    requires 1 <= m < n <= 0xFF && 1 <= times && times + m < U32_MOD
    ensures Serve(BusyTable(n, m, times), Client(m)) == BusyTable(n, m + 1, times)
  {
    var t := BusyTable(n, m, times);
    assert forall i :: 0 <= i < n ==> t.leases[i] == BusyLease(m, times, i) && t.leases[i].mac != Client(m);
    assert IndexOf(t.leases, Client(m)) == n;
    assert t.leases[m].mac == NO_MAC;
    assert IndexOf(t.leases, NO_MAC) == m;
    assert Serve(t, Client(m)).leases == BusyTable(n, m + 1, times).leases;
  }

  lemma {:induction false} ServesBusy(n: nat, m: nat, times: nat)
    requires 1 <= m <= n <= 0xFF && 1 <= times && times + m <= U32_MOD
    ensures ServeAll(NewTable(n), BusyFirst(m, times)) == BusyTable(n, m, times)
    decreases m
  {
    if m == 1 {
      ServesFirst(n, times);
    } else {
      ServesBusy(n, m - 1, times);
      var macs := BusyFirst(m, times);
      assert macs[..|macs| - 1] == BusyFirst(m - 1, times);
      ServesNext(n, m - 1, times);
    }
  }

  /**
    A run from the empty table into the wrap: of a full pool client 0 is the one served last, and
    the next newcomer, whoever it is, evicts it.
   */
  lemma WrapEvictsNewest(n: nat, other: Mac)
    requires 2 <= n <= 0xFF && other != NO_MAC
    requires forall k: byte :: k < n ==> other != Client(k)
    ensures var macs := BusyFirst(n, U32_MOD - n) + [Client(0)];
            var t := ServeAll(NewTable(n), macs);
            && |macs| == U32_MOD
            && t.leases[0].mac == Client(0) && Choose(t.leases, other) == 0
            && IndexOf(Serve(t, other).leases, Client(0)) == n
  {
    var macs := BusyFirst(n, U32_MOD - n) + [Client(0)];
    assert macs[..|macs| - 1] == BusyFirst(n, U32_MOD - n);
    ServesBusy(n, n, U32_MOD - n);
    var t0 := BusyTable(n, n, U32_MOD - n);
    assert t0.leases[0].mac == Client(0);
    NewestHasStampZero(n, t0, other);
  }

  lemma NewestHasStampZero(n: nat, t: Table, other: Mac)
    requires 2 <= n <= 0xFF && t == BusyTable(n, n, U32_MOD - n) && other != NO_MAC
    requires forall k: byte :: k < n ==> other != Client(k)
    ensures var t' := Serve(t, Client(0));
            && t'.leases[0].mac == Client(0) && Choose(t'.leases, other) == 0
            && IndexOf(Serve(t', other).leases, Client(0)) == n
  {
    var t' := Serve(t, Client(0));
    assert t.leases[0].mac == Client(0);
    assert forall i :: 0 < i < n ==> t'.leases[i] == BusyLease(n, U32_MOD - n, i);
    assert t'.leases[0] == Lease(Client(0), 0);
    assert IndexOf(t'.leases, other) == n && IndexOf(t'.leases, NO_MAC) == n;
    assert Oldest(t'.leases) == 0;
  }
}
