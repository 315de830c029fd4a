/** The slot-table operations of nvhost_ctrl as functions from the table before
    a call to the result code, the table after it and the calls the device made
    meanwhile. The class in nvhost_ctrl.dfy performs the same steps in place and
    is proved to agree with these functions. */
module EventTable {
  import opened NvTypes
  import opened SyncpointEventValue

  /** The effect of an operation that returns a result code. */
  datatype Outcome = Outcome(result: NvResult, table: Table, calls: seq<Call>)

  /** The effect of an operation that returns nothing. */
  datatype Effect = Effect(table: Table, calls: seq<Call>)

  /** The effect of FindFreeNvEvent: the chosen slot, the table, the calls. */
  datatype Allocation = Allocation(slot: nat, table: Table, calls: seq<Call>)

  /** Slot i of es is e, every other slot is unchanged. */
  predicate OnlySlotChanged(es: seq<NvEvent>, es': seq<NvEvent>, i: nat, e: NvEvent) {
    |es'| == |es| && i < |es| && es'[i] == e &&
    forall j :: 0 <= j < |es| && j != i ==> es'[j] == es[j]
  }

  /** What FreeNvEvent leaves in a slot: no kernel event, not registered, Available. */
  function Released(e: NvEvent): NvEvent {
    e.(kevent := None, status := Available, registered := false)
  }

  /** Rewriting one slot without touching its registration or its kernel event
      keeps the table invariant, as long as an unregistered slot stays Available. */
  lemma SameBindingKeepsWellFormed(t: Table, id: nat, e': NvEvent)
    requires Sized(t) && id < MaxNvEvents
    requires e'.registered == t.events[id].registered && e'.kevent == t.events[id].kevent
    ensures WellFormed(t) && (e'.registered || e'.status == Available) ==>
      WellFormed(t.(events := t.events[id := e']))
  {
  }

  // ---------------------------------------------------------------------------
  // CreateNvEvent / FreeNvEvent

  /** CreateNvEvent: binds a fresh kernel event to slot id and registers it. */
  function CreateNvEvent(t: Table, id: nat): (r: Effect)
    requires Sized(t) && id < MaxNvEvents
    ensures Sized(r.table)
    ensures var e := r.table.events[id];
      e.registered && e.status == Available && e.fails == 0 && e.assignedSyncpt == 0 &&
      e.assignedValue == t.events[id].assignedValue && e.kevent == Some(KEvent(t.nextKEvent))
    ensures forall j :: 0 <= j < MaxNvEvents && j != id ==> r.table.events[j] == t.events[j]
    ensures r.table.mask == t.mask + {id}
    ensures r.table.nextKEvent == t.nextKEvent + 1
    ensures r.calls == [CreateKEvent(id, KEvent(t.nextKEvent))]
  {
    var e := t.events[id];
    var h := KEvent(t.nextKEvent);
    var e' := e.(kevent := Some(h), status := Available, registered := true, fails := 0, assignedSyncpt := 0);
    Effect(Table(t.events[id := e'], t.mask + {id}, t.nextKEvent + 1), [CreateKEvent(id, h)])
  }

  /** Registering a slot that was free keeps the table invariant: the new
      kernel event is fresh, so no other slot holds it. */
  lemma CreateNvEventKeepsWellFormed(t: Table, id: nat)
    requires WellFormed(t) && id < MaxNvEvents && !t.events[id].registered
    ensures WellFormed(CreateNvEvent(t, id).table)
  {
    var r := CreateNvEvent(t, id);
    assert forall j :: 0 <= j < MaxNvEvents && j != id && r.table.events[j].kevent.Some? ==>
      r.table.events[j].kevent.value.id < t.nextKEvent;
  }

  /** FreeNvEvent: hands the slot's kernel event back and unregisters the slot. */
  function FreeNvEvent(t: Table, id: nat): (r: Effect)
    requires Sized(t) && id < MaxNvEvents
    ensures OnlySlotChanged(t.events, r.table.events, id, Released(t.events[id]))
    ensures r.table.mask == t.mask - {id} && r.table.nextKEvent == t.nextKEvent
    ensures r.calls == [FreeKEvent(t.events[id].kevent)]
  {
    var e := t.events[id];
    Effect(t.(events := t.events[id := Released(e)], mask := t.mask - {id}), [FreeKEvent(e.kevent)])
  }

  /** Releasing a slot keeps the table invariant. */
  lemma FreeNvEventKeepsWellFormed(t: Table, id: nat)
    requires WellFormed(t) && id < MaxNvEvents
    ensures WellFormed(FreeNvEvent(t, id).table)
  {
  }

  // ---------------------------------------------------------------------------
  // FreeEvent, Register, Unregister

  /** FreeEvent: range check, idempotent on an unregistered slot, refuses an
      in-flight slot, otherwise releases it. */
  function FreeEvent(t: Table, slot: u32): (o: Outcome)
    requires Sized(t)
    ensures slot >= MaxNvEvents ==> o == Outcome(BadParameter, t, [])
    ensures slot < MaxNvEvents && !t.events[slot].registered ==> o == Outcome(Success, t, [])
    ensures slot < MaxNvEvents && t.events[slot].registered && IsBeingUsed(t.events[slot]) ==>
      o == Outcome(Busy, t, [])
    ensures slot < MaxNvEvents && t.events[slot].registered && !IsBeingUsed(t.events[slot]) ==>
      && o.result == Success
      && OnlySlotChanged(t.events, o.table.events, slot, Released(t.events[slot]))
      && o.table.mask == t.mask - {slot}
      && o.calls == [FreeKEvent(t.events[slot].kevent)]
    ensures o.result == Success || o.table == t
  {
    if slot >= MaxNvEvents then Outcome(BadParameter, t, [])
    else if !t.events[slot].registered then Outcome(Success, t, [])
    else if IsBeingUsed(t.events[slot]) then Outcome(Busy, t, [])
    else
      var f := FreeNvEvent(t, slot);
      Outcome(Success, f.table, f.calls)
  }

  lemma FreeEventKeepsWellFormed(t: Table, slot: u32)
    requires WellFormed(t)
    ensures WellFormed(FreeEvent(t, slot).table)
  {
    if slot < MaxNvEvents && t.events[slot].registered && !IsBeingUsed(t.events[slot]) {
      FreeNvEventKeepsWellFormed(t, slot);
    }
  }

  /** IocCtrlEventRegister: (re)binds a fresh kernel event to a slot. */
  function IocCtrlEventRegister(t: Table, userEventId: u32): (o: Outcome)
    requires Sized(t)
    ensures userEventId >= MaxNvEvents ==> o == Outcome(BadParameter, t, [])
    ensures userEventId < MaxNvEvents && t.events[userEventId].registered && IsBeingUsed(t.events[userEventId]) ==>
      o == Outcome(Busy, t, [])
    ensures Sized(o.table)
    ensures userEventId < MaxNvEvents && !(t.events[userEventId].registered && IsBeingUsed(t.events[userEventId])) ==>
      var e := o.table.events[userEventId];
      && o.result == Success
      && e.registered && e.status == Available && e.fails == 0 && e.assignedSyncpt == 0
      && e.kevent == Some(KEvent(t.nextKEvent)) && e.assignedValue == t.events[userEventId].assignedValue
      && (forall j :: 0 <= j < MaxNvEvents && j != userEventId ==> o.table.events[j] == t.events[j])
      && o.table.mask == t.mask + {userEventId}
      && o.table.nextKEvent == t.nextKEvent + 1
      && o.calls == (if t.events[userEventId].registered then [FreeKEvent(t.events[userEventId].kevent)] else [])
                    + [CreateKEvent(userEventId, KEvent(t.nextKEvent))]
  {
    if userEventId >= MaxNvEvents then Outcome(BadParameter, t, [])
    else
      var f := if t.events[userEventId].registered then FreeEvent(t, userEventId) else Outcome(Success, t, []);
      if f.result != Success then f
      else
        var c := CreateNvEvent(f.table, userEventId);
        Outcome(Success, c.table, f.calls + c.calls)
  }

  /** Registering keeps the table invariant: a registered slot is released
      before it is bound to a fresh kernel event. */
  lemma RegisterKeepsWellFormed(t: Table, userEventId: u32)
    requires WellFormed(t)
    ensures WellFormed(IocCtrlEventRegister(t, userEventId).table)
  {
    if userEventId < MaxNvEvents {
      var f := if t.events[userEventId].registered then FreeEvent(t, userEventId) else Outcome(Success, t, []);
      FreeEventKeepsWellFormed(t, userEventId);
      if f.result == Success {
        CreateNvEventKeepsWellFormed(f.table, userEventId);
      }
    }
  }

  /** IocCtrlEventUnregister: only the low 8 bits of the id are looked at. */
  function IocCtrlEventUnregister(t: Table, userEventId: u32): (o: Outcome)
    requires Sized(t)
    ensures userEventId % 0x100 >= MaxNvEvents ==> o == Outcome(BadParameter, t, [])
    ensures userEventId % 0x100 < MaxNvEvents ==> o == FreeEvent(t, userEventId % 0x100)
  {
    FreeEvent(t, userEventId % 0x100)
  }

  // ---------------------------------------------------------------------------
  // UnregisterBatch

  /** Slot i is registered and in flight, so FreeEvent would answer Busy. */
  predicate IsBusy(e: NvEvent) {
    e.registered && IsBeingUsed(e)
  }

  /** IocCtrlEventUnregisterBatch from the point where the bits of `pending` are
      still to be freed: lowest bit first, stopping at the first failure. */
  function UnregisterBatch(t: Table, pending: Mask): (o: Outcome)
    requires Sized(t)
    ensures Sized(o.table)
    ensures o.result == Success || o.result == Busy
    decreases |pending|
  {
    if pending == {} then Outcome(Success, t, [])
    else
      var k := Lowest(pending);
      var f := FreeEvent(t, k);
      if f.result != Success then f
      else
        var rest := UnregisterBatch(f.table, pending - {k});
        Outcome(rest.result, rest.table, f.calls + rest.calls)
  }

  lemma {:induction false} UnregisterBatchKeepsWellFormed(t: Table, m: Mask)
    requires WellFormed(t)
    ensures WellFormed(UnregisterBatch(t, m).table)
    decreases |m|
  {
    if m != {} {
      var k := Lowest(m);
      FreeEventKeepsWellFormed(t, k);
      UnregisterBatchKeepsWellFormed(FreeEvent(t, k).table, m - {k});
    }
  }

  /** The lowest bit of `m` whose slot is busy, or MaxNvEvents if there is none. */
  function FirstBusy(t: Table, m: Mask): (b: nat)
    requires Sized(t)
    ensures b == MaxNvEvents || (b in m && IsBusy(t.events[b]))
    ensures forall j :: j in m && j < b ==> !IsBusy(t.events[j])
  {
    FirstBusyFrom(t, m, 0)
  }

  function FirstBusyFrom(t: Table, m: Mask, i: nat): (b: nat)
    requires Sized(t) && i <= MaxNvEvents
    ensures i <= b <= MaxNvEvents
    ensures b == MaxNvEvents || (b in m && IsBusy(t.events[b]))
    ensures forall j :: j in m && i <= j < b ==> !IsBusy(t.events[j])
    decreases MaxNvEvents - i
  {
    if i == MaxNvEvents then MaxNvEvents
    else if i in m && IsBusy(t.events[i]) then i
    else FirstBusyFrom(t, m, i + 1)
  }

  /** Two (table, mask) pairs with the same busy bits meet the same first busy slot. */
  lemma {:induction false} SameFirstBusy(t: Table, m: Mask, t': Table, m': Mask, i: nat)
    requires Sized(t) && Sized(t') && i <= MaxNvEvents
    requires forall j :: 0 <= j < MaxNvEvents ==>
      ((j in m && IsBusy(t.events[j])) <==> (j in m' && IsBusy(t'.events[j])))
    ensures FirstBusyFrom(t, m, i) == FirstBusyFrom(t', m', i)
    decreases MaxNvEvents - i
  {
    if i < MaxNvEvents {
      SameFirstBusy(t, m, t', m', i + 1);
    }
  }

  /** UnregisterBatch frees every registered slot of the mask below the first
      busy one, leaves that slot and everything above it untouched, and answers
      Busy iff a busy slot was met (an empty mask gives Success). */
  lemma {:induction false} UnregisterBatchFreesPrefix(t: Table, m: Mask)
    requires Sized(t)
    ensures var o := UnregisterBatch(t, m); var b := FirstBusy(t, m);
      && (o.result == Busy <==> b < MaxNvEvents)
      && o.table.nextKEvent == t.nextKEvent
      && forall i :: 0 <= i < MaxNvEvents ==>
           o.table.events[i] == (if i in m && i < b && t.events[i].registered then Released(t.events[i]) else t.events[i])
    ensures var o := UnregisterBatch(t, m); var b := FirstBusy(t, m);
      forall i :: 0 <= i < MaxNvEvents ==>
        (i in o.table.mask <==> i in t.mask && !(i in m && i < b && t.events[i].registered))
    decreases |m|
  {
    if m != {} {
      var k := Lowest(m);
      var f := FreeEvent(t, k);
      if f.result == Success {
        UnregisterBatchFreesPrefix(f.table, m - {k});
        FirstBusyAfterFree(t, m);
        forall i | 0 <= i < MaxNvEvents
          ensures UnregisterBatch(t, m).table.events[i] ==
            (if i in m && i < FirstBusy(t, m) && t.events[i].registered then Released(t.events[i]) else t.events[i])
        {
          UnregisterBatchPrefixStep(t, m, i);
        }
        UnregisterBatchMaskStep(t, m);
      } else {
        assert FirstBusy(t, m) == k;
      }
    }
  }

  /** One step of the mask part of UnregisterBatchFreesPrefix: the first free
      clears the lowest bit, the rest of the batch clears the others. */
  lemma UnregisterBatchMaskStep(t: Table, m: Mask)
    requires Sized(t) && m != {}
    requires FreeEvent(t, Lowest(m)).result == Success
    requires var f := FreeEvent(t, Lowest(m)); var m' := m - {Lowest(m)};
      && FirstBusy(f.table, m') == FirstBusy(t, m)
      && forall i :: 0 <= i < MaxNvEvents ==>
           (i in UnregisterBatch(f.table, m').table.mask <==>
              i in f.table.mask && !(i in m' && i < FirstBusy(f.table, m') && f.table.events[i].registered))
    ensures forall i :: 0 <= i < MaxNvEvents ==>
      (i in UnregisterBatch(t, m).table.mask <==> i in t.mask && !(i in m && i < FirstBusy(t, m) && t.events[i].registered))
  {
    var k := Lowest(m);
    var f := FreeEvent(t, k);
    var m' := m - {k};
    var b := FirstBusy(t, m);
    var mask := UnregisterBatch(f.table, m').table.mask;
    LowestBeforeFirstBusy(t, m);
    assert UnregisterBatch(t, m).table.mask == mask;
    forall i | 0 <= i < MaxNvEvents
      ensures i in mask <==> i in t.mask && !(i in m && i < b && t.events[i].registered)
    {
      if i != k {
        assert f.table.events[i] == t.events[i];
        assert (i in f.table.mask <==> i in t.mask);
        assert (i in m' <==> i in m);
      } else if t.events[k].registered {
        assert k !in f.table.mask;
      } else {
        assert f.table == t;
      }
    }
  }

  /** A batch whose lowest slot is not busy meets its first busy slot later. */
  lemma LowestBeforeFirstBusy(t: Table, m: Mask)
    requires Sized(t) && m != {} && !IsBusy(t.events[Lowest(m)])
    ensures Lowest(m) < FirstBusy(t, m)
  {
    var k := Lowest(m);
    var b := FirstBusy(t, m);
    if b < MaxNvEvents {
      assert b in m && IsBusy(t.events[b]);
      assert k <= b;
      assert k != b;
    }
  }

  /** One step of UnregisterBatchFreesPrefix: slot i after the whole batch, from
      slot i after the rest of the batch. */
  lemma UnregisterBatchPrefixStep(t: Table, m: Mask, i: nat)
    requires Sized(t) && m != {} && i < MaxNvEvents
    requires FreeEvent(t, Lowest(m)).result == Success
    requires var f := FreeEvent(t, Lowest(m)); var m' := m - {Lowest(m)};
      UnregisterBatch(f.table, m').table.events[i] ==
        (if i in m' && i < FirstBusy(f.table, m') && f.table.events[i].registered then Released(f.table.events[i])
         else f.table.events[i])
    ensures UnregisterBatch(t, m).table.events[i] ==
      (if i in m && i < FirstBusy(t, m) && t.events[i].registered then Released(t.events[i]) else t.events[i])
  {
    var k := Lowest(m);
    var f := FreeEvent(t, k);
    var m' := m - {k};
    assert UnregisterBatch(t, m).table == UnregisterBatch(f.table, m').table;
    FirstBusyAfterFree(t, m);
    if i == k {
      assert !IsBusy(t.events[k]) && k !in m';
      LowestBeforeFirstBusy(t, m);
      assert f.table.events[k] == if t.events[k].registered then Released(t.events[k]) else t.events[k];
    } else {
      assert f.table.events[i] == t.events[i];
      assert (i in m') == (i in m);
    }
  }

  /** Every call UnregisterBatch makes hands back the kernel event of a slot of
      the mask, each at most once. */
  lemma {:induction false} UnregisterBatchFreesEachOnce(t: Table, m: Mask)
    requires WellFormed(t)
    ensures var o := UnregisterBatch(t, m);
      forall i :: 0 <= i < MaxNvEvents && t.events[i].kevent.Some? ==>
        multiset(o.calls)[FreeKEvent(t.events[i].kevent)] ==
          (if i in m && i < FirstBusy(t, m) then 1 else 0)
    ensures forall c :: c in UnregisterBatch(t, m).calls ==> c.FreeKEvent?
    ensures FreeKEvent(None) !in UnregisterBatch(t, m).calls
    decreases |m|
  {
    if m != {} {
      var k := Lowest(m);
      var f := FreeEvent(t, k);
      if f.result == Success {
        var m' := m - {k};
        FreeEventKeepsWellFormed(t, k);
        UnregisterBatchFreesEachOnce(f.table, m');
        forall i | 0 <= i < MaxNvEvents && t.events[i].kevent.Some?
          ensures multiset(UnregisterBatch(t, m).calls)[FreeKEvent(t.events[i].kevent)] ==
                  (if i in m && i < FirstBusy(t, m) then 1 else 0)
        {
          UnregisterBatchStepCount(t, m, i);
        }
      }
    }
  }

  /** After the first FreeEvent of a batch succeeds, the rest of the batch meets
      the same first busy slot. */
  lemma FirstBusyAfterFree(t: Table, m: Mask)
    requires Sized(t) && m != {}
    requires FreeEvent(t, Lowest(m)).result == Success
    ensures FirstBusy(FreeEvent(t, Lowest(m)).table, m - {Lowest(m)}) == FirstBusy(t, m)
  {
    var k := Lowest(m);
    var f := FreeEvent(t, k);
    forall j | 0 <= j < MaxNvEvents
      ensures (j in m && IsBusy(t.events[j])) <==> (j in m - {k} && IsBusy(f.table.events[j]))
    {
      if j != k {
        assert f.table.events[j] == t.events[j];
      }
    }
    SameFirstBusy(t, m, f.table, m - {k}, 0);
  }

  /** One step of UnregisterBatchFreesEachOnce: the count for slot i's handle is
      what the first FreeEvent contributes plus what the rest of the batch does. */
  lemma UnregisterBatchStepCount(t: Table, m: Mask, i: nat)
    requires WellFormed(t) && m != {} && i < MaxNvEvents && t.events[i].kevent.Some?
    requires FreeEvent(t, Lowest(m)).result == Success
    requires var f := FreeEvent(t, Lowest(m));
      forall i :: 0 <= i < MaxNvEvents && f.table.events[i].kevent.Some? ==>
        multiset(UnregisterBatch(f.table, m - {Lowest(m)}).calls)[FreeKEvent(f.table.events[i].kevent)] ==
          (if i in m - {Lowest(m)} && i < FirstBusy(f.table, m - {Lowest(m)}) then 1 else 0)
    ensures multiset(UnregisterBatch(t, m).calls)[FreeKEvent(t.events[i].kevent)] ==
            (if i in m && i < FirstBusy(t, m) then 1 else 0)
  {
    var k := Lowest(m);
    var f := FreeEvent(t, k);
    var m' := m - {k};
    var rest := UnregisterBatch(f.table, m');
    var h := t.events[i].kevent.value;
    var b := FirstBusy(t, m);
    assert UnregisterBatch(t, m).calls == f.calls + rest.calls;
    assert multiset(UnregisterBatch(t, m).calls)[FreeKEvent(Some(h))] ==
           multiset(f.calls)[FreeKEvent(Some(h))] + multiset(rest.calls)[FreeKEvent(Some(h))];
    FirstBusyAfterFree(t, m);
    if i == k {
      assert !IsBusy(t.events[k]);
      LowestBeforeFirstBusy(t, m);
      FreedSlotHandleGone(t, k);
      HandleNotFreed(f.table, m', h);
      assert multiset(rest.calls)[FreeKEvent(Some(h))] == 0;
      assert multiset(f.calls)[FreeKEvent(Some(h))] == 1;
    } else {
      OtherHandleNotFreedNow(t, k, i);
      assert f.table.events[i].kevent.value == h;
      assert multiset(rest.calls)[FreeKEvent(Some(h))] == (if i in m' && i < b then 1 else 0);
      assert (i in m' && i < b) == (i in m && i < b);
    }
  }

  /** After FreeEvent releases slot k, no slot holds k's old kernel event; and
      FreeEvent made exactly the one call that hands it back. */
  lemma FreedSlotHandleGone(t: Table, k: nat)
    requires WellFormed(t) && k < MaxNvEvents && t.events[k].kevent.Some?
    requires FreeEvent(t, k).result == Success
    ensures var f := FreeEvent(t, k); var h := t.events[k].kevent.value;
      && f.calls == [FreeKEvent(Some(h))]
      && forall j :: 0 <= j < MaxNvEvents && f.table.events[j].kevent.Some? ==> f.table.events[j].kevent.value != h
  {
  }

  /** FreeEvent on slot k does not hand back the kernel event of another slot i,
      and leaves slot i as it was. */
  lemma OtherHandleNotFreedNow(t: Table, k: nat, i: nat)
    requires WellFormed(t) && k < MaxNvEvents && i < MaxNvEvents && i != k && t.events[i].kevent.Some?
    ensures var f := FreeEvent(t, k);
      && f.table.events[i] == t.events[i]
      && multiset(f.calls)[FreeKEvent(t.events[i].kevent)] == 0
  {
    var f := FreeEvent(t, k);
    if f.calls != [] {
      assert f.calls == [FreeKEvent(t.events[k].kevent)];
    }
  }

  /** A handle that no slot holds is never freed by UnregisterBatch. */
  lemma {:induction false} HandleNotFreed(t: Table, m: Mask, h: KEvent)
    requires Sized(t)
    requires forall j :: 0 <= j < MaxNvEvents && t.events[j].kevent.Some? ==> t.events[j].kevent.value != h
    ensures FreeKEvent(Some(h)) !in UnregisterBatch(t, m).calls
    decreases |m|
  {
    if m != {} {
      var k := Lowest(m);
      var f := FreeEvent(t, k);
      if f.result == Success {
        HandleNotFreed(f.table, m - {k}, h);
      }
    }
  }

  // ---------------------------------------------------------------------------
  // FindFreeNvEvent

  /** A slot FindFreeNvEvent may hand out: registered and not in flight. */
  predicate IsIdle(e: NvEvent) {
    e.registered && !IsBeingUsed(e)
  }

  /** An idle slot already bound to the requested syncpoint. */
  predicate IsReusable(e: NvEvent, syncpointId: u32) {
    IsIdle(e) && e.assignedSyncpt == syncpointId
  }

  /** The lowest reusable slot below n, or MaxNvEvents. */
  function FirstReusable(es: seq<NvEvent>, syncpointId: u32, n: nat): (k: nat)
    requires |es| == MaxNvEvents && n <= MaxNvEvents
    ensures k == MaxNvEvents || (k < n && IsReusable(es[k], syncpointId))
    ensures forall j :: 0 <= j < n && j < k ==> !IsReusable(es[j], syncpointId)
  {
    if n == 0 then MaxNvEvents
    else
      var k := FirstReusable(es, syncpointId, n - 1);
      if k < MaxNvEvents then k
      else if IsReusable(es[n - 1], syncpointId) then n - 1
      else MaxNvEvents
  }

  /** Once a reusable slot is found below n, scanning further keeps it. */
  lemma {:induction false} FirstReusableStable(es: seq<NvEvent>, syncpointId: u32, n: nat)
    requires |es| == MaxNvEvents && n <= MaxNvEvents && FirstReusable(es, syncpointId, n) < MaxNvEvents
    ensures FirstReusable(es, syncpointId, MaxNvEvents) == FirstReusable(es, syncpointId, n)
    decreases MaxNvEvents - n
  {
    if n < MaxNvEvents {
      assert FirstReusable(es, syncpointId, n + 1) == FirstReusable(es, syncpointId, n);
      FirstReusableStable(es, syncpointId, n + 1);
    }
  }

  /** The lowest unregistered slot below n, or MaxNvEvents. */
  function FirstUnregistered(es: seq<NvEvent>, n: nat): (k: nat)
    requires |es| == MaxNvEvents && n <= MaxNvEvents
    ensures k == MaxNvEvents || (k < n && !es[k].registered)
    ensures forall j :: 0 <= j < n && j < k ==> es[j].registered
  {
    if n == 0 then MaxNvEvents
    else
      var k := FirstUnregistered(es, n - 1);
      if k < MaxNvEvents then k
      else if !es[n - 1].registered then n - 1
      else MaxNvEvents
  }

  /** The highest idle slot below n, or MaxNvEvents. */
  function LastIdle(es: seq<NvEvent>, n: nat): (k: nat)
    requires |es| == MaxNvEvents && n <= MaxNvEvents
    ensures k == MaxNvEvents || (k < n && IsIdle(es[k]))
    ensures forall j :: 0 <= j < n && (k == MaxNvEvents || k < j) ==> !IsIdle(es[j])
  {
    if n == 0 then MaxNvEvents
    else if IsIdle(es[n - 1]) then n - 1
    else LastIdle(es, n - 1)
  }

  /** FindFreeNvEvent's choice, in order of preference: the lowest idle slot
      already bound to the syncpoint; else the lowest unregistered slot, which
      gets registered; else the highest idle slot; else slot 0. */
  function FindFreeNvEvent(t: Table, syncpointId: u32): (a: Allocation)
    requires Sized(t)
    ensures a.slot < MaxNvEvents && Sized(a.table)
    ensures |a.calls| <= 1 && forall c :: c in a.calls ==> c.CreateKEvent?
  {
    var m := FirstReusable(t.events, syncpointId, MaxNvEvents);
    if m < MaxNvEvents then Allocation(m, t, [])
    else
      var f := FirstUnregistered(t.events, MaxNvEvents);
      if f < MaxNvEvents then
        var c := CreateNvEvent(t, f);
        Allocation(f, c.table, c.calls)
      else
        var s := LastIdle(t.events, MaxNvEvents);
        if s < MaxNvEvents then Allocation(s, t, [])
        else Allocation(0, t, [])
  }

  /** FindFreeNvEvent's order of preference, case by case. */
  lemma FindFreeNvEventPrefers(t: Table, syncpointId: u32)
    requires Sized(t)
    ensures var a := FindFreeNvEvent(t, syncpointId);
      (exists j :: 0 <= j < MaxNvEvents && IsReusable(t.events[j], syncpointId)) ==>
        && IsReusable(t.events[a.slot], syncpointId)
        && (forall j :: 0 <= j < a.slot ==> !IsReusable(t.events[j], syncpointId))
        && a.table == t && a.calls == []
    ensures var a := FindFreeNvEvent(t, syncpointId);
      (forall j :: 0 <= j < MaxNvEvents ==> !IsReusable(t.events[j], syncpointId)) &&
      (exists j :: 0 <= j < MaxNvEvents && !t.events[j].registered) ==>
        && !t.events[a.slot].registered
        && (forall j :: 0 <= j < a.slot ==> t.events[j].registered)
        && Effect(a.table, a.calls) == CreateNvEvent(t, a.slot)
    ensures var a := FindFreeNvEvent(t, syncpointId);
      (forall j :: 0 <= j < MaxNvEvents ==> t.events[j].registered) &&
      (forall j :: 0 <= j < MaxNvEvents ==> !IsReusable(t.events[j], syncpointId)) &&
      (exists j :: 0 <= j < MaxNvEvents && IsIdle(t.events[j])) ==>
        && IsIdle(t.events[a.slot])
        && (forall j :: a.slot < j < MaxNvEvents ==> !IsIdle(t.events[j]))
        && a.table == t && a.calls == []
    ensures var a := FindFreeNvEvent(t, syncpointId);
      (forall j :: 0 <= j < MaxNvEvents ==> IsBusy(t.events[j])) ==>
        a.slot == 0 && a.table == t && a.calls == []
  {
  }

  lemma FindFreeNvEventKeepsWellFormed(t: Table, syncpointId: u32)
    requires WellFormed(t)
    ensures WellFormed(FindFreeNvEvent(t, syncpointId).table)
  {
    if FirstReusable(t.events, syncpointId, MaxNvEvents) == MaxNvEvents {
      var f := FirstUnregistered(t.events, MaxNvEvents);
      if f < MaxNvEvents {
        CreateNvEventKeepsWellFormed(t, f);
      }
    }
  }

  /** Unless every slot is in flight, the slot FindFreeNvEvent hands out is
      registered and not in flight afterwards. */
  lemma FindFreeNvEventGivesIdleSlot(t: Table, syncpointId: u32)
    requires WellFormed(t)
    requires exists j :: 0 <= j < MaxNvEvents && !IsBusy(t.events[j])
    ensures var a := FindFreeNvEvent(t, syncpointId);
      IsIdle(a.table.events[a.slot])
  {
    var j :| 0 <= j < MaxNvEvents && !IsBusy(t.events[j]);
    if !t.events[j].registered {
    } else {
      assert IsIdle(t.events[j]);
    }
  }

  // ---------------------------------------------------------------------------
  // ClearEventWait

  /** ClearEventWait dereferences the slot's kernel event: the model asks for it to exist. */
  predicate ClearDefined(t: Table, eventId: bv32) {
    Sized(t) && (Slot(eventId) as int >= MaxNvEvents || t.events[Slot(eventId) as int].kevent.Some?)
  }

  /** IocCtrlClearEventWait: cancels the slot named by the `slot` view of the value. */
  function IocCtrlClearEventWait(t: Table, eventId: bv32): (o: Outcome)
    requires ClearDefined(t, eventId)
    ensures var id := Slot(eventId) as int;
      && (id >= MaxNvEvents ==> o == Outcome(BadParameter, t, []))
      && (id < MaxNvEvents ==>
            var e := t.events[id];
            && o.result == Success
            && OnlySlotChanged(t.events, o.table.events, id, e.(status := Cancelled, fails := Increment(e.fails)))
            && o.table.mask == t.mask && o.table.nextKEvent == t.nextKEvent
            && o.calls == (if e.status == Waiting
                           then [CancelSyncptInterrupt(e.assignedSyncpt, e.assignedValue), RefreshSyncpoint(e.assignedSyncpt)]
                           else [])
                          + [ClearKEvent(e.kevent.value)])
  {
    var id := Slot(eventId) as int;
    if id >= MaxNvEvents then Outcome(BadParameter, t, [])
    else
      var e := t.events[id];
      var cancel := if e.status == Waiting
        then [CancelSyncptInterrupt(e.assignedSyncpt, e.assignedValue), RefreshSyncpoint(e.assignedSyncpt)]
        else [];
      var e' := e.(status := Cancelled, fails := Increment(e.fails));
      Outcome(Success, t.(events := t.events[id := e']), cancel + [ClearKEvent(e.kevent.value)])
  }

  /** Cancelling keeps the table invariant: the slot keeps its kernel event. */
  lemma ClearKeepsWellFormed(t: Table, eventId: bv32)
    requires WellFormed(t) && ClearDefined(t, eventId)
    ensures WellFormed(IocCtrlClearEventWait(t, eventId).table)
  {
    var id := Slot(eventId) as int;
    if id < MaxNvEvents {
      var e := t.events[id];
      SameBindingKeepsWellFormed(t, id, e.(status := Cancelled, fails := Increment(e.fails)));
    }
  }

  // ---------------------------------------------------------------------------
  // SignalNvEvent

  predicate Matches(e: NvEvent, syncpointId: u32, value: u32) {
    e.assignedSyncpt == syncpointId && e.assignedValue == value
  }

  /** SignalNvEvent from the point where the bits of `pending` are still to be
      visited: every matching slot ends Signalled; its kernel event is signalled
      only if the slot was Waiting. */
  function SignalNvEvent(t: Table, pending: Mask, syncpointId: u32, value: u32): (r: Effect)
    requires Sized(t)
    ensures Sized(r.table) && r.table.mask == t.mask && r.table.nextKEvent == t.nextKEvent
    ensures forall j :: 0 <= j < MaxNvEvents ==> r.table.events[j].kevent == t.events[j].kevent
    ensures forall j :: 0 <= j < MaxNvEvents ==> r.table.events[j].registered == t.events[j].registered
    decreases |pending|
  {
    if pending == {} then Effect(t, [])
    else
      var k := Lowest(pending);
      var e := t.events[k];
      if !Matches(e, syncpointId, value) then SignalNvEvent(t, pending - {k}, syncpointId, value)
      else
        var woken := if e.status == Waiting && e.kevent.Some? then [SignalKEvent(e.kevent.value)] else [];
        var rest := SignalNvEvent(t.(events := t.events[k := e.(status := Signalled)]), pending - {k}, syncpointId, value);
        Effect(rest.table, woken + rest.calls)
  }

  /** Exactly the matching slots of the mask are touched, and they end Signalled. */
  lemma {:induction false} SignalTouchesOnlyMatches(t: Table, m: Mask, syncpointId: u32, value: u32)
    requires Sized(t)
    ensures forall i :: 0 <= i < MaxNvEvents ==>
      SignalNvEvent(t, m, syncpointId, value).table.events[i] ==
        (if i in m && Matches(t.events[i], syncpointId, value) then t.events[i].(status := Signalled) else t.events[i])
    decreases |m|
  {
    if m != {} {
      var k := Lowest(m);
      var e := t.events[k];
      if !Matches(e, syncpointId, value) {
        SignalTouchesOnlyMatches(t, m - {k}, syncpointId, value);
      } else {
        SignalTouchesOnlyMatches(t.(events := t.events[k := e.(status := Signalled)]), m - {k}, syncpointId, value);
      }
    }
  }

  /** Signalling the slots of (a part of) the mask keeps the table invariant:
      only registered slots change status. */
  lemma SignalKeepsWellFormed(t: Table, m: Mask, syncpointId: u32, value: u32)
    requires WellFormed(t) && m <= t.mask
    ensures WellFormed(SignalNvEvent(t, m, syncpointId, value).table)
  {
    SignalTouchesOnlyMatches(t, m, syncpointId, value);
  }

  /** The kernel event of slot i is signalled exactly once if slot i is in the
      mask, matches and was Waiting, and never otherwise: a Cancelled slot is
      never woken. Every call made is a signal. */
  lemma {:induction false} SignalWakesExactlyWaiting(t: Table, m: Mask, syncpointId: u32, value: u32)
    requires Sized(t) && DistinctHandles(t.events)
    ensures forall i :: 0 <= i < MaxNvEvents && t.events[i].kevent.Some? ==>
      multiset(SignalNvEvent(t, m, syncpointId, value).calls)[SignalKEvent(t.events[i].kevent.value)] ==
        (if i in m && Matches(t.events[i], syncpointId, value) && t.events[i].status == Waiting then 1 else 0)
    ensures forall c :: c in SignalNvEvent(t, m, syncpointId, value).calls ==> c.SignalKEvent?
    decreases |m|
  {
    if m != {} {
      var k := Lowest(m);
      var e := t.events[k];
      var m' := m - {k};
      if !Matches(e, syncpointId, value) {
        SignalWakesExactlyWaiting(t, m', syncpointId, value);
      } else {
        var t' := t.(events := t.events[k := e.(status := Signalled)]);
        assert DistinctHandles(t'.events) by {
          assert forall j :: 0 <= j < MaxNvEvents ==> t'.events[j].kevent == t.events[j].kevent;
        }
        SignalWakesExactlyWaiting(t', m', syncpointId, value);
        forall i | 0 <= i < MaxNvEvents && t.events[i].kevent.Some?
          ensures multiset(SignalNvEvent(t, m, syncpointId, value).calls)[SignalKEvent(t.events[i].kevent.value)] ==
            (if i in m && Matches(t.events[i], syncpointId, value) && t.events[i].status == Waiting then 1 else 0)
        {
          SignalStepCount(t, m, syncpointId, value, i);
        }
      }
    }
  }

  /** One step of SignalWakesExactlyWaiting, for a lowest slot that matches: the
      count for slot i's kernel event is what this slot contributes plus what
      the rest of the mask does. */
  lemma SignalStepCount(t: Table, m: Mask, syncpointId: u32, value: u32, i: nat)
    requires Sized(t) && DistinctHandles(t.events) && m != {}
    requires i < MaxNvEvents && t.events[i].kevent.Some?
    requires Matches(t.events[Lowest(m)], syncpointId, value)
    requires var k := Lowest(m); var t' := t.(events := t.events[k := t.events[k].(status := Signalled)]);
      forall j :: 0 <= j < MaxNvEvents && t'.events[j].kevent.Some? ==>
        multiset(SignalNvEvent(t', m - {k}, syncpointId, value).calls)[SignalKEvent(t'.events[j].kevent.value)] ==
          (if j in m - {k} && Matches(t'.events[j], syncpointId, value) && t'.events[j].status == Waiting then 1 else 0)
    ensures multiset(SignalNvEvent(t, m, syncpointId, value).calls)[SignalKEvent(t.events[i].kevent.value)] ==
      (if i in m && Matches(t.events[i], syncpointId, value) && t.events[i].status == Waiting then 1 else 0)
  {
    var k := Lowest(m);
    var e := t.events[k];
    var t' := t.(events := t.events[k := e.(status := Signalled)]);
    var rest := SignalNvEvent(t', m - {k}, syncpointId, value);
    var woken := if e.status == Waiting && e.kevent.Some? then [SignalKEvent(e.kevent.value)] else [];
    var h := t.events[i].kevent.value;
    assert SignalNvEvent(t, m, syncpointId, value).calls == woken + rest.calls;
    assert multiset(woken + rest.calls)[SignalKEvent(h)] == multiset(woken)[SignalKEvent(h)] + multiset(rest.calls)[SignalKEvent(h)];
    assert t'.events[i].kevent == t.events[i].kevent;
    if i != k {
      assert t'.events[i] == t.events[i];
      if e.kevent.Some? {
        assert e.kevent.value != h;
      }
      assert multiset(woken)[SignalKEvent(h)] == 0;
    } else {
      assert t'.events[k].status == Signalled;
      assert multiset(rest.calls)[SignalKEvent(h)] == 0;
    }
  }

  /** A wait cancelled by ClearEventWait is not woken by a later signal, even
      one for the very syncpoint and value the slot was waiting on. */
  lemma ClearedWaitIsNotWoken(t: Table, eventId: bv32, m: Mask, syncpointId: u32, value: u32)
    requires WellFormed(t) && ClearDefined(t, eventId) && Slot(eventId) as int < MaxNvEvents
    ensures var id := Slot(eventId) as int;
      var c := IocCtrlClearEventWait(t, eventId);
      SignalKEvent(t.events[id].kevent.value) !in SignalNvEvent(c.table, m, syncpointId, value).calls
  {
    var id := Slot(eventId) as int;
    var c := IocCtrlClearEventWait(t, eventId);
    ClearKeepsWellFormed(t, eventId);
    SignalWakesExactlyWaiting(c.table, m, syncpointId, value);
    assert c.table.events[id].kevent == t.events[id].kevent && c.table.events[id].status == Cancelled;
    assert multiset(SignalNvEvent(c.table, m, syncpointId, value).calls)[SignalKEvent(t.events[id].kevent.value)] == 0;
  }

  // ---------------------------------------------------------------------------
  // QueryEvent

  /** QueryEvent: the kernel event of the slot the value names, provided that
      slot is registered and bound to the syncpoint the value names; None where
      the source asserts. */
  function QueryEvent(t: Table, eventId: bv32): (r: Option<KEvent>)
    requires Sized(t)
    ensures r.Some? ==>
      var slot := DecodeSlot(eventId) as int;
      && slot < MaxNvEvents
      && t.events[slot].registered
      && t.events[slot].assignedSyncpt == DecodeSyncpoint(eventId) as int
      && t.events[slot].kevent == r
    ensures (WellFormed(t) && DecodeSlot(eventId) as int < MaxNvEvents &&
             t.events[DecodeSlot(eventId) as int].registered &&
             t.events[DecodeSlot(eventId) as int].assignedSyncpt == DecodeSyncpoint(eventId) as int) ==> r.Some?
  {
    var slot := DecodeSlot(eventId) as int;
    if slot >= MaxNvEvents then None
    else
      var e := t.events[slot];
      if e.registered && e.assignedSyncpt == DecodeSyncpoint(eventId) as int then e.kevent else None
  }

  // ---------------------------------------------------------------------------
  // Destructor

  /** The calls of the destructor's loop over es: each registered slot's kernel
      event is handed back, in slot order. */
  function ReleaseAll(es: seq<NvEvent>): (calls: seq<Call>)
    ensures forall c :: c in calls ==> c.FreeKEvent?
    ensures |calls| <= |es|
  {
    if es == [] then []
    else
      var last := es[|es| - 1];
      ReleaseAll(es[..|es| - 1]) + (if last.registered then [FreeKEvent(last.kevent)] else [])
  }

  /** A kernel event that no registered slot holds is not freed by the destructor. */
  lemma {:induction false} ReleaseAllSkipsUnheld(es: seq<NvEvent>, h: KEvent)
    requires forall i :: 0 <= i < |es| && es[i].registered ==> es[i].kevent != Some(h)
    ensures FreeKEvent(Some(h)) !in ReleaseAll(es)
  {
    if es != [] {
      var n := |es| - 1;
      assert forall i :: 0 <= i < n ==> es[..n][i] == es[i];
      ReleaseAllSkipsUnheld(es[..n], h);
    }
  }

  /** The destructor frees the kernel event of each registered slot exactly once. */
  lemma {:induction false} ReleaseAllFreesEachOnce(es: seq<NvEvent>, i: nat)
    requires DistinctHandles(es)
    requires i < |es| && es[i].registered && es[i].kevent.Some?
    ensures multiset(ReleaseAll(es))[FreeKEvent(es[i].kevent)] == 1
  {
    var n := |es| - 1;
    var front := es[..n];
    var h := es[i].kevent.value;
    ReleaseAllSplit(es, h);
    if i == n {
      UnheldInFront(es);
      ReleaseAllSkipsUnheld(front, h);
    } else {
      DistinctHandlesPrefix(es, n);
      assert front[i] == es[i];
      ReleaseAllFreesEachOnce(front, i);
    }
  }

  /** The destructor's count for h is its count over all slots but the last, plus
      one if the last slot is registered and holds h. */
  lemma ReleaseAllSplit(es: seq<NvEvent>, h: KEvent)
    requires es != []
    ensures var last := es[|es| - 1];
      multiset(ReleaseAll(es))[FreeKEvent(Some(h))] ==
        multiset(ReleaseAll(es[..|es| - 1]))[FreeKEvent(Some(h))] +
        (if last.registered && last.kevent == Some(h) then 1 else 0)
  {
    var n := |es| - 1;
    var last := es[n];
    var tail := if last.registered then [FreeKEvent(last.kevent)] else [];
    assert ReleaseAll(es) == ReleaseAll(es[..n]) + tail;
  }

  /** With distinct handles, the last slot's kernel event is held by no earlier slot. */
  lemma UnheldInFront(es: seq<NvEvent>)
    requires DistinctHandles(es) && es != [] && es[|es| - 1].kevent.Some?
    ensures var n := |es| - 1;
      forall j :: 0 <= j < n && es[..n][j].registered ==> es[..n][j].kevent != es[n].kevent
  {
    var n := |es| - 1;
    forall j | 0 <= j < n && es[..n][j].registered ensures es[..n][j].kevent != es[n].kevent {
      assert es[..n][j] == es[j];
    }
  }

  lemma DistinctHandlesPrefix(es: seq<NvEvent>, n: nat)
    requires DistinctHandles(es) && n <= |es|
    ensures DistinctHandles(es[..n])
  {
    assert forall i :: 0 <= i < n ==> es[..n][i] == es[i];
  }
}
