/** The nvhost_ctrl device as an object: the `events` array updated in place,
    `events_mask`, and the counter the events interface numbers its kernel
    events with. Every method is proved to leave the device in the state the
    functions of EventTable and EventWait compute, to make the calls they
    list, and to keep the table invariant. */
module Device {
  import opened NvTypes
  import opened SyncpointEventValue
  import opened EventTable
  import opened EventWait
  import Ioctl

  class NvHostCtrl {
    const events: array<NvEvent>
    var eventsMask: Mask
    /** The number the events interface gives the next kernel event it creates. */
    var nextKEvent: nat
    /** Every call made into a collaborator so far, in order. */
    ghost var calls: seq<Call>

    /** The device state as a value. */
    function Snapshot(): Table
      reads this, events
    {
      Table(events[..], eventsMask, nextKEvent)
    }

    /** The class invariant: 64 slots and the table invariant. */
    predicate Valid()
      reads this, events
    {
      events.Length == MaxNvEvents && WellFormed(Snapshot())
    }

    /** A new device: every slot default-initialised, nothing registered. */
    constructor()
      ensures Valid() && Snapshot() == InitialTable() && calls == [] && fresh(events)
    {
      events := new NvEvent[MaxNvEvents](_ => InitialEvent);
      eventsMask := {};
      nextKEvent := 0;
      calls := [];
      new;
      assert events[..] == InitialTable().events;
    }

    /** The destructor: hands back the kernel event of every registered slot. */
    method Destroy()
      requires Valid()
      modifies this
      ensures Snapshot() == old(Snapshot())
      ensures calls == old(calls) + ReleaseAll(events[..])
    {
      for i := 0 to MaxNvEvents
        invariant Snapshot() == old(Snapshot())
        invariant calls == old(calls) + ReleaseAll(events[..i])
      {
        assert events[..i + 1][..i] == events[..i];
        var event := events[i];
        if !event.registered {
          continue;
        }
        calls := calls + [FreeKEvent(event.kevent)];
      }
      assert events[..MaxNvEvents] == events[..];
    }

    /** CreateNvEvent: binds a new kernel event to the slot and registers it. */
    method CreateNvEvent(eventId: nat)
      requires events.Length == MaxNvEvents && eventId < MaxNvEvents
      modifies this, events
      ensures var r := EventTable.CreateNvEvent(old(Snapshot()), eventId);
        Snapshot() == r.table && calls == old(calls) + r.calls
    {
      var kevent := KEvent(nextKEvent);
      nextKEvent := nextKEvent + 1;
      calls := calls + [CreateKEvent(eventId, kevent)];
      var event := events[eventId];
      events[eventId] := event.(kevent := Some(kevent), status := Available, registered := true, fails := 0, assignedSyncpt := 0);
      eventsMask := eventsMask + {eventId};
    }

    /** FreeNvEvent: hands the slot's kernel event back and unregisters the slot. */
    method FreeNvEvent(eventId: nat)
      requires events.Length == MaxNvEvents && eventId < MaxNvEvents
      modifies this, events
      ensures var r := EventTable.FreeNvEvent(old(Snapshot()), eventId);
        Snapshot() == r.table && calls == old(calls) + r.calls
    {
      var event := events[eventId];
      calls := calls + [FreeKEvent(event.kevent)];
      events[eventId] := event.(kevent := None, status := Available, registered := false);
      eventsMask := eventsMask - {eventId};
    }

    method FreeEvent(slot: u32) returns (r: NvResult)
      requires events.Length == MaxNvEvents
      modifies this, events
      ensures var o := EventTable.FreeEvent(old(Snapshot()), slot);
        r == o.result && Snapshot() == o.table && calls == old(calls) + o.calls
    {
      if slot >= MaxNvEvents {
        return BadParameter;
      }
      if !events[slot].registered {
        return Success;
      }
      if IsBeingUsed(events[slot]) {
        return Busy;
      }
      FreeNvEvent(slot);
      r := Success;
    }

    method IocCtrlEventRegister(userEventId: u32) returns (r: NvResult)
      requires events.Length == MaxNvEvents
      modifies this, events
      ensures var o := EventTable.IocCtrlEventRegister(old(Snapshot()), userEventId);
        r == o.result && Snapshot() == o.table && calls == old(calls) + o.calls
    {
      if userEventId >= MaxNvEvents {
        return BadParameter;
      }
      if events[userEventId].registered {
        var result := FreeEvent(userEventId);
        if result != Success {
          return result;
        }
      }
      CreateNvEvent(userEventId);
      r := Success;
    }

    method IocCtrlEventUnregister(userEventId: u32) returns (r: NvResult)
      requires events.Length == MaxNvEvents
      modifies this, events
      ensures var o := EventTable.IocCtrlEventUnregister(old(Snapshot()), userEventId);
        r == o.result && Snapshot() == o.table && calls == old(calls) + o.calls
    {
      r := FreeEvent(userEventId % 0x100);
    }

    /** One pass of the batch loop: takes the lowest bit of `pending`, clears it
        and frees that slot. What is left of the batch from the new state
        accounts for the rest of the batch from the old one. */
    method FreeLowest(pending: Mask) returns (result: NvResult, rest: Mask)
      requires events.Length == MaxNvEvents && pending != {}
      modifies this, events
      ensures rest == pending - {Lowest(pending)}
      ensures var whole := UnregisterBatch(old(Snapshot()), pending);
        if result != Success then
          whole.result == result && whole.table == Snapshot() && old(calls) + whole.calls == calls
        else
          var tail := UnregisterBatch(Snapshot(), rest);
          whole.result == tail.result && whole.table == tail.table && old(calls) + whole.calls == calls + tail.calls
    {
      ghost var t := Snapshot();
      var eventId := Lowest(pending);
      rest := pending - {eventId};
      ghost var f := EventTable.FreeEvent(t, eventId);
      result := FreeEvent(eventId);
      if result != Success {
        assert UnregisterBatch(t, pending) == f;
      } else {
        ghost var tail := UnregisterBatch(f.table, rest);
        assert UnregisterBatch(t, pending) == Outcome(tail.result, tail.table, f.calls + tail.calls);
      }
    }

    /** IocCtrlEventUnregisterBatch: frees the slots of the mask, lowest first,
        and stops at the first one that cannot be freed. */
    method IocCtrlEventUnregisterBatch(userEvents: Mask) returns (r: NvResult)
      requires events.Length == MaxNvEvents
      modifies this, events
      ensures var o := UnregisterBatch(old(Snapshot()), userEvents);
        r == o.result && Snapshot() == o.table && calls == old(calls) + o.calls
    {
      ghost var o := UnregisterBatch(Snapshot(), userEvents);
      var eventMask: Mask := userEvents;
      while eventMask != {}
        invariant UnregisterBatch(Snapshot(), eventMask).result == o.result
        invariant UnregisterBatch(Snapshot(), eventMask).table == o.table
        invariant calls + UnregisterBatch(Snapshot(), eventMask).calls == old(calls) + o.calls
        decreases |eventMask|
      {
        var result;
        result, eventMask := FreeLowest(eventMask);
        if result != Success {
          return result;
        }
      }
      r := Success;
    }

    /** IocCtrlClearEventWait: cancels the slot named by bits 0-15 of the value. */
    method IocCtrlClearEventWait(eventId: bv32) returns (r: NvResult)
      requires events.Length == MaxNvEvents && ClearDefined(Snapshot(), eventId)
      modifies this, events
      ensures var o := EventTable.IocCtrlClearEventWait(old(Snapshot()), eventId);
        r == o.result && Snapshot() == o.table && calls == old(calls) + o.calls
    {
      var slot := Slot(eventId) as int;
      if slot >= MaxNvEvents {
        return BadParameter;
      }
      var event := events[slot];
      if event.status == Waiting {
        calls := calls + [CancelSyncptInterrupt(event.assignedSyncpt, event.assignedValue),
                          RefreshSyncpoint(event.assignedSyncpt)];
      }
      events[slot] := event.(status := Cancelled, fails := Increment(event.fails));
      calls := calls + [ClearKEvent(event.kevent.value)];
      r := Success;
    }

    /** QueryEvent: reads the slot the value names; changes nothing. */
    method QueryEvent(eventId: bv32) returns (r: Option<KEvent>)
      requires Valid()
      ensures r == EventTable.QueryEvent(Snapshot(), eventId)
    {
      var slot := DecodeSlot(eventId) as int;
      if slot >= MaxNvEvents {
        return None;
      }
      var syncpointId := DecodeSyncpoint(eventId) as int;
      var event := events[slot];
      if event.registered && event.assignedSyncpt == syncpointId {
        return event.kevent;
      }
      r := None;
    }

    /** FindFreeNvEvent: one pass over the slots remembering the last idle one
        and the first unregistered one, returning early on an idle slot already
        bound to the syncpoint. */
    method FindFreeNvEvent(syncpointId: u32) returns (slot: nat)
      requires events.Length == MaxNvEvents
      modifies this, events
      ensures var a := EventTable.FindFreeNvEvent(old(Snapshot()), syncpointId);
        slot == a.slot && Snapshot() == a.table && calls == old(calls) + a.calls
    {
      ghost var t := Snapshot();
      var idleSlot := MaxNvEvents;
      var freeSlot := MaxNvEvents;
      for i := 0 to MaxNvEvents
        invariant Snapshot() == t && calls == old(calls)
        invariant idleSlot == LastIdle(t.events, i)
        invariant freeSlot == FirstUnregistered(t.events, i)
        invariant FirstReusable(t.events, syncpointId, i) == MaxNvEvents
      {
        var event := events[i];
        assert event == t.events[i];
        assert LastIdle(t.events, i + 1) == if IsIdle(event) then i else LastIdle(t.events, i);
        assert FirstUnregistered(t.events, i + 1) ==
          if FirstUnregistered(t.events, i) < MaxNvEvents || event.registered then FirstUnregistered(t.events, i) else i;
        if event.registered {
          if !IsBeingUsed(event) {
            idleSlot := i;
            if event.assignedSyncpt == syncpointId {
              FirstReusableStable(t.events, syncpointId, i + 1);
              return i;
            }
          }
        } else if freeSlot == MaxNvEvents {
          freeSlot := i;
        }
      }
      if freeSlot < MaxNvEvents {
        CreateNvEvent(freeSlot);
        return freeSlot;
      }
      if idleSlot < MaxNvEvents {
        return idleSlot;
      }
      slot := 0;
    }

    /** The `check_failing` lambda: after three failed waits in a row on the
        slot, the wait is done synchronously with the processes stalled. */
    method CheckFailing(slot: nat, p: WaitParams) returns (failing: bool)
      requires events.Length == MaxNvEvents && slot < MaxNvEvents
      modifies this
      ensures failing == (events[slot].fails > 2)
      ensures Snapshot() == old(Snapshot())
      ensures calls == old(calls) + (if failing then Fallback(FenceId(p), Target(p)) else [])
    {
      if events[slot].fails > 2 {
        calls := calls + [StallProcesses];
        calls := calls + [WaitFence(FenceId(p), Target(p))];
        calls := calls + [UnstallProcesses];
        return true;
      }
      failing := false;
    }

    /** The value an armed wait hands back, written into a cleared value field
        by field and then or-ed with the slot number. This mirrors the stores of
        nvhost_ctrl.cpp lines 190-197; EncodeWaitValue is the value it must equal,
        and the round-trip lemmas are about that function. */
    static method WaitValue(isAllocation: bool, fenceId: bv32, slot: nat) returns (value: bv32)
      requires slot < MaxNvEvents
      ensures value == EncodeWaitValue(isAllocation, fenceId, SlotBits(slot))
    {
      value := 0;
      if isAllocation {
        value := AssignSyncpointIdForAllocation(value, fenceId & 0xFFFF);
        value := AssignEventAllocated(value, 1);
      } else {
        value := AssignSyncpointId(value, fenceId);
      }
      value := value | SlotBits(slot);
    }

    /** Arms the slot (nvhost_ctrl.cpp lines 186-200): the slot waits for the fence, the value
        handed back is built field by field and or-ed with the slot number, and
        the GPU is asked for an interrupt. */
    method ArmEvent(slot: nat, isAllocation: bool, p: WaitParams) returns (value: bv32)
      requires events.Length == MaxNvEvents && slot < MaxNvEvents
      modifies this, events
      ensures var w := EventWait.ArmSlot(Allocation(slot, old(Snapshot()), []), isAllocation, p);
        value == w.value && Snapshot() == w.table
      ensures calls == old(calls) + [RegisterSyncptInterrupt(FenceId(p), Target(p))]
    {
      ghost var t := Snapshot();
      var fenceId := FenceId(p);
      var targetValue := Target(p);
      events[slot] := events[slot].(status := Waiting);
      events[slot] := events[slot].(assignedSyncpt := fenceId);
      events[slot] := events[slot].(assignedValue := targetValue);
      assert events[..] == t.events[slot := Armed(t.events[slot], fenceId, targetValue)];
      value := WaitValue(isAllocation, p.fence.id, slot);
      calls := calls + [RegisterSyncptInterrupt(fenceId, targetValue)];
    }

    /** The wait from the slot range check on (lines 161-201), on the slot `a`
        resolved; `value` is the params value at that point and `done` the
        calls made before the wait began. */
    method WaitOnSlot(slot: nat, isAllocation: bool, p: WaitParams, value: bv32,
                      ghost a: Allocation, ghost done: seq<Call>)
      returns (r: NvResult, value': bv32)
      requires events.Length == MaxNvEvents
      requires a.slot == slot && a.table == Snapshot() && value == (if isAllocation then 0 else p.value)
      requires calls == done + [RefreshSyncpoint(FenceId(p))] + a.calls
      modifies this, events
      ensures var w := SlotOutcome(a, isAllocation, p);
        r == w.result && value' == w.value && Snapshot() == w.table && calls == done + w.calls
    {
      value' := value;
      if slot >= MaxNvEvents {
        SlotOutOfRange(a, isAllocation, p);
        return BadParameter, value';
      }
      if p.timeout == 0 {
        SlotPolled(a, isAllocation, p);
        var failing := CheckFailing(slot, p);
        if failing {
          return Success, p.fence.value;
        }
        return Timeout, value';
      }
      r, value' := WaitOnEvent(slot, isAllocation, p, value, a, done);
    }

    /** The part of WaitOnSlot that works on `events[slot]` (lines 172-201): a
        slot in range polled with a timeout. */
    method WaitOnEvent(slot: nat, isAllocation: bool, p: WaitParams, value: bv32,
                       ghost a: Allocation, ghost done: seq<Call>)
      returns (r: NvResult, value': bv32)
      requires events.Length == MaxNvEvents && slot < MaxNvEvents && p.timeout != 0
      requires a.slot == slot && a.table == Snapshot() && value == (if isAllocation then 0 else p.value)
      requires calls == done + [RefreshSyncpoint(FenceId(p))] + a.calls
      modifies this, events
      ensures var w := SlotOutcome(a, isAllocation, p);
        r == w.result && value' == w.value && Snapshot() == w.table && calls == done + w.calls
    {
      var event := events[slot];
      if !event.registered || IsBeingUsed(event) {
        SlotNotIdle(a, isAllocation, p);
        return BadParameter, value;
      }
      var failing := CheckFailing(slot, p);
      if failing {
        SlotFallsBack(a, isAllocation, p);
        return Success, p.fence.value;
      }
      assert ArmsSlot(a, p);
      value' := ArmEvent(slot, isAllocation, p);
      r := Timeout;
    }

    /** The body of IocCtrlEventWait (lines 112-201), up to its scope exit: the
        result, the params value it leaves and `must_unmark_fail`. */
    method ServeWait(isAllocation: bool, p: WaitParams, sp: SyncpointView)
      returns (r: NvResult, value: bv32, mustUnmarkFail: bool)
      requires events.Length == MaxNvEvents
      modifies this, events
      ensures var w := EventWait.WaitBody(old(Snapshot()), isAllocation, p, sp);
        r == w.result && value == w.value && Snapshot() == w.table && calls == old(calls) + w.calls
      ensures mustUnmarkFail == MustUnmarkFail(isAllocation, p, sp)
    {
      mustUnmarkFail := !isAllocation;
      value := p.value;
      var fenceId := FenceId(p);
      if fenceId >= MaxSyncPoints {
        return BadParameter, value, mustUnmarkFail;
      }
      if p.fence.value == 0 {
        return Success, sp.min, mustUnmarkFail;
      }
      if sp.expired {
        return Success, sp.min, mustUnmarkFail;
      }
      calls := calls + [RefreshSyncpoint(fenceId)];
      var newValue := sp.refreshed;
      if sp.expiredAfterRefresh {
        return Success, newValue, mustUnmarkFail;
      }
      ghost var a := ResolveSlot(old(Snapshot()), isAllocation, p);
      var slot: nat;
      if isAllocation {
        value := 0;
        slot := FindFreeNvEvent(fenceId);
      } else {
        slot := p.value as int;
      }
      mustUnmarkFail := true;
      r, value := WaitOnSlot(slot, isAllocation, p, value, a, old(calls));
    }

    /** IocCtrlEventWait: the body, then the scope exit, which copies the params
        back and zeroes `fails` of the slot named by the input value. */
    method IocCtrlEventWait(isAllocation: bool, params: WaitParams, sp: SyncpointView)
      returns (r: NvResult, output: WaitParams)
      requires events.Length == MaxNvEvents
      modifies this, events
      ensures var o := EventWait.IocCtrlEventWait(old(Snapshot()), isAllocation, params, sp);
        r == o.result && output == o.params && Snapshot() == o.table && calls == old(calls) + o.calls
    {
      ghost var reset := ExitReset(isAllocation, params, sp);
      var eventId := params.value as int;
      var value, mustUnmarkFail;
      r, value, mustUnmarkFail := ServeWait(isAllocation, params, sp);
      ghost var body := Snapshot();
      assert reset == if mustUnmarkFail && eventId < MaxNvEvents then Some(eventId) else None;
      output := params.(value := value);
      if mustUnmarkFail && eventId < MaxNvEvents {
        events[eventId] := events[eventId].(fails := 0);
      }
      assert Snapshot() == ClearFails(body, reset);
    }

    /** Ioctl1: dispatches on the command number. This and SignalNvEvent,
        QueryEvent and the destructor are the device's entry points, and each
        keeps the class invariant. */
    method Ioctl1(c: Ioctl.Command, input: Ioctl.Input, sp: SyncpointView)
      returns (r: NvResult, output: Option<WaitParams>)
      requires Valid() && Ioctl.Dispatchable(Snapshot(), c, input)
      modifies this, events
      ensures var o := Ioctl.Ioctl1(old(Snapshot()), c, input, sp);
        r == o.result && output == o.output && Snapshot() == o.table && calls == old(calls) + o.calls
      ensures Valid()
    {
      Ioctl.Ioctl1KeepsWellFormed(Snapshot(), c, input, sp);
      r, output := Dispatch(Ioctl.Route(c), input, sp);
    }

    /** The switch of Ioctl1: runs handler h on the input. */
    method Dispatch(h: Ioctl.Handler, input: Ioctl.Input, sp: SyncpointView)
      returns (r: NvResult, output: Option<WaitParams>)
      requires events.Length == MaxNvEvents && Ioctl.Defined(Snapshot(), h, input)
      modifies this, events
      ensures var o := Ioctl.Handle(old(Snapshot()), h, input, sp);
        r == o.result && output == o.output && Snapshot() == o.table && calls == old(calls) + o.calls
    {
      output := None;
      match h
      case GetConfigU32 =>
        r := ConfigVarNotFound;
      case ClearEventWait =>
        r := IocCtrlClearEventWait(input.word);
      case Wait(isAllocation) =>
        var params;
        r, params := IocCtrlEventWait(isAllocation, input.wait, sp);
        output := Some(params);
      case Register =>
        r := IocCtrlEventRegister(input.word as int);
      case Unregister =>
        r := IocCtrlEventUnregister(input.word as int);
      case UnregisterBatch =>
        r := IocCtrlEventUnregisterBatch(input.userEvents);
      case Unimplemented =>
        r := NotImplemented;
    }

    /** One pass of the signal loop: takes the lowest bit of `pending`, clears
        it, and signals that slot if it is bound to (syncpointId, value). */
    method SignalLowest(pending: Mask, syncpointId: u32, value: u32) returns (rest: Mask)
      requires events.Length == MaxNvEvents && pending != {}
      modifies this, events
      ensures rest == pending - {Lowest(pending)}
      ensures var whole := EventTable.SignalNvEvent(old(Snapshot()), pending, syncpointId, value);
        var tail := EventTable.SignalNvEvent(Snapshot(), rest, syncpointId, value);
        whole.table == tail.table && old(calls) + whole.calls == calls + tail.calls
    {
      ghost var t := Snapshot();
      var eventId := Lowest(pending);
      rest := pending - {eventId};
      var event := events[eventId];
      if event.assignedSyncpt != syncpointId || event.assignedValue != value {
        return;
      }
      ghost var woken := if event.status == Waiting && event.kevent.Some? then [SignalKEvent(event.kevent.value)] else [];
      ghost var t' := t.(events := t.events[eventId := event.(status := Signalled)]);
      assert EventTable.SignalNvEvent(t, pending, syncpointId, value).calls
          == woken + EventTable.SignalNvEvent(t', rest, syncpointId, value).calls;
      if event.status == Waiting && event.kevent.Some? {
        calls := calls + [SignalKEvent(event.kevent.value)];
      }
      events[eventId] := event.(status := Signalled);
      assert Snapshot() == t';
    }

    /** SignalNvEvent: visits the slots of `events_mask`, lowest first; every slot
        bound to (syncpointId, value) ends Signalled, and its kernel event is
        signalled if it was Waiting. */
    method SignalNvEvent(syncpointId: u32, value: u32)
      requires Valid()
      modifies this, events
      ensures var r := EventTable.SignalNvEvent(old(Snapshot()), old(eventsMask), syncpointId, value);
        Snapshot() == r.table && calls == old(calls) + r.calls
      ensures Valid()
    {
      ghost var r := EventTable.SignalNvEvent(Snapshot(), eventsMask, syncpointId, value);
      SignalKeepsWellFormed(Snapshot(), eventsMask, syncpointId, value);
      var signalMask: Mask := eventsMask;
      while signalMask != {}
        invariant EventTable.SignalNvEvent(Snapshot(), signalMask, syncpointId, value).table == r.table
        invariant calls + EventTable.SignalNvEvent(Snapshot(), signalMask, syncpointId, value).calls == old(calls) + r.calls
        decreases |signalMask|
      {
        signalMask := SignalLowest(signalMask, syncpointId, value);
      }
    }
  }
}
