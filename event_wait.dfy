/** IocCtrlEventWait as a function of the table, the request and the answers
    the syncpoint manager gives while the request is served. */
module EventWait {
  import opened NvTypes
  import opened SyncpointEventValue
  import opened EventTable

  /** A fence: the 32 bits of its signed syncpoint id and its u32 target value. */
  datatype Fence = Fence(id: bv32, value: bv32)

  /** IocCtrlEventWaitParams, already unpacked; `value` is the in/out
      SyncpointEventValue (the slot in fixed mode, the encoded result on return). */
  datatype WaitParams = WaitParams(fence: Fence, timeout: i32, value: bv32)

  /** What the syncpoint manager answers, during one wait, about the fence's
      syncpoint: GetSyncpointMin, IsSyncpointExpired before a refresh, the value
      RefreshSyncpoint returns, and IsSyncpointExpired after the refresh. */
  datatype SyncpointView = SyncpointView(min: bv32, expired: bool, refreshed: bv32, expiredAfterRefresh: bool)

  /** The returns of the wait's body, before its scope exit runs. */
  datatype WaitStep = WaitStep(result: NvResult, value: bv32, table: Table, calls: seq<Call>)

  /** What the guest sees: the result and the params copied back by the scope exit. */
  datatype WaitOutcome = WaitOutcome(result: NvResult, params: WaitParams, table: Table, calls: seq<Call>)

  /** `static_cast<u32>` of the signed fence id: the same 32 bits, read unsigned. */
  function FenceId(p: WaitParams): u32 {
    p.fence.id as int
  }

  /** The fence's target value. */
  function Target(p: WaitParams): u32 {
    p.fence.value as int
  }

  /** The wait gets past its fast paths and resolves a slot (line 146 onward). */
  predicate ReachesSlotStage(p: WaitParams, sp: SyncpointView) {
    FenceId(p) < MaxSyncPoints && p.fence.value != 0 && !sp.expired && !sp.expiredAfterRefresh
  }

  /** `must_unmark_fail` when the scope exit runs: from the start in fixed mode,
      from line 146 on in allocation mode. */
  predicate MustUnmarkFail(isAllocation: bool, p: WaitParams, sp: SyncpointView) {
    !isAllocation || ReachesSlotStage(p, sp)
  }

  /** The slot the wait works on: FindFreeNvEvent's choice in allocation mode,
      the caller's value in fixed mode. */
  function ResolveSlot(t: Table, isAllocation: bool, p: WaitParams): (a: Allocation)
    requires Sized(t)
    ensures Sized(a.table)
    ensures isAllocation ==> a.slot < MaxNvEvents
    ensures !isAllocation ==> a == Allocation(p.value as int, t, [])
    ensures forall c :: c in a.calls ==> c.CreateKEvent?
  {
    if isAllocation then FindFreeNvEvent(t, FenceId(p)) else Allocation(p.value as int, t, [])
  }

  /** The resolved slot gets armed: it is in range and idle, the wait has a
      timeout and the slot has not failed three times in a row. */
  predicate ArmsSlot(a: Allocation, p: WaitParams)
    requires Sized(a.table)
  {
    p.timeout != 0 && a.slot < MaxNvEvents && IsIdle(a.table.events[a.slot]) && a.table.events[a.slot].fails <= 2
  }

  /** The path on which the wait arms its slot. */
  predicate Arms(t: Table, isAllocation: bool, p: WaitParams, sp: SyncpointView)
    requires Sized(t)
  {
    ReachesSlotStage(p, sp) && ArmsSlot(ResolveSlot(t, isAllocation, p), p)
  }

  /** The calls of the failing-streak fallback, in order. */
  function Fallback(fenceId: u32, target: u32): seq<Call> {
    [StallProcesses, WaitFence(fenceId, target), UnstallProcesses]
  }

  /** A slot armed for a wait on (fenceId, target). */
  function Armed(e: NvEvent, fenceId: u32, target: u32): NvEvent {
    e.(status := Waiting, assignedSyncpt := fenceId, assignedValue := target)
  }

  /** Arming the resolved slot (nvhost_ctrl.cpp lines 186-200): it waits for the fence, the
      value handed back names it, and one interrupt is registered. */
  function ArmSlot(a: Allocation, isAllocation: bool, p: WaitParams): (w: WaitStep)
    requires Sized(a.table) && a.slot < MaxNvEvents
    ensures w.result == Timeout
    ensures |w.table.events| == MaxNvEvents
    ensures OnlySlotChanged(a.table.events, w.table.events, a.slot, Armed(a.table.events[a.slot], FenceId(p), Target(p)))
    ensures w.table.mask == a.table.mask && w.table.nextKEvent == a.table.nextKEvent
    ensures w.value == EncodeWaitValue(isAllocation, p.fence.id, SlotBits(a.slot))
    ensures w.calls == [RefreshSyncpoint(FenceId(p))] + a.calls + [RegisterSyncptInterrupt(FenceId(p), Target(p))]
  {
    var armed := Armed(a.table.events[a.slot], FenceId(p), Target(p));
    WaitStep(Timeout, EncodeWaitValue(isAllocation, p.fence.id, SlotBits(a.slot)),
             a.table.(events := a.table.events[a.slot := armed]),
             [RefreshSyncpoint(FenceId(p))] + a.calls + [RegisterSyncptInterrupt(FenceId(p), Target(p))])
  }

  /** The wait from the slot range check on (nvhost_ctrl.cpp lines 148-201), given the resolved slot. */
  function SlotOutcome(a: Allocation, isAllocation: bool, p: WaitParams): (w: WaitStep)
    requires Sized(a.table)
    ensures Sized(w.table)
    ensures ArmsSlot(a, p) ==> w == ArmSlot(a, isAllocation, p)
  {
    var fenceId := FenceId(p);
    var target := Target(p);
    var value: bv32 := if isAllocation then 0 else p.value;
    var slot := a.slot;
    var calls := [RefreshSyncpoint(fenceId)] + a.calls;
    if slot >= MaxNvEvents then WaitStep(BadParameter, value, a.table, calls)
    else if p.timeout == 0 then
      if a.table.events[slot].fails > 2 then WaitStep(Success, p.fence.value, a.table, calls + Fallback(fenceId, target))
      else WaitStep(Timeout, value, a.table, calls)
    else if !a.table.events[slot].registered || IsBeingUsed(a.table.events[slot]) then
      WaitStep(BadParameter, value, a.table, calls)
    else if a.table.events[slot].fails > 2 then WaitStep(Success, p.fence.value, a.table, calls + Fallback(fenceId, target))
    else ArmSlot(a, isAllocation, p)
  }

  /** A slot out of range is refused without touching the table. */
  lemma SlotOutOfRange(a: Allocation, isAllocation: bool, p: WaitParams)
    requires Sized(a.table) && a.slot >= MaxNvEvents
    ensures var w := SlotOutcome(a, isAllocation, p);
      w.result == BadParameter && w.table == a.table && w.calls == [RefreshSyncpoint(FenceId(p))] + a.calls
      && w.value == (if isAllocation then 0 else p.value)
  {
  }

  /** A poll (timeout 0) arms nothing: it reports Timeout, or, after three
      failures in a row, waits synchronously with the processes stalled. */
  lemma SlotPolled(a: Allocation, isAllocation: bool, p: WaitParams)
    requires Sized(a.table) && a.slot < MaxNvEvents && p.timeout == 0
    ensures var w := SlotOutcome(a, isAllocation, p);
      var pre := [RefreshSyncpoint(FenceId(p))] + a.calls;
      && w.table == a.table
      && (a.table.events[a.slot].fails > 2 ==>
            w.result == Success && w.value == p.fence.value && w.calls == pre + Fallback(FenceId(p), Target(p)))
      && (a.table.events[a.slot].fails <= 2 ==>
            w.result == Timeout && w.value == (if isAllocation then 0 else p.value) && w.calls == pre)
  {
  }

  /** A slot that is not registered, or is in use, is refused. */
  lemma SlotNotIdle(a: Allocation, isAllocation: bool, p: WaitParams)
    requires Sized(a.table) && a.slot < MaxNvEvents && p.timeout != 0 && !IsIdle(a.table.events[a.slot])
    ensures var w := SlotOutcome(a, isAllocation, p);
      w.result == BadParameter && w.table == a.table && w.calls == [RefreshSyncpoint(FenceId(p))] + a.calls
      && w.value == (if isAllocation then 0 else p.value)
  {
  }

  /** An idle slot that failed more than twice is not armed: the wait happens
      synchronously, with the processes stalled, and reports the target value. */
  lemma SlotFallsBack(a: Allocation, isAllocation: bool, p: WaitParams)
    requires Sized(a.table) && a.slot < MaxNvEvents && p.timeout != 0 && IsIdle(a.table.events[a.slot])
    requires a.table.events[a.slot].fails > 2
    ensures var w := SlotOutcome(a, isAllocation, p);
      && w.result == Success && w.value == p.fence.value && w.table == a.table
      && w.calls == [RefreshSyncpoint(FenceId(p))] + a.calls + Fallback(FenceId(p), Target(p))
  {
  }

  /** Every return of the slot stage that does not arm leaves the table as it
      was and registers no interrupt. */
  lemma SlotOutcomeWithoutArming(a: Allocation, isAllocation: bool, p: WaitParams)
    requires Sized(a.table) && !ArmsSlot(a, p)
    requires forall c :: c in a.calls ==> c.CreateKEvent?
    ensures SlotOutcome(a, isAllocation, p).table == a.table
    ensures forall c :: c in SlotOutcome(a, isAllocation, p).calls ==> !c.RegisterSyncptInterrupt?
  {
    var pre := [RefreshSyncpoint(FenceId(p))] + a.calls;
    assert forall c :: c in pre + Fallback(FenceId(p), Target(p)) ==> !c.RegisterSyncptInterrupt?;
    if a.slot >= MaxNvEvents {
      SlotOutOfRange(a, isAllocation, p);
    } else if p.timeout == 0 {
      SlotPolled(a, isAllocation, p);
    } else if !IsIdle(a.table.events[a.slot]) {
      SlotNotIdle(a, isAllocation, p);
    } else {
      SlotFallsBack(a, isAllocation, p);
    }
  }

  /** Arming rewrites only the status and assignment of the resolved slot. */
  lemma SlotOutcomeKeepsWellFormed(a: Allocation, isAllocation: bool, p: WaitParams)
    requires WellFormed(a.table)
    requires forall c :: c in a.calls ==> c.CreateKEvent?
    ensures WellFormed(SlotOutcome(a, isAllocation, p).table)
  {
    if ArmsSlot(a, p) {
      var armed := Armed(a.table.events[a.slot], FenceId(p), Target(p));
      SameBindingKeepsWellFormed(a.table, a.slot, armed);
      assert ArmSlot(a, isAllocation, p).table == a.table.(events := a.table.events[a.slot := armed]);
    } else {
      SlotOutcomeWithoutArming(a, isAllocation, p);
    }
  }

  /** The body of IocCtrlEventWait, up to the value it returns. */
  function WaitBody(t: Table, isAllocation: bool, p: WaitParams, sp: SyncpointView): (w: WaitStep)
    requires Sized(t)
    ensures Sized(w.table)
    // validation and the fast paths: no slot is resolved, allocated or armed
    ensures FenceId(p) >= MaxSyncPoints ==> w == WaitStep(BadParameter, p.value, t, [])
    ensures FenceId(p) < MaxSyncPoints && (p.fence.value == 0 || sp.expired) ==>
      w == WaitStep(Success, sp.min, t, [])
    ensures FenceId(p) < MaxSyncPoints && p.fence.value != 0 && !sp.expired && sp.expiredAfterRefresh ==>
      w == WaitStep(Success, sp.refreshed, t, [RefreshSyncpoint(FenceId(p))])
    // the slow path works on the resolved slot
    ensures ReachesSlotStage(p, sp) ==> w == SlotOutcome(ResolveSlot(t, isAllocation, p), isAllocation, p)
  {
    var fenceId := FenceId(p);
    if fenceId >= MaxSyncPoints then WaitStep(BadParameter, p.value, t, [])
    else if p.fence.value == 0 then WaitStep(Success, sp.min, t, [])
    else if sp.expired then WaitStep(Success, sp.min, t, [])
    else if sp.expiredAfterRefresh then WaitStep(Success, sp.refreshed, t, [RefreshSyncpoint(fenceId)])
    else SlotOutcome(ResolveSlot(t, isAllocation, p), isAllocation, p)
  }

  /** When every slot is in use, FindFreeNvEvent falls back to slot 0, which is
      busy: an allocation-mode wait then never arms a slot, and with a timeout
      it is refused. */
  lemma ExhaustedAllocationDoesNotArm(t: Table, p: WaitParams, sp: SyncpointView)
    requires Sized(t) && forall j :: 0 <= j < MaxNvEvents ==> IsBusy(t.events[j])
    ensures !Arms(t, true, p, sp)
    ensures ReachesSlotStage(p, sp) && p.timeout != 0 ==> WaitBody(t, true, p, sp).result == BadParameter
  {
    FindFreeNvEventPrefers(t, FenceId(p));
    var a := ResolveSlot(t, true, p);
    assert a.slot == 0 && a.table == t;
    assert !IsIdle(a.table.events[a.slot]);
    if ReachesSlotStage(p, sp) && p.timeout != 0 {
      SlotNotIdle(a, true, p);
    }
  }

  /** Only the arming path registers a syncpoint interrupt. */
  lemma OnlyArmingRegisters(t: Table, isAllocation: bool, p: WaitParams, sp: SyncpointView)
    requires Sized(t) && !Arms(t, isAllocation, p, sp)
    ensures forall c :: c in WaitBody(t, isAllocation, p, sp).calls ==> !c.RegisterSyncptInterrupt?
  {
    if ReachesSlotStage(p, sp) {
      SlotOutcomeWithoutArming(ResolveSlot(t, isAllocation, p), isAllocation, p);
    }
  }

  /** The arming path registers exactly one interrupt, for the fence's syncpoint
      and target value. */
  lemma ArmingRegistersOnce(t: Table, isAllocation: bool, p: WaitParams, sp: SyncpointView)
    requires Sized(t) && Arms(t, isAllocation, p, sp)
    ensures multiset(WaitBody(t, isAllocation, p, sp).calls)[RegisterSyncptInterrupt(FenceId(p), Target(p))] == 1
  {
    var a := ResolveSlot(t, isAllocation, p);
    assert WaitBody(t, isAllocation, p, sp) == ArmSlot(a, isAllocation, p);
    SingleRegistration([RefreshSyncpoint(FenceId(p))] + a.calls, RegisterSyncptInterrupt(FenceId(p), Target(p)));
  }

  lemma SingleRegistration(pre: seq<Call>, c: Call)
    requires c.RegisterSyncptInterrupt?
    requires forall x :: x in pre ==> !x.RegisterSyncptInterrupt?
    ensures multiset(pre + [c])[c] == 1
  {
    assert multiset(pre)[c] == 0;
  }

  // ---------------------------------------------------------------------------
  // The scope exit

  /** The slot whose `fails` the scope exit zeroes, as the source writes it: the
      caller's input value, used as an index without a bound check. */
  function ExitResetAsWritten(isAllocation: bool, p: WaitParams, sp: SyncpointView): Option<nat> {
    if MustUnmarkFail(isAllocation, p, sp) then Some(p.value as int) else None
  }

  /** The scope exit with the bound check the rest of the wait applies to a slot:
      it agrees with the source whenever the source's index is inside the array. */
  function ExitReset(isAllocation: bool, p: WaitParams, sp: SyncpointView): (r: Option<nat>)
    ensures r.Some? ==> r.value < MaxNvEvents
    ensures var w := ExitResetAsWritten(isAllocation, p, sp);
      (w.Some? && w.value < MaxNvEvents ==> r == w) && (w.None? ==> r.None?)
  {
    if MustUnmarkFail(isAllocation, p, sp) && p.value as int < MaxNvEvents then Some(p.value as int) else None
  }

  /** A fixed-mode wait on slot value 64 is refused at the slot range check, but
      the source's scope exit then clears `fails` of events[64], one past the end
      of the 64-entry array. */
  lemma ExitResetPastEnd()
    ensures var p := WaitParams(Fence(0, 1), 1, 64);
      var sp := SyncpointView(0, false, 0, false);
      && WaitBody(InitialTable(), false, p, sp).result == BadParameter
      && ExitResetAsWritten(false, p, sp) == Some(MaxNvEvents)
      && ExitReset(false, p, sp) == None
  {
    var p := WaitParams(Fence(0, 1), 1, 64);
    var sp := SyncpointView(0, false, 0, false);
    assert ResolveSlot(InitialTable(), false, p).slot == 64;
  }

  /** The scope exit's write to the table: `fails` of slot r zeroed. */
  function ClearFails(t: Table, r: Option<nat>): (t': Table)
    requires Sized(t) && (r.Some? ==> r.value < MaxNvEvents)
    ensures t'.mask == t.mask && t'.nextKEvent == t.nextKEvent && |t'.events| == MaxNvEvents
    ensures forall i :: 0 <= i < MaxNvEvents ==>
      t'.events[i] == (if r == Some(i) then t.events[i].(fails := 0) else t.events[i])
  {
    if r.None? then t else t.(events := t.events[r.value := t.events[r.value].(fails := 0)])
  }

  /** IocCtrlEventWait: the body, then the scope exit, which copies the params
      back and zeroes `fails` of the slot named by the caller's input value. */
  function IocCtrlEventWait(t: Table, isAllocation: bool, p: WaitParams, sp: SyncpointView): (o: WaitOutcome)
    requires Sized(t)
    ensures var b := WaitBody(t, isAllocation, p, sp);
      && o.result == b.result && o.calls == b.calls
      && o.params.fence == p.fence && o.params.timeout == p.timeout && o.params.value == b.value
      && o.table == ClearFails(b.table, ExitReset(isAllocation, p, sp))
    // in fixed mode every return zeroes the caller's slot; in allocation mode every
    // return from the slot stage on zeroes the slot named by the input value
    ensures p.value as int < MaxNvEvents && MustUnmarkFail(isAllocation, p, sp) ==> o.table.events[p.value as int].fails == 0
    ensures !MustUnmarkFail(isAllocation, p, sp) ==> o.table == WaitBody(t, isAllocation, p, sp).table
  {
    var b := WaitBody(t, isAllocation, p, sp);
    WaitOutcome(b.result, p.(value := b.value), ClearFails(b.table, ExitReset(isAllocation, p, sp)), b.calls)
  }

  // ---------------------------------------------------------------------------
  // Properties across operations

  lemma ClearFailsKeepsWellFormed(t: Table, r: Option<nat>)
    requires WellFormed(t) && (r.Some? ==> r.value < MaxNvEvents)
    ensures WellFormed(ClearFails(t, r))
  {
    if r.Some? {
      SameBindingKeepsWellFormed(t, r.value, t.events[r.value].(fails := 0));
    }
  }

  /** The body of a wait keeps the table invariant: it may register a free slot
      (allocation mode), and otherwise only rewrites the status and assignment
      of a slot, never its binding to a kernel event. */
  lemma WaitBodyKeepsWellFormed(t: Table, isAllocation: bool, p: WaitParams, sp: SyncpointView)
    requires WellFormed(t)
    ensures WellFormed(WaitBody(t, isAllocation, p, sp).table)
  {
    if ReachesSlotStage(p, sp) {
      var a := ResolveSlot(t, isAllocation, p);
      if isAllocation {
        FindFreeNvEventKeepsWellFormed(t, FenceId(p));
      }
      SlotOutcomeKeepsWellFormed(a, isAllocation, p);
    }
  }

  /** A whole wait, scope exit included, keeps the table invariant. */
  lemma WaitKeepsWellFormed(t: Table, isAllocation: bool, p: WaitParams, sp: SyncpointView)
    requires WellFormed(t)
    ensures WellFormed(IocCtrlEventWait(t, isAllocation, p, sp).table)
  {
    WaitBodyKeepsWellFormed(t, isAllocation, p, sp);
    ClearFailsKeepsWellFormed(WaitBody(t, isAllocation, p, sp).table, ExitReset(isAllocation, p, sp));
  }

  /** Before the slot stage, the scope exit zeroes `fails` of the caller's slot
      in fixed mode and of no slot in allocation mode. */
  lemma EarlyExitClears(t: Table, isAllocation: bool, p: WaitParams, sp: SyncpointView)
    requires Sized(t) && !ReachesSlotStage(p, sp)
    ensures forall i :: 0 <= i < MaxNvEvents ==>
      ClearFails(t, ExitReset(isAllocation, p, sp)).events[i] ==
        (if !isAllocation && i == p.value as int then t.events[i].(fails := 0) else t.events[i])
  {
    var r := ExitReset(isAllocation, p, sp);
    assert r == if !isAllocation && p.value as int < MaxNvEvents then Some(p.value as int) else None;
  }

  /** A wait whose fence value is 0 or whose syncpoint has already expired
      answers Success and leaves every slot but, in fixed mode, the `fails`
      counter of the caller's slot as it was. */
  lemma FastPathTouchesNoSlot(t: Table, isAllocation: bool, p: WaitParams, sp: SyncpointView)
    requires Sized(t)
    requires FenceId(p) < MaxSyncPoints && (p.fence.value == 0 || sp.expired || sp.expiredAfterRefresh)
    ensures var o := IocCtrlEventWait(t, isAllocation, p, sp);
      && o.result == Success
      && (forall c :: c in o.calls ==> c == RefreshSyncpoint(FenceId(p)))
      && forall i :: 0 <= i < MaxNvEvents ==>
           o.table.events[i] == (if !isAllocation && i == p.value as int then t.events[i].(fails := 0) else t.events[i])
  {
    var b := WaitBody(t, isAllocation, p, sp);
    assert b.table == t;
    assert forall c :: c in b.calls ==> c == RefreshSyncpoint(FenceId(p));
    EarlyExitClears(t, isAllocation, p, sp);
  }

  /** The value an allocation-mode wait hands back when it arms slot s, and the
      slot as the scope exit leaves it: armed, and bound to the syncpoint. */
  lemma AllocatedArmResult(t: Table, p: WaitParams, sp: SyncpointView)
    requires WellFormed(t) && Arms(t, true, p, sp)
    ensures var o := IocCtrlEventWait(t, true, p, sp); var s := ResolveSlot(t, true, p).slot;
      && WellFormed(o.table)
      && o.params.value == EncodeWaitValue(true, p.fence.id, SlotBits(s))
      && o.table.events[s].registered && o.table.events[s].assignedSyncpt == FenceId(p)
  {
    var a := ResolveSlot(t, true, p);
    var b := WaitBody(t, true, p, sp);
    assert b == SlotOutcome(a, true, p);
    WaitKeepsWellFormed(t, true, p, sp);
  }

  /** The value handed back by an allocation-mode wait that armed one of the
      first 16 slots leads QueryEvent back to that slot's kernel event. */
  lemma AllocatedArmIsQueryable(t: Table, p: WaitParams, sp: SyncpointView)
    requires WellFormed(t)
    requires Arms(t, true, p, sp) && ResolveSlot(t, true, p).slot < 16
    ensures var o := IocCtrlEventWait(t, true, p, sp); var s := ResolveSlot(t, true, p).slot;
      && o.table.events[s].kevent.Some?
      && QueryEvent(o.table, o.params.value) == o.table.events[s].kevent
  {
    var o := IocCtrlEventWait(t, true, p, sp);
    var s := ResolveSlot(t, true, p).slot;
    AllocatedArmResult(t, p, sp);
    SlotBitsValue(s);
    AllocatedRoundTrip(p.fence.id, SlotBits(s));
  }

  /** From slot 16 on, the value an allocation-mode wait hands back names slot
      s mod 16 instead of the armed slot s. */
  lemma AllocatedArmAliases(t: Table, p: WaitParams, sp: SyncpointView)
    requires WellFormed(t)
    requires Arms(t, true, p, sp) && ResolveSlot(t, true, p).slot >= 16
    ensures var o := IocCtrlEventWait(t, true, p, sp); var s := ResolveSlot(t, true, p).slot;
      DecodeSlot(o.params.value) as int == s % 16
  {
    var s := ResolveSlot(t, true, p).slot;
    AllocatedArmResult(t, p, sp);
    SlotBitsValue(s);
    AllocatedSlotAliased(p.fence.id, SlotBits(s));
    LowNibble(SlotBits(s));
  }
}
