# nvhost_ctrl event slots, in Dafny

This project models the control device `nvhost_ctrl` of the emulator's nvdrv service
(`src/core/hle/service/nvdrv/devices/nvhost_ctrl.cpp`). The device keeps 64 event
slots. Each slot may be bound to a kernel event. Each slot has a status, a
failing-streak counter `fails`, and the syncpoint and value it is armed for. The
64-bit `events_mask` records which slots are registered.

The guest reaches the slots through `Ioctl1`:
- register, unregister and batch-unregister a slot;
- wait on a syncpoint fence, in fixed mode (the caller names the slot) or in
  allocation mode (the device picks one with `FindFreeNvEvent`);
- cancel a wait (`IocCtrlClearEventWait`).

The GPU calls `SignalNvEvent` when a syncpoint reaches a value. `QueryEvent` turns
the value a wait handed back into the slot's kernel event. The destructor hands
every kernel event back.

The model has two layers.

- **Specification functions** (`EventTable`, `EventWait`, `Ioctl`) take the slot
  table as a value. They return the result code, the new table and the list of
  calls the device made into its collaborators. The collaborators are the events
  interface, the GPU, the syncpoint manager and the process scheduler.
- **The class `Device.NvHostCtrl`** keeps the slots in an `array`, updated in
  place, like the source's `events`. It also has fields for `events_mask` and for
  the events interface's handle counter, and a ghost trace of the calls made. Each
  method is proved to reach exactly the state and the trace its specification
  function computes. The entry points (`Ioctl1`, `SignalNvEvent`, `QueryEvent`,
  the destructor) are also proved to keep the table invariant `WellFormed`:
  - bit i of the mask is set iff slot i is registered iff slot i holds a kernel event;
  - an unregistered slot is Available;
  - no kernel event is held by two slots.

The lemmas then prove the device's promises about the specification functions.
- FreeEvent's four cases.
- The batch unregister frees exactly the registered slots below the first busy
  one, each kernel event once.
- FindFreeNvEvent's order of preference.
- A signal wakes exactly the matching Waiting slots, once each; a cancelled wait
  is never woken.
- Only an armed wait registers an interrupt, and exactly one.
- The fast paths of a wait touch no slot.
- When the encode/decode round trip of the value a wait hands back holds, and
  where it fails.

`SyncpointEventValue` (module `SyncpointEventValue`) is the 32-bit union the wait
returns and `QueryEvent` reads. Its declaration lives in `nvhost_ctrl.h`, which is
not part of this model. The bit layout assumed here for its fields is:
- partial_slot: bits 0-3;
- syncpoint_id: bits 4-31;
- slot: bits 0-15;
- syncpoint_id_for_allocation: bits 16-27;
- event_allocated: bit 28.

The table has `MaxNvEvents` = 64 slots. A slot is in use (`NvTypes.IsBeingUsed`)
while its status is Waiting, Cancelling or Signalling.

Under these fields, the round trip recovers the armed slot in allocation mode
only for slots 0-15 (`AllocatedRoundTrip`, `AllocatedSlotAliased`,
`AllocatedArmAliases`). In fixed mode it holds only when the syncpoint id equals
the slot's bits 4-5 (`FixedRoundTrip`).

An allocation that finds all 64 slots in flight returns slot 0; the wait then
does not arm it. With a non-zero timeout it finds slot 0 in use and answers
BadParameter; with timeout 0 it polls slot 0 and answers Timeout, or Success
through the failing-streak fallback
(`EventWait.ExhaustedAllocationDoesNotArm`, `EventWait.SlotPolled`).

What the wait asks the syncpoint manager (`GetSyncpointMin`,
`IsSyncpointExpired`, the value `RefreshSyncpoint` returns) is a parameter of
type `EventWait.SyncpointView`. The input buffer of an ioctl is given already
unpacked, as `Ioctl.Input`.

## Model

| member | source | states |
|---|---|---|
| NvTypes.Increment | src/core/hle/service/nvdrv/devices/nvhost_ctrl.cpp:292 | `fails++` on a u32: one more, except that 0xFFFF_FFFF wraps to 0 |
| NvTypes.InitialTable | src/core/hle/service/nvdrv/devices/nvhost_ctrl.cpp:24-27 | a new device has an empty mask, no registered slot, and satisfies the table invariant |
| NvTypes.Lowest | src/core/hle/service/nvdrv/devices/nvhost_ctrl.cpp:263 | `countr_zero` of a non-zero mask is a set bit, and no set bit is lower |
| SyncpointEventValue.AssignSyncpointId | src/core/hle/service/nvdrv/devices/nvhost_ctrl.cpp:195 | writing the syncpoint_id field stores the low 28 bits of the value and leaves partial_slot as it was |
| SyncpointEventValue.AssignSyncpointIdForAllocation | src/core/hle/service/nvdrv/devices/nvhost_ctrl.cpp:192 | writing the allocation syncpoint field stores the low 12 bits and leaves slot, flag and bits 29-31 as they were |
| SyncpointEventValue.AssignEventAllocated | src/core/hle/service/nvdrv/devices/nvhost_ctrl.cpp:193 | writing the allocated flag stores the low bit and leaves slot, allocation syncpoint and bits 29-31 as they were |
| SyncpointEventValue.EncodeWaitValue | src/core/hle/service/nvdrv/devices/nvhost_ctrl.cpp:186-197 | (definition) the value an armed wait hands back: cleared, the allocation syncpoint field and the flag or the syncpoint_id field written, then the slot OR-ed in; what it decodes to is stated by AllocatedRoundTrip, AllocatedSlotAliased, FixedDecode and FixedRoundTrip |
| SyncpointEventValue.DecodeSlot | src/core/hle/service/nvdrv/devices/nvhost_ctrl.cpp:301-304 | (definition) QueryEvent's slot: partial_slot when the allocated flag is set, else the 16-bit slot field |
| SyncpointEventValue.DecodeSyncpoint | src/core/hle/service/nvdrv/devices/nvhost_ctrl.cpp:310-311 | (definition) QueryEvent's syncpoint: the allocation syncpoint field when the flag is set, else syncpoint_id |
| SyncpointEventValue.AllocatedRoundTrip | src/core/hle/service/nvdrv/devices/nvhost_ctrl.cpp:186-197 | for a syncpoint below 192 and a slot below 16, QueryEvent's decoding of an allocation-mode value gives back the slot and the syncpoint, with the flag set |
| SyncpointEventValue.AllocatedSlotAliased | src/core/hle/service/nvdrv/devices/nvhost_ctrl.cpp:186-197 | for slots 16-63 the allocation-mode value decodes to the slot modulo 16, which is not the slot; the syncpoint still decodes right |
| SyncpointEventValue.FixedDecode | src/core/hle/service/nvdrv/devices/nvhost_ctrl.cpp:195-197 | a fixed-mode value has the flag clear, decodes to slot `(syncpoint << 4) \| slot` and to syncpoint `syncpoint \| (slot >> 4)` |
| SyncpointEventValue.FixedBits | src/core/hle/service/nvdrv/devices/nvhost_ctrl.cpp:186-197 | the fixed-mode value is the syncpoint shifted past partial_slot, OR the slot |
| SyncpointEventValue.FixedRoundTrip | src/core/hle/service/nvdrv/devices/nvhost_ctrl.cpp:186-197 | the fixed-mode round trip recovers (slot, syncpoint) if and only if the syncpoint equals slot >> 4 |
| SyncpointEventValue.SlotBitsValue | src/core/hle/service/nvdrv/devices/nvhost_ctrl.cpp:197 | the bits OR-ed in for a slot read back as the slot number and stay below 64 |
| EventTable.SameBindingKeepsWellFormed | src/core/hle/service/nvdrv/devices/nvhost_ctrl.cpp:188-190 | rewriting one slot without changing its registration or kernel event keeps the table invariant, as long as an unregistered slot stays Available |
| EventTable.Released | src/core/hle/service/nvdrv/devices/nvhost_ctrl.cpp:349-351 | (definition) what FreeNvEvent leaves in a slot: kernel event null, Available, not registered, every other field kept |
| EventTable.CreateNvEvent | src/core/hle/service/nvdrv/devices/nvhost_ctrl.cpp:329-341 | the slot is registered, Available, with fails and syncpoint 0 and a fresh kernel event; its bit is set in the mask; no other slot changes; the handle counter advances by one; one CreateEvent call |
| EventTable.CreateNvEventKeepsWellFormed | src/core/hle/service/nvdrv/devices/nvhost_ctrl.cpp:329-341 | registering an unregistered slot keeps the table invariant |
| EventTable.FreeNvEvent | src/core/hle/service/nvdrv/devices/nvhost_ctrl.cpp:343-354 | only this slot changes: no kernel event, unregistered, Available; its bit is cleared; the slot's kernel event pointer is handed back, null included |
| EventTable.FreeNvEventKeepsWellFormed | src/core/hle/service/nvdrv/devices/nvhost_ctrl.cpp:343-354 | releasing a slot keeps the table invariant |
| EventTable.FreeEvent | src/core/hle/service/nvdrv/devices/nvhost_ctrl.cpp:203-220 | out of range gives BadParameter; unregistered gives Success; in flight gives Busy (all three leave the table unchanged with no calls); otherwise the slot is released with Success; only Success changes anything |
| EventTable.FreeEventKeepsWellFormed | src/core/hle/service/nvdrv/devices/nvhost_ctrl.cpp:203-220 | FreeEvent keeps the table invariant |
| EventTable.IocCtrlEventRegister | src/core/hle/service/nvdrv/devices/nvhost_ctrl.cpp:222-241 | out of range gives BadParameter; a registered in-flight slot gives Busy, unchanged; otherwise Success with the slot bound to a fresh kernel event, only that slot and its mask bit changed (its assigned value kept), the handle counter advanced by one, and the old pointer handed back first if the slot was registered |
| EventTable.RegisterKeepsWellFormed | src/core/hle/service/nvdrv/devices/nvhost_ctrl.cpp:222-241 | registering keeps the table invariant |
| EventTable.IocCtrlEventUnregister | src/core/hle/service/nvdrv/devices/nvhost_ctrl.cpp:243-252 | only the low 8 bits of the id are used: ids with low byte 64-255 give BadParameter, otherwise FreeEvent of the low byte |
| EventTable.UnregisterBatch | src/core/hle/service/nvdrv/devices/nvhost_ctrl.cpp:254-271 | the batch answers Success or Busy and keeps 64 slots |
| EventTable.UnregisterBatchKeepsWellFormed | src/core/hle/service/nvdrv/devices/nvhost_ctrl.cpp:254-271 | the batch keeps the table invariant |
| EventTable.FirstBusy | src/core/hle/service/nvdrv/devices/nvhost_ctrl.cpp:262-268 | the lowest bit of the mask whose slot would answer Busy, or 64 if none |
| EventTable.SameFirstBusy | src/core/hle/service/nvdrv/devices/nvhost_ctrl.cpp:262-268 | two tables and masks with the same busy bits meet the same first busy slot |
| EventTable.UnregisterBatchFreesPrefix | src/core/hle/service/nvdrv/devices/nvhost_ctrl.cpp:254-271 | the batch answers Busy iff the mask has a busy slot; it releases exactly the registered slots of the mask below the first busy one, leaves every other slot as it was, and clears exactly their mask bits |
| EventTable.LowestBeforeFirstBusy | src/core/hle/service/nvdrv/devices/nvhost_ctrl.cpp:262-268 | if the lowest slot of the mask is not busy, the first busy slot lies above it |
| EventTable.UnregisterBatchPrefixStep | src/core/hle/service/nvdrv/devices/nvhost_ctrl.cpp:262-268 | one loop pass: the prefix property of the rest of the batch gives it for the whole batch |
| EventTable.UnregisterBatchMaskStep | src/core/hle/service/nvdrv/devices/nvhost_ctrl.cpp:262-268 | one loop pass: if the rest of the batch clears exactly the mask bits of the registered slots it frees below the stop point, so does the whole batch |
| EventTable.UnregisterBatchFreesEachOnce | src/core/hle/service/nvdrv/devices/nvhost_ctrl.cpp:254-271 | every call of the batch is a FreeEvent; the kernel event of slot i is handed back exactly once if i is in the mask below the first busy slot, and never otherwise; no null pointer is handed back |
| EventTable.FirstBusyAfterFree | src/core/hle/service/nvdrv/devices/nvhost_ctrl.cpp:262-268 | after the first free of the batch succeeds, the rest of the batch meets the same first busy slot |
| EventTable.UnregisterBatchStepCount | src/core/hle/service/nvdrv/devices/nvhost_ctrl.cpp:262-268 | one loop pass of the exactly-once count: the count for the rest of the batch plus this free gives the count for the whole batch |
| EventTable.FreedSlotHandleGone | src/core/hle/service/nvdrv/devices/nvhost_ctrl.cpp:203-220 | a successful free of a slot makes the one call that hands its kernel event back, and no slot holds that event afterwards |
| EventTable.OtherHandleNotFreedNow | src/core/hle/service/nvdrv/devices/nvhost_ctrl.cpp:203-220 | freeing slot k leaves every other slot as it was and does not hand back its kernel event |
| EventTable.HandleNotFreed | src/core/hle/service/nvdrv/devices/nvhost_ctrl.cpp:254-271 | a kernel event held by no slot is never handed back by the batch |
| EventTable.FirstReusable | src/core/hle/service/nvdrv/devices/nvhost_ctrl.cpp:359-367 | the lowest idle slot bound to the syncpoint among the first n, or 64 |
| EventTable.FirstReusableStable | src/core/hle/service/nvdrv/devices/nvhost_ctrl.cpp:359-367 | once the scan has found a reusable slot, scanning further keeps it |
| EventTable.FirstUnregistered | src/core/hle/service/nvdrv/devices/nvhost_ctrl.cpp:368-370 | the lowest unregistered slot among the first n, or 64 |
| EventTable.LastIdle | src/core/hle/service/nvdrv/devices/nvhost_ctrl.cpp:362-363 | the highest idle slot among the first n, or 64 |
| EventTable.FindFreeNvEvent | src/core/hle/service/nvdrv/devices/nvhost_ctrl.cpp:356-383 | the slot handed out is in range, and at most one kernel event is created |
| EventTable.FindFreeNvEventPrefers | src/core/hle/service/nvdrv/devices/nvhost_ctrl.cpp:356-383 | preferences, in order: the lowest idle slot already bound to the syncpoint (nothing changes); else the lowest unregistered slot, which gets registered; else the highest idle slot; else, with every slot busy, slot 0, unchanged |
| EventTable.FindFreeNvEventKeepsWellFormed | src/core/hle/service/nvdrv/devices/nvhost_ctrl.cpp:356-383 | the allocation keeps the table invariant |
| EventTable.FindFreeNvEventGivesIdleSlot | src/core/hle/service/nvdrv/devices/nvhost_ctrl.cpp:356-383 | unless every slot is busy, the slot handed out is registered and not in flight afterwards |
| EventTable.IocCtrlClearEventWait | src/core/hle/service/nvdrv/devices/nvhost_ctrl.cpp:273-297 | the slot is read from bits 0-15; out of range gives BadParameter, unchanged; otherwise Success: the slot becomes Cancelled with fails one higher (mod 2^32), nothing else changes, a Waiting slot's interrupt is cancelled and its syncpoint refreshed, and the kernel event is cleared |
| EventTable.ClearKeepsWellFormed | src/core/hle/service/nvdrv/devices/nvhost_ctrl.cpp:273-297 | cancelling keeps the table invariant |
| EventTable.SignalNvEvent | src/core/hle/service/nvdrv/devices/nvhost_ctrl.cpp:385-400 | a signal changes neither the mask, the handle counter, nor any slot's registration or kernel event |
| EventTable.SignalTouchesOnlyMatches | src/core/hle/service/nvdrv/devices/nvhost_ctrl.cpp:385-400 | exactly the slots of the mask bound to (syncpoint, value) change, and they become Signalled |
| EventTable.SignalKeepsWellFormed | src/core/hle/service/nvdrv/devices/nvhost_ctrl.cpp:385-400 | signalling the registered slots keeps the table invariant |
| EventTable.SignalWakesExactlyWaiting | src/core/hle/service/nvdrv/devices/nvhost_ctrl.cpp:385-400 | every call is a Signal; a slot's kernel event is signalled exactly once if the slot is in the mask, matches and was Waiting, and never otherwise |
| EventTable.SignalStepCount | src/core/hle/service/nvdrv/devices/nvhost_ctrl.cpp:387-398 | one loop pass for a matching slot: its contribution plus the count for the rest of the mask gives the count for the whole mask |
| EventTable.ClearedWaitIsNotWoken | src/core/hle/service/nvdrv/devices/nvhost_ctrl.cpp:273-297 | after a ClearEventWait on a slot, no later signal wakes that slot's kernel event, whatever syncpoint and value it carries |
| EventTable.QueryEvent | src/core/hle/service/nvdrv/devices/nvhost_ctrl.cpp:299-323 | a kernel event is returned only for a slot in range that is registered and bound to the decoded syncpoint; on a well-formed table such a slot always has one |
| EventTable.ReleaseAll | src/core/hle/service/nvdrv/devices/nvhost_ctrl.cpp:29-36 | the destructor only hands kernel events back, at most one per slot |
| EventTable.ReleaseAllSkipsUnheld | src/core/hle/service/nvdrv/devices/nvhost_ctrl.cpp:29-36 | a kernel event no registered slot holds is not handed back |
| EventTable.ReleaseAllFreesEachOnce | src/core/hle/service/nvdrv/devices/nvhost_ctrl.cpp:29-36 | with distinct handles, the kernel event of each registered slot is handed back exactly once |
| EventTable.ReleaseAllSplit | src/core/hle/service/nvdrv/devices/nvhost_ctrl.cpp:30-35 | the count for a handle over all slots is the count over all but the last plus the last slot's share |
| EventTable.UnheldInFront | src/core/hle/service/nvdrv/devices/nvhost_ctrl.cpp:30-35 | with distinct handles, the last slot's kernel event is held by no earlier slot |
| EventTable.DistinctHandlesPrefix | src/core/hle/service/nvdrv/devices/nvhost_ctrl.cpp:30-35 | a prefix of a table with distinct handles has distinct handles |
| EventWait.ResolveSlot | src/core/hle/service/nvdrv/devices/nvhost_ctrl.cpp:137-144 | allocation mode gives a slot in range and creates only kernel events; fixed mode takes the caller's value and changes nothing |
| EventWait.ArmSlot | src/core/hle/service/nvdrv/devices/nvhost_ctrl.cpp:186-200 | arming answers Timeout; only the slot changes, to Waiting on (syncpoint, target); the value names slot and syncpoint; exactly one interrupt is registered after the refresh and the allocation |
| EventWait.SlotOutcome | src/core/hle/service/nvdrv/devices/nvhost_ctrl.cpp:148-201 | the slot stage keeps 64 slots, and on the path that arms it is ArmSlot |
| EventWait.Fallback | src/core/hle/service/nvdrv/devices/nvhost_ctrl.cpp:150-154 | (definition) the calls of check_failing's fallback, in order: stall the processes, wait for the fence, unstall |
| EventWait.Armed | src/core/hle/service/nvdrv/devices/nvhost_ctrl.cpp:188-190 | (definition) an armed slot: Waiting, bound to the fence's syncpoint and target, every other field kept |
| EventWait.SlotOutOfRange | src/core/hle/service/nvdrv/devices/nvhost_ctrl.cpp:161-163 | a slot outside the table gives BadParameter, changes nothing, and hands back the value as it stood (0 in allocation mode, the caller's value in fixed mode) |
| EventWait.SlotPolled | src/core/hle/service/nvdrv/devices/nvhost_ctrl.cpp:165-170 | a poll (timeout 0) changes no slot; after more than two fails it waits synchronously with the processes stalled and answers Success with the target; otherwise Timeout with the value as it stood |
| EventWait.SlotNotIdle | src/core/hle/service/nvdrv/devices/nvhost_ctrl.cpp:172-180 | an unregistered or in-flight slot gives BadParameter, changes nothing and hands back the value as it stood: a slot is never armed twice |
| EventWait.SlotFallsBack | src/core/hle/service/nvdrv/devices/nvhost_ctrl.cpp:182-184 | an idle slot with more than two fails is not armed: the wait is synchronous with processes stalled, and answers Success with the target value |
| EventWait.SlotOutcomeWithoutArming | src/core/hle/service/nvdrv/devices/nvhost_ctrl.cpp:161-184 | every return of the slot stage that does not arm leaves the table as it was and registers no interrupt |
| EventWait.SlotOutcomeKeepsWellFormed | src/core/hle/service/nvdrv/devices/nvhost_ctrl.cpp:148-201 | the slot stage keeps the table invariant |
| EventWait.WaitBody | src/core/hle/service/nvdrv/devices/nvhost_ctrl.cpp:110-201 | syncpoint id out of range gives BadParameter; fence value 0 or already expired gives Success with the minimum; expired after the refresh gives Success with the refreshed value (all without touching the table); otherwise the slot stage on the resolved slot |
| EventWait.ExhaustedAllocationDoesNotArm | src/core/hle/service/nvdrv/devices/nvhost_ctrl.cpp:381-382 | with every slot in flight, an allocation-mode wait never arms a slot, and with a timeout it answers BadParameter |
| EventWait.OnlyArmingRegisters | src/core/hle/service/nvdrv/devices/nvhost_ctrl.cpp:110-201 | a wait that does not arm registers no syncpoint interrupt |
| EventWait.ArmingRegistersOnce | src/core/hle/service/nvdrv/devices/nvhost_ctrl.cpp:186-200 | a wait that arms registers the interrupt for its fence exactly once |
| EventWait.ExitReset | src/core/hle/service/nvdrv/devices/nvhost_ctrl.cpp:101-108 | the corrected scope exit names only slots below 64, and agrees with the source whenever the source's index is in range |
| EventWait.ExitResetAsWritten | src/core/hle/service/nvdrv/devices/nvhost_ctrl.cpp:101-108 | (definition, the as-written half of the finding below) the slot whose fails the source's scope exit zeroes: the caller's raw value whenever must_unmark_fail holds, unchecked |
| EventWait.ExitResetPastEnd | src/core/hle/service/nvdrv/devices/nvhost_ctrl.cpp:101-108 | a fixed-mode wait for slot value 64 is refused with BadParameter, yet the source's scope exit writes events[64]; the corrected one writes nothing |
| EventWait.ClearFails | src/core/hle/service/nvdrv/devices/nvhost_ctrl.cpp:105-107 | only the chosen slot's fails becomes 0; the mask and every other field are unchanged |
| EventWait.IocCtrlEventWait | src/core/hle/service/nvdrv/devices/nvhost_ctrl.cpp:94-201 | the body's result and calls; the params come back with the body's value; when must_unmark_fail holds, the caller's slot ends with fails 0 (in fixed mode on every return) for a caller value below 64; above it the corrected exit of the finding below applies and no slot is written; otherwise the body's table |
| EventWait.ClearFailsKeepsWellFormed | src/core/hle/service/nvdrv/devices/nvhost_ctrl.cpp:105-107 | zeroing fails keeps the table invariant |
| EventWait.WaitBodyKeepsWellFormed | src/core/hle/service/nvdrv/devices/nvhost_ctrl.cpp:110-201 | the body of a wait keeps the table invariant |
| EventWait.WaitKeepsWellFormed | src/core/hle/service/nvdrv/devices/nvhost_ctrl.cpp:94-201 | a whole wait keeps the table invariant |
| EventWait.EarlyExitClears | src/core/hle/service/nvdrv/devices/nvhost_ctrl.cpp:101-130 | before the slot stage, the scope exit zeroes fails of the caller's slot in fixed mode and of no slot in allocation mode |
| EventWait.FastPathTouchesNoSlot | src/core/hle/service/nvdrv/devices/nvhost_ctrl.cpp:110-130 | a wait with fence value 0 or an expired syncpoint answers Success, makes at most a refresh call, and changes no slot except, in fixed mode, zeroing fails of the caller's slot |
| EventWait.AllocatedArmResult | src/core/hle/service/nvdrv/devices/nvhost_ctrl.cpp:137-200 | an allocation-mode wait that arms hands back the encoded value of its slot, which ends registered and bound to the fence's syncpoint on a well-formed table |
| EventWait.AllocatedArmIsQueryable | src/core/hle/service/nvdrv/devices/nvhost_ctrl.cpp:299-323 | when the armed slot is below 16, QueryEvent on the value handed back returns that slot's kernel event |
| EventWait.AllocatedArmAliases | src/core/hle/service/nvdrv/devices/nvhost_ctrl.cpp:299-313 | from slot 16 on, the value handed back decodes to the slot modulo 16 |
| Ioctl.Route | src/core/hle/service/nvdrv/devices/nvhost_ctrl.cpp:38-64 | a handler is found iff the group is 0 and the command is 0x1b-0x21 |
| Ioctl.RouteInjective | src/core/hle/service/nvdrv/devices/nvhost_ctrl.cpp:40-57 | each handler is reached by exactly one command |
| Ioctl.Handle | src/core/hle/service/nvdrv/devices/nvhost_ctrl.cpp:40-64 | (definition) each handler on the table: GetConfigU32 answers ConfigVarNotFound without effect, the other handlers are the EventTable and EventWait functions on the fields they read, an unknown command answers NotImplemented; its properties are stated by HandleKeepsWellFormed, Ioctl1WithoutEffect and Ioctl1Output |
| Ioctl.Ioctl1 | src/core/hle/service/nvdrv/devices/nvhost_ctrl.cpp:38-65 | (definition) Ioctl1 on the table: the handler Route picks, run on the input; the specification the class's Ioctl1 is proved against |
| Ioctl.HandleKeepsWellFormed | src/core/hle/service/nvdrv/devices/nvhost_ctrl.cpp:40-64 | every handler keeps the table invariant |
| Ioctl.Ioctl1WithoutEffect | src/core/hle/service/nvdrv/devices/nvhost_ctrl.cpp:86-92 | NvOsGetConfigU32 answers ConfigVarNotFound and an unknown command NotImplemented; neither changes the table, makes a call or writes output |
| Ioctl.Ioctl1Output | src/core/hle/service/nvdrv/devices/nvhost_ctrl.cpp:47-50 | only the two wait commands (0x1d, 0x1e) write params back |
| Ioctl.Ioctl1KeepsWellFormed | src/core/hle/service/nvdrv/devices/nvhost_ctrl.cpp:38-65 | every ioctl keeps the table invariant |
| Device.NvHostCtrl.constructor | src/core/hle/service/nvdrv/devices/nvhost_ctrl.cpp:24-27 | a new device holds the initial table, satisfies the class invariant and has made no call |
| Device.NvHostCtrl.Destroy | src/core/hle/service/nvdrv/devices/nvhost_ctrl.cpp:29-36 | the loop hands back the kernel event of each registered slot, in slot order, and changes no slot |
| Device.NvHostCtrl.CreateNvEvent | src/core/hle/service/nvdrv/devices/nvhost_ctrl.cpp:329-341 | the array, mask and trace end as EventTable.CreateNvEvent computes |
| Device.NvHostCtrl.FreeNvEvent | src/core/hle/service/nvdrv/devices/nvhost_ctrl.cpp:343-354 | the array, mask and trace end as EventTable.FreeNvEvent computes |
| Device.NvHostCtrl.FreeEvent | src/core/hle/service/nvdrv/devices/nvhost_ctrl.cpp:203-220 | result, array, mask and trace as EventTable.FreeEvent computes |
| Device.NvHostCtrl.IocCtrlEventRegister | src/core/hle/service/nvdrv/devices/nvhost_ctrl.cpp:222-241 | result, array, mask and trace as EventTable.IocCtrlEventRegister computes |
| Device.NvHostCtrl.IocCtrlEventUnregister | src/core/hle/service/nvdrv/devices/nvhost_ctrl.cpp:243-252 | result, array, mask and trace as EventTable.IocCtrlEventUnregister computes |
| Device.NvHostCtrl.FreeLowest | src/core/hle/service/nvdrv/devices/nvhost_ctrl.cpp:262-268 | one pass of the batch loop clears the lowest bit; on failure the batch ends here, otherwise the batch from the old state equals the rest of the batch from the new one |
| Device.NvHostCtrl.IocCtrlEventUnregisterBatch | src/core/hle/service/nvdrv/devices/nvhost_ctrl.cpp:254-271 | the loop reaches the result, array, mask and trace EventTable.UnregisterBatch computes |
| Device.NvHostCtrl.IocCtrlClearEventWait | src/core/hle/service/nvdrv/devices/nvhost_ctrl.cpp:273-297 | result, array, mask and trace as EventTable.IocCtrlClearEventWait computes |
| Device.NvHostCtrl.QueryEvent | src/core/hle/service/nvdrv/devices/nvhost_ctrl.cpp:299-323 | returns what EventTable.QueryEvent computes on the current state |
| Device.NvHostCtrl.FindFreeNvEvent | src/core/hle/service/nvdrv/devices/nvhost_ctrl.cpp:356-383 | the single scan with an early return picks the slot EventTable.FindFreeNvEvent's preferences pick, and leaves array, mask and trace as it computes |
| Device.NvHostCtrl.CheckFailing | src/core/hle/service/nvdrv/devices/nvhost_ctrl.cpp:148-159 | reports whether the slot failed more than twice, changes no slot, and makes the stall, wait and unstall calls exactly when it does |
| Device.NvHostCtrl.WaitValue | src/core/hle/service/nvdrv/devices/nvhost_ctrl.cpp:186-197 | the field-by-field build of the value equals the encoding the rest of the model decodes |
| Device.NvHostCtrl.ArmEvent | src/core/hle/service/nvdrv/devices/nvhost_ctrl.cpp:186-200 | value and new state as EventWait.ArmSlot computes, with one interrupt registered |
| Device.NvHostCtrl.WaitOnSlot | src/core/hle/service/nvdrv/devices/nvhost_ctrl.cpp:161-201 | result, value, state and trace as EventWait.SlotOutcome computes |
| Device.NvHostCtrl.WaitOnEvent | src/core/hle/service/nvdrv/devices/nvhost_ctrl.cpp:172-201 | result, value, state and trace as EventWait.SlotOutcome computes, for a slot in range with a timeout |
| Device.NvHostCtrl.ServeWait | src/core/hle/service/nvdrv/devices/nvhost_ctrl.cpp:110-201 | result, value, state and trace as EventWait.WaitBody computes, and must_unmark_fail as it is when the scope exit runs |
| Device.NvHostCtrl.IocCtrlEventWait | src/core/hle/service/nvdrv/devices/nvhost_ctrl.cpp:94-201 | result, params, state and trace as EventWait.IocCtrlEventWait computes, the scope exit included: for a caller value below 64 it zeroes that slot's fails when must_unmark_fail holds; at 64 and above the corrected exit writes nothing |
| Device.NvHostCtrl.Ioctl1 | src/core/hle/service/nvdrv/devices/nvhost_ctrl.cpp:38-65 | result, output, state and trace as Ioctl.Ioctl1 computes, and the class invariant is kept |
| Device.NvHostCtrl.Dispatch | src/core/hle/service/nvdrv/devices/nvhost_ctrl.cpp:40-64 | the switch on the command: result, output, state and trace as Ioctl.Handle computes for the routed handler |
| Device.NvHostCtrl.SignalLowest | src/core/hle/service/nvdrv/devices/nvhost_ctrl.cpp:387-398 | one pass of the signal loop clears the lowest bit; the signal from the old state equals the rest of the signal from the new one |
| Device.NvHostCtrl.SignalNvEvent | src/core/hle/service/nvdrv/devices/nvhost_ctrl.cpp:385-400 | the loop over events_mask reaches the state and trace EventTable.SignalNvEvent computes, and the class invariant is kept |

## Left out

- Locks and atomics: `events_mutex` and the atomic `status` exchanges are not
  modelled. Each operation runs as one atomic step. The intermediate states
  Cancelling and Signalling, which only exist between an exchange and the store
  that follows it, never show in the model. A signal racing a cancel is not modelled.
- `Ioctl2`, `Ioctl3` (always NotImplemented), `OnOpen`/`OnClose` (registration with
  the events interface) and all logging are left out, because they do not touch
  the slots.
- The unpacking of input buffers with `memcpy` is left out. `Ioctl.Input` holds the
  fields each handler reads.
- The syncpoint manager's answers during a wait are a parameter (`SyncpointView`).
  The GetSyncpointMin and IsSyncpointExpired calls are not in the trace; only the
  RefreshSyncpoint call is.
- `WaitFence` blocks in the source. In the model it is one entry in the trace, and
  the target counts as reached once it returns.
- `nvhost_ctrl.h` is not part of this model. It declares `IsBeingUsed`,
  `MaxNvEvents`, the layout of `SyncpointEventValue` and the params structs, and the
  `EventState` enum, whose zero value the model takes to be `Available` (the
  state of a default slot, `NvTypes.InitialEvent`). The model fixes them as
  stated above; `MaxSyncPoints` is 192.
- EventTable.SignalNvEvent: a matching Waiting slot with a null kernel event pointer
  is marked Signalled but adds no SignalKEvent call, where the source would
  dereference the null pointer. Under the table invariant every slot in the mask
  holds a pointer, so the case does not arise.
- EventTable.IocCtrlClearEventWait: its precondition (`ClearDefined`) excludes a
  clear on a slot without a kernel event. The source dereferences a null pointer
  there, which has no defined result.
- The source's `ASSERT`s in CreateNvEvent, FreeNvEvent and QueryEvent are not
  preconditions. The model does what the code does when execution continues
  past them. FreeNvEvent and the destructor hand the slot's kernel event pointer back
  even when it is null (`FreeKEvent(None)` in the trace). CreateNvEvent
  overwrites whatever kernel event the slot held. QueryEvent returns the slot's
  pointer, null included.
- EventTable.UnregisterBatch: its own contract says only that the result is
  Success or Busy. What it frees is stated by UnregisterBatchFreesPrefix and
  UnregisterBatchFreesEachOnce.
- EventTable.UnregisterBatchFreesPrefix: it states which slots are released and
  the resulting mask, and UnregisterBatchFreesEachOnce states which kernel events
  are handed back; that they are handed back in ascending slot order is not stated
  as a lemma (it follows from the lowest-first recursion of UnregisterBatch).
- EventTable.SignalNvEvent: its own contract states only what a signal preserves.
  Which slots change, and which kernel events are woken, is stated by
  SignalTouchesOnlyMatches and SignalWakesExactlyWaiting.
- The model follows the code in these places:
  - In fixed mode the scope exit zeroes `fails` on every return, Timeout after
    arming included, not only on success.
  - The value layout is that of the bit fields the code reads and writes.
  - The all-busy allocation returns slot 0. The wait never arms it: with a
    non-zero timeout it answers BadParameter, with timeout 0 it polls slot 0.

## Findings

| source | as written | input that shows it | evidently intended | confidence | as-written member | corrected member |
|---|---|---|---|---|---|---|
| src/core/hle/service/nvdrv/devices/nvhost_ctrl.cpp:101-108 | the scope exit of IocCtrlEventWait zeroes `events[event_id].fails`, where `event_id` is the caller's raw input value, without a bound check; the body refuses values of 64 and above at line 161, but the scope exit still runs | fixed-mode wait with fence (id 0, value 1), timeout 1, input value 64, syncpoint view not expired: the result is BadParameter and the exit writes `events[64]`, one past the 64-entry array | zero `fails` only for a slot inside the table | not executed | EventWait.ExitResetAsWritten, EventWait.ExitResetPastEnd | EventWait.ExitReset |
