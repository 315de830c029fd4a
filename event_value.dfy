/** The 32-bit `SyncpointEventValue` union through which EventWait returns a
    handle to an armed slot and QueryEvent reads it back. Its declaration is in
    nvhost_ctrl.h, which is not part of this model; the layout assumed here
    for its bit fields is:
      partial_slot                 bits 0-3    (u32 view)
      syncpoint_id                 bits 4-31   (u32 view)
      slot                         bits 0-15   (u16 view)
      syncpoint_id_for_allocation  bits 16-27  (bits 0-11 of the upper u16)
      event_allocated              bit  28     (bit 12 of the upper u16) */
module SyncpointEventValue {

  function PartialSlot(raw: bv32): bv32 { raw & 0xF }
  function SyncpointId(raw: bv32): bv32 { raw >> 4 }
  function Slot(raw: bv32): bv32 { raw & 0xFFFF }
  function SyncpointIdForAllocation(raw: bv32): bv32 { (raw >> 16) & 0xFFF }
  function EventAllocated(raw: bv32): bv32 { (raw >> 28) & 1 }

  /** `syncpoint_id.Assign(v)`: writes the low 28 bits of v into bits 4-31. */
  function AssignSyncpointId(raw: bv32, v: bv32): (r: bv32)
    ensures SyncpointId(r) == v & 0xFFF_FFFF
    ensures PartialSlot(r) == PartialSlot(raw)
  {
    (raw & 0xF) | ((v & 0xFFF_FFFF) << 4)
  }

  /** `syncpoint_id_for_allocation.Assign(v)`: writes the low 12 bits of v into bits 16-27. */
  function AssignSyncpointIdForAllocation(raw: bv32, v: bv32): (r: bv32)
    ensures SyncpointIdForAllocation(r) == v & 0xFFF
    ensures Slot(r) == Slot(raw) && EventAllocated(r) == EventAllocated(raw)
    ensures r & 0xE000_0000 == raw & 0xE000_0000
  {
    (raw & 0xF000_FFFF) | ((v & 0xFFF) << 16)
  }

  /** `event_allocated.Assign(v)`: writes the low bit of v into bit 28. */
  function AssignEventAllocated(raw: bv32, v: bv32): (r: bv32)
    ensures EventAllocated(r) == v & 1
    ensures Slot(r) == Slot(raw) && SyncpointIdForAllocation(r) == SyncpointIdForAllocation(raw)
    ensures r & 0xE000_0000 == raw & 0xE000_0000
  {
    (raw & 0xEFFF_FFFF) | ((v & 1) << 28)
  }

  /** The value an armed wait hands back: starting from 0, the syncpoint id goes
      into the allocation field (after a cast to u16) together with the
      allocated flag, or into `syncpoint_id`; then the slot is OR-ed in. */
  function EncodeWaitValue(isAllocation: bool, fenceId: bv32, slot: bv32): bv32 {
    var fields :=
      if isAllocation then AssignEventAllocated(AssignSyncpointIdForAllocation(0, fenceId & 0xFFFF), 1)
      else AssignSyncpointId(0, fenceId);
    fields | slot
  }

  /** QueryEvent's reading of a value: which view it takes depends on the allocated flag. */
  predicate IsAllocated(raw: bv32) { EventAllocated(raw) != 0 }

  function DecodeSlot(raw: bv32): bv32 {
    if IsAllocated(raw) then PartialSlot(raw) else Slot(raw)
  }

  function DecodeSyncpoint(raw: bv32): bv32 {
    if IsAllocated(raw) then SyncpointIdForAllocation(raw) else SyncpointId(raw)
  }

  /** In allocation mode the round trip recovers (slot, syncpoint) for the first 16 slots. */
  lemma AllocatedRoundTrip(fenceId: bv32, slot: bv32)
    requires fenceId < 192 && slot < 16
    ensures IsAllocated(EncodeWaitValue(true, fenceId, slot))
    ensures DecodeSlot(EncodeWaitValue(true, fenceId, slot)) == slot
    ensures DecodeSyncpoint(EncodeWaitValue(true, fenceId, slot)) == fenceId
  {
  }

  /** For slots 16-63 the allocation-mode value decodes to the slot number modulo
      16: partial_slot keeps 4 bits while the slot was OR-ed in with 6. */
  lemma AllocatedSlotAliased(fenceId: bv32, slot: bv32)
    requires fenceId < 192 && 16 <= slot < 64
    ensures IsAllocated(EncodeWaitValue(true, fenceId, slot))
    ensures DecodeSlot(EncodeWaitValue(true, fenceId, slot)) == slot & 0xF
    ensures DecodeSlot(EncodeWaitValue(true, fenceId, slot)) != slot
    ensures DecodeSyncpoint(EncodeWaitValue(true, fenceId, slot)) == fenceId
  {
  }

  /** In fixed mode the slot field overlaps the syncpoint field: the value decodes
      to slot (fenceId << 4) | slot and to syncpoint fenceId | (slot >> 4). */
  lemma FixedDecode(fenceId: bv32, slot: bv32)
    requires fenceId < 192 && slot < 64
    ensures !IsAllocated(EncodeWaitValue(false, fenceId, slot))
    ensures DecodeSlot(EncodeWaitValue(false, fenceId, slot)) == (fenceId << 4) | slot
    ensures DecodeSyncpoint(EncodeWaitValue(false, fenceId, slot)) == fenceId | (slot >> 4)
  {
    FixedBits(fenceId, slot);
    FixedFlagClear(fenceId, slot);
    FixedSlotView(fenceId, slot);
    FixedSyncpointView(fenceId, slot);
  }

  /** The fixed-mode value is the syncpoint shifted past the partial slot, OR the slot. */
  lemma FixedBits(fenceId: bv32, slot: bv32)
    requires fenceId < 192 && slot < 64
    ensures EncodeWaitValue(false, fenceId, slot) == (fenceId << 4) | slot
  {
  }

  lemma FixedFlagClear(fenceId: bv32, slot: bv32)
    requires fenceId < 192 && slot < 64
    ensures EventAllocated((fenceId << 4) | slot) == 0
  {
  }

  lemma FixedSlotView(fenceId: bv32, slot: bv32)
    requires fenceId < 192 && slot < 64
    ensures Slot((fenceId << 4) | slot) == (fenceId << 4) | slot
  {
  }

  lemma FixedSyncpointView(fenceId: bv32, slot: bv32)
    requires fenceId < 192 && slot < 64
    ensures SyncpointId((fenceId << 4) | slot) == fenceId | (slot >> 4)
  {
  }

  /** Hence the fixed-mode round trip holds exactly when the syncpoint id equals
      the slot's bits 4 and 5 (for instance syncpoint 0 with a slot below 16). */
  lemma FixedRoundTrip(fenceId: bv32, slot: bv32)
    requires fenceId < 192 && slot < 64
    ensures (DecodeSlot(EncodeWaitValue(false, fenceId, slot)) == slot &&
             DecodeSyncpoint(EncodeWaitValue(false, fenceId, slot)) == fenceId)
            <==> fenceId == slot >> 4
  {
    FixedDecode(fenceId, slot);
    OverlapIff(fenceId, slot);
  }

  /** A slot number (below 64) as the 32 bits OR-ed into a value, built by
      counting up so that the model never converts a number into bits. */
  function SlotBits(slot: nat): bv32
    requires slot < 64
  {
    if slot == 0 then 0 else SlotBits(slot - 1) + 1
  }

  /** Reading the bits of a slot back as a number gives the slot. */
  lemma {:induction false} SlotBitsValue(slot: nat)
    requires slot < 64
    ensures SlotBits(slot) as int == slot
    ensures SlotBits(slot) < 64
  {
    if slot > 0 {
      SlotBitsValue(slot - 1);
      SmallSuccessor(SlotBits(slot - 1));
    }
  }

  lemma SmallSuccessor(b: bv32)
    requires b < 63
    ensures (b + 1) as int == b as int + 1
    ensures b + 1 < 64
  {
  }

  /** The low four bits of a slot's bits, as a number: the slot modulo 16. */
  lemma LowNibble(b: bv32)
    requires b < 64
    ensures (b & 0xF) as int == (b as int) % 16
  {
  }

  lemma OverlapIff(f: bv32, s: bv32)
    requires f < 192 && s < 64
    ensures ((f << 4) | s == s && f | (s >> 4) == f) <==> f == s >> 4
  {
  }
}
