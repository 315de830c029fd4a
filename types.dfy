/** Vocabulary shared by the model of the nvhost_ctrl device: integer widths,
    result codes, the per-slot event record, the slot table and the calls the
    device makes into its collaborators (the events interface, the GPU, the
    syncpoint manager and the process scheduler). */
module NvTypes {

  /** Number of event slots: `events_mask` is a u64 indexed by `1ULL << slot`. */
  const MaxNvEvents: nat := 64
  /** Number of hardware syncpoints (a constant of the nvdrv headers). */
  const MaxSyncPoints: nat := 192

  type u8 = x: int | 0 <= x < 0x100
  type u32 = x: int | 0 <= x < 0x1_0000_0000
  type i32 = x: int | -0x8000_0000 <= x < 0x8000_0000

  /** `x++` on a u32: wraps around to 0 after 0xFFFF_FFFF. */
  function Increment(x: u32): (r: u32)
    ensures x < 0xFFFF_FFFF ==> r == x + 1
    ensures x == 0xFFFF_FFFF ==> r == 0
  {
    (x + 1) % 0x1_0000_0000
  }

  datatype Option<T> = None | Some(value: T)

  /** The result codes the device returns to the guest. */
  datatype NvResult = Success | BadParameter | Busy | Timeout | NotImplemented | ConfigVarNotFound

  /** The life cycle of one event slot; the atomic `status` of a slot. */
  datatype EventState = Available | Waiting | Cancelling | Cancelled | Signalling | Signalled

  /** A kernel event created by the events interface, identified by the number
      the interface handed out when it created it. */
  datatype KEvent = KEvent(id: nat)

  /** One entry of the `events` array. */
  datatype NvEvent = NvEvent(
    kevent: Option<KEvent>,
    status: EventState,
    registered: bool,
    fails: u32,
    assignedSyncpt: u32,
    assignedValue: u32)

  /** A slot is in flight while a wait, a cancellation or a signal is under way. */
  predicate IsBeingUsed(e: NvEvent) {
    e.status == Waiting || e.status == Cancelling || e.status == Signalling
  }

  /** A u64 bitmask, represented by the set of the positions of its one bits. */
  type Mask = m: set<nat> | forall i :: i in m ==> i < MaxNvEvents

  /** The device state the model tracks: the slot array, `events_mask`, and the
      number the events interface hands to the next kernel event it creates. */
  datatype Table = Table(events: seq<NvEvent>, mask: Mask, nextKEvent: nat)

  /** Side-effecting calls into collaborators, in the order the device makes them. */
  datatype Call =
    | CreateKEvent(slot: nat, handle: KEvent)                // events_interface.CreateEvent
    | FreeKEvent(freed: Option<KEvent>)                      // events_interface.FreeEvent (None: a null pointer)
    | SignalKEvent(handle: KEvent)                           // kevent writable event Signal
    | ClearKEvent(handle: KEvent)                            // kevent writable event Clear
    | RegisterSyncptInterrupt(syncpt: u32, value: u32)       // GPU
    | CancelSyncptInterrupt(syncpt: u32, value: u32)         // GPU
    | WaitFence(syncpt: u32, value: u32)                     // GPU, blocking
    | RefreshSyncpoint(syncpt: u32)                          // syncpoint manager
    | StallProcesses                                         // system
    | UnstallProcesses                                       // system

  predicate Sized(t: Table) {
    |t.events| == MaxNvEvents
  }

  /** No two slots hold the same kernel event. */
  predicate DistinctHandles(es: seq<NvEvent>) {
    forall i, j :: 0 <= i < |es| && 0 <= j < |es| && i != j && es[i].kevent.Some? && es[j].kevent.Some? ==>
      es[i].kevent != es[j].kevent
  }

  /** The table invariant: bit i of the mask is set iff slot i is registered iff
      slot i holds a kernel event; an unregistered slot is Available; every held
      kernel event was handed out before and none is held twice. */
  predicate WellFormed(t: Table) {
    && Sized(t)
    && (forall i :: 0 <= i < MaxNvEvents ==> (i in t.mask <==> t.events[i].registered))
    && (forall i :: 0 <= i < MaxNvEvents ==> (t.events[i].registered <==> t.events[i].kevent.Some?))
    && (forall i :: 0 <= i < MaxNvEvents && !t.events[i].registered ==> t.events[i].status == Available)
    && (forall i :: 0 <= i < MaxNvEvents && t.events[i].kevent.Some? ==> t.events[i].kevent.value.id < t.nextKEvent)
    && DistinctHandles(t.events)
  }

  /** A default-initialised slot. */
  const InitialEvent: NvEvent := NvEvent(None, Available, false, 0, 0, 0)

  /** The table of a freshly constructed device: no slot registered. */
  function InitialTable(): (t: Table)
    ensures WellFormed(t)
    ensures t.mask == {}
    ensures forall i :: 0 <= i < MaxNvEvents ==> !t.events[i].registered
  {
    Table(seq(MaxNvEvents, _ => InitialEvent), {}, 0)
  }

  /** `std::countr_zero` of a non-zero mask: the position of its lowest one bit. */
  function Lowest(m: Mask): (k: nat)
    requires m != {}
    ensures k in m && k < MaxNvEvents
    ensures forall j :: j in m ==> k <= j
  {
    LowestFrom(m, 0)
  }

  function LowestFrom(m: Mask, i: nat): (k: nat)
    requires m != {}
    requires forall j :: j in m ==> i <= j
    ensures k in m
    ensures forall j :: j in m ==> k <= j
    decreases MaxNvEvents - i
  {
    if i in m then i
    else
      assert i < MaxNvEvents by {
        var x :| x in m;
      }
      LowestFrom(m, i + 1)
  }
}
