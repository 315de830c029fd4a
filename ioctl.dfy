/** Ioctl1: the command number selects one of the device's handlers; the
    input buffer is read the way the chosen handler reads it. */
module Ioctl {
  import opened NvTypes
  import EventTable
  import EventWait

  /** The group and command bytes of an ioctl number. */
  datatype Command = Command(group: u8, cmd: u8)

  /** The handlers Ioctl1 dispatches to. */
  datatype Handler =
    | GetConfigU32
    | ClearEventWait
    | Wait(isAllocation: bool)
    | Register
    | Unregister
    | UnregisterBatch
    | Unimplemented

  /** The dispatch table of Ioctl1: group 0, commands 0x1b to 0x21. */
  function Route(c: Command): (h: Handler)
    ensures h != Unimplemented <==> c.group == 0 && 0x1b <= c.cmd <= 0x21
  {
    if c.group != 0 then Unimplemented
    else if c.cmd == 0x1b then GetConfigU32
    else if c.cmd == 0x1c then ClearEventWait
    else if c.cmd == 0x1d then Wait(true)
    else if c.cmd == 0x1e then Wait(false)
    else if c.cmd == 0x1f then Register
    else if c.cmd == 0x20 then Unregister
    else if c.cmd == 0x21 then UnregisterBatch
    else Unimplemented
  }

  /** Every handler is reached by exactly one command. */
  lemma RouteInjective(c1: Command, c2: Command)
    requires Route(c1) == Route(c2) != Unimplemented
    ensures c1 == c2
  {
  }

  /** The input buffer as the handlers read it: the u32 at offset 0 (the
      user_event_id of a register or unregister, the SyncpointEventValue of a
      clear), the u64 at offset 0 as a set of bits (UnregisterBatch), and the
      wait params. */
  datatype Input = Input(word: bv32, userEvents: Mask, wait: EventWait.WaitParams)

  /** What an ioctl returns: the result, the params a wait copies back (the
      other handlers write no output), the new table and the calls made. */
  datatype Reply = Reply(result: NvResult, output: Option<EventWait.WaitParams>, table: Table, calls: seq<Call>)

  function FromOutcome(o: EventTable.Outcome): Reply {
    Reply(o.result, None, o.table, o.calls)
  }

  /** A clear is only defined on a slot that holds a kernel event. */
  predicate Defined(t: Table, h: Handler, input: Input) {
    Sized(t) && (h == ClearEventWait ==> EventTable.ClearDefined(t, input.word))
  }

  predicate Dispatchable(t: Table, c: Command, input: Input) {
    Defined(t, Route(c), input)
  }

  /** The handler h run on the input; `sp` answers the syncpoint manager's
      questions in a wait. */
  function Handle(t: Table, h: Handler, input: Input, sp: EventWait.SyncpointView): Reply
    requires Defined(t, h, input)
  {
    match h
    case GetConfigU32 => Reply(ConfigVarNotFound, None, t, [])
    case ClearEventWait => FromOutcome(EventTable.IocCtrlClearEventWait(t, input.word))
    case Wait(isAllocation) =>
      var o := EventWait.IocCtrlEventWait(t, isAllocation, input.wait, sp);
      Reply(o.result, Some(o.params), o.table, o.calls)
    case Register => FromOutcome(EventTable.IocCtrlEventRegister(t, input.word as int))
    case Unregister => FromOutcome(EventTable.IocCtrlEventUnregister(t, input.word as int))
    case UnregisterBatch => FromOutcome(EventTable.UnregisterBatch(t, input.userEvents))
    case Unimplemented => Reply(NotImplemented, None, t, [])
  }

  /** Ioctl1 as a function of the table. */
  function Ioctl1(t: Table, c: Command, input: Input, sp: EventWait.SyncpointView): Reply
    requires Dispatchable(t, c, input)
  {
    Handle(t, Route(c), input, sp)
  }

  /** Every handler keeps the table invariant. */
  lemma HandleKeepsWellFormed(t: Table, h: Handler, input: Input, sp: EventWait.SyncpointView)
    requires WellFormed(t) && Defined(t, h, input)
    ensures WellFormed(Handle(t, h, input, sp).table)
  {
    match h
    case GetConfigU32 =>
    case ClearEventWait => EventTable.ClearKeepsWellFormed(t, input.word);
    case Wait(isAllocation) => EventWait.WaitKeepsWellFormed(t, isAllocation, input.wait, sp);
    case Register => EventTable.RegisterKeepsWellFormed(t, input.word as int);
    case Unregister => EventTable.FreeEventKeepsWellFormed(t, (input.word as int) % 0x100);
    case UnregisterBatch => EventTable.UnregisterBatchKeepsWellFormed(t, input.userEvents);
    case Unimplemented =>
  }

  /** NvOsGetConfigU32 answers ConfigVarNotFound, and a command outside the
      table answers NotImplemented; neither touches the device. */
  lemma Ioctl1WithoutEffect(t: Table, c: Command, input: Input, sp: EventWait.SyncpointView)
    requires Dispatchable(t, c, input) && (Route(c) == GetConfigU32 || Route(c) == Unimplemented)
    ensures var o := Ioctl1(t, c, input, sp);
      && o.table == t && o.calls == [] && o.output == None
      && o.result == (if c.group == 0 && c.cmd == 0x1b then ConfigVarNotFound else NotImplemented)
  {
  }

  /** Only a wait writes params back to the output buffer. */
  lemma Ioctl1Output(t: Table, c: Command, input: Input, sp: EventWait.SyncpointView)
    requires Dispatchable(t, c, input)
    ensures Ioctl1(t, c, input, sp).output.Some? <==> c.group == 0 && (c.cmd == 0x1d || c.cmd == 0x1e)
  {
  }

  /** Every ioctl keeps the table invariant. */
  lemma Ioctl1KeepsWellFormed(t: Table, c: Command, input: Input, sp: EventWait.SyncpointView)
    requires WellFormed(t) && Dispatchable(t, c, input)
    ensures WellFormed(Ioctl1(t, c, input, sp).table)
  {
    HandleKeepsWellFormed(t, Route(c), input, sp);
  }
}
