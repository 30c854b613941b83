/** The chained 8259A programmable interrupt controllers, driven through
    their command and data ports. Every operation is described by the
    port accesses it performs. */
module Pic8259 {
  import opened Common

  const CMD_INIT: U8 := 0x11
  const CMD_END_OF_INTERRUPT: U8 := 0x20
  const MODE_8086: U8 := 0x01
  /** The port written to let the controllers settle between commands. */
  const WAIT_PORT: U16 := 0x80

  datatype Pic = Pic(offset: U8, command: U16, data: U16)

  datatype ChainedPics = ChainedPics(primary: Pic, secondary: Pic)

  /** `ChainedPics::new`: the primary controller at ports 0x20/0x21, the
      secondary at 0xA0/0xA1. */
  function NewChainedPics(offset1: U8, offset2: U8): (c: ChainedPics)
    ensures c.primary == Pic(offset1, 0x20, 0x21)
    ensures c.secondary == Pic(offset2, 0xA0, 0xA1)
  {
    ChainedPics(Pic(offset1, 0x20, 0x21), Pic(offset2, 0xA0, 0xA1))
  }

  /** `Pic::handles_interrupt`: `offset <= id && id < offset + 8`. The sum
      is a u8 and is only computed when the first test holds, so it panics
      for an offset above 247 and an id at or above the offset. */
  function PicHandles(p: Pic, id: U8): (r: Outcome<bool>)
    ensures r.Panic? <==> p.offset <= id && p.offset + 8 >= TWO_8
    ensures r.Value? ==> (r.value <==> p.offset <= id < p.offset + 8)
  {
    if !(p.offset <= id) then Value(false)
    else if p.offset + 8 >= TWO_8 then Panic("attempt to add with overflow")
    else Value(id < p.offset + 8)
  }

  /** `ChainedPics::handles_interrupt`: `any` over the two controllers,
      which stops at the first that says yes. */
  function ChainedHandles(c: ChainedPics, id: U8): (r: Outcome<bool>)
    ensures PicHandles(c.primary, id).Panic? ==> r.Panic?
    ensures PicHandles(c.primary, id) == Value(true) ==> r == Value(true)
    ensures PicHandles(c.primary, id) == Value(false) ==> r == PicHandles(c.secondary, id)
  {
    match PicHandles(c.primary, id)
    case Panic(m) => Panic(m)
    case Value(true) => Value(true)
    case Value(false) => PicHandles(c.secondary, id)
  }

  /** `end_of_interrupt`: one write of 0x20 to the command port. */
  function EndOfInterrupt(p: Pic): seq<PortEvent> {
    [Out(p.command, Byte, CMD_END_OF_INTERRUPT)]
  }

  /** `notify_end_of_interrupt`: nothing for a vector neither controller
      handles; otherwise the secondary's acknowledgement first when it
      handles the vector, then always the primary's. */
  function NotifyEndOfInterrupt(c: ChainedPics, id: U8): (r: Outcome<seq<PortEvent>>)
    ensures ChainedHandles(c, id) == Value(false) ==> r == Value([])
    ensures ChainedHandles(c, id) == Value(true) && PicHandles(c.secondary, id) == Value(true) ==>
              r == Value(EndOfInterrupt(c.secondary) + EndOfInterrupt(c.primary))
    ensures ChainedHandles(c, id) == Value(true) && PicHandles(c.secondary, id) == Value(false) ==>
              r == Value(EndOfInterrupt(c.primary))
  {
    match ChainedHandles(c, id)
    case Panic(m) => Panic(m)
    case Value(false) => Value([])
    case Value(true) =>
      match PicHandles(c.secondary, id)
      case Panic(m) => Panic(m)
      case Value(true) => Value(EndOfInterrupt(c.secondary) + EndOfInterrupt(c.primary))
      case Value(false) => Value(EndOfInterrupt(c.primary))
  }

  function Wait(): PortEvent {
    Out(WAIT_PORT, Byte, 0)
  }

  /** `initialize`: read both masks, then ICW1 (init), ICW2 (vector
      offset), ICW3 (cascade wiring) and ICW4 (8086 mode) to each
      controller, primary first, each write followed by a write to the wait
      port, and finally restore the masks read at the start. The values
      read from the data ports are the parameters `mask1` and `mask2`. */
  function Initialize(c: ChainedPics, mask1: U8, mask2: U8): (trace: seq<PortEvent>)
    ensures |trace| == 20
    ensures trace[0] == In(c.primary.data, Byte) && trace[1] == In(c.secondary.data, Byte)
    ensures trace[18] == Out(c.primary.data, Byte, mask1) && trace[19] == Out(c.secondary.data, Byte, mask2)
    ensures forall k :: 1 <= k <= 8 ==> trace[2 * k + 1] == Wait()
  {
    var p, s := c.primary, c.secondary;
    [In(p.data, Byte), In(s.data, Byte)]
    + [Out(p.command, Byte, CMD_INIT), Wait(), Out(s.command, Byte, CMD_INIT), Wait()]
    + [Out(p.data, Byte, p.offset), Wait(), Out(s.data, Byte, s.offset), Wait()]
    + [Out(p.data, Byte, 4), Wait(), Out(s.data, Byte, 2), Wait()]
    + [Out(p.data, Byte, MODE_8086), Wait(), Out(s.data, Byte, MODE_8086), Wait()]
    + [Out(p.data, Byte, mask1), Out(s.data, Byte, mask2)]
  }

  /** The writes of `initialize` that are not waits, in order: the four
      initialisation words to each controller, then the saved masks. */
  lemma InitializeWrites(c: ChainedPics, mask1: U8, mask2: U8)
    ensures var t := Initialize(c, mask1, mask2);
            [t[2], t[4], t[6], t[8], t[10], t[12], t[14], t[16], t[18], t[19]]
            == [Out(c.primary.command, Byte, CMD_INIT), Out(c.secondary.command, Byte, CMD_INIT),
                Out(c.primary.data, Byte, c.primary.offset), Out(c.secondary.data, Byte, c.secondary.offset),
                Out(c.primary.data, Byte, 4), Out(c.secondary.data, Byte, 2),
                Out(c.primary.data, Byte, MODE_8086), Out(c.secondary.data, Byte, MODE_8086),
                Out(c.primary.data, Byte, mask1), Out(c.secondary.data, Byte, mask2)]
  {}
}
