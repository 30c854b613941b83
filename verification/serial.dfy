/** The 16550 UART driver: a base I/O port, the six registers at fixed
    offsets from it, the initialisation sequence, and byte transmission.

    Port numbers are `u16`; the register ports are computed as
    `base + offset`, which panics past 0xFFFF. Transmission spins on the
    line status register; the values that register returns are a
    parameter here, one per read, and running out of them stands for a
    wait that has not finished. */
module Serial {
  import opened Common

  const SERIAL1_PORT: U16 := 0x3F8

  /** `LineStsFlags`. */
  const INPUT_FULL: bv8 := 1
  const OUTPUT_EMPTY: bv8 := 1 << 5

  datatype SerialPort = SerialPort(base: U16)

  /** The register offsets from the base port. */
  const DATA: nat := 0
  const ENABLE_INTERRUPT: nat := 1
  const FIFO_CONTROL: nat := 2
  const LINE_CONTROL: nat := 3
  const MODEM_CONTROL: nat := 4
  const LINE_STATUS: nat := 5

  /** The port of the register at `offset`: the `u16` addition panics when
      it leaves the port range. */
  function RegisterPort(p: SerialPort, offset: nat): (r: Outcome<U16>)
    ensures r.Value? <==> p.base + offset < TWO_16
    ensures r.Value? ==> r.value == p.base + offset
  {
    if p.base + offset < TWO_16 then Value(p.base + offset) else Panic("attempt to add with overflow")
  }

  /** The six registers sit at six distinct consecutive ports, the data
      register on the base port itself. */
  lemma RegistersDistinct(p: SerialPort, i: nat, j: nat)
    requires i <= LINE_STATUS && j <= LINE_STATUS && i != j
    requires p.base + LINE_STATUS < TWO_16
    ensures RegisterPort(p, DATA) == Value(p.base)
    ensures RegisterPort(p, i).Value? && RegisterPort(p, j).Value?
    ensures RegisterPort(p, i).value != RegisterPort(p, j).value
  {}

  /** `from_bits_truncate`: only the declared status bits. */
  function LineStatus(raw: U8): (f: bv8)
    ensures f & !(INPUT_FULL | OUTPUT_EMPTY) == 0
    ensures f & OUTPUT_EMPTY == (raw as bv8) & OUTPUT_EMPTY
  {
    (raw as bv8) & (INPUT_FULL | OUTPUT_EMPTY)
  }

  predicate OutputEmpty(raw: U8) {
    LineStatus(raw) & OUTPUT_EMPTY == OUTPUT_EMPTY
  }

  /** The writes `init` makes, as (offset, value): interrupts off, divisor
      latch on, divisor 3 (38400 bps), latch off with 8-bit words, FIFOs on
      and cleared with a 14-byte threshold, DTR/RTS/OUT2, interrupts on. */
  const INIT_WRITES: seq<(nat, U8)> := [
    (ENABLE_INTERRUPT, 0x00), (LINE_CONTROL, 0x80), (DATA, 0x03), (ENABLE_INTERRUPT, 0x00),
    (LINE_CONTROL, 0x03), (FIFO_CONTROL, 0xC7), (MODEM_CONTROL, 0x0B), (ENABLE_INTERRUPT, 0x01)]

  /** The byte writes of `init`, in order. The highest register it uses is
      the modem control one, so it panics exactly when that port overflows. */
  function Init(p: SerialPort): (r: Outcome<seq<PortEvent>>)
    ensures r.Panic? <==> p.base + MODEM_CONTROL >= TWO_16
    ensures r.Value? ==> |r.value| == |INIT_WRITES|
    ensures r.Value? ==> forall i :: 0 <= i < |INIT_WRITES| ==>
      r.value[i] == Out(p.base + INIT_WRITES[i].0, Byte, INIT_WRITES[i].1)
  {
    if p.base + MODEM_CONTROL >= TWO_16 then Panic("attempt to add with overflow")
    else Value(seq(|INIT_WRITES|, i requires 0 <= i < |INIT_WRITES| =>
                     Out(p.base + INIT_WRITES[i].0, Byte, INIT_WRITES[i].1)))
  }

  /** `SERIAL1.init()`: the eight writes to ports 0x3F8..0x3FC, divisor
      latch enabled exactly around the divisor write. */
  lemma Serial1Init()
    ensures Init(SerialPort(SERIAL1_PORT)) == Value([
      Out(0x3F9, Byte, 0x00), Out(0x3FB, Byte, 0x80), Out(0x3F8, Byte, 0x03), Out(0x3F9, Byte, 0x00),
      Out(0x3FB, Byte, 0x03), Out(0x3FA, Byte, 0xC7), Out(0x3FC, Byte, 0x0B), Out(0x3F9, Byte, 0x01)])
  {
    var r := Init(SerialPort(SERIAL1_PORT)).value;
    var expected := [
      Out(0x3F9, Byte, 0x00), Out(0x3FB, Byte, 0x80), Out(0x3F8, Byte, 0x03), Out(0x3F9, Byte, 0x00),
      Out(0x3FB, Byte, 0x03), Out(0x3FA, Byte, 0xC7), Out(0x3FC, Byte, 0x0B), Out(0x3F9, Byte, 0x01)];
    forall i | 0 <= i < 8 ensures r[i] == expected[i] {
      assert r[i] == Out(SERIAL1_PORT + INIT_WRITES[i].0, Byte, INIT_WRITES[i].1);
    }
    assert |r| == |expected|;
    assert r == expected;
  }

  /** How a transmission ends: the port calls made and the status values
      not yet read, a wait still spinning when the status values ran out,
      or a panic. */
  datatype Transmit =
    | Sent(trace: seq<PortEvent>, rest: seq<U8>)
    | Waiting
    | Fault(reason: string)

  /** The `wait_for!` loop: reads the line status register until a value
      with OUTPUT_EMPTY comes back. */
  function Wait(statusPort: U16, status: seq<U8>): (r: Transmit)
    ensures !r.Fault?
    ensures r.Sent? ==> |r.rest| < |status|
    decreases |status|
  {
    if |status| == 0 then Waiting
    else if OutputEmpty(status[0]) then Sent([In(statusPort, Byte)], status[1..])
    else
      var later := Wait(statusPort, status[1..]);
      if later.Sent? then Sent([In(statusPort, Byte)] + later.trace, later.rest) else later
  }

  /** `send_raw`: wait for an empty transmitter, then write the byte to the
      data port. */
  function SendRaw(p: SerialPort, data: U8, status: seq<U8>): (r: Transmit)
    ensures r.Fault? <==> p.base + LINE_STATUS >= TWO_16
  {
    if p.base + LINE_STATUS >= TWO_16 then Fault("attempt to add with overflow")
    else
      match Wait(p.base + LINE_STATUS, status)
      case Sent(trace, rest) => Sent(trace + [Out(p.base, Byte, data)], rest)
      case other => other
  }

  /** What `send` puts on the line for one byte: a backspace or a delete
      becomes backspace, space, backspace, rubbing out the last character
      on a terminal; any other byte goes as it is. */
  function Expand(data: U8): (bytes: seq<U8>)
    ensures data == 8 || data == 0x7F ==> bytes == [8, 0x20, 8]
    ensures data != 8 && data != 0x7F ==> bytes == [data]
  {
    if data == 8 || data == 0x7F then [8, 0x20, 8] else [data]
  }

  /** Sends `bytes` one after the other, each with its own wait. */
  function SendAll(p: SerialPort, bytes: seq<U8>, status: seq<U8>): (r: Transmit)
    ensures r.Fault? <==> |bytes| > 0 && p.base + LINE_STATUS >= TWO_16
    ensures r.Sent? ==> |r.rest| + |bytes| <= |status|
    decreases |bytes|
  {
    if |bytes| == 0 then Sent([], status)
    else
      var first := SendRaw(p, bytes[0], status);
      if !first.Sent? then first
      else
        var more := SendAll(p, bytes[1..], first.rest);
        if more.Sent? then Sent(first.trace + more.trace, more.rest) else more
  }

  /** `send`. */
  function Send(p: SerialPort, data: U8, status: seq<U8>): (r: Transmit)
    ensures r == SendAll(p, Expand(data), status)
    ensures r.Fault? <==> p.base + LINE_STATUS >= TWO_16
    ensures r.Sent? ==> |r.rest| < |status|
  {
    if data == 8 || data == 0x7F then
      SendAll(p, [8, 0x20, 8], status)
    else
      SendAll(p, [data], status)
  }

  /** `write_str`: `send` of every byte of the text, in order. */
  function WriteStr(p: SerialPort, s: seq<U8>, status: seq<U8>): (r: Transmit)
    ensures r.Fault? <==> |s| > 0 && p.base + LINE_STATUS >= TWO_16
    ensures r.Sent? ==> |r.rest| + |s| <= |status|
    decreases |s|
  {
    if |s| == 0 then Sent([], status)
    else
      var first := Send(p, s[0], status);
      if !first.Sent? then first
      else
        var more := WriteStr(p, s[1..], first.rest);
        if more.Sent? then Sent(first.trace + more.trace, more.rest) else more
  }

  // ----- Properties -----

  /** The data bytes a trace writes to port `port`, in order. */
  function Written(trace: seq<PortEvent>, port: U16): (bytes: seq<int>)
    ensures |bytes| <= |trace|
  {
    if |trace| == 0 then []
    else (if trace[0].Out? && trace[0].port == port then [trace[0].value] else []) + Written(trace[1..], port)
  }

  lemma {:induction false} WrittenAppend(a: seq<PortEvent>, b: seq<PortEvent>, port: U16)
    ensures Written(a + b, port) == Written(a, port) + Written(b, port)
    decreases |a|
  {
    if |a| == 0 {
      assert a + b == b;
    } else {
      var ab := a + b;
      assert ab[0] == a[0] && ab[1..] == a[1..] + b;
      WrittenAppend(a[1..], b, port);
      var head: seq<int> := if a[0].Out? && a[0].port == port then [a[0].value] else [];
      assert Written(ab, port) == head + Written(ab[1..], port);
      assert Written(a, port) == head + Written(a[1..], port);
      assert head + (Written(a[1..], port) + Written(b, port))
          == (head + Written(a[1..], port)) + Written(b, port);
    }
  }

  /** A finished wait is one status read per status value consumed, the
      last of them the first value showing an empty transmitter. */
  lemma {:induction false} WaitReadsUntilEmpty(statusPort: U16, status: seq<U8>)
    requires Wait(statusPort, status).Sent?
    ensures var r := Wait(statusPort, status); var k := |status| - |r.rest| - 1;
      r.trace == seq(k + 1, _ => In(statusPort, Byte)) &&
      r.rest == status[k + 1..] &&
      OutputEmpty(status[k]) &&
      forall i :: 0 <= i < k ==> !OutputEmpty(status[i])
    decreases |status|
  {
    if !OutputEmpty(status[0]) {
      WaitReadsUntilEmpty(statusPort, status[1..]);
      var r := Wait(statusPort, status[1..]);
      var k := |status| - |r.rest| - 1;
      assert status[1..][k - 1] == status[k];
      assert [In(statusPort, Byte)] + r.trace == seq(k + 1, _ => In(statusPort, Byte));
      forall i | 0 <= i < k ensures !OutputEmpty(status[i]) {
        if i > 0 {
          assert status[1..][i - 1] == status[i];
        }
      }
    } else {
      assert [In(statusPort, Byte)] == seq(1, _ => In(statusPort, Byte));
    }
  }

  /** A wait sees no empty transmitter at all exactly when it is still
      spinning at the end of the status values. */
  lemma {:induction false} WaitSpinsIffNeverEmpty(statusPort: U16, status: seq<U8>)
    ensures Wait(statusPort, status).Waiting? <==> forall i :: 0 <= i < |status| ==> !OutputEmpty(status[i])
    ensures !Wait(statusPort, status).Fault?
    decreases |status|
  {
    if |status| > 0 {
      WaitSpinsIffNeverEmpty(statusPort, status[1..]);
      if !OutputEmpty(status[0]) {
        assert forall i :: 1 <= i < |status| ==> status[i] == status[1..][i - 1];
      }
    }
  }

  /** `send_raw` writes the byte once, to the data port, as its last call,
      and every earlier call is a status read. */
  lemma SendRawWritesLast(p: SerialPort, data: U8, status: seq<U8>)
    requires SendRaw(p, data, status).Sent?
    ensures var t := SendRaw(p, data, status).trace;
      |t| >= 2 && t[|t| - 1] == Out(p.base, Byte, data) &&
      forall i :: 0 <= i < |t| - 1 ==> t[i] == In(p.base + LINE_STATUS, Byte)
  {
    WaitReadsUntilEmpty(p.base + LINE_STATUS, status);
  }

  /** `send_raw` writes exactly its byte to the data port: the status
      reads go to another port. */
  lemma SendRawWritten(p: SerialPort, data: U8, status: seq<U8>)
    requires SendRaw(p, data, status).Sent?
    ensures Written(SendRaw(p, data, status).trace, p.base) == [data]
  {
    var w := Wait(p.base + LINE_STATUS, status);
    WaitReadsUntilEmpty(p.base + LINE_STATUS, status);
    NoWritesInReads(w.trace, p.base);
    WrittenAppend(w.trace, [Out(p.base, Byte, data)], p.base);
    assert Written([Out(p.base, Byte, data)], p.base) == [data] by {
      assert [Out(p.base, Byte, data)][1..] == [];
    }
  }

  lemma {:induction false} NoWritesInReads(trace: seq<PortEvent>, port: U16)
    requires forall i :: 0 <= i < |trace| ==> trace[i].In?
    ensures Written(trace, port) == []
    decreases |trace|
  {
    if |trace| > 0 {
      assert forall i :: 0 <= i < |trace[1..]| ==> trace[1..][i] == trace[i + 1];
      NoWritesInReads(trace[1..], port);
    }
  }

  /** `send_all` writes its bytes to the data port, in order. */
  lemma {:induction false} SendAllWritten(p: SerialPort, bytes: seq<U8>, status: seq<U8>)
    requires SendAll(p, bytes, status).Sent?
    ensures Written(SendAll(p, bytes, status).trace, p.base) == bytes
    decreases |bytes|
  {
    if |bytes| > 0 {
      var first := SendRaw(p, bytes[0], status);
      SendRawWritten(p, bytes[0], status);
      SendAllWritten(p, bytes[1..], first.rest);
      WrittenAppend(first.trace, SendAll(p, bytes[1..], first.rest).trace, p.base);
      assert [bytes[0]] + bytes[1..] == bytes;
    }
  }

  /** The bytes of all expansions of `s`, in order. */
  function ExpandAll(s: seq<U8>): (bytes: seq<U8>)
    ensures |bytes| >= |s|
    decreases |s|
  {
    if |s| == 0 then [] else Expand(s[0]) + ExpandAll(s[1..])
  }

  /** `write_str` puts on the data port exactly the expansion of each byte
      of the text, in order. */
  lemma {:induction false} WriteStrWritten(p: SerialPort, s: seq<U8>, status: seq<U8>)
    requires WriteStr(p, s, status).Sent?
    ensures Written(WriteStr(p, s, status).trace, p.base) == ExpandAll(s)
    decreases |s|
  {
    if |s| > 0 {
      var first := Send(p, s[0], status);
      SendAllWritten(p, Expand(s[0]), status);
      WriteStrWritten(p, s[1..], first.rest);
      WrittenAppend(first.trace, WriteStr(p, s[1..], first.rest).trace, p.base);
    }
  }

  /** Text free of backspaces and deletes goes out unchanged. */
  lemma {:induction false} ExpandAllPlain(s: seq<U8>)
    requires forall i :: 0 <= i < |s| ==> s[i] != 8 && s[i] != 0x7F
    ensures ExpandAll(s) == s
    decreases |s|
  {
    if |s| > 0 {
      assert forall i :: 0 <= i < |s[1..]| ==> s[1..][i] == s[i + 1];
      ExpandAllPlain(s[1..]);
      assert [s[0]] + s[1..] == s;
    }
  }
}
