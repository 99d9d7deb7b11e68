/** What the SX1276 chip does with the driver's transfers, one after the other, when any of them may go wrong: the
    transmit path as a function of how each transfer went. */
module Sx1276Send {
  import opened Common

  const FIFO: Byte := 0x00
  const OP_MODE: Byte := 0x01
  const FRF_MSB: Byte := 0x06
  const FRF_MID: Byte := 0x07
  const FRF_LSB: Byte := 0x08
  const FIFO_ADDR_PTR: Byte := 0x0D
  const FIFO_TX_BASE_ADDR: Byte := 0x0E
  const IRQ_FLAGS_MASK: Byte := 0x11
  const IRQ_FLAGS: Byte := 0x12
  const PREAMBLE_LSB: Byte := 0x21
  const PAYLOAD_LENGTH: Byte := 0x22
  const MAX_PAYLOAD_LENGTH: Byte := 0x23

  const STANDBY: Byte := 0x81
  const TX: Byte := 0x83

  /** The chip as the driver sees it, and every packet it was told to transmit. */
  datatype Chip = Chip(regs: seq<Byte>, fifo: seq<Byte>, sent: seq<seq<Byte>>)

  predicate WellFormed(c: Chip) {
    |c.regs| == 128 && |c.fifo| == 256
  }

  /** The packet that leaves when the transmitter is switched on. */
  function Outgoing(c: Chip): seq<Byte>
    requires WellFormed(c)
  {
    seq(c.regs[PAYLOAD_LENGTH], i requires 0 <= i => c.fifo[(c.regs[FIFO_TX_BASE_ADDR] + i) % 256])
  }

  /** A register write that takes effect. Writing the FIFO register stores at the pointer and advances it modulo 256;
      the interrupt flags are volatile and not part of the state. */
  function Written(c: Chip, reg: Byte, value: Byte): (after: Chip)
    requires WellFormed(c) && reg < 128
    ensures WellFormed(after)
  {
    if reg == FIFO then
      var at := c.regs[FIFO_ADDR_PTR];
      var next: Byte := if at == 255 then 0 else at + 1;
      c.(fifo := c.fifo[at := value], regs := c.regs[FIFO_ADDR_PTR := next])
    else if reg == IRQ_FLAGS then c
    else if reg == OP_MODE && value == TX then
      var after := c.(regs := c.regs[OP_MODE := TX]);
      after.(sent := c.sent + [Outgoing(after)])
    else c.(regs := c.regs[reg := value])
  }

  // ---- verified writes ----

  /** How one attempt at a verified write goes: the write has no effect, is reported as failed, the read back fails. */
  datatype Attempt = Attempt(lost: bool, refused: bool, unread: bool)

  /** The two attempts the driver has; the second is used only when the first is not confirmed. */
  datatype Tries = Tries(first: Attempt, second: Attempt)

  /** The chip after an attempt, and whether the driver takes it for done. */
  function Attempted(c: Chip, reg: Byte, value: Byte, a: Attempt): (r: (Chip, bool))
    requires WellFormed(c) && reg < 128
    ensures WellFormed(r.0)
  {
    var after := if a.lost then c else Written(c, reg, value);
    (after, !a.refused && !a.unread && after.regs[reg] == value)
  }

  function Verified(c: Chip, reg: Byte, value: Byte, t: Tries): (r: (Chip, bool))
    requires WellFormed(c) && reg < 128
    ensures WellFormed(r.0)
  {
    var r := Attempted(c, reg, value, t.first);
    if r.1 then r else Attempted(r.0, reg, value, t.second)
  }

  // ---- the transmit path ----

  /** A look at the FIFO pointer: it is read, or all three reads fail and leave any value behind. */
  datatype Look = Seen | Blind(noise: Byte)

  function Looked(c: Chip, look: Look): Byte
    requires WellFormed(c)
  {
    match look
    case Seen => c.regs[FIFO_ADDR_PTR]
    case Blind(noise) => noise
  }

  /** One byte of the payload: whether its write is lost, and the look at the pointer behind it. */
  datatype ByteTry = ByteTry(lost: bool, look: Look)

  /** How every transfer of one call of SendSimpleMessage went that can matter to what is sent. */
  datatype Script = Script(standby: Tries, preamble: Tries, base: Tries, pointer: Tries, maxLength: Tries,
                           length: Tries, start: Look, bytes: seq<ByteTry>, end: Look, mask: Tries, tx: Tries)

  /** Standby, unless a fault is set already, preamble, FIFO base and pointer, maximum length and length. */
  function Readied(c: Chip, fault: bool, preamble: Byte, n: nat, s: Script): (after: Chip)
    requires WellFormed(c)
    ensures WellFormed(after)
  {
    var c0 := if fault then c else Verified(c, OP_MODE, STANDBY, s.standby).0;
    var c1 := Verified(c0, PREAMBLE_LSB, preamble, s.preamble).0;
    var c2 := Verified(c1, FIFO_TX_BASE_ADDR, 0x80, s.base).0;
    var c3 := Verified(c2, FIFO_ADDR_PTR, 0x80, s.pointer).0;
    var c4 := Verified(c3, MAX_PAYLOAD_LENGTH, 0x80, s.maxLength).0;
    Verified(c4, PAYLOAD_LENGTH, n % 256, s.length).0
  }

  /** The FIFO writes made so far. */
  function Filled(c: Chip, payload: seq<Byte>, bytes: seq<ByteTry>): (after: Chip)
    requires WellFormed(c) && |bytes| <= |payload|
    ensures WellFormed(after)
    decreases |bytes|
  {
    if bytes == [] then c
    else
      var b := |bytes| - 1;
      var before := Filled(c, payload, bytes[..b]);
      if bytes[b].lost then before else Written(before, FIFO, payload[b])
  }

  /** Behind every byte the pointer was found where it should be. */
  predicate Tested(c: Chip, payload: seq<Byte>, bytes: seq<ByteTry>, start: Byte)
    requires WellFormed(c) && |bytes| <= |payload|
    decreases |bytes|
  {
    bytes != [] ==>
      var b := |bytes| - 1;
      && Tested(c, payload, bytes[..b], start)
      && Looked(Filled(c, payload, bytes), bytes[b].look) - start - 1 == b
  }

  /** The driver gets past the FIFO: every byte was written, and all tests of the pointer passed. */
  predicate GetsThrough(c: Chip, payload: seq<Byte>, s: Script)
    requires WellFormed(c)
  {
    && |s.bytes| == |payload| && Tested(c, payload, s.bytes, Looked(c, s.start))
    && Looked(Filled(c, payload, s.bytes), s.end) == 0x80 + |payload|
  }

  /** The chip after SendSimpleMessage. */
  function SendRun(c: Chip, fault: bool, preamble: Byte, payload: seq<Byte>, s: Script): (after: Chip)
    requires WellFormed(c) && |s.bytes| <= |payload|
    ensures WellFormed(after)
  {
    var ready := Readied(c, fault, preamble, |payload|, s);
    var filled := Filled(ready, payload, s.bytes);
    if GetsThrough(ready, payload, s) then
      Verified(Verified(filled, IRQ_FLAGS_MASK, 0xf7, s.mask).0, OP_MODE, TX, s.tx).0
    else filled
  }

  /** No transfer that the driver can check gave it a reason to set the fault: every verified write was confirmed, every
      look at the pointer succeeded, and all tests passed. */
  predicate Flawless(c: Chip, preamble: Byte, payload: seq<Byte>, s: Script)
    requires WellFormed(c)
  {
    && PreparedWell(c, preamble, |payload|, s) &&
    var ready := Readied(c, false, preamble, |payload|, s);
    && FilledWell(ready, payload, s)
    && SwitchedWell(Filled(ready, payload, s.bytes), s)
  }

  predicate PreparedWell(c: Chip, preamble: Byte, n: nat, s: Script)
    requires WellFormed(c)
  {
    var r0 := Verified(c, OP_MODE, STANDBY, s.standby);
    var r1 := Verified(r0.0, PREAMBLE_LSB, preamble, s.preamble);
    var r2 := Verified(r1.0, FIFO_TX_BASE_ADDR, 0x80, s.base);
    var r3 := Verified(r2.0, FIFO_ADDR_PTR, 0x80, s.pointer);
    var r4 := Verified(r3.0, MAX_PAYLOAD_LENGTH, 0x80, s.maxLength);
    var r5 := Verified(r4.0, PAYLOAD_LENGTH, n % 256, s.length);
    r0.1 && r1.1 && r2.1 && r3.1 && r4.1 && r5.1 && s.start.Seen?
  }

  predicate BytesSeen(bytes: seq<ByteTry>) {
    forall b | 0 <= b < |bytes| :: bytes[b].look.Seen?
  }

  predicate FilledWell(c: Chip, payload: seq<Byte>, s: Script)
    requires WellFormed(c)
  {
    GetsThrough(c, payload, s) && s.end.Seen? && BytesSeen(s.bytes)
  }

  predicate SwitchedWell(c: Chip, s: Script)
    requires WellFormed(c)
  {
    var r := Verified(c, IRQ_FLAGS_MASK, 0xf7, s.mask);
    r.1 && Verified(r.0, OP_MODE, TX, s.tx).1
  }

  // ---- waiting for the end ----

  /** One read of the interrupt flags. */
  datatype FlagRead = Flags(value: Byte) | NoFlags

  /** Bit 3: the packet has left. */
  predicate TxDone(r: FlagRead) {
    r.Flags? && r.value / 8 % 2 == 1
  }

  /** How many reads succeeded. */
  function Succeeded(looks: seq<FlagRead>): nat {
    if looks == [] then 0
    else Succeeded(looks[..|looks| - 1]) + if looks[|looks| - 1].Flags? then 1 else 0
  }

  /** Four reads in a row that fail make a look that fails. */
  predicate GaveUp(looks: seq<FlagRead>) {
    |looks| >= 4 && forall i | |looks| - 4 <= i < |looks| :: looks[i] == NoFlags
  }

  /** What the driver has read when it stops looking: it stops at the first TxDone, at a look that fails, or when the
      time is up, which lets it look `polls` times after the first. */
  predicate StopsLooking(looks: seq<FlagRead>, polls: nat) {
    && looks != [] && Succeeded(looks) <= polls + 1
    && (forall i | 0 <= i < |looks| - 1 :: !TxDone(looks[i]))
    && (TxDone(looks[|looks| - 1]) || GaveUp(looks) || Succeeded(looks) == polls + 1)
  }
}
