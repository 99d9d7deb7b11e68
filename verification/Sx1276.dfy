/** The bridge's SX1276 driver: verified register writes, the transmit path and the carrier registers,
    over an SPI bus on which any transfer may fail and any write may silently have no effect. */
module Sx1276 {
  import opened Common
  import opened Sx1276Exact
  import opened Sx1276Send

  /** The SPI bus. `glitches` bounds how many transfers may still go wrong; it may be any number. */
  class Spi {
    var chip: Chip
    var glitches: nat
    // history: what each read of the interrupt flags gave
    ghost var flagReads: seq<FlagRead>

    constructor (chip: Chip, glitches: nat)
      ensures this.chip == chip && this.glitches == glitches && flagReads == []
    {
      this.chip, this.glitches, flagReads := chip, glitches, [];
    }

    /** A write can be lost, or reported as failed, or both. */
    method WriteRegister(reg: Byte, value: Byte) returns (ok: bool)
      requires WellFormed(chip) && reg < 128
      modifies this`chip, this`glitches
      ensures chip == old(chip) || chip == Written(old(chip), reg, value)
      ensures reg == IRQ_FLAGS ==> chip == old(chip)
      ensures || glitches == old(glitches) - 1
              || (glitches == old(glitches) && ok && chip == Written(old(chip), reg, value))
    {
      ok := true;
      var lost: bool, refused: bool := *, *;
      if glitches > 0 && (lost || refused) {
        glitches := glitches - 1;
        ok := !refused;
        if lost {
          return;
        }
      }
      chip := Written(chip, reg, value);
    }

    /** A read that reports success is truthful; a failed one leaves any value behind. The interrupt flags may
        read as anything. */
    method ReadRegister(reg: Byte) returns (ok: bool, value: Byte)
      requires WellFormed(chip) && reg < 128 && reg != FIFO
      modifies this`glitches, this`flagReads
      ensures ok && reg != IRQ_FLAGS ==> value == chip.regs[reg]
      ensures flagReads == old(flagReads) + if reg != IRQ_FLAGS then [] else if ok then [Flags(value)] else [NoFlags]
      ensures glitches == old(glitches) - if ok then 0 else 1
    {
      ok, value := true, chip.regs[reg];
      var failed: bool, noise: Byte := *, *;
      if reg == IRQ_FLAGS {
        value := noise;
      }
      if failed && glitches > 0 {
        glitches := glitches - 1;
        ok, value := false, noise;
      }
      if reg == IRQ_FLAGS {
        flagReads := flagReads + if ok then [Flags(value)] else [NoFlags];
      }
    }
  }

  // ---- carrier arithmetic ----

  const CARRIER_LIMIT := 1_024_000_000

  /** The frequency word for a carrier, and the carrier a word stands for: steps of 32 MHz / 2^19. */
  function Frf(hz: nat): nat {
    hz * 524288 / 32000000
  }

  function Actual(frf: nat): nat {
    32000000 * frf / 524288
  }

  function Msb(frf: nat): Byte {
    frf / 65536 % 256
  }

  function Mid(frf: nat): Byte {
    frf / 256 % 256
  }

  function Lsb(frf: nat): Byte {
    frf % 256
  }

  function Joined(msb: Byte, mid: Byte, lsb: Byte): nat {
    msb * 65536 + mid * 256 + lsb
  }

  lemma JoinedBytes(msb: Byte, mid: Byte, lsb: Byte)
    ensures Joined(msb, mid, lsb) == (msb as int) * 65536 + (mid as int) * 256 + lsb
  {
  }

  lemma WordSurvives(frf: nat)
    ensures Joined(Msb(frf), Mid(frf), Lsb(frf)) == frf % 0x1000000
  {
    assert frf / 256 / 256 == frf / 65536;
    assert frf / 256 == 256 * (frf / 65536) + Mid(frf);
    assert frf / 65536 == 256 * (frf / 0x1000000) + Msb(frf);
  }

  /** Three byte registers hold the word of every carrier below 1024 MHz and of no other. */
  lemma CarrierFits(hz: nat)
    ensures Joined(Msb(Frf(hz)), Mid(Frf(hz)), Lsb(Frf(hz))) == Frf(hz) <==> hz < CARRIER_LIMIT
  {
    hide Frf;
    hide Msb, Mid, Lsb, Joined;
    WordSurvives(Frf(hz));
    FrfBelow(hz);
  }

  lemma FrfBelow(hz: nat)
    ensures Frf(hz) < 0x1000000 <==> hz < CARRIER_LIMIT
  {
  }

  /** The carrier that comes back is never above the request and less than 63 Hz below it. */
  lemma CarrierIsClose(hz: nat)
    ensures hz - 62 <= Actual(Frf(hz)) <= hz
  {
  }

  lemma CarrierIsMonotone(a: nat, b: nat)
    requires a <= b
    ensures Actual(Frf(a)) <= Actual(Frf(b))
  {
    assert Frf(a) <= Frf(b);
  }

  /** Asking for the carrier that was reported gives the same word back only for every 256th word; for all
      others both roundings go down and the radio moves one step lower. */
  lemma ReportedCarrierDrifts(frf: nat)
    ensures Frf(Actual(frf)) == if frf % 256 == 0 then frf else frf - 1
  {
    var q, r := frf / 256, frf % 256;
    ActualInSteps(frf, q, r);
    var a := 15625 * r / 256;
    FrfInSteps(15625 * q + a, q, a);
    OneStepDown(r, a);
  }

  lemma ActualInSteps(frf: nat, q: nat, r: nat)
    requires frf == 256 * q + r
    ensures Actual(frf) == 15625 * q + 15625 * r / 256
  {
    assert 32000000 * frf == 524288 * (15625 * q) + 32000000 * r;
  }

  lemma FrfInSteps(hz: nat, q: nat, a: nat)
    requires hz == 15625 * q + a
    ensures Frf(hz) == 256 * q + 256 * a / 15625
  {
    assert hz * 524288 == 32000000 * (256 * q) + 524288 * a;
  }

  lemma OneStepDown(r: nat, a: nat)
    requires r < 256 && a == 15625 * r / 256
    ensures 256 * a / 15625 == if r == 0 then 0 else r - 1
  {
    if 15625 * r == 256 * a {
      assert r == 256 * (57 * a - 3479 * r);
    }
  }

  /** The carrier the chip's three registers stand for. */
  function CarrierOf(c: Chip): nat
    requires WellFormed(c)
  {
    Actual(Joined(c.regs[FRF_MSB], c.regs[FRF_MID], c.regs[FRF_LSB]))
  }

  /** So many reads of the interrupt flags that failed. */
  function Failures(n: nat): seq<FlagRead> {
    seq(n, _ => NoFlags)
  }

  /** One look at the interrupt flags: it fails when all reads do, and else ends with the read that succeeds. */
  predicate LookAfter(before: seq<FlagRead>, after: seq<FlagRead>, failed: int, ok: bool, value: Byte, retries: nat) {
    if ok then 0 <= failed < retries && after == before + Failures(failed) + [Flags(value)]
    else failed == retries && after == before + Failures(retries)
  }

  /** The driver. */
  class Radio {
    const spi: Spi
    var fault: bool
    var actualHz: nat
    var continuousSetup: bool
    var preamble: Byte

    constructor (spi: Spi)
      ensures this.spi == spi && !fault && actualHz == 0
    {
      this.spi, fault, actualHz, continuousSetup, preamble := spi, false, 0, false, 0x08;
    }

    method ReadRegisterHarder(reg: Byte, retries: nat) returns (ok: bool, value: Byte)
      requires WellFormed(spi.chip) && reg < 128 && reg != FIFO
      modifies this`fault, spi`glitches, spi`flagReads
      ensures ok && reg != IRQ_FLAGS ==> value == spi.chip.regs[reg]
      ensures fault == (old(fault) || !ok)
      ensures spi.glitches <= old(spi.glitches) - if ok then 0 else retries
      ensures reg != IRQ_FLAGS ==> spi.flagReads == old(spi.flagReads)
      ensures reg == IRQ_FLAGS ==>
        LookAfter(old(spi.flagReads), spi.flagReads, old(spi.glitches) - spi.glitches, ok, value, retries)
    {
      var r := 0;
      value := *;
      while r < retries
        invariant r <= retries && spi.glitches == old(spi.glitches) - r && fault == old(fault)
        invariant reg != IRQ_FLAGS ==> spi.flagReads == old(spi.flagReads)
        invariant reg == IRQ_FLAGS ==> spi.flagReads == old(spi.flagReads) + Failures(r)
      {
        ok, value := spi.ReadRegister(reg);
        if ok {
          return;
        }
        r := r + 1;
      }
      fault := true;
      ok := false;
    }

    method WriteAndCheck(reg: Byte, value: Byte) returns (ok: bool, ghost attempt: Attempt)
      requires WellFormed(spi.chip) && reg < 128 && reg != FIFO && reg != IRQ_FLAGS
      modifies spi
      ensures Attempted(old(spi.chip), reg, value, attempt) == (spi.chip, ok) && spi.flagReads == old(spi.flagReads)
      ensures spi.glitches <= old(spi.glitches) - if ok then 0 else 1
      ensures spi.glitches == old(spi.glitches) ==> !attempt.lost
    {
      ghost var written := Written(spi.chip, reg, value);
      var check;
      ok := spi.WriteRegister(reg, value);
      attempt := Attempt(spi.chip != written, !ok, false);
      if ok {
        ok, check := spi.ReadRegister(reg);
        attempt := attempt.(unread := !ok);
      }
      ok := ok && check == value;
    }

    /** Two attempts to write a register and read the value back. On success the register holds the value. */
    method WriteRegisterVerify(reg: Byte, value: Byte) returns (ok: bool, ghost t: Tries)
      requires WellFormed(spi.chip) && reg < 128 && reg != FIFO && reg != IRQ_FLAGS
      modifies this`fault, spi
      ensures WellFormed(spi.chip) && (spi.chip, ok) == Verified(old(spi.chip), reg, value, t)
      ensures spi.flagReads == old(spi.flagReads)
      ensures ok ==> spi.chip.regs[reg] == value
      ensures fault == (old(fault) || !ok)
      ensures spi.glitches <= old(spi.glitches) - if ok then 0 else 2
      ensures spi.glitches == old(spi.glitches) ==> spi.chip == Written(old(spi.chip), reg, value)
    {
      hide Written;
      ghost var before := spi.chip;
      t := Tries(Attempt(false, false, false), Attempt(false, false, false));
      var retry := 0;
      while retry < 2
        invariant 0 <= retry <= 2
        invariant spi.glitches <= old(spi.glitches) - retry && fault == old(fault) && WellFormed(spi.chip)
        invariant spi.flagReads == old(spi.flagReads)
        invariant retry == 0 ==> spi.chip == before
        invariant retry == 1 ==> Attempted(before, reg, value, t.first) == (spi.chip, false)
        invariant retry == 2 ==> Verified(before, reg, value, t) == (spi.chip, false)
      {
        ghost var attempt;
        ok, attempt := WriteAndCheck(reg, value);
        t := if retry == 0 then t.(first := attempt) else t.(second := attempt);
        if ok {
          return true, t;
        }
        retry := retry + 1;
      }
      fault := true;
      ok := false;
    }

    /** A verified write of a register that only holds its value. */
    method Configure(reg: Byte, value: Byte) returns (ghost t: Tries)
      requires WellFormed(spi.chip) && reg < 128 && reg != FIFO && reg != IRQ_FLAGS
      requires reg == OP_MODE ==> value != TX
      modifies this`fault, spi
      ensures WellFormed(spi.chip) && spi.chip == Verified(old(spi.chip), reg, value, t).0
      ensures fault == (old(fault) || !Verified(old(spi.chip), reg, value, t).1) && spi.flagReads == old(spi.flagReads)
      ensures spi.chip.fifo == old(spi.chip.fifo) && spi.chip.sent == old(spi.chip.sent)
      ensures spi.chip.regs == old(spi.chip.regs) || spi.chip.regs == old(spi.chip.regs)[reg := value]
      ensures !fault ==> spi.chip.regs[reg] == value
      ensures spi.glitches <= old(spi.glitches)
      ensures spi.glitches == old(spi.glitches) ==> fault == old(fault)
    {
      hide Verified, Written;
      var ok;
      ok, t := WriteRegisterVerify(reg, value);
      VerifiedHolds(old(spi.chip), reg, value, t);
      assert old(spi.chip.regs)[reg := old(spi.chip.regs[reg])] == old(spi.chip.regs);
    }

    /** Standby, preamble, FIFO pointers and length; without a fault every one of them holds what was asked for. */
    method Prepare(n: nat) returns (fifoPos: Byte, ghost s: Script)
      requires WellFormed(spi.chip)
      modifies this`fault, this`continuousSetup, spi
      ensures WellFormed(spi.chip) && spi.chip.sent == old(spi.chip.sent)
      ensures spi.chip == Readied(old(spi.chip), old(fault), preamble, n, s) && fifoPos == Looked(spi.chip, s.start)
      ensures old(fault) ==> fault
      ensures !old(fault) ==> (!fault <==> PreparedWell(old(spi.chip), preamble, n, s))
      ensures !fault ==> ReadyToFill(spi.chip, n) && fifoPos == 0x80
      ensures spi.flagReads == old(spi.flagReads)
      ensures spi.glitches <= old(spi.glitches)
      ensures spi.glitches == old(spi.glitches) ==> fault == old(fault)
    {
      hide Written, Verified;
      continuousSetup := false;
      ghost var standby := Standby();
      ghost var preambled := Configure(PREAMBLE_LSB, preamble);
      ghost var base, pointer := PointFifo();
      ghost var maxLength := Configure(MAX_PAYLOAD_LENGTH, 0x80);
      ghost var length := Configure(PAYLOAD_LENGTH, n % 256);
      var read;
      read, fifoPos := ReadRegisterHarder(FIFO_ADDR_PTR, 3);
      s := Script(standby, preambled, base, pointer, maxLength, length, if read then Seen else Blind(fifoPos), [], Seen,
                  standby, standby);
    }

    method Standby() returns (ghost t: Tries)
      requires WellFormed(spi.chip)
      modifies this`fault, spi
      ensures WellFormed(spi.chip) && spi.chip.sent == old(spi.chip.sent)
      ensures spi.chip == if old(fault) then old(spi.chip) else Verified(old(spi.chip), OP_MODE, STANDBY, t).0
      ensures fault == (old(fault) || !Verified(old(spi.chip), OP_MODE, STANDBY, t).1)
      ensures !fault ==> spi.chip.regs[OP_MODE] == STANDBY
      ensures spi.flagReads == old(spi.flagReads)
      ensures spi.glitches <= old(spi.glitches)
      ensures spi.glitches == old(spi.glitches) ==> fault == old(fault)
    {
      hide Written, Verified;
      t := Tries(Attempt(false, false, false), Attempt(false, false, false));
      var _, _ := spi.ReadRegister(OP_MODE);
      if !fault {
        t := Configure(OP_MODE, STANDBY);
      }
    }

    method PointFifo() returns (ghost base: Tries, ghost pointer: Tries)
      requires WellFormed(spi.chip)
      modifies this`fault, spi
      ensures WellFormed(spi.chip) && spi.chip.sent == old(spi.chip.sent)
      ensures spi.chip
           == Verified(Verified(old(spi.chip), FIFO_TX_BASE_ADDR, 0x80, base).0, FIFO_ADDR_PTR, 0x80, pointer).0
      ensures spi.chip.regs[OP_MODE] == old(spi.chip.regs[OP_MODE])
      ensures var r := Verified(old(spi.chip), FIFO_TX_BASE_ADDR, 0x80, base);
              fault == (old(fault) || !r.1 || !Verified(r.0, FIFO_ADDR_PTR, 0x80, pointer).1)
      ensures !fault ==> spi.chip.regs[FIFO_TX_BASE_ADDR] == 0x80 && spi.chip.regs[FIFO_ADDR_PTR] == 0x80
      ensures spi.flagReads == old(spi.flagReads)
      ensures spi.glitches <= old(spi.glitches)
      ensures spi.glitches == old(spi.glitches) ==> fault == old(fault)
    {
      hide Written, Verified;
      base := Configure(FIFO_TX_BASE_ADDR, 0x80);
      pointer := Configure(FIFO_ADDR_PTR, 0x80);
    }

    /** One byte for the FIFO, and a look at where the pointer stands behind it. */
    method OfferByte(value: Byte) returns (v: Byte, ghost try: ByteTry)
      requires WellFormed(spi.chip)
      modifies this`fault, spi
      ensures WellFormed(spi.chip) && spi.chip.sent == old(spi.chip.sent)
      ensures spi.chip == if try.lost then old(spi.chip) else Written(old(spi.chip), FIFO, value)
      ensures v == Looked(spi.chip, try.look)
      ensures fault == (old(fault) || try.look.Blind?) && spi.flagReads == old(spi.flagReads)
      ensures spi.glitches <= old(spi.glitches)
      ensures spi.glitches == old(spi.glitches) ==> fault == old(fault) && !try.lost
    {
      hide Written;
      WrittenFifo(spi.chip, value);
      var _ := spi.WriteRegister(FIFO, value);
      ghost var lost := spi.chip == old(spi.chip);
      var read;
      read, v := ReadRegisterHarder(FIFO_ADDR_PTR, 3);
      try := ByteTry(lost, if read then Seen else Blind(v));
    }

    /** Writes the payload byte by byte; these writes cannot be read back, so the driver watches the pointer. */
    method FillFifo(payload: seq<Byte>, fifoPos: Byte)
      returns (filled: bool, ghost bytes: seq<ByteTry>, ghost end: Look)
      requires WellFormed(spi.chip) && (!fault ==> ReadyToFill(spi.chip, |payload|) && fifoPos == 0x80)
      modifies this`fault, spi
      ensures WellFormed(spi.chip) && spi.chip.sent == old(spi.chip.sent)
      ensures |bytes| <= |payload| && spi.chip == Filled(old(spi.chip), payload, bytes)
      ensures filled <==> |bytes| == |payload| && Tested(old(spi.chip), payload, bytes, fifoPos)
                          && Looked(spi.chip, end) == 0x80 + |payload|
      ensures fault == (old(fault) || !filled || end.Blind? || !BytesSeen(bytes))
      ensures !filled ==> fault
      ensures spi.flagReads == old(spi.flagReads)
      ensures filled ==> |payload| < 128
      ensures !fault ==> Loaded(spi.chip, payload)
      ensures spi.glitches <= old(spi.glitches)
      ensures spi.glitches == old(spi.glitches) && !old(fault) ==> filled == !fault == (|payload| < 128)
    {
      hide Outgoing, Written, Filled, Tested, BytesSeen;
      var n := |payload|;
      var b: Byte, v: Byte := 0, *;
      bytes, end := [], Seen;
      NothingFilled(spi.chip, payload, fifoPos);
      while b < n
        invariant b <= n && WellFormed(spi.chip) && |bytes| == b
        invariant spi.chip == Filled(old(spi.chip), payload, bytes)
        invariant Tested(old(spi.chip), payload, bytes, fifoPos)
        invariant spi.chip.sent == old(spi.chip.sent)
        invariant fault == (old(fault) || !BytesSeen(bytes))
        invariant spi.flagReads == old(spi.flagReads)
        invariant !fault ==> b <= 127 && Filling(spi.chip, payload, b) && fifoPos == 0x80
        invariant spi.glitches <= old(spi.glitches)
        invariant spi.glitches == old(spi.glitches) ==> fault == old(fault)
        decreases 256 - b
      {
        ghost var before := spi.chip;
        ghost var try;
        v, try := OfferByte(payload[b]);
        FilledNext(old(spi.chip), payload, bytes, try, fifoPos);
        bytes := bytes + [try];
        WrittenFifo(before, payload[b]);
        if v - fifoPos - 1 != b {
          fault := true;
          return false, bytes, end;
        }
        if !fault {
          FillStep(before, spi.chip, payload, b);
        }
        b := b + 1;
      }
      var read;
      read, v := ReadRegisterHarder(FIFO_ADDR_PTR, 3);
      end := if read then Seen else Blind(v);
      if v != 0x80 + n {
        fault := true;
        return false, bytes, end;
      }
      filled := true;
    }

    method ReadCarrier()
      requires WellFormed(spi.chip)
      modifies this`fault, this`actualHz, spi`glitches, spi`flagReads
      ensures old(fault) ==> fault
      ensures !fault ==> actualHz == CarrierOf(spi.chip)
      ensures spi.glitches <= old(spi.glitches)
      ensures spi.glitches == old(spi.glitches) ==> fault == old(fault)
    {
      hide Actual;
      var read, msb := ReadRegisterHarder(FRF_MSB, 3);
      var mid, lsb;
      read, mid := ReadRegisterHarder(FRF_MID, 3);
      read, lsb := ReadRegisterHarder(FRF_LSB, 3);
      actualHz := Actual(Joined(msb, mid, lsb));
    }

    /** The result is the fault flag itself. */
    method ChangeCarrier(hz: nat) returns (failed: bool)
      requires WellFormed(spi.chip)
      modifies this`fault, this`actualHz, this`continuousSetup, spi
      ensures WellFormed(spi.chip) && failed == fault
      ensures spi.chip.sent == old(spi.chip.sent)
      ensures old(fault) ==> fault
      ensures !fault ==> actualHz == CarrierOf(spi.chip) == Actual(Frf(hz) % 0x1000000)
      ensures !fault ==>
                (spi.chip.regs[FRF_MSB] as int) * 65536 + (spi.chip.regs[FRF_MID] as int) * 256 + spi.chip.regs[FRF_LSB]
                == Frf(hz) % 0x1000000
      ensures !fault && hz < CARRIER_LIMIT ==> hz - 62 <= actualHz <= hz
      ensures spi.glitches == old(spi.glitches) ==> fault == old(fault)
    {
      hide Frf, Actual, Joined, Msb, Mid, Lsb;
      var frf := Frf(hz);
      var _ := Configure(FRF_MSB, Msb(frf));
      var _ := Configure(FRF_MID, Mid(frf));
      var _ := Configure(FRF_LSB, Lsb(frf));
      ReadCarrier();
      WordSurvives(frf);
      JoinedBytes(Msb(frf), Mid(frf), Lsb(frf));
      CarrierFits(hz);
      CarrierIsClose(hz);
      continuousSetup := false;
      return fault;
    }

    /** Interrupt mask and flags, and the verified switch to the transmitter. */
    method SwitchToTx() returns (ghost mask: Tries, ghost tx: Tries, ghost copies: nat)
      requires WellFormed(spi.chip)
      modifies this`fault, spi
      ensures WellFormed(spi.chip)
      ensures spi.chip == Verified(Verified(old(spi.chip), IRQ_FLAGS_MASK, 0xf7, mask).0, OP_MODE, TX, tx).0
      ensures spi.chip.sent == old(spi.chip.sent) + Copies(copies, Outgoing(old(spi.chip))) && copies <= 2
      ensures !fault && old(spi.chip.regs[OP_MODE]) != TX ==> copies >= 1
      ensures var r := Verified(old(spi.chip), IRQ_FLAGS_MASK, 0xf7, mask);
              fault == (old(fault) || !r.1 || !Verified(r.0, OP_MODE, TX, tx).1)
      ensures spi.flagReads == old(spi.flagReads)
      ensures spi.glitches <= old(spi.glitches)
      ensures spi.glitches == old(spi.glitches) ==> fault == old(fault) && copies == 1
    {
      hide Outgoing, Verified, Written, Keyed;
      mask := Configure(IRQ_FLAGS_MASK, 0xf7);
      MaskedOutgoing(old(spi.chip), mask);
      var _ := spi.WriteRegister(IRQ_FLAGS, 0xff);
      ghost var before := spi.chip;
      var keyed;
      keyed, tx := WriteRegisterVerify(OP_MODE, TX);
      copies := Keyed(before.regs[OP_MODE], tx);
      Launched(before, tx);
      OutgoingAgain(before);
    }

    /** Looks at the interrupt flags until the packet is reported as sent, a look fails or the time is up. */
    method AwaitTxDone(polls: nat) returns (done: bool, ghost looks: seq<FlagRead>)
      requires WellFormed(spi.chip)
      modifies this`fault, spi`glitches, spi`flagReads
      ensures spi.flagReads == old(spi.flagReads) + looks && looks != [] && StopsLooking(looks, polls)
      ensures done <==> TxDone(looks[|looks| - 1])
      ensures fault == (old(fault) || GaveUp(looks)) && (done ==> fault == old(fault))
      ensures spi.glitches <= old(spi.glitches)
      ensures spi.glitches == old(spi.glitches) ==> NoFlags !in looks && fault == old(fault)
    {
      hide StillLooking, StopsLooking, Succeeded, GaveUp, TxDone;
      done, looks := false, [];
      NoLooks();
      var left := polls + 1;
      while left > 0
        invariant 0 <= left && spi.glitches <= old(spi.glitches) && fault == old(fault) && !done
        invariant spi.flagReads == old(spi.flagReads) + looks && left + Succeeded(looks) == polls + 1
        invariant StillLooking(looks) && (left <= polls ==> looks != [])
        invariant spi.glitches == old(spi.glitches) ==> NoFlags !in looks
      {
        ghost var budget, before := spi.glitches, looks;
        var read, v := ReadRegisterHarder(IRQ_FLAGS, 4);
        if !read {
          LookFails(before, polls);
          looks := looks + Failures(4);
          return false, looks;
        }
        ghost var failed := budget - spi.glitches;
        looks := looks + (Failures(failed) + [Flags(v)]);
        LookSucceeds(before, failed, v, polls);
        if v / 8 % 2 == 1 {
          return true, looks;
        }
        left := left - 1;
      }
      TimeIsUp(looks, polls);
    }

    /** Sends one packet; polls is how often the interrupt flags are looked at before the deadline. The chip may be told
        to transmit although true is not returned, but only after every byte of a payload that fits was offered to the
        FIFO, at most twice, and the same packet both times; and it is the payload unless a fault is set. What is sent
        follows from how the transfers went, and it is the payload, once, exactly under ExactlyOnce. */
    method SendSimpleMessage(payload: seq<Byte>, polls: nat)
      returns (ok: bool, ghost copies: nat, ghost packet: seq<Byte>, ghost s: Script, ghost looks: seq<FlagRead>)
      requires WellFormed(spi.chip)
      modifies this`fault, this`continuousSetup, spi
      ensures WellFormed(spi.chip)
      ensures |s.bytes| <= |payload| && spi.chip == SendRun(old(spi.chip), old(fault), preamble, payload, s)
      ensures spi.chip.sent == old(spi.chip.sent) + [payload] <==>
              ExactlyOnce(old(spi.chip), old(fault), payload, s)
      ensures spi.flagReads == old(spi.flagReads) + looks
      ensures ok <==> !old(fault) && Flawless(old(spi.chip), preamble, payload, s)
                      && looks != [] && TxDone(looks[|looks| - 1])
      ensures !old(fault) && Flawless(old(spi.chip), preamble, payload, s) ==>
                StopsLooking(looks, polls) && fault == GaveUp(looks)
      ensures spi.glitches == old(spi.glitches) ==> NoFlags !in looks
      ensures old(fault) ==> fault
      ensures ok ==> !fault && |payload| < 128
      ensures spi.chip.sent == old(spi.chip.sent) + Copies(copies, packet) && copies <= 2
      ensures !fault ==> copies >= 1 && packet == payload
      ensures |payload| >= 128 ==> fault && copies == 0
      ensures spi.glitches == old(spi.glitches) && !old(fault) && |payload| < 128 ==>
                !fault && spi.chip.sent == old(spi.chip.sent) + [payload]
    {
      hide Outgoing, Verified, Written, Readied, Filled, Tested, ExactlyOnce, Keyed, Loaded, ReadyToFill,
           SendRun, Flawless, StopsLooking, GaveUp, TxDone, PreparedWell, BytesSeen;
      copies, packet, looks := 0, payload, [];
      var fifoPos;
      fifoPos, s := Prepare(|payload|);
      ghost var ready := spi.chip;
      var filled;
      ghost var bytes, end;
      filled, bytes, end := FillFifo(payload, fifoPos);
      ghost var told := s;
      s := SendScript(told, bytes, end, told.mask, told.tx);
      SendEnds(old(spi.chip), old(fault), preamble, payload, told, s);
      FlawlessParts(old(spi.chip), preamble, payload, told, s);
      if !filled {
        assert Copies(0, packet) == [];
        return false, copies, packet, s, looks;
      }
      ghost var loaded := spi.chip;
      ghost var mask, tx;
      mask, tx, copies := SwitchToTx();
      s := SendScript(told, bytes, end, mask, tx);
      SendEnds(old(spi.chip), old(fault), preamble, payload, told, s);
      FlawlessParts(old(spi.chip), preamble, payload, told, s);
      packet := Outgoing(loaded);
      if fault {
        var read, v := spi.ReadRegister(IRQ_FLAGS);
        looks := if read then [Flags(v)] else [NoFlags];
        return false, copies, packet, s, looks;
      }
      LoadedLeaves(loaded, payload);
      ok, looks := AwaitTxDone(polls);
    }
  }

  /** The registers after Prepare. */
  predicate ReadyToFill(c: Chip, n: nat)
    requires WellFormed(c)
  {
    c.regs[OP_MODE] == STANDBY && c.regs[FIFO_TX_BASE_ADDR] == 0x80 && c.regs[FIFO_ADDR_PTR] == 0x80
    && c.regs[PAYLOAD_LENGTH] == n % 256
  }

  /** The first b bytes are in place and the pointer stands behind them. */
  predicate Filling(c: Chip, payload: seq<Byte>, b: nat)
    requires WellFormed(c)
  {
    b <= |payload| && b <= 128
    && c.regs[OP_MODE] == STANDBY && c.regs[FIFO_TX_BASE_ADDR] == 0x80 && c.regs[FIFO_ADDR_PTR] == (0x80 + b) % 256
    && c.regs[PAYLOAD_LENGTH] == |payload| % 256
    && c.fifo[0x80..0x80 + b] == payload[..b]
  }

  /** Everything the transmitter will read is right. */
  predicate Loaded(c: Chip, payload: seq<Byte>)
    requires WellFormed(c)
  {
    |payload| < 128 && Filling(c, payload, |payload|)
  }

  /** A FIFO write that was lost leaves the pointer behind, which is what the driver looks for; the pointer of the
      128th byte wraps and never passes. */
  lemma FillStep(before: Chip, after: Chip, payload: seq<Byte>, b: nat)
    requires WellFormed(before) && b < |payload| && b < 128 && Filling(before, payload, b)
    requires after == before || after == Written(before, FIFO, payload[b])
    requires after.regs[FIFO_ADDR_PTR] == 0x81 + b
    ensures b < 127 && Filling(after, payload, b + 1)
  {
    assert after.fifo[0x80..0x80 + b + 1] == after.fifo[0x80..0x80 + b] + [after.fifo[0x80 + b]];
    assert payload[..b + 1] == payload[..b] + [payload[b]];
  }

  lemma LoadedLeaves(c: Chip, payload: seq<Byte>)
    requires WellFormed(c) && Loaded(c, payload)
    ensures Outgoing(c) == payload && c.regs[OP_MODE] == STANDBY
  {
    forall i | 0 <= i < |payload|
      ensures c.fifo[(0x80 + i) % 256] == payload[i]
    {
      assert c.fifo[0x80..0x80 + |payload|][i] == payload[i];
    }
  }

  lemma {:induction false} NothingFilled(c: Chip, payload: seq<Byte>, start: Byte)
    requires WellFormed(c)
    ensures Filled(c, payload, []) == c && Tested(c, payload, [], start) && BytesSeen([])
  {
  }

  lemma WrittenFifo(c: Chip, value: Byte)
    requires WellFormed(c)
    ensures Written(c, FIFO, value).sent == c.sent
    ensures Written(c, FIFO, value).regs[FIFO_ADDR_PTR] == (c.regs[FIFO_ADDR_PTR] as int + 1) % 256
  {
  }

  lemma {:induction false} FilledNext(c: Chip, payload: seq<Byte>, bytes: seq<ByteTry>, try: ByteTry, start: Byte)
    requires WellFormed(c) && |bytes| < |payload|
    ensures var before, after := Filled(c, payload, bytes), Filled(c, payload, bytes + [try]);
            && after == (if try.lost then before else Written(before, FIFO, payload[|bytes|]))
            && (Tested(c, payload, bytes + [try], start) <==>
                Tested(c, payload, bytes, start) && Looked(after, try.look) - start - 1 == |bytes|)
            && (BytesSeen(bytes + [try]) <==> BytesSeen(bytes) && try.look.Seen?)
  {
    assert (bytes + [try])[..|bytes|] == bytes;
    hide Written, Looked, Filled, Tested;
    var all := bytes + [try];
    assert all[|bytes|] == try;
    assert forall b | 0 <= b < |bytes| :: all[b] == bytes[b];
  }

  /** Every look so far succeeded and found the packet not sent yet. */
  predicate StillLooking(looks: seq<FlagRead>) {
    (looks != [] ==> looks[|looks| - 1].Flags?) && forall i | 0 <= i < |looks| :: !TxDone(looks[i])
  }

  lemma NoLooks()
    ensures Succeeded([]) == 0 && StillLooking([])
  {
  }

  lemma LookFails(looks: seq<FlagRead>, polls: nat)
    requires StillLooking(looks) && Succeeded(looks) <= polls + 1
    ensures var all := looks + Failures(4); StopsLooking(all, polls) && GaveUp(all) && !TxDone(all[|all| - 1])
  {
    hide Succeeded;
    FailuresSucceed(looks, 4);
  }

  lemma {:induction false} LookSucceeds(looks: seq<FlagRead>, failed: nat, v: Byte, polls: nat)
    requires StillLooking(looks) && Succeeded(looks) <= polls
    ensures var all := looks + (Failures(failed) + [Flags(v)]);
            && Succeeded(all) == Succeeded(looks) + 1 && !GaveUp(all)
            && if v / 8 % 2 == 1 then StopsLooking(all, polls) && TxDone(all[|all| - 1])
               else StillLooking(all)
  {
    FailuresSucceed(looks, failed);
    var all := looks + (Failures(failed) + [Flags(v)]);
    assert all[..|all| - 1] == looks + Failures(failed);
    assert all[|all| - 1] == Flags(v);
  }

  lemma TimeIsUp(looks: seq<FlagRead>, polls: nat)
    requires StillLooking(looks) && looks != [] && Succeeded(looks) == polls + 1
    ensures StopsLooking(looks, polls) && !GaveUp(looks) && !TxDone(looks[|looks| - 1])
  {
    hide Succeeded;
  }

  lemma {:induction false} FailuresSucceed(looks: seq<FlagRead>, n: nat)
    ensures Succeeded(looks + Failures(n)) == Succeeded(looks)
    decreases n
  {
    if n == 0 {
      assert looks + Failures(0) == looks;
    } else {
      FailuresSucceed(looks, n - 1);
      assert (looks + Failures(n))[..|looks| + n - 1] == looks + Failures(n - 1);
    }
  }

  /** The parts of Flawless, when the preparation went as told. */
  lemma FlawlessParts(c: Chip, preamble: Byte, payload: seq<Byte>, told: Script, s: Script)
    requires WellFormed(c) && |s.bytes| <= |payload| && s == SendScript(told, s.bytes, s.end, s.mask, s.tx)
    ensures var ready := Readied(c, false, preamble, |payload|, told);
            Flawless(c, preamble, payload, s) <==>
            && PreparedWell(c, preamble, |payload|, told)
            && GetsThrough(ready, payload, s) && s.end.Seen? && BytesSeen(s.bytes)
            && SwitchedWell(Filled(ready, payload, s.bytes), s)
  {
    hide Verified, Filled, GetsThrough, BytesSeen, SwitchedWell;
  }

  /** The script of a call whose preparation went as told. */
  function SendScript(told: Script, bytes: seq<ByteTry>, end: Look, mask: Tries, tx: Tries): Script {
    told.(bytes := bytes, end := end, mask := mask, tx := tx)
  }

  lemma {:induction false} SendEnds(c: Chip, fault: bool, preamble: Byte, payload: seq<Byte>, told: Script, s: Script)
    requires WellFormed(c) && |s.bytes| <= |payload| && s == SendScript(told, s.bytes, s.end, s.mask, s.tx)
    ensures var ready := Readied(c, fault, preamble, |payload|, told);
            var filled := Filled(ready, payload, s.bytes);
            && s.start == told.start
            && SendRun(c, fault, preamble, payload, s)
            == if GetsThrough(ready, payload, s)
               then Verified(Verified(filled, IRQ_FLAGS_MASK, 0xf7, s.mask).0, OP_MODE, TX, s.tx).0
               else filled
    ensures SendRun(c, fault, preamble, payload, s).sent == c.sent + [payload] <==> ExactlyOnce(c, fault, payload, s)
  {
    hide Verified, Filled, GetsThrough, ExactlyOnce;
    OnlyThePayloadOnce(c, fault, preamble, payload, s);
  }
}
