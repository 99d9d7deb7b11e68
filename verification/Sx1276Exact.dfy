/** When the transmit path sends the payload, once, and nothing else. */
module Sx1276Exact {
  import opened Common
  import opened Sx1276Send

  /** The same packet, k times over. */
  function Copies(k: nat, packet: seq<Byte>): seq<seq<Byte>> {
    seq(k, _ => packet)
  }

  // ---- verified writes ----

  /** What a register holds after a verified write: the old value only when both attempts were lost. */
  function Held(was: Byte, value: Byte, t: Tries): Byte {
    if t.first.lost && t.second.lost then was else value
  }

  lemma VerifiedHolds(c: Chip, reg: Byte, value: Byte, t: Tries)
    requires WellFormed(c) && reg < 128 && reg != FIFO && reg != IRQ_FLAGS && !(reg == OP_MODE && value == TX)
    ensures Verified(c, reg, value, t).0 == c.(regs := c.regs[reg := Held(c.regs[reg], value, t)])
    ensures Verified(c, reg, value, t).1 ==> Held(c.regs[reg], value, t) == value
  {
    assert c.regs[reg := c.regs[reg]] == c.regs;
    assert c.regs[reg := value][reg := value] == c.regs[reg := value];
  }

  /** How many packets a verified switch to the transmitter sends. */
  function Keyed(mode: Byte, t: Tries): nat {
    var confirmed := !t.first.refused && !t.first.unread && (mode == TX || !t.first.lost);
    (if t.first.lost then 0 else 1) + (if confirmed || t.second.lost then 0 else 1)
  }

  lemma OutgoingAgain(c: Chip)
    requires WellFormed(c)
    ensures Outgoing(Written(c, OP_MODE, TX)) == Outgoing(c)
    ensures Written(c, OP_MODE, TX).sent == c.sent + [Outgoing(c)]
    ensures Written(c, OP_MODE, TX).regs[OP_MODE] == TX
  {
  }

  lemma Launched(c: Chip, t: Tries)
    requires WellFormed(c)
    ensures Verified(c, OP_MODE, TX, t).0.sent == c.sent + Copies(Keyed(c.regs[OP_MODE], t), Outgoing(c))
    ensures Verified(c, OP_MODE, TX, t).1 && c.regs[OP_MODE] != TX ==> Keyed(c.regs[OP_MODE], t) >= 1
    ensures Keyed(c.regs[OP_MODE], t) <= 2
  {
    hide Outgoing, Written;
    var once := Written(c, OP_MODE, TX);
    OutgoingAgain(c);
    OutgoingAgain(once);
    var p := Outgoing(c);
    assert Copies(0, p) == [] && Copies(1, p) == [p] && Copies(2, p) == [p] + [p];
  }

  /** A packet leaves twice exactly when the first switch to the transmitter takes effect but is not confirmed, and the
      second takes effect too. */
  lemma SentTwice(c: Chip, t: Tries)
    requires WellFormed(c)
    ensures var sent := Verified(c, OP_MODE, TX, t).0.sent;
            sent == c.sent + [Outgoing(c), Outgoing(c)] <==>
            !t.first.lost && (t.first.refused || t.first.unread) && !t.second.lost
  {
    hide Outgoing, Verified;
    Launched(c, t);
    var k, p := Keyed(c.regs[OP_MODE], t), Outgoing(c);
    assert [p, p] == Copies(2, p);
    assert |c.sent + Copies(k, p)| == |c.sent| + k;
  }

  lemma ReadiedHolds(c: Chip, fault: bool, preamble: Byte, n: nat, s: Script)
    requires WellFormed(c)
    ensures var ready := Readied(c, fault, preamble, n, s);
            && ready.regs[OP_MODE] == ModeThen(c, fault, s)
            && ready.regs[FIFO_TX_BASE_ADDR] == Held(c.regs[FIFO_TX_BASE_ADDR], 0x80, s.base)
            && ready.regs[FIFO_ADDR_PTR] == Held(c.regs[FIFO_ADDR_PTR], 0x80, s.pointer)
            && ready.regs[PAYLOAD_LENGTH] == Held(c.regs[PAYLOAD_LENGTH], n % 256, s.length)
            && ready.fifo == c.fifo && ready.sent == c.sent
  {
    hide Verified, Held;
    VerifiedHolds(c, OP_MODE, STANDBY, s.standby);
    var c0 := if fault then c else Verified(c, OP_MODE, STANDBY, s.standby).0;
    VerifiedHolds(c0, PREAMBLE_LSB, preamble, s.preamble);
    var c1 := Verified(c0, PREAMBLE_LSB, preamble, s.preamble).0;
    VerifiedHolds(c1, FIFO_TX_BASE_ADDR, 0x80, s.base);
    var c2 := Verified(c1, FIFO_TX_BASE_ADDR, 0x80, s.base).0;
    VerifiedHolds(c2, FIFO_ADDR_PTR, 0x80, s.pointer);
    var c3 := Verified(c2, FIFO_ADDR_PTR, 0x80, s.pointer).0;
    VerifiedHolds(c3, MAX_PAYLOAD_LENGTH, 0x80, s.maxLength);
    var c4 := Verified(c3, MAX_PAYLOAD_LENGTH, 0x80, s.maxLength).0;
    VerifiedHolds(c4, PAYLOAD_LENGTH, n % 256, s.length);
  }

  /** The mode in which the FIFO is filled; with a fault at entry the driver does not ask for standby. */
  function ModeThen(c: Chip, fault: bool, s: Script): Byte
    requires WellFormed(c)
  {
    if fault then c.regs[OP_MODE] else Held(c.regs[OP_MODE], STANDBY, s.standby)
  }

  // ---- the FIFO ----

  /** The bytes whose writes took effect. */
  function Kept(payload: seq<Byte>, bytes: seq<ByteTry>): (kept: seq<Byte>)
    requires |bytes| <= |payload|
    ensures |kept| <= |bytes|
    decreases |bytes|
  {
    if bytes == [] then []
    else
      var b := |bytes| - 1;
      Kept(payload, bytes[..b]) + if bytes[b].lost then [] else [payload[b]]
  }

  /** Cell x of a FIFO in which these bytes were written from this place on, around its end. */
  function Cell(fifo: seq<Byte>, at: Byte, kept: seq<Byte>, x: Byte): Byte
    requires |fifo| == 256
  {
    var d := (x - at) % 256;
    if d < |kept| then kept[d] else fifo[x]
  }

  lemma Around(at: Byte, m: nat, x: Byte)
    requires m < 256
    ensures x == (at + m) % 256 <==> (x - at) % 256 == m
  {
  }

  lemma CellNext(fifo: seq<Byte>, at: Byte, kept: seq<Byte>, v: Byte, x: Byte)
    requires |fifo| == 256 && |kept| < 256
    ensures Cell(fifo, at, kept + [v], x)
         == if x == (at + |kept|) % 256 then v else Cell(fifo, at, kept, x)
  {
    Around(at, |kept|, x);
  }

  lemma PointerTurns(at: Byte, n: nat)
    ensures var p := (at + n) % 256; (if p == 255 then 0 else p + 1) == (at + n + 1) % 256
  {
  }

  lemma {:induction false} FilledRegisters(c: Chip, payload: seq<Byte>, bytes: seq<ByteTry>)
    requires WellFormed(c) && |bytes| <= |payload|
    ensures var after, at := Filled(c, payload, bytes), c.regs[FIFO_ADDR_PTR];
            && after.regs == c.regs[FIFO_ADDR_PTR := (at + |Kept(payload, bytes)|) % 256]
            && after.sent == c.sent
    decreases |bytes|
  {
    var at := c.regs[FIFO_ADDR_PTR];
    if bytes == [] {
      assert c.regs[FIFO_ADDR_PTR := at] == c.regs;
    } else {
      var b := |bytes| - 1;
      FilledRegisters(c, payload, bytes[..b]);
      PointerTurns(at, |Kept(payload, bytes[..b])|);
    }
  }

  lemma {:induction false} FilledCells(c: Chip, payload: seq<Byte>, bytes: seq<ByteTry>, x: Byte)
    requires WellFormed(c) && |bytes| <= |payload| && |bytes| <= 256
    ensures Filled(c, payload, bytes).fifo[x] == Cell(c.fifo, c.regs[FIFO_ADDR_PTR], Kept(payload, bytes), x)
    decreases |bytes|
  {
    if bytes != [] {
      hide Cell;
      var b := |bytes| - 1;
      FilledRegisters(c, payload, bytes[..b]);
      FilledCells(c, payload, bytes[..b], x);
      CellNext(c.fifo, c.regs[FIFO_ADDR_PTR], Kept(payload, bytes[..b]), payload[b], x);
    } else {
      NoBytes(c.fifo, c.regs[FIFO_ADDR_PTR], x);
    }
  }

  lemma NoBytes(fifo: seq<Byte>, at: Byte, x: Byte)
    requires |fifo| == 256
    ensures Cell(fifo, at, [], x) == fifo[x]
  {
  }

  // ---- the tests of the pointer ----

  /** What a look at the pointer shows when it started here and that many bytes have been taken. */
  function Pointed(at: Byte, taken: nat, look: Look): Byte {
    match look
    case Seen => (at + taken) % 256
    case Blind(noise) => noise
  }

  predicate BytesPass(at: Byte, payload: seq<Byte>, bytes: seq<ByteTry>, start: Byte)
    requires |bytes| <= |payload|
    decreases |bytes|
  {
    bytes != [] ==>
      var b := |bytes| - 1;
      && BytesPass(at, payload, bytes[..b], start)
      && Pointed(at, |Kept(payload, bytes)|, bytes[b].look) - start - 1 == b
  }

  /** All tests of the pointer pass, when it stands at this place before the first byte. */
  predicate Passes(at: Byte, payload: seq<Byte>, s: Script) {
    && |s.bytes| == |payload| && BytesPass(at, payload, s.bytes, Pointed(at, 0, s.start))
    && Pointed(at, |Kept(payload, s.bytes)|, s.end) == 0x80 + |payload|
  }

  lemma {:induction false} TestedPasses(c: Chip, payload: seq<Byte>, bytes: seq<ByteTry>, start: Byte)
    requires WellFormed(c) && |bytes| <= |payload|
    ensures Tested(c, payload, bytes, start) <==> BytesPass(c.regs[FIFO_ADDR_PTR], payload, bytes, start)
    decreases |bytes|
  {
    hide Filled, Kept;
    if bytes != [] {
      TestedPasses(c, payload, bytes[..|bytes| - 1], start);
      FilledRegisters(c, payload, bytes);
    }
  }

  lemma {:induction false} ThroughPasses(c: Chip, payload: seq<Byte>, s: Script)
    requires WellFormed(c)
    ensures GetsThrough(c, payload, s) <==> Passes(c.regs[FIFO_ADDR_PTR], payload, s)
  {
    hide Filled, Kept, Tested, BytesPass;
    if |s.bytes| == |payload| {
      TestedPasses(c, payload, s.bytes, Looked(c, s.start));
      FilledRegisters(c, payload, s.bytes);
    }
  }

  // ---- what is sent ----

  /** The packet the transmitter finds: so many cells from the base on. */
  function Found(fifo: seq<Byte>, at: Byte, kept: seq<Byte>, base: Byte, length: Byte): (packet: seq<Byte>)
    requires |fifo| == 256
    ensures |packet| == length
    ensures forall i | 0 <= i < length :: packet[i] == Cell(fifo, at, kept, (base + i) % 256)
  {
    seq<Byte>(length, i requires 0 <= i < length => Cell(fifo, at, kept, (base + i) % 256))
  }

  /** In place of the registers: what the base, the pointer and the length hold when the FIFO is filled. */
  function BaseThen(c: Chip, s: Script): Byte
    requires WellFormed(c)
  {
    Held(c.regs[FIFO_TX_BASE_ADDR], 0x80, s.base)
  }

  function PointerThen(c: Chip, s: Script): Byte
    requires WellFormed(c)
  {
    Held(c.regs[FIFO_ADDR_PTR], 0x80, s.pointer)
  }

  function LengthThen(c: Chip, n: nat, s: Script): Byte
    requires WellFormed(c)
  {
    Held(c.regs[PAYLOAD_LENGTH], n % 256, s.length)
  }

  function PacketThen(c: Chip, payload: seq<Byte>, s: Script): seq<Byte>
    requires WellFormed(c) && |s.bytes| <= |payload|
  {
    Found(c.fifo, PointerThen(c, s), Kept(payload, s.bytes), BaseThen(c, s), LengthThen(c, |payload|, s))
  }

  lemma {:induction false} FilledOutgoing(c: Chip, payload: seq<Byte>, bytes: seq<ByteTry>)
    requires WellFormed(c) && |bytes| <= |payload| && |bytes| <= 256
    ensures var at, base, length := c.regs[FIFO_ADDR_PTR], c.regs[FIFO_TX_BASE_ADDR], c.regs[PAYLOAD_LENGTH];
            Outgoing(Filled(c, payload, bytes)) == Found(c.fifo, at, Kept(payload, bytes), base, length)
  {
    hide Filled, Kept, Cell;
    FilledRegisters(c, payload, bytes);
    forall x: Byte
      ensures Filled(c, payload, bytes).fifo[x] == Cell(c.fifo, c.regs[FIFO_ADDR_PTR], Kept(payload, bytes), x)
    {
      FilledCells(c, payload, bytes, x);
    }
  }

  lemma MaskedOutgoing(c: Chip, t: Tries)
    requires WellFormed(c)
    ensures var after := Verified(c, IRQ_FLAGS_MASK, 0xf7, t).0;
            Outgoing(after) == Outgoing(c) && after.sent == c.sent && after.regs[OP_MODE] == c.regs[OP_MODE]
  {
    hide Verified;
    VerifiedHolds(c, IRQ_FLAGS_MASK, 0xf7, t);
  }

  lemma PassesShort(at: Byte, payload: seq<Byte>, s: Script)
    requires Passes(at, payload, s)
    ensures |payload| < 128 && |s.bytes| == |payload|
  {
    hide BytesPass, Kept;
  }

  /** Every call of SendSimpleMessage sends one packet a number of times, and both follow from the chip before it and
      from how the transfers went. */
  lemma {:induction false} RunSends(c: Chip, fault: bool, preamble: Byte, payload: seq<Byte>, s: Script)
    requires WellFormed(c) && |s.bytes| <= |payload|
    ensures var times := if Passes(PointerThen(c, s), payload, s) then Keyed(ModeThen(c, fault, s), s.tx) else 0;
            SendRun(c, fault, preamble, payload, s).sent == c.sent + Copies(times, PacketThen(c, payload, s))
  {
    hide Readied, Filled, Verified, GetsThrough, Passes, Keyed, Held, Kept, Outgoing, Found, ModeThen;
    var ready := Readied(c, fault, preamble, |payload|, s);
    ReadiedHolds(c, fault, preamble, |payload|, s);
    ThroughPasses(ready, payload, s);
    var filled := Filled(ready, payload, s.bytes);
    FilledRegisters(ready, payload, s.bytes);
    if Passes(PointerThen(c, s), payload, s) {
      PassesShort(PointerThen(c, s), payload, s);
      FilledOutgoing(ready, payload, s.bytes);
      MaskedOutgoing(filled, s.mask);
      Launched(Verified(filled, IRQ_FLAGS_MASK, 0xf7, s.mask).0, s.tx);
    } else {
      assert Copies(0, PacketThen(c, payload, s)) == [];
    }
  }

  /** The packet found is the payload: the length fits, and so does every cell from the base on, whether it was written
      now or held that byte before. */
  predicate RightPacket(c: Chip, payload: seq<Byte>, s: Script)
    requires WellFormed(c) && |s.bytes| <= |payload|
  {
    && LengthThen(c, |payload|, s) == |payload|
    && forall i | 0 <= i < |payload| ::
         Cell(c.fifo, PointerThen(c, s), Kept(payload, s.bytes), (BaseThen(c, s) + i) % 256) == payload[i]
  }

  lemma PacketIsRight(c: Chip, payload: seq<Byte>, s: Script)
    requires WellFormed(c) && |s.bytes| <= |payload|
    ensures PacketThen(c, payload, s) == payload <==> RightPacket(c, payload, s)
  {
    hide Cell, Kept, Held;
    var packet := PacketThen(c, payload, s);
    if packet == payload {
      assert forall i | 0 <= i < |payload| :: packet[i] == payload[i];
    }
  }

  /** All tests of the pointer pass, one switch to the transmitter takes effect, and the packet found is the payload. */
  predicate ExactlyOnce(c: Chip, fault: bool, payload: seq<Byte>, s: Script)
    requires WellFormed(c) && |s.bytes| <= |payload|
  {
    && Passes(PointerThen(c, s), payload, s) && Keyed(ModeThen(c, fault, s), s.tx) == 1
    && RightPacket(c, payload, s)
  }

  /** SendSimpleMessage sends the payload, once, and nothing else, exactly under that condition. */
  lemma {:induction false} OnlyThePayloadOnce(c: Chip, fault: bool, preamble: Byte, payload: seq<Byte>, s: Script)
    requires WellFormed(c) && |s.bytes| <= |payload|
    ensures SendRun(c, fault, preamble, payload, s).sent == c.sent + [payload] <==> ExactlyOnce(c, fault, payload, s)
  {
    hide SendRun, Passes, Keyed, RightPacket, PacketThen, PointerThen, ModeThen;
    RunSends(c, fault, preamble, payload, s);
    PacketIsRight(c, payload, s);
    var times := if Passes(PointerThen(c, s), payload, s) then Keyed(ModeThen(c, fault, s), s.tx) else 0;
    CopiesOf(c.sent, times, PacketThen(c, payload, s), payload);
  }

  lemma CopiesOf(sent: seq<seq<Byte>>, k: nat, packet: seq<Byte>, payload: seq<Byte>)
    ensures sent + Copies(k, packet) == sent + [payload] <==> k == 1 && packet == payload
  {
    var all := sent + Copies(k, packet);
    assert |all| == |sent| + k;
    if k == 1 {
      assert Copies(k, packet) == [packet];
      assert all[|sent|] == packet;
    }
  }

  /** Something other than the payload is sent exactly when the tests pass, a switch takes effect, and the packet found
      is not the payload. */
  lemma {:induction false} WrongPacketGoesOut(c: Chip, fault: bool, preamble: Byte, payload: seq<Byte>, s: Script)
    requires WellFormed(c) && |s.bytes| <= |payload|
    ensures var sent := SendRun(c, fault, preamble, payload, s).sent;
            && c.sent <= sent
            && ((exists k | |c.sent| <= k < |sent| :: sent[k] != payload) <==>
                && Passes(PointerThen(c, s), payload, s) && Keyed(ModeThen(c, fault, s), s.tx) >= 1
                && !RightPacket(c, payload, s))
  {
    hide SendRun, Passes, Keyed, RightPacket, PacketThen, PointerThen, ModeThen;
    RunSends(c, fault, preamble, payload, s);
    PacketIsRight(c, payload, s);
    var sent := SendRun(c, fault, preamble, payload, s).sent;
    if |sent| > |c.sent| && PacketThen(c, payload, s) != payload {
      assert sent[|c.sent|] != payload;
    }
  }

  // ---- the causes, one by one ----

  predicate NoneLost(bytes: seq<ByteTry>) {
    forall b | 0 <= b < |bytes| :: !bytes[b].lost
  }

  predicate AllSeen(s: Script) {
    s.start.Seen? && s.end.Seen? && BytesSeen(s.bytes)
  }

  lemma {:induction false} KeptAll(payload: seq<Byte>, bytes: seq<ByteTry>)
    requires |bytes| <= |payload| && NoneLost(bytes)
    ensures Kept(payload, bytes) == payload[..|bytes|]
    decreases |bytes|
  {
    if bytes != [] {
      var b := |bytes| - 1;
      KeptAll(payload, bytes[..b]);
      assert payload[..b] + [payload[b]] == payload[..b + 1];
    }
  }

  lemma {:induction false} SeenBytesPass(at: Byte, payload: seq<Byte>, bytes: seq<ByteTry>)
    requires |bytes| <= |payload| && BytesSeen(bytes)
    ensures BytesPass(at, payload, bytes, at) <==> NoneLost(bytes) && at + |bytes| <= 255
    decreases |bytes|
  {
    if bytes != [] {
      var b := |bytes| - 1;
      var before := bytes[..b];
      SeenBytesPass(at, payload, before);
      assert NoneLost(bytes) <==> NoneLost(before) && !bytes[b].lost;
      if NoneLost(before) && at + b <= 255 {
        KeptAll(payload, before);
        assert |Kept(payload, bytes)| == if bytes[b].lost then b else b + 1;
      }
    }
  }

  /** While every look at the pointer is a true one, the tests let exactly the runs through in which the pointer was
      set, no byte was lost, and the payload fits. */
  lemma {:induction false} SeenPasses(at: Byte, payload: seq<Byte>, s: Script)
    requires AllSeen(s) && |s.bytes| <= |payload|
    ensures Passes(at, payload, s) <==>
            |s.bytes| == |payload| && at == 0x80 && |payload| < 128 && NoneLost(s.bytes)
  {
    SeenBytesPass(at, payload, s.bytes);
    if NoneLost(s.bytes) {
      KeptAll(payload, s.bytes);
    }
    hide BytesPass, Kept;
  }

  lemma {:induction false} KeptCount(payload: seq<Byte>, bytes: seq<ByteTry>)
    requires |bytes| <= |payload|
    ensures |Kept(payload, bytes)| == |bytes| <==> NoneLost(bytes)
    decreases |bytes|
  {
    if bytes != [] {
      var b := |bytes| - 1;
      KeptCount(payload, bytes[..b]);
      assert NoneLost(bytes) <==> NoneLost(bytes[..b]) && !bytes[b].lost;
    }
  }

  /** The test behind the last of these bytes, when the pointer was seen here before the first one: a true look finds
      every loss so far, a failed one nothing but what it left behind. */
  predicate LookPasses(at: Byte, bytes: seq<ByteTry>)
    requires bytes != []
  {
    match bytes[|bytes| - 1].look
    case Seen => NoneLost(bytes) && at + |bytes| <= 255
    case Blind(noise) => noise == at + |bytes|
  }

  lemma {:induction false} BytesPassByLook(at: Byte, payload: seq<Byte>, bytes: seq<ByteTry>)
    requires |bytes| <= |payload|
    ensures BytesPass(at, payload, bytes, at) <==> forall k | 1 <= k <= |bytes| :: LookPasses(at, bytes[..k])
    decreases |bytes|
  {
    if bytes != [] {
      var b := |bytes| - 1;
      BytesPassByLook(at, payload, bytes[..b]);
      assert forall k | 1 <= k <= b :: bytes[..b][..k] == bytes[..k];
      assert bytes[..b + 1] == bytes;
      LastLook(at, payload, bytes);
      hide LookPasses, Pointed, Kept;
    }
  }

  lemma {:induction false} LastLook(at: Byte, payload: seq<Byte>, bytes: seq<ByteTry>)
    requires |bytes| <= |payload| && bytes != []
    ensures var b := |bytes| - 1;
            Pointed(at, |Kept(payload, bytes)|, bytes[b].look) - at - 1 == b <==> LookPasses(at, bytes)
  {
    hide Kept, NoneLost;
    KeptCount(payload, bytes);
  }

  /** A lost byte, or any other failure in the FIFO, gets past the driver exactly when every look at the pointer from
      the first loss to the end failed and left the expected value behind. */
  lemma {:induction false} LossHidden(payload: seq<Byte>, s: Script)
    requires s.start.Seen? && |s.bytes| == |payload|
    ensures Passes(0x80, payload, s) <==>
            && |payload| < 128
            && (forall k | 1 <= k <= |payload| :: LookPasses(0x80, s.bytes[..k]))
            && if s.end.Seen? then NoneLost(s.bytes) else s.end.noise == 0x80 + |payload|
  {
    hide BytesPass, LookPasses, Kept, NoneLost;
    BytesPassByLook(0x80, payload, s.bytes);
    KeptCount(payload, s.bytes);
  }

  /** Whatever the first look showed: a lost byte or an unset pointer gets past only behind a look that failed. */
  lemma {:induction false} HiddenLoss(at: Byte, payload: seq<Byte>, s: Script)
    requires |s.bytes| <= |payload| && Passes(at, payload, s) && (at != 0x80 || !NoneLost(s.bytes))
    ensures s.start.Blind? || s.end.Blind? || exists b | 0 <= b < |s.bytes| :: s.bytes[b].look.Blind?
  {
    hide Passes, NoneLost;
    if AllSeen(s) {
      SeenPasses(at, payload, s);
    }
  }

  lemma Shown(fifo: seq<Byte>, payload: seq<Byte>, i: nat)
    requires |fifo| == 256 && i < |payload| < 128
    ensures Cell(fifo, 0x80, payload, (0x80 + i) % 256) == payload[i]
  {
  }

  /** The cells from a base on show the payload when it was written from 0x80 on. */
  predicate ShowsFrom(c: Chip, payload: seq<Byte>, base: Byte)
    requires WellFormed(c)
  {
    forall i | 0 <= i < |payload| :: Cell(c.fifo, 0x80, payload, (base + i) % 256) == payload[i]
  }

  lemma ShowsFrom80(c: Chip, payload: seq<Byte>)
    requires WellFormed(c) && |payload| < 128
    ensures ShowsFrom(c, payload, 0x80)
  {
    hide Cell;
    forall i | 0 <= i < |payload|
      ensures Cell(c.fifo, 0x80, payload, (0x80 + i) % 256) == payload[i]
    {
      Shown(c.fifo, payload, i);
    }
  }

  /** A length that could not be written lets a wrong packet out exactly when the register held another length. */
  lemma {:induction false} StaleLengthGoesOut(c: Chip, payload: seq<Byte>, s: Script)
    requires WellFormed(c) && |payload| < 128 && |s.bytes| == |payload| && NoneLost(s.bytes)
    requires PointerThen(c, s) == 0x80 && BaseThen(c, s) == 0x80
    ensures PacketThen(c, payload, s) != payload <==>
            s.length.first.lost && s.length.second.lost && c.regs[PAYLOAD_LENGTH] != |payload|
  {
    hide Cell, PointerThen, BaseThen, NoneLost, PacketThen, ShowsFrom;
    PacketIsRight(c, payload, s);
    ShowsFrom80(c, payload);
    if LengthThen(c, |payload|, s) == |payload| {
      RightFromBase(c, payload, s);
    }
    hide Kept;
  }

  lemma {:induction false} RightFromBase(c: Chip, payload: seq<Byte>, s: Script)
    requires WellFormed(c) && |payload| < 128 && |s.bytes| == |payload| && NoneLost(s.bytes)
    requires PointerThen(c, s) == 0x80 && LengthThen(c, |payload|, s) == |payload|
    ensures RightPacket(c, payload, s) <==> ShowsFrom(c, payload, BaseThen(c, s))
  {
    hide Cell, PointerThen, LengthThen, BaseThen, NoneLost;
    KeptAll(payload, s.bytes);
    assert payload[..|payload|] == payload;
    hide Kept;
  }

  /** A base that could not be written lets a wrong packet out exactly when the cells from the old base on, after the
      payload was written from 0x80 on, do not happen to hold the payload too. */
  lemma {:induction false} StaleBaseGoesOut(c: Chip, payload: seq<Byte>, s: Script)
    requires WellFormed(c) && |payload| < 128 && |s.bytes| == |payload| && NoneLost(s.bytes)
    requires PointerThen(c, s) == 0x80 && LengthThen(c, |payload|, s) == |payload|
    ensures PacketThen(c, payload, s) != payload <==>
            && s.base.first.lost && s.base.second.lost
            && !ShowsFrom(c, payload, c.regs[FIFO_TX_BASE_ADDR])
  {
    hide Cell, PointerThen, LengthThen, NoneLost, PacketThen, RightPacket, ShowsFrom;
    PacketIsRight(c, payload, s);
    RightFromBase(c, payload, s);
    ShowsFrom80(c, payload);
  }

  lemma MovedUp(fifo: seq<Byte>, kept: seq<Byte>, n: nat, i: nat)
    requires |fifo| == 256 && |kept| <= n < 128 && i < n
    ensures Cell(fifo, 0x80, kept, (0x80 + i) % 256) == (kept + fifo[0x80 + |kept|..0x80 + n])[i]
  {
  }

  /** Lost bytes that get past the driver let a wrong packet out exactly when the bytes that were kept, moved up, and
      the old cells behind them do not happen to be the payload. */
  lemma {:induction false} LostBytesGoOut(c: Chip, payload: seq<Byte>, s: Script)
    requires WellFormed(c) && |payload| < 128 && |s.bytes| == |payload|
    requires PointerThen(c, s) == 0x80 && BaseThen(c, s) == 0x80 && LengthThen(c, |payload|, s) == |payload|
    ensures var kept := Kept(payload, s.bytes);
            PacketThen(c, payload, s) != payload <==> kept + c.fifo[0x80 + |kept|..0x80 + |payload|] != payload
  {
    hide Kept, Cell, PointerThen, BaseThen, LengthThen;
    var kept := Kept(payload, s.bytes);
    var packet, cells := PacketThen(c, payload, s), kept + c.fifo[0x80 + |kept|..0x80 + |payload|];
    forall i | 0 <= i < |payload|
      ensures packet[i] == cells[i]
    {
      MovedUp(c.fifo, kept, |payload|, i);
    }
    assert packet == cells;
  }

  /** Nothing is sent exactly when no switch to the transmitter takes effect; that passes for success only when the
      transmitter was on before, which standby at entry excludes. */
  lemma NothingKeyed(mode: Byte, t: Tries)
    ensures Keyed(mode, t) == 0 <==>
            t.first.lost && (t.second.lost || (mode == TX && !t.first.refused && !t.first.unread))
  {
  }

  /** With true looks only, the whole condition in terms of the transfers and the registers before the call. */
  lemma {:induction false} ExactWhenSeen(c: Chip, fault: bool, payload: seq<Byte>, s: Script)
    requires WellFormed(c) && |s.bytes| <= |payload| && AllSeen(s)
    ensures ExactlyOnce(c, fault, payload, s) <==>
            && |s.bytes| == |payload| && |payload| < 128 && NoneLost(s.bytes)
            && PointerThen(c, s) == 0x80 && LengthThen(c, |payload|, s) == |payload|
            && ShowsFrom(c, payload, BaseThen(c, s))
            && Keyed(ModeThen(c, fault, s), s.tx) == 1
  {
    hide Cell, PointerThen, BaseThen, NoneLost, ShowsFrom, Keyed, Passes, ModeThen;
    SeenPasses(PointerThen(c, s), payload, s);
    if && Passes(PointerThen(c, s), payload, s) && LengthThen(c, |payload|, s) == |payload| {
      RightFromBase(c, payload, s);
    }
  }

  // ---- when true is returned ----

  /** A verified write ends with an attempt that is neither refused nor unread and finds the value in the register. */
  predicate Confirmed(was: Byte, value: Byte, t: Tries) {
    || (!t.first.refused && !t.first.unread && (!t.first.lost || was == value))
    || (!t.second.refused && !t.second.unread && (!t.second.lost || !t.first.lost || was == value))
  }

  lemma VerifiedConfirmed(c: Chip, reg: Byte, value: Byte, t: Tries)
    requires WellFormed(c) && reg < 128 && reg != FIFO && reg != IRQ_FLAGS
    ensures Verified(c, reg, value, t).1 <==> Confirmed(c.regs[reg], value, t)
    ensures Verified(c, reg, value, t).1 ==> Verified(c, reg, value, t).0.regs[reg] == value
  {
  }

  lemma ConfirmedNext(c: Chip, reg: Byte, value: Byte, t: Tries)
    requires WellFormed(c) && reg < 128 && reg != FIFO && reg != IRQ_FLAGS && !(reg == OP_MODE && value == TX)
    ensures var r := Verified(c, reg, value, t);
            && (r.1 <==> Confirmed(c.regs[reg], value, t))
            && (r.1 ==> r.0.regs[reg] == value)
            && forall other: Byte | other < 128 && other != reg :: r.0.regs[other] == c.regs[other]
  {
    hide Verified, Confirmed, Held;
    VerifiedHolds(c, reg, value, t);
    VerifiedConfirmed(c, reg, value, t);
  }

  lemma PreparedWhen(c: Chip, preamble: Byte, n: nat, s: Script)
    requires WellFormed(c)
    ensures PreparedWell(c, preamble, n, s) <==>
            && s.start.Seen?
            && Confirmed(c.regs[OP_MODE], STANDBY, s.standby) && Confirmed(c.regs[PREAMBLE_LSB], preamble, s.preamble)
            && Confirmed(c.regs[FIFO_TX_BASE_ADDR], 0x80, s.base) && Confirmed(c.regs[FIFO_ADDR_PTR], 0x80, s.pointer)
            && Confirmed(c.regs[MAX_PAYLOAD_LENGTH], 0x80, s.maxLength)
            && Confirmed(c.regs[PAYLOAD_LENGTH], n % 256, s.length)
    ensures PreparedWell(c, preamble, n, s) ==>
              var ready := Readied(c, false, preamble, n, s);
              && ready.regs[OP_MODE] == STANDBY && ready.regs[FIFO_ADDR_PTR] == 0x80
              && ready.regs[IRQ_FLAGS_MASK] == c.regs[IRQ_FLAGS_MASK]
  {
    hide Verified, Confirmed;
    var c0 := Verified(c, OP_MODE, STANDBY, s.standby).0;
    var c1 := Verified(c0, PREAMBLE_LSB, preamble, s.preamble).0;
    var c2 := Verified(c1, FIFO_TX_BASE_ADDR, 0x80, s.base).0;
    var c3 := Verified(c2, FIFO_ADDR_PTR, 0x80, s.pointer).0;
    var c4 := Verified(c3, MAX_PAYLOAD_LENGTH, 0x80, s.maxLength).0;
    ConfirmedNext(c, OP_MODE, STANDBY, s.standby);
    ConfirmedNext(c0, PREAMBLE_LSB, preamble, s.preamble);
    ConfirmedNext(c1, FIFO_TX_BASE_ADDR, 0x80, s.base);
    ConfirmedNext(c2, FIFO_ADDR_PTR, 0x80, s.pointer);
    ConfirmedNext(c3, MAX_PAYLOAD_LENGTH, 0x80, s.maxLength);
    ConfirmedNext(c4, PAYLOAD_LENGTH, n % 256, s.length);
  }

  /** Nothing gives the driver a reason to set the fault exactly when every verified write is confirmed, every look at
      the pointer succeeds, no byte of the payload is lost, and it has at most 127 bytes. */
  lemma {:induction false} FlawlessWhen(c: Chip, preamble: Byte, payload: seq<Byte>, s: Script)
    requires WellFormed(c) && |s.bytes| <= |payload|
    ensures Flawless(c, preamble, payload, s) <==>
            && Confirmed(c.regs[OP_MODE], STANDBY, s.standby) && Confirmed(c.regs[PREAMBLE_LSB], preamble, s.preamble)
            && Confirmed(c.regs[FIFO_TX_BASE_ADDR], 0x80, s.base) && Confirmed(c.regs[FIFO_ADDR_PTR], 0x80, s.pointer)
            && Confirmed(c.regs[MAX_PAYLOAD_LENGTH], 0x80, s.maxLength)
            && Confirmed(c.regs[PAYLOAD_LENGTH], |payload| % 256, s.length)
            && AllSeen(s) && |s.bytes| == |payload| && |payload| < 128 && NoneLost(s.bytes)
            && Confirmed(c.regs[IRQ_FLAGS_MASK], 0xf7, s.mask) && Confirmed(STANDBY, TX, s.tx)
  {
    hide Verified, Confirmed, Filled, GetsThrough, PreparedWell, Readied, Passes, NoneLost, BytesSeen, Kept;
    PreparedWhen(c, preamble, |payload|, s);
    var ready := Readied(c, false, preamble, |payload|, s);
    if PreparedWell(c, preamble, |payload|, s) {
      ThroughPasses(ready, payload, s);
      FilledRegisters(ready, payload, s.bytes);
      SwitchedWhen(Filled(ready, payload, s.bytes), s);
      if AllSeen(s) {
        SeenPasses(0x80, payload, s);
      }
    }
  }

  lemma SwitchedWhen(c: Chip, s: Script)
    requires WellFormed(c)
    ensures SwitchedWell(c, s) <==>
            Confirmed(c.regs[IRQ_FLAGS_MASK], 0xf7, s.mask) && Confirmed(c.regs[OP_MODE], TX, s.tx)
  {
    hide Verified, Confirmed;
    ConfirmedNext(c, IRQ_FLAGS_MASK, 0xf7, s.mask);
    VerifiedConfirmed(Verified(c, IRQ_FLAGS_MASK, 0xf7, s.mask).0, OP_MODE, TX, s.tx);
  }

  /** Where the driver stops looking, the last look tells whether any has seen the packet leave: the first one that does
      ends the wait, and without a failed read it is the only way not to run out of time. */
  lemma LastLookTells(looks: seq<FlagRead>, polls: nat)
    requires StopsLooking(looks, polls)
    ensures TxDone(looks[|looks| - 1]) <==> exists i | 0 <= i < |looks| :: TxDone(looks[i])
    ensures TxDone(looks[0]) ==> |looks| == 1
    ensures NoFlags !in looks && !TxDone(looks[|looks| - 1]) ==> Succeeded(looks) == polls + 1
  {
    hide Succeeded;
  }
}
