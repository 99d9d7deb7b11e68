/** The 1-Wire bus as the driver sees it: a wired-AND of the devices that are
    still taking part, which each 0 or 1 written by the master thins out. */
module OneWireBus {
  import opened Bits
  import opened RomOrder

  /** Dallas command bytes. driver/ds18b20.h, which names them, is not part of this model. */
  const SEARCH_ROM: bv8 := 0xF0
  const MATCH_ROM: bv8 := 0x55
  const SKIP_ROM: bv8 := 0xCC
  const CONVERT_T: bv8 := 0x44
  const READ_SCRATCHPAD: bv8 := 0xBE
  const SCRATCHPAD_SIZE: nat := 9

  /** What the devices expect next. */
  datatype Phase =
    | Idle
    | RomCommand(got: seq<bool>)
    | Searching(pos: nat, half: nat)
    | Addressing(pos: nat)
    | FunctionCommand(got: seq<bool>)
    | Sending(pos: nat)

  datatype State = State(phase: Phase, active: set<Rom>)

  function RomCommandPhase(bits: seq<bool>): Phase {
    if |bits| < 8 then RomCommand(bits)
    else if bits == BitsOf([SEARCH_ROM]) then Searching(0, 0)
    else if bits == BitsOf([MATCH_ROM]) then Addressing(0)
    else if bits == BitsOf([SKIP_ROM]) then FunctionCommand([])
    else Idle
  }

  function FunctionCommandPhase(bits: seq<bool>): Phase {
    if |bits| < 8 then FunctionCommand(bits)
    else if bits == BitsOf([READ_SCRATCHPAD]) then Sending(0)
    else Idle
  }

  /** Devices whose bit `k` differs from the one written drop out. */
  function Thin(active: set<Rom>, k: nat, v: bool): set<Rom>
    requires k < ROM_BITS
  {
    set d | d in active && d[k] == v
  }

  function AfterWrite(s: State, v: bool): State {
    match s.phase
    case RomCommand(got) => s.(phase := RomCommandPhase(got + [v]))
    case FunctionCommand(got) => s.(phase := FunctionCommandPhase(got + [v]))
    case Searching(pos, 2) =>
      if pos < ROM_BITS then
        State(if pos + 1 < ROM_BITS then Searching(pos + 1, 0) else Idle, Thin(s.active, pos, v))
      else s
    case Addressing(pos) =>
      if pos < ROM_BITS then
        State(if pos + 1 < ROM_BITS then Addressing(pos + 1) else FunctionCommand([]), Thin(s.active, pos, v))
      else s
    case _ => s.(phase := Idle)
  }

  function AfterWrites(s: State, bits: seq<bool>): State {
    if bits == [] then s else AfterWrite(AfterWrites(s, bits[..|bits| - 1]), bits[|bits| - 1])
  }

  class Bus {
    /** Every device on the wire with the scratchpad it answers with. */
    const scratchpads: map<Rom, seq<bv8>>
    var state: State

    constructor (scratchpads: map<Rom, seq<bv8>>)
      ensures this.scratchpads == scratchpads
    {
      this.scratchpads := scratchpads;
      state := State(Idle, {});
    }

    ghost predicate WellFormed() {
      forall d | d in scratchpads :: |scratchpads[d]| == SCRATCHPAD_SIZE
    }

    function Devices(): set<Rom> {
      scratchpads.Keys
    }

    /** Bit `k` of what device `d` sends back. */
    function Sent(d: Rom, k: nat): bool
      requires d in scratchpads
    {
      k < 8 * |scratchpads[d]| && BitsOf(scratchpads[d])[k]
    }

    /** Reset pulse: every device listens again; answers whether any device is there. */
    method Reset() returns (presence: bool)
      modifies this
      ensures state == State(RomCommand([]), Devices())
      ensures presence <==> Devices() != {}
    {
      state := State(RomCommand([]), Devices());
      presence := Devices() != {};
    }

    method WriteBit(v: bool)
      modifies this
      ensures state == AfterWrite(old(state), v)
    {
      state := AfterWrite(state, v);
    }

    /** A read slot. The line is high only if no active device pulls it low. */
    method ReadBit() returns (r: bool)
      modifies this
      ensures match old(state.phase)
        case Searching(pos, 0) => pos < ROM_BITS ==>
          r == AllHave(old(state.active), pos, true) && state == old(state).(phase := Searching(pos, 1))
        case Searching(pos, 1) => pos < ROM_BITS ==>
          r == AllHave(old(state.active), pos, false) && state == old(state).(phase := Searching(pos, 2))
        case Sending(pos) =>
          && (r <==> forall d | d in old(state.active) && d in scratchpads :: Sent(d, pos))
          && state == old(state).(phase := Sending(pos + 1))
        case _ => r && state == old(state)
    {
      r := true;
      match state.phase
      case Searching(pos, 0) =>
        if pos < ROM_BITS {
          r := AllHave(state.active, pos, true);
          state := state.(phase := Searching(pos, 1));
        }
      case Searching(pos, 1) =>
        if pos < ROM_BITS {
          r := AllHave(state.active, pos, false);
          state := state.(phase := Searching(pos, 2));
        }
      case Sending(pos) =>
        r := forall d | d in state.active && d in scratchpads :: Sent(d, pos);
        state := state.(phase := Sending(pos + 1));
      case _ =>
    }

    /** `write`: one byte, least significant bit first. */
    method Write(v: bv8)
      modifies this
      ensures state == AfterWrites(old(state), BitsOf([v]))
    {
      hide BitsOf, Bit, Mask, AfterWrite, AfterWrites;
      var bitMask: bv8 := 0x01;
      ghost var i: nat, bits, start := 0, BitsOf([v]), state;
      FirstMask();
      ShiftMask(0);
      NoWrites(start, bits);
      while bitMask != 0
        invariant i <= 8 && bitMask == if i == 8 then 0 else Mask(i)
        invariant i < 8 ==> bitMask != 0
        invariant state == AfterWrites(start, bits[..i])
        decreases 8 - i
      {
        ShiftMask(i);
        ByteBit(v, i);
        WritesNext(start, bits, i);
        WriteBit(bitMask & v != 0);
        bitMask := bitMask << 1;
        i := i + 1;
      }
      assert bits[..8] == bits;
    }

    /** `read`: one byte of the only active device's scratchpad, least significant bit first. */
    method Read(ghost d: Rom, ghost n: nat) returns (r: bv8)
      requires d in scratchpads && n < |scratchpads[d]|
      requires state == State(Sending(8 * n), {d})
      modifies this
      ensures state == State(Sending(8 * n + 8), {d})
      ensures r == scratchpads[d][n]
    {
      var bitMask: bv8 := 0x01;
      r := 0;
      ghost var i: nat := 0;
      while bitMask != 0
        invariant i <= 8 && bitMask == if i == 8 then 0 else Mask(i)
        invariant state == State(Sending(8 * n + i), {d})
        invariant Assembled(r, scratchpads[d][n], i)
        decreases 8 - i
      {
        ShiftMask(i);
        assert (8 * n + i) / 8 == n && (8 * n + i) % 8 == i;
        var b := ReadBit();
        AssembleBit(r, scratchpads[d][n], i);
        if b { r := r | bitMask; }
        bitMask := bitMask << 1;
        i := i + 1;
      }
      SameBits(r, scratchpads[d][n]);
    }

    /** `select`: only the device with this very code stays active. */
    method Select(rom: seq<bv8>)
      requires |rom| == 8
      requires state == State(RomCommand([]), Devices())
      modifies this
      ensures state == State(FunctionCommand([]), Devices() * {BitsOf(rom)})
    {
      hide BitsOf, Bit, AfterWrite, AfterWrites;
      Write(MATCH_ROM);
      MatchCommand(Devices());
      WriteBytes(rom);
      AddressingSelects(Devices(), BitsOf(rom));
    }

    method WriteBytes(bytes: seq<bv8>)
      modifies this
      ensures state == AfterWrites(old(state), BitsOf(bytes))
    {
      assert BitsOf(bytes[..0]) == [];
      hide BitsOf, Bit, AfterWrite, AfterWrites;
      ghost var start := state;
      NoWrites(start, []);
      for i := 0 to |bytes|
        invariant state == AfterWrites(start, BitsOf(bytes[..i]))
      {
        BytesNext(start, bytes, i);
        Write(bytes[i]);
      }
      assert bytes[..|bytes|] == bytes;
    }
  }

  /** The low `i` bits of `byte` have been collected in `r`. */
  predicate Assembled(r: bv8, byte: bv8, i: nat) {
    forall j: nat | j < 8 :: Bit(r, j) == (j < i && Bit(byte, j))
  }

  lemma AssembleBit(r: bv8, byte: bv8, i: nat)
    requires i < 8 && Assembled(r, byte, i)
    ensures Assembled(if Bit(byte, i) then r | Mask(i) else r, byte, i + 1)
  {
    var r' := if Bit(byte, i) then r | Mask(i) else r;
    forall j: nat | j < 8
      ensures Bit(r', j) == (j < i + 1 && Bit(byte, j))
    {
      SetBit(r, i, j);
    }
  }

  // ---- What sequences of written bits do ----

  lemma {:induction false} BytesNext(s: State, bytes: seq<bv8>, i: nat)
    requires i < |bytes|
    ensures AfterWrites(s, BitsOf(bytes[..i + 1]))
         == AfterWrites(AfterWrites(s, BitsOf(bytes[..i])), BitsOf([bytes[i]]))
  {
    hide BitsOf, AfterWrites;
    WritesConcat(s, BitsOf(bytes[..i]), BitsOf([bytes[i]]));
    BitsOfConcat(bytes[..i], [bytes[i]]);
    assert bytes[..i] + [bytes[i]] == bytes[..i + 1];
  }

  lemma {:induction false} WritesNext(s: State, bits: seq<bool>, i: nat)
    requires i < |bits|
    ensures AfterWrites(s, bits[..i + 1]) == AfterWrite(AfterWrites(s, bits[..i]), bits[i])
  {
    hide AfterWrite;
    assert bits[..i + 1][..i] == bits[..i];
  }

  lemma {:induction false} NoWrites(s: State, bits: seq<bool>)
    ensures AfterWrites(s, bits[..0]) == s
  {
  }

  lemma {:induction false} WritesConcat(s: State, a: seq<bool>, b: seq<bool>)
    ensures AfterWrites(s, a + b) == AfterWrites(AfterWrites(s, a), b)
    decreases |b|
  {
    if b == [] {
      assert a + b == a;
    } else {
      assert (a + b)[..|a + b| - 1] == a + b[..|b| - 1];
      WritesConcat(s, a, b[..|b| - 1]);
    }
  }

  lemma {:induction false} RomCommandBits(active: set<Rom>, bits: seq<bool>)
    requires |bits| <= 8
    ensures AfterWrites(State(RomCommand([]), active), bits) == State(RomCommandPhase(bits), active)
  {
    if bits != [] {
      var init := bits[..|bits| - 1];
      RomCommandBits(active, init);
      assert init + [bits[|bits| - 1]] == bits;
    }
  }

  lemma {:induction false} FunctionCommandBits(active: set<Rom>, bits: seq<bool>)
    requires |bits| <= 8
    ensures AfterWrites(State(FunctionCommand([]), active), bits) == State(FunctionCommandPhase(bits), active)
  {
    if bits != [] {
      var init := bits[..|bits| - 1];
      FunctionCommandBits(active, init);
      assert init + [bits[|bits| - 1]] == bits;
    }
  }

  lemma DifferentBits(a: bv8, b: bv8)
    requires a != b
    ensures BitsOf([a]) != BitsOf([b])
  {
    if BitsOf([a]) == BitsOf([b]) { SameBitsOf([a], [b]); }
  }

  lemma SearchCommand(active: set<Rom>)
    ensures AfterWrites(State(RomCommand([]), active), BitsOf([SEARCH_ROM])) == State(Searching(0, 0), active)
  {
    RomCommandBits(active, BitsOf([SEARCH_ROM]));
  }

  lemma MatchCommand(active: set<Rom>)
    ensures AfterWrites(State(RomCommand([]), active), BitsOf([MATCH_ROM])) == State(Addressing(0), active)
  {
    RomCommandBits(active, BitsOf([MATCH_ROM]));
    DifferentBits(SEARCH_ROM, MATCH_ROM);
  }

  lemma ReadCommand(active: set<Rom>)
    ensures AfterWrites(State(FunctionCommand([]), active), BitsOf([READ_SCRATCHPAD])) == State(Sending(0), active)
  {
    FunctionCommandBits(active, BitsOf([READ_SCRATCHPAD]));
  }

  lemma {:induction false} AddressingThins(devices: set<Rom>, bits: seq<bool>)
    requires |bits| <= ROM_BITS
    ensures AfterWrites(State(Addressing(0), devices), bits)
         == State(if |bits| < ROM_BITS then Addressing(|bits|) else FunctionCommand([]),
                  set d | d in devices && d[..|bits|] == bits)
  {
    if bits == [] {
      assert devices == set d | d in devices && d[..0] == [];
    } else {
      var n := |bits| - 1;
      AddressingThins(devices, bits[..n]);
      forall d: Rom
        ensures d[..n + 1] == bits <==> d[..n] == bits[..n] && d[n] == bits[n]
      {
        assert d[..n + 1] == d[..n] + [d[n]] && bits == bits[..n] + [bits[n]];
      }
      assert Thin((set d | d in devices && d[..n] == bits[..n]), n, bits[n])
          == (set d | d in devices && d[..n + 1] == bits);
    }
  }

  lemma AddressingSelects(devices: set<Rom>, rom: Rom)
    ensures AfterWrites(State(Addressing(0), devices), rom) == State(FunctionCommand([]), devices * {rom})
  {
    AddressingThins(devices, rom);
    assert forall d: Rom :: d[..ROM_BITS] == d;
    assert (set d | d in devices && d[..ROM_BITS] == rom) == devices * {rom};
  }
}
