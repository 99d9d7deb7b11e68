/** The DS18B20 driver: the resumable ROM search and the sensor sweep above it. */
module Ds18b20 {
  import opened Bits
  import opened RomOrder
  import opened OneWireBus

  /** Dallas family codes. driver/ds18b20.h, which names them, is not part of this model. */
  const DS18S20: bv8 := 0x10
  const DS18B20: bv8 := 0x28

  // ---- What a call of the search must do ----

  /** The first byte of the code is zero; the driver takes such a code for "nothing found". */
  predicate ZeroFamily(r: Rom) {
    forall j: nat | j < 8 :: !r[j]
  }

  datatype Outcome = Found(rom: Rom) | Nothing

  /** A call made after `i` devices of the pass have been reported, on a bus whose
      search order is `order`: what it reports, and how many have been reported then. */
  function SearchCall(order: seq<Rom>, i: nat): (Outcome, nat) {
    if i < |order| && !ZeroFamily(order[i]) then (Found(order[i]), i + 1) else (Nothing, 0)
  }

  /** What `n` calls in a row report when `i` devices of the pass have already been reported. */
  function SearchRun(order: seq<Rom>, i: nat, n: nat): (log: seq<Outcome>)
    ensures |log| == n
    decreases n
  {
    if n == 0 then []
    else
      var (first, next) := SearchCall(order, i);
      [first] + SearchRun(order, next, n - 1)
  }

  predicate AllNamed(devices: set<Rom>) {
    forall d | d in devices :: !ZeroFamily(d)
  }

  /** A code with a zero family byte sorts before every other, so it stops the very first pass. */
  lemma {:induction false} ZeroFamilyFirst(devices: set<Rom>)
    ensures AllNamed(devices) <==> devices == {} || !ZeroFamily(Sorted(devices)[0])
  {
    if devices != {} {
      SortedAt(devices, 0);
      forall d | d in devices && ZeroFamily(d)
        ensures ZeroFamily(Sorted(devices)[0])
      {
        var j := Position(devices, d);
        if j > 0 {
          SortedIncreases(devices, 0, j);
          var k: nat :| k < ROM_BITS && Diverge(Sorted(devices)[0], d, k);
          assert k >= 8;
        }
      }
    }
  }

  /** Calls after a reset, for ever: each pass reports every device once, in
      search order, then one call reports nothing and the next pass begins. */
  lemma {:induction false} SearchRunsForever(devices: set<Rom>, n: nat, k: nat)
    requires AllNamed(devices) && k < n
    ensures SearchRun(Sorted(devices), 0, n)[k]
         == var i := k % (|devices| + 1);
            if i < |devices| then Found(Sorted(devices)[i]) else Nothing
  {
    hide Sorted, ZeroFamily;
    forall j | 0 <= j < |devices|
      ensures !ZeroFamily(Sorted(devices)[j])
    {
      SortedAt(devices, j);
    }
    SearchRunFrom(Sorted(devices), 0, n, k);
  }

  lemma {:induction false} SearchRunFrom(order: seq<Rom>, i: nat, n: nat, k: nat)
    requires (forall j | 0 <= j < |order| :: !ZeroFamily(order[j])) && i <= |order| && k < n
    ensures SearchRun(order, i, n)[k]
         == var m := (i + k) % (|order| + 1);
            if m < |order| then Found(order[m]) else Nothing
    decreases n
  {
    if k == 0 {
      SmallModulo(i, |order| + 1);
    } else if i < |order| {
      SearchRunFrom(order, i + 1, n - 1, k - 1);
      assert i + 1 + (k - 1) == i + k;
    } else {
      SearchRunFrom(order, 0, n - 1, k - 1);
      WrapModulo(k - 1, |order| + 1);
    }
  }

  lemma SmallModulo(x: nat, m: nat)
    requires x < m
    ensures x % m == x
  {
  }

  lemma WrapModulo(x: nat, m: nat)
    requires 0 < m
    ensures (m + x) % m == x % m
  {
    assert m + x == m * (x / m + 1) + x % m;
    UniqueModulo(m + x, m, x / m + 1, x % m);
  }

  lemma UniqueModulo(x: int, m: nat, q: int, r: nat)
    requires r < m && x == m * q + r
    ensures x % m == r
  {
    var d := q - x / m;
    assert m * d == x % m - r;
    ProductBound(m, d);
  }

  lemma ProductBound(m: nat, d: int)
    ensures d >= 1 ==> m * d >= m
    ensures d <= -1 ==> m * d <= -(m as int)
  {
  }

  /** Every device gets found, once and in increasing order, exactly when no code on the bus starts with a zero
      byte; otherwise no call ever finds anything. */
  lemma {:induction false} EveryDeviceFoundIffAllNamed(devices: set<Rom>, n: nat)
    requires n > |devices|
    ensures AllNamed(devices) <==> forall d | d in devices :: Found(d) in SearchRun(Sorted(devices), 0, n)
    ensures AllNamed(devices) ==> OnePass(SearchRun(Sorted(devices), 0, n), |devices|)
    ensures !AllNamed(devices) ==> forall k | 0 <= k < n :: SearchRun(Sorted(devices), 0, n)[k] == Nothing
  {
    hide Sorted, OnePass;
    ZeroFamilyFirst(devices);
    if AllNamed(devices) {
      FirstPass(devices, n);
      forall d | d in devices
        ensures Found(d) in SearchRun(Sorted(devices), 0, n)
      {
        var j := Position(devices, d);
        SearchRunsForever(devices, n, j);
        SmallModulo(j, |devices| + 1);
        assert SearchRun(Sorted(devices), 0, n)[j] == Found(d);
      }
    } else {
      NothingForever(Sorted(devices), n);
      SortedAt(devices, 0);
    }
  }

  /** The first pass of a log: one device a call, in strictly increasing order, and then nothing. */
  ghost predicate OnePass(log: seq<Outcome>, n: nat) {
    && n < |log| && log[n] == Nothing
    && (forall i | 0 <= i < n :: log[i].Found?)
    && forall i, j | 0 <= i < j < n :: Less(log[i].rom, log[j].rom)
  }

  lemma {:induction false} FirstPass(devices: set<Rom>, n: nat)
    requires AllNamed(devices) && n > |devices|
    ensures OnePass(SearchRun(Sorted(devices), 0, n), |devices|)
  {
    hide Sorted, Less, AllNamed, SearchRun;
    var log := SearchRun(Sorted(devices), 0, n);
    forall i | 0 <= i <= |devices|
      ensures log[i] == if i < |devices| then Found(Sorted(devices)[i]) else Nothing
    {
      SearchRunsForever(devices, n, i);
      SmallModulo(i, |devices| + 1);
    }
    forall i, j | 0 <= i < j < |devices|
      ensures Less(log[i].rom, log[j].rom)
    {
      SortedIncreases(devices, i, j);
    }
  }

  lemma {:induction false} NothingForever(order: seq<Rom>, n: nat)
    requires |order| > 0 && ZeroFamily(order[0])
    ensures forall k | 0 <= k < n :: SearchRun(order, 0, n)[k] == Nothing
    decreases n
  {
    if n > 0 {
      NothingForever(order, n - 1);
    }
  }

  // ---- What the remembered discrepancy tells ----

  /** After the `i`-th device of a pass the discrepancy is 0 exactly when the pass is over. */
  lemma {:induction false} DiscrepancyTellsLast(devices: set<Rom>, i: nat, ld: nat)
    requires 0 < i <= |devices| && IsDeepest(devices, Sorted(devices)[i - 1], ROM_BITS, ld)
    ensures ld == 0 <==> i == |devices|
  {
    hide Sorted, Less, IsDeepest;
    var r := Sorted(devices)[i - 1];
    SortedAt(devices, i - 1);
    NoDiscrepancyIffLast(devices, r, ld);
    if i < |devices| {
      SortedIncreases(devices, i - 1, i);
      SortedAt(devices, i);
      LessAsymmetric(r, Sorted(devices)[i]);
      LessIrreflexive(r);
    } else {
      forall d | d in devices
        ensures d == r || Less(d, r)
      {
        var j := Position(devices, d);
        if j < i - 1 { SortedIncreases(devices, j, i - 1); }
      }
    }
  }

  /** A completed pass stands on the next device in search order. */
  lemma {:induction false} PassFindsNext(devices: set<Rom>, prev: Rom, ld: nat, r: Rom, lz: nat, i: nat)
    requires ld <= ROM_BITS && i <= |devices|
    requires i == 0 ==> ld == 0
    requires i > 0 ==> ld > 0 && prev == Sorted(devices)[i - 1] && IsDeepest(devices, prev, ROM_BITS, ld)
    requires PassInvariant(devices, prev, ld, r, ROM_BITS, lz)
    ensures i < |devices| && r == Sorted(devices)[i]
  {
    if i == 0 {
      FreshPassFindsLeast(devices, prev, r, lz);
      LeastIsFirst(devices, r);
    } else {
      LaterPassFindsSuccessor(devices, prev, ld, r, lz);
      SuccessorIsNext(devices, i - 1, r);
    }
  }

  /** A call that finds a device rules out codes with a zero family byte; one that
      finds none in the middle of a pass is only possible at its end. */
  lemma {:induction false} NamedSoFar(devices: set<Rom>, i: nat)
    requires i <= |devices| && (i > 0 ==> AllNamed(devices))
    ensures SearchCall(Sorted(devices), i).0.Found? ==> AllNamed(devices)
    ensures SearchCall(Sorted(devices), i).0.Nothing? ==> i == |devices| || (i == 0 && !AllNamed(devices))
  {
    ZeroFamilyFirst(devices);
    if i < |devices| {
      SortedAt(devices, i);
    }
  }

  /** The device a call finds is the next one, and joins the readable ones if its family is known. */
  lemma {:induction false} FoundAt(devices: set<Rom>, i: nat, d: Rom)
    requires SearchCall(Sorted(devices), i) == (Found(d), i + 1)
    ensures i < |devices| && d in devices
    ensures Readable(Sorted(devices)[..i + 1])
         == if KnownFamily(d) then Readable(Sorted(devices)[..i]) + [d] else Readable(Sorted(devices)[..i])
  {
    hide Sorted, Readable;
    ReadableStep(Sorted(devices), i + 1);
    SortedAt(devices, i);
  }

  // ---- Sensor readings ----

  type Address = a: seq<bv8> | |a| == 8 witness [0, 0, 0, 0, 0, 0, 0, 0]

  datatype Sensor = Sensor(addr: Address, tVal: nat, tFract: nat, tSign: char)

  /** Sign, whole degrees and hundredths from the raw 16-bit reading. */
  function DecodeTemperature(raw: nat, halfDegrees: bool): (nat, nat, char)
    requires raw < 0x10000
  {
    var negative := raw >= 0x8000;
    var t := if negative then 0x10000 - raw else raw;
    var tSign := if negative then '-' else '+';
    if halfDegrees then (t / 2, if t % 2 == 1 then 50 else 0, tSign)
    else (t / 16, t % 16 * 100 / 16, tSign)
  }

  /** The digits are the two's complement reading, in half or sixteenth degrees, cut to hundredths. */
  lemma TemperatureMeaning(raw: nat, halfDegrees: bool)
    requires raw < 0x10000
    ensures var (tVal, tFract, tSign) := DecodeTemperature(raw, halfDegrees);
            var signed := if raw < 0x8000 then raw else raw - 0x10000;
            var unit := if halfDegrees then 2 else 16;
            && tFract < 100
            && tSign == (if signed < 0 then '-' else '+')
            && 100 * tVal + tFract == (if signed < 0 then -signed else signed) * 100 / unit
  {
  }

  function ReadingOf(addr: Address, data: seq<bv8>): Sensor
    requires |data| == SCRATCHPAD_SIZE
  {
    var (tVal, tFract, tSign) := DecodeTemperature(256 * (data[1] as int) + data[0] as int, addr[0] == DS18S20);
    Sensor(addr, tVal, tFract, tSign)
  }

  /** The first 16 bits a scratchpad sends are a number in half degrees for one family and in sixteenths for the other;
      `s` shows it, cut to hundredths, with its sign. */
  predicate ShowsTemperature(s: Sensor, scratchpad: seq<bv8>, d: Rom)
    requires |scratchpad| == SCRATCHPAD_SIZE
  {
    var v, unit := Signed(BitsOf(scratchpad)[..16]), if d[..8] == BitsOf([DS18S20]) then 2 else 16;
    && s.tFract < 100
    && 100 * s.tVal + s.tFract == (if v < 0 then -v else v) * 100 / unit
    && s.tSign == if v < 0 then '-' else '+'
  }

  lemma {:induction false} ReadingShows(addr: Address, data: seq<bv8>)
    requires |data| == SCRATCHPAD_SIZE
    ensures ReadingOf(addr, data).addr == addr
    ensures ShowsTemperature(ReadingOf(addr, data), data, BitsOf(addr))
  {
    hide BitsOf, Unsigned, Signed, DecodeTemperature;
    var raw, halfDegrees := 256 * (data[1] as int) + data[0] as int, addr[0] == DS18S20;
    FirstWord(data);
    WordUnsigned(data[0], data[1]);
    WordSigned(BitsOf(data)[..16]);
    TemperatureMeaning(raw, halfDegrees);
    FamilyBits(addr, DS18S20);
  }

  lemma FirstWord(data: seq<bv8>)
    requires |data| == SCRATCHPAD_SIZE
    ensures BitsOf(data)[..16] == BitsOf([data[0], data[1]])
  {
    hide Bit;
  }

  predicate KnownFamily(r: Rom) {
    r[..8] == BitsOf([DS18S20]) || r[..8] == BitsOf([DS18B20])
  }

  /** The devices the driver can read, in the order given. */
  function Readable(order: seq<Rom>): seq<Rom> {
    if order == [] then []
    else
      var init, last := order[..|order| - 1], order[|order| - 1];
      if KnownFamily(last) then Readable(init) + [last] else Readable(init)
  }

  lemma {:induction false} ReadablePrefix(order: seq<Rom>, i: nat)
    requires i <= |order|
    ensures Readable(order[..i]) <= Readable(order)
    decreases |order|
  {
    if i < |order| {
      var init := order[..|order| - 1];
      ReadablePrefix(init, i);
      assert init[..i] == order[..i];
    } else {
      assert order[..i] == order;
    }
  }

  /** The readable devices come without repetition, in search order. */
  lemma {:induction false} ReadableIncreases(devices: set<Rom>, n: nat, a: nat, b: nat)
    requires n <= |devices| && a < b < |Readable(Sorted(devices)[..n])|
    ensures var r := Readable(Sorted(devices)[..n]);
            Less(r[a], r[b]) && r[b] in Sorted(devices)[..n] && KnownFamily(r[b])
    decreases n
  {
    hide Sorted, Readable, Less, KnownFamily;
    var order := Sorted(devices);
    if n == 0 {
      NothingReadable();
    }
    ReadableStep(order, n);
    var r, r0 := Readable(order[..n]), Readable(order[..n - 1]);
    if b < |r0| {
      ReadableIncreases(devices, n - 1, a, b);
      assert r[b] in order[..n];
    } else {
      ReadableIn(order[..n - 1], a);
      var j: nat :| j < n - 1 && order[j] == r[a];
      SortedIncreases(devices, j, n - 1);
    }
  }

  lemma NothingReadable()
    ensures Readable([]) == []
  {
  }

  lemma {:induction false} ReadableIn(order: seq<Rom>, a: nat)
    requires a < |Readable(order)|
    ensures Readable(order)[a] in order && KnownFamily(Readable(order)[a])
    decreases |order|
  {
    var init := order[..|order| - 1];
    if a < |Readable(init)| { ReadableIn(init, a); }
  }

  lemma ReadableStep(order: seq<Rom>, i: nat)
    requires 0 < i <= |order|
    ensures Readable(order[..i]) == Readable(order[..i - 1]) + if KnownFamily(order[i - 1]) then [order[i - 1]] else []
  {
    assert order[..i][..i - 1] == order[..i - 1];
  }

  lemma FamilyBits(addr: Address, family: bv8)
    ensures addr[0] == family <==> BitsOf(addr)[..8] == BitsOf([family])
  {
    assert BitsOf(addr)[..8] == BitsOf([addr[0]]);
    if BitsOf([addr[0]]) == BitsOf([family]) { SameBitsOf([addr[0]], [family]); }
  }

  // ---- The driver ----

  /** `b'` is `b` with bit `i` set to `v`. */
  predicate BitStored(b: bv8, b': bv8, i: nat, v: bool)
    requires i < 8
  {
    forall j: nat | j < 8 :: Bit(b', j) == if j == i then v else Bit(b, j)
  }

  function Raised(b: bv8, mask: bv8): bv8 {
    b | mask
  }

  function Cleared(b: bv8, mask: bv8): bv8 {
    b & !mask
  }

  lemma StoredBit(b: bv8, i: nat, j: nat)
    requires i < 8 && j < 8
    ensures Bit(Raised(b, Mask(i)), j) == (i == j || Bit(b, j))
    ensures Bit(Cleared(b, Mask(i)), j) == (i != j && Bit(b, j))
  {
    hide Bit, Mask;
    SetBit(b, i, j);
    ClearBit(b, i, j);
  }

  lemma StoredByMask(b: bv8, i: nat, v: bool)
    requires i < 8
    ensures BitStored(b, if v then Raised(b, Mask(i)) else Cleared(b, Mask(i)), i, v)
  {
    hide Bit, Mask, Raised, Cleared;
    forall j: nat | j < 8
      ensures Bit(if v then Raised(b, Mask(i)) else Cleared(b, Mask(i)), j) == if j == i then v else Bit(b, j)
    {
      StoredBit(b, i, j);
    }
  }

  lemma MaskedBit(b: bv8, i: nat)
    requires i < 8
    ensures Bit(b, i) == (b & Mask(i) != 0)
  {
  }

  lemma UpdateBit(bytes: seq<bv8>, bytes': seq<bv8>, n: nat, i: nat, v: bool)
    requires n < |bytes| && i < 8 && |bytes'| == |bytes|
    requires forall m | 0 <= m < |bytes| && m != n :: bytes'[m] == bytes[m]
    requires BitStored(bytes[n], bytes'[n], i, v)
    ensures BitsOf(bytes') == BitsOf(bytes)[8 * n + i := v]
  {
    forall k: nat | k < 8 * |bytes|
      ensures BitsOf(bytes')[k] == if k == 8 * n + i then v else BitsOf(bytes)[k]
    {
      hide Bit, BitsOf;
      assert k == 8 * (k / 8) + k % 8;
      BitAt(bytes, k / 8, k % 8);
      BitAt(bytes', k / 8, k % 8);
    }
  }

  lemma FamilyByte(bytes: seq<bv8>)
    requires |bytes| == 8
    ensures bytes[0] == 0 <==> ZeroFamily(BitsOf(bytes))
  {
    assert forall j: nat | j < 8 :: BitsOf(bytes)[j] == Bit(bytes[0], j);
    if ZeroFamily(BitsOf(bytes)) { SameBits(bytes[0], 0); }
  }

  class Driver {
    const bus: Bus
    const romNo: array<bv8>
    var lastDiscrepancy: nat
    var lastFamilyDiscrepancy: nat
    var lastDeviceFlag: bool

    constructor (bus: Bus)
      requires bus.WellFormed()
      ensures Valid() && fresh(romNo) && this.bus == bus && AtCursor(0)
    {
      this.bus := bus;
      romNo := new bv8[8](_ => 0);
      lastDiscrepancy, lastFamilyDiscrepancy, lastDeviceFlag := 0, 0, false;
    }

    ghost predicate Valid() {
      romNo.Length == 8 && bus.WellFormed()
    }

    ghost function Code(): Rom
      reads romNo
      requires romNo.Length == 8
    {
      BitsOf(romNo[..])
    }

    /** The state between calls when `i` devices of the pass have been reported:
        the last code, and the deepest branch still to revisit. */
    ghost predicate AtCursor(i: nat)
      reads this, romNo
      requires Valid()
    {
      var devices := bus.Devices();
      && i <= |devices|
      && (i == 0 ==> lastDiscrepancy == 0 && !lastDeviceFlag)
      && (i > 0 ==>
            && Code() == Sorted(devices)[i - 1]
            && IsDeepest(devices, Code(), ROM_BITS, lastDiscrepancy)
            && lastDeviceFlag == (lastDiscrepancy == 0))
    }

    method ResetSearch()
      requires Valid()
      modifies this, romNo
      ensures AtCursor(0) && lastFamilyDiscrepancy == 0
      ensures forall k | 0 <= k < 8 :: romNo[k] == 0
    {
      lastDiscrepancy, lastDeviceFlag, lastFamilyDiscrepancy := 0, false, 0;
      for i := 8 downto 0
        invariant AtCursor(0) && lastFamilyDiscrepancy == 0
        invariant forall k | i <= k < 8 :: romNo[k] == 0
      {
        romNo[i] := 0;
      }
    }

    method StoreBit(romByteNumber: nat, romByteMask: bv8, ghost i: nat, v: bool)
      requires Valid() && romByteNumber < 8 && i < 8 && romByteMask == Mask(i)
      modifies romNo
      ensures Code() == old(Code())[8 * romByteNumber + i := v]
    {
      hide Bit, Mask, BitsOf, BitStored, Raised, Cleared;
      StoredByMask(romNo[romByteNumber], i, v);
      if v {
        romNo[romByteNumber] := Raised(romNo[romByteNumber], romByteMask);
      } else {
        romNo[romByteNumber] := Cleared(romNo[romByteNumber], romByteMask);
      }
      UpdateBit(old(romNo[..]), romNo[..], romByteNumber, i, v);
    }

    /** The walk stands behind `k` bits of the trie. */
    ghost predicate Walking(prev: Rom, k: nat, lastZero: nat)
      reads this, romNo, bus
      requires Valid() && k <= ROM_BITS
    {
      && lastDiscrepancy <= ROM_BITS
      && bus.state == State(if k < ROM_BITS then Searching(k, 0) else Idle, Matching(bus.Devices(), Code(), k))
      && PassInvariant(bus.Devices(), prev, lastDiscrepancy, Code(), k, lastZero)
      && (lastDiscrepancy > 0 ==> prev in bus.Devices() && IsDeepest(bus.Devices(), prev, ROM_BITS, lastDiscrepancy))
    }

    /** One bit of the walk: read it and its complement, pick a branch, record it, follow it. */
    method SearchBit(idBitNumber: nat, romByteNumber: nat, romByteMask: bv8, zero: nat, ghost prev: Rom)
      returns (silent: bool, lastZero: nat)
      requires Valid() && 1 <= idBitNumber <= ROM_BITS
      requires romByteNumber == (idBitNumber - 1) / 8 && romByteMask == Mask((idBitNumber - 1) % 8)
      requires Walking(prev, idBitNumber - 1, zero)
      modifies romNo, bus, `lastFamilyDiscrepancy
      ensures !silent && Walking(prev, idBitNumber, lastZero)
    {
      hide PassInvariant, IsDeepest, BitsOf, Bit, Mask, Matching, AllHave;
      ghost var devices, k, code := bus.Devices(), idBitNumber - 1, Code();
      BitAt(romNo[..], romByteNumber, k % 8);
      MaskedBit(romNo[romByteNumber], k % 8);
      lastZero := zero;
      var idBit := bus.ReadBit();
      var cmpIdBit := bus.ReadBit();
      var romBit := romNo[romByteNumber] & romByteMask != 0;
      assert romBit == code[k];
      ghost var code' := code[k := Direction(idBit, cmpIdBit, k + 1, lastDiscrepancy, code[k])];
      PassStep(devices, prev, lastDiscrepancy, code, k, zero, idBit, cmpIdBit, code',
               if idBit == cmpIdBit && !code'[k] then k + 1 else zero);

      silent := idBit && cmpIdBit;
      if silent {
        return;
      }
      var searchDirection: bool;
      if idBit != cmpIdBit {
        searchDirection := idBit;
      } else {
        if idBitNumber < lastDiscrepancy {
          searchDirection := romBit;
        } else {
          searchDirection := idBitNumber == lastDiscrepancy;
        }
        if !searchDirection {
          lastZero := idBitNumber;
          if lastZero < 9 {
            lastFamilyDiscrepancy := lastZero;
          }
        }
      }
      StoreBit(romByteNumber, romByteMask, k % 8, searchDirection);
      assert Code() == code';
      bus.WriteBit(searchDirection);
    }

    /** The loop over all 64 bits. It never meets a silent bus. */
    method WalkTrie(ghost prev: Rom) returns (idBitNumber: nat, lastZero: nat)
      requires Valid() && Walking(prev, 0, 0)
      modifies romNo, bus, `lastFamilyDiscrepancy
      ensures idBitNumber == 65 && Walking(prev, ROM_BITS, lastZero)
    {
      idBitNumber, lastZero := 1, 0;
      var romByteNumber := 0;
      var romByteMask: bv8 := 1;
      var silent := false;
      while romByteNumber < 8 && !silent
        invariant !silent && 1 <= idBitNumber <= 65 && romByteNumber == (idBitNumber - 1) / 8
        invariant romByteMask == Mask((idBitNumber - 1) % 8)
        invariant Walking(prev, idBitNumber - 1, lastZero)
        decreases 65 - idBitNumber
      {
        silent, lastZero := SearchBit(idBitNumber, romByteNumber, romByteMask, lastZero, prev);
        if !silent {
          ShiftMask((idBitNumber - 1) % 8);
          idBitNumber := idBitNumber + 1;
          romByteMask := romByteMask << 1;
          if romByteMask == 0 {
            romByteNumber := romByteNumber + 1;
            romByteMask := 1;
          }
        }
      }
    }

    /** A pass on a bus that answered the reset: stands on the next device afterwards. */
    method Pass(ghost i: nat) returns (found: bool)
      requires Valid() && AtCursor(i) && !lastDeviceFlag && bus.Devices() != {}
      requires bus.state == AfterWrites(State(RomCommand([]), bus.Devices()), BitsOf([SEARCH_ROM]))
      modifies this, romNo, bus
      ensures found && AtCursor(i + 1)
    {
      hide Sorted;
      ghost var devices, prev := bus.Devices(), Code();
      if i > 0 { DiscrepancyTellsLast(devices, i, lastDiscrepancy); }
      StartsWalking(prev, i);
      var idBitNumber, lastZero := WalkTrie(prev);
      found := !(idBitNumber < 65);
      if found {
        PassFindsNext(devices, prev, lastDiscrepancy, Code(), lastZero, i);
        lastDiscrepancy := lastZero;
        if lastDiscrepancy == 0 {
          lastDeviceFlag := true;
        }
      }
    }

    /** One call of the search: resumes behind the last code and reports the next one. */
    method Search(newAddr: array<bv8>, ghost i: nat) returns (searchResult: bool)
      requires Valid() && AtCursor(i)
      requires newAddr.Length == 8 && newAddr != romNo
      modifies this, romNo, bus, newAddr
      ensures SearchCall(Sorted(bus.Devices()), i)
           == if searchResult then (Found(BitsOf(newAddr[..])), i + 1) else (Nothing, 0)
      ensures AtCursor(if searchResult then i + 1 else 0)
      ensures newAddr[..] == if bus.Devices() == {} then old(newAddr[..]) else romNo[..]
    {
      if i > 0 { DiscrepancyTellsLast(bus.Devices(), i, lastDiscrepancy); }
      searchResult := false;
      if !lastDeviceFlag {
        var presence := bus.Reset();
        if !presence {
          lastDiscrepancy, lastDeviceFlag, lastFamilyDiscrepancy := 0, false, 0;
          return false;
        }
        bus.Write(SEARCH_ROM);
        searchResult := Pass(i);
      }
      FamilyByte(romNo[..]);
      if !searchResult || romNo[0] == 0 {
        lastDiscrepancy, lastDeviceFlag, lastFamilyDiscrepancy := 0, false, 0;
        searchResult := false;
      }
      CopyCode(newAddr);
    }

    lemma {:induction false} StartsWalking(prev: Rom, i: nat)
      requires Valid() && AtCursor(i) && !lastDeviceFlag && bus.Devices() != {}
      requires prev == Code()
      requires bus.state == AfterWrites(State(RomCommand([]), bus.Devices()), BitsOf([SEARCH_ROM]))
      ensures Walking(prev, 0, 0)
      ensures i > 0 ==> lastDiscrepancy > 0
    {
      SearchCommand(bus.Devices());
      if i > 0 {
        SortedAt(bus.Devices(), i - 1);
      }
      assert Matching(bus.Devices(), prev, 0) == bus.Devices();
    }

    method CopyCode(newAddr: array<bv8>)
      requires Valid() && newAddr.Length == 8 && newAddr != romNo
      modifies newAddr
      ensures newAddr[..] == romNo[..]
    {
      for j := 0 to 8
        invariant newAddr[..j] == romNo[..j]
      {
        newAddr[j] := romNo[j];
      }
    }

    /** `s` reports device `d`: its code and the temperature in its own scratchpad. */
    ghost predicate Shows(s: Sensor, d: Rom) {
      && d in bus.scratchpads && |bus.scratchpads[d]| == SCRATCHPAD_SIZE
      && BitsOf(s.addr) == d
      && ShowsTemperature(s, bus.scratchpads[d], d)
    }

    /** The sweep has filled the first slots from `shown` and touched at most one more. */
    ghost predicate Swept(results: array<Sensor>, was: seq<Sensor>, shown: seq<Rom>)
      reads results
    {
      && |shown| <= results.Length == |was|
      && (forall k: nat | k < |shown| :: Shows(results[k], shown[k]))
      && (forall k: nat | |shown| < k < |was| :: results[k] == was[k])
    }

    /** The readable devices among the first `i` of the search order. */
    ghost function ReadableOf(i: nat): seq<Rom>
      requires i <= |bus.Devices()|
    {
      Readable(Sorted(bus.Devices())[..i])
    }

    /** The caller's result slots are not the driver's own code buffer. */
    ghost predicate Apart(results: array?<Sensor>) {
      results as object? != romNo as object?
    }

    /** Search straight into the address of slot `n`. */
    method SearchSlot(results: array<Sensor>, n: nat, ghost i: nat) returns (r: bool)
      requires Valid() && AtCursor(i) && n < results.Length && Apart(results)
      modifies this, romNo, bus, results
      ensures SearchCall(Sorted(bus.Devices()), i)
           == if r then (Found(BitsOf(results[n].addr)), i + 1) else (Nothing, 0)
      ensures AtCursor(if r then i + 1 else 0)
      ensures forall k: nat | k < results.Length && k != n :: results[k] == old(results[k])
    {
      hide SearchCall, Sorted, BitsOf, IsDeepest;
      var a := results[n].addr;
      var addr := new bv8[8](k requires 0 <= k < 8 => a[k]);
      r := Search(addr, i);
      var found: Address := addr[..];
      results[n] := results[n].(addr := found);
    }

    /** Address one device and read its scratchpad. */
    method ReadScratchpad(addr: Address) returns (data: seq<bv8>)
      requires Valid() && BitsOf(addr) in bus.Devices()
      modifies bus
      ensures data == bus.scratchpads[BitsOf(addr)]
    {
      ghost var d := BitsOf(addr);
      var _ := bus.Reset();
      bus.Select(addr);
      assert bus.Devices() * {d} == {d};
      bus.Write(READ_SCRATCHPAD);
      ReadCommand({d});
      data := [];
      for i := 0 to 9
        invariant data == bus.scratchpads[d][..i] && bus.state == State(Sending(8 * i), {d})
      {
        var b := bus.Read(d, i);
        data := data + [b];
      }
    }

    /** Fill slot `n` from the device whose code it holds. */
    method ReadSensor(results: array<Sensor>, n: nat)
      requires Valid() && n < results.Length && BitsOf(results[n].addr) in bus.Devices()
      modifies bus, results
      ensures Shows(results[n], BitsOf(old(results[n].addr)))
      ensures forall k: nat | k < results.Length && k != n :: results[k] == old(results[k])
    {
      var addr := results[n].addr;
      hide ShowsTemperature, ReadingOf, BitsOf;
      var data := ReadScratchpad(addr);
      ReadingShows(addr, data);
      results[n] := ReadingOf(addr, data);
    }

    /** Keep a readable device that the search has just put into slot `n`. */
    method FillSlot(results: array<Sensor>, n: nat, ghost was: seq<Sensor>, ghost shown: seq<Rom>) returns (known: bool)
      requires Valid() && Apart(results) && n < results.Length
      requires n == |shown| && Swept(results, was, shown)
      requires BitsOf(results[n].addr) in bus.Devices()
      modifies bus, results
      ensures known <==> KnownFamily(BitsOf(old(results[n].addr)))
      ensures Swept(results, was, if known then shown + [BitsOf(old(results[n].addr))] else shown)
    {
      var addr := results[n].addr;
      FamilyBits(addr, DS18S20);
      FamilyBits(addr, DS18B20);
      known := addr[0] == DS18S20 || addr[0] == DS18B20;
      if known {
        ReadSensor(results, n);
      }
    }

    /** What the caller gets: the first readable devices of the bus, in search order. */
    ghost function Reported(maxResults: nat): seq<Rom> {
      var known := if AllNamed(bus.Devices()) then Readable(Sorted(bus.Devices())) else [];
      if |known| <= maxResults then known else known[..maxResults]
    }

    /** One round: search, and fill the slot if the device found is readable. */
    method SweepStep(results: array<Sensor>, n: nat, ghost i: nat, ghost was: seq<Sensor>)
      returns (r: bool, known: bool)
      requires Valid() && AtCursor(i) && i <= |bus.Devices()| && Apart(results) && n < results.Length
      requires n == |ReadableOf(i)| && Swept(results, was, ReadableOf(i))
      requires i > 0 ==> AllNamed(bus.Devices())
      modifies this, romNo, bus, results
      ensures r ==> i < |bus.Devices()| && AllNamed(bus.Devices()) && AtCursor(i + 1)
      ensures r ==> Swept(results, was, ReadableOf(i + 1)) && |ReadableOf(i + 1)| == if known then n + 1 else n
      ensures !r ==> !known && Swept(results, was, ReadableOf(i))
      ensures !r ==> i == |bus.Devices()| || (i == 0 && !AllNamed(bus.Devices()))
    {
      hide Sorted, Readable, BitsOf, KnownFamily, ShowsTemperature, SearchCall;
      ghost var devices, shown := bus.Devices(), ReadableOf(i);
      NamedSoFar(devices, i);
      r := SearchSlot(results, n, i);
      assert Swept(results, was, shown);
      known := false;
      if r {
        FoundAt(devices, i, BitsOf(results[n].addr));
        known := FillSlot(results, n, was, shown);
      }
    }

    /** The sweep loop: search, keep what is readable, stop when the pass or the room ends. */
    method Sweep(results: array<Sensor>, maxResults: nat) returns (n: nat, ghost i: nat, ghost searches: nat)
      requires Valid() && AtCursor(0) && Apart(results) && 1 <= maxResults <= results.Length
      modifies this, romNo, bus, results
      ensures i <= |bus.Devices()| && n == |ReadableOf(i)| && Swept(results, old(results[..]), ReadableOf(i))
      ensures n == maxResults || (i == 0 && !AllNamed(bus.Devices())) || i == |bus.Devices()|
      ensures i > 0 ==> AllNamed(bus.Devices())
      ensures n <= maxResults && searches <= |bus.Devices()| + 1
    {
      hide Sorted, Shows, AllNamed;
      ghost var devices, was := bus.Devices(), results[..];
      n, i, searches := 0, 0, 0;
      while true
        invariant i <= |devices| && AtCursor(i) && searches == i
        invariant n == |ReadableOf(i)| && Swept(results, was, ReadableOf(i)) && n < maxResults
        invariant i > 0 ==> AllNamed(devices)
        decreases |devices| - i
      {
        var r, known := SweepStep(results, n, i, was);
        searches := searches + 1;
        if !r {
          break;
        }
        i := i + 1;
        if !known {
          continue;
        }
        n := n + 1;
        if !(n < maxResults) {
          break;
        }
      }
    }

    /** Sweep the bus: report every readable device, at most `maxResults` of them. */
    method Exec(gpioValid: bool, results: array?<Sensor>, maxResults: int)
      returns (ok: bool, foundResults: nat, ghost searches: nat)
      requires Valid() && Apart(results)
      requires results != null && 1 <= maxResults <= 8 ==> maxResults <= results.Length
      modifies this, romNo, bus, results
      ensures ok <==> gpioValid && results != null && 1 <= maxResults <= 8
      ensures !ok ==> foundResults == 0 && (results != null ==> results[..] == old(results[..]))
      ensures ok ==>
        && foundResults == |Reported(maxResults)| <= results.Length
        && (forall k: nat | k < foundResults :: Shows(results[k], Reported(maxResults)[k]))
        && (forall k: nat | foundResults < k < results.Length :: results[k] == old(results[k]))
      ensures searches <= |bus.Devices()| + 1
    {
      foundResults, searches := 0, 0;
      if !gpioValid || results == null || maxResults < 1 || maxResults > 8 {
        return false, 0, 0;
      }
      ghost var was := results[..];
      var _ := bus.Reset();
      bus.Write(SKIP_ROM);
      bus.Write(CONVERT_T);
      ResetSearch();
      assert results[..] == was;
      ghost var i;
      foundResults, i, searches := Sweep(results, maxResults);
      SweptIsReported(i, foundResults, maxResults);
      ok := true;
    }

    lemma {:induction false} SweptIsReported(i: nat, n: nat, maxResults: nat)
      requires i <= |bus.Devices()| && n == |ReadableOf(i)| <= maxResults
      requires n == maxResults || (i == 0 && !AllNamed(bus.Devices())) || i == |bus.Devices()|
      requires i > 0 ==> AllNamed(bus.Devices())
      requires 0 < maxResults
      ensures Reported(maxResults) == ReadableOf(i)
    {
      var order := Sorted(bus.Devices());
      ReadablePrefix(order, i);
      assert order[..|order|] == order;
      assert i == 0 ==> order[..i] == [];
    }
  }
}
