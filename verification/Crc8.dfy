/** The Dallas CRC: a shift register that computes a polynomial remainder over GF(2).

    Bits are taken in transmission order, so the first bit of a byte is its least
    significant one and stands for the highest power: bit i of the register is
    the coefficient of x^(7-i). */
module Crc8 {
  import opened Bits

  // ---- Polynomials over GF(2): coefficients, highest power first ----

  /** x^8 + x^5 + x^4 + 1 */
  const GENERATOR: seq<bool> := [true, false, false, true, true, false, false, false, true]

  function Zeros(n: nat): seq<bool> {
    seq(n, _ => false)
  }

  function Add(a: seq<bool>, b: seq<bool>): (c: seq<bool>)
    requires |a| == |b|
    ensures |c| == |a|
  {
    seq(|a|, i requires 0 <= i < |a| => a[i] != b[i])
  }

  /** The product, by Horner's rule: (q x + c) g = (q g) x + c g. */
  function Multiply(q: seq<bool>, g: seq<bool>): (p: seq<bool>)
    requires |g| > 0
    ensures |p| == |q| + |g| - 1
  {
    if q == [] then Zeros(|g| - 1)
    else
      var n := |q| - 1;
      Add(Multiply(q[..n], g) + [false], Zeros(n) + if q[n] then g else Zeros(|g|))
  }

  /** m x^8 = q g + r with r of degree below 8: `r` is the remainder of m x^8 by the generator. */
  predicate Divides(m: seq<bool>, q: seq<bool>, r: seq<bool>) {
    |q| == |m| && |r| == 8 && Multiply(q, GENERATOR) == m + r
  }

  lemma {:induction false} QuotientUnique(q: seq<bool>, q': seq<bool>)
    requires |q| == |q'|
    requires forall i | 0 <= i < |q| :: Multiply(q, GENERATOR)[i] == Multiply(q', GENERATOR)[i]
    ensures q == q'
    decreases |q|
  {
    if q != [] {
      hide Multiply;
      var n := |q| - 1;
      ProductHead(q);
      ProductHead(q');
      QuotientUnique(q[..n], q'[..n]);
      SameEnd(q, q');
    }
  }

  lemma SameEnd(q: seq<bool>, q': seq<bool>)
    requires |q| == |q'| > 0 && q[..|q| - 1] == q'[..|q| - 1] && q[|q| - 1] == q'[|q| - 1]
    ensures q == q'
  {
    assert q == q[..|q| - 1] + [q[|q| - 1]];
    assert q' == q'[..|q| - 1] + [q'[|q| - 1]];
  }

  /** What the last coefficient of a factor adds to the product. */
  function Term(n: nat, c: bool): (t: seq<bool>)
    ensures |t| == n + 9
    ensures forall i | 0 <= i <= n :: t[i] == (i == n && c)
  {
    Zeros(n) + if c then GENERATOR else Zeros(9)
  }

  lemma {:induction false} ProductStep(q: seq<bool>)
    requires q != []
    ensures var n := |q| - 1;
            Multiply(q, GENERATOR) == Add(Multiply(q[..n], GENERATOR) + [false], Term(n, q[n]))
  {
  }

  /** It decides one coefficient of the product and none above it. */
  lemma {:induction false} ProductHead(q: seq<bool>)
    requires q != []
    ensures var n := |q| - 1;
            var p, p0 := Multiply(q, GENERATOR), Multiply(q[..n], GENERATOR);
            (forall i | 0 <= i < n :: p[i] == p0[i]) && p[n] == (p0[n] != q[n])
  {
    ProductStep(q);
    hide Multiply, Term;
  }

  // ---- The register ----

  /** One shift of the register: x r + b x^8, reduced by the generator. */
  function Step(r: seq<bool>, b: bool): (r': seq<bool>)
    requires |r| == 8
    ensures |r'| == 8
  {
    var mix := r[0] != b;
    seq(8, i requires 0 <= i < 8 => (i < 7 && r[i + 1]) != (mix && GENERATOR[i + 1]))
  }

  /** The register after shifting in `bits`. */
  function Shift(r: seq<bool>, bits: seq<bool>): (r': seq<bool>)
    requires |r| == 8
    ensures |r'| == 8
  {
    if bits == [] then r else Step(Shift(r, bits[..|bits| - 1]), bits[|bits| - 1])
  }

  /** The checksum of a message, as eight coefficients. */
  function Crc(message: seq<bv8>): seq<bool> {
    Shift(Zeros(8), BitsOf(message))
  }

  lemma {:induction false} ShiftConcat(r: seq<bool>, a: seq<bool>, b: seq<bool>)
    requires |r| == 8
    ensures Shift(r, a + b) == Shift(Shift(r, a), b)
    decreases |b|
  {
    if b == [] {
      assert a + b == a;
    } else {
      assert (a + b)[..|a + b| - 1] == a + b[..|b| - 1];
      ShiftConcat(r, a, b[..|b| - 1]);
    }
  }

  // ---- The driver's byte loop ----

  lemma MixBit(crc: bv8, inbyte: bv8)
    ensures ((crc ^ inbyte) & 0x01 != 0) == (Bit(crc, 0) != Bit(inbyte, 0))
  {
  }

  /** Shifting right and adding 0x8C is one step of the register. */
  lemma FeedbackBit(c: bv8, mix: bool, i: nat)
    requires i < 8
    ensures Bit(if mix then (c >> 1) ^ 0x8C else c >> 1, i) == ((i < 7 && Bit(c, i + 1)) != (mix && GENERATOR[i + 1]))
  {
    ShiftedBits(c, i);
    if mix {
      AddGenerator(c >> 1, i);
    }
  }

  lemma AddGenerator(d: bv8, i: nat)
    requires i < 8
    ensures Bit(d ^ 0x8C, i) == (Bit(d, i) != GENERATOR[i + 1])
  {
    XorBit(d, 0x8C, i);
    assert Bit(0x8C, i) == GENERATOR[i + 1];
  }

  lemma XorBit(a: bv8, b: bv8, i: nat)
    requires i < 8
    ensures Bit(a ^ b, i) == (Bit(a, i) != Bit(b, i))
  {
    hide Mask, IsMask;
    MaskIsOneBit(i);
    XorMask(a, b, Mask(i));
  }

  lemma XorMask(a: bv8, b: bv8, m: bv8)
    requires IsMask(m)
    ensures ((a ^ b) & m != 0) == ((a & m != 0) != (b & m != 0))
  {
  }

  lemma FeedbackStep(c: bv8, b: bool)
    ensures BitsOf([if Bit(c, 0) != b then (c >> 1) ^ 0x8C else c >> 1]) == Step(BitsOf([c]), b)
  {
    hide Bit, Mask, BitsOf, Step;
    forall i: nat | i < 8
      ensures BitsOf([if Bit(c, 0) != b then (c >> 1) ^ 0x8C else c >> 1])[i] == Step(BitsOf([c]), b)[i]
    {
      FeedbackAt(c, b, i);
    }
  }

  lemma FeedbackAt(c: bv8, b: bool, i: nat)
    requires i < 8
    ensures BitsOf([if Bit(c, 0) != b then (c >> 1) ^ 0x8C else c >> 1])[i] == Step(BitsOf([c]), b)[i]
  {
    hide Bit, Mask, BitsOf;
    var mix := Bit(c, 0) != b;
    FeedbackBit(c, mix, i);
    BitAt([if mix then (c >> 1) ^ 0x8C else c >> 1], 0, i);
    BitAt([c], 0, 0);
    if i < 7 {
      BitAt([c], 0, i + 1);
    }
  }

  /** `rest` is what is left of `byte` after `i` right shifts. */
  predicate Remaining(byte: bv8, i: nat, rest: bv8)
    requires i <= 8
  {
    forall j: nat | j < 8 :: Bit(rest, j) == (i + j < 8 && Bit(byte, i + j))
  }

  lemma ShiftedBits(b: bv8, j: nat)
    requires j < 8
    ensures Bit(b >> 1, j) == (j < 7 && Bit(b, j + 1))
    ensures (b & 1 != 0) == Bit(b, 0)
  {
    if j == 0 {} else if j == 1 {} else if j == 2 {} else if j == 3 {}
    else if j == 4 {} else if j == 5 {} else if j == 6 {} else {}
  }

  lemma RemainingNext(byte: bv8, i: nat, inbyte: bv8)
    requires i < 8 && Remaining(byte, i, inbyte)
    ensures Remaining(byte, i + 1, inbyte >> 1) && Bit(inbyte, 0) == Bit(byte, i)
  {
    hide Bit, Mask;
    var rest := inbyte >> 1;
    forall j: nat | j < 8
      ensures Bit(rest, j) == (j < 7 && Bit(inbyte, j + 1))
    {
      ShiftedBits(inbyte, j);
    }
  }

  /** One round of the inner loop, on bit `i` of the byte. */
  method ShiftBit(start: bv8, inbyte: bv8, ghost byte: bv8, ghost i: nat) returns (crc: bv8, rest: bv8)
    requires i < 8 && Remaining(byte, i, inbyte)
    ensures Remaining(byte, i + 1, rest)
    ensures BitsOf([crc]) == Step(BitsOf([start]), BitsOf([byte])[i])
  {
    hide Bit, Mask, BitsOf, Step, Remaining;
    rest := inbyte >> 1;
    RemainingNext(byte, i, inbyte);
    BitAt([byte], 0, i);
    MixBit(start, inbyte);
    FeedbackStep(start, Bit(byte, i));
    var mix := (start ^ inbyte) & 0x01 != 0;
    crc := start >> 1;
    if mix { crc := crc ^ 0x8C; }
  }

  /** The inner loop: one byte, least significant bit first. */
  method ShiftByte(start: bv8, byte: bv8) returns (crc: bv8)
    ensures BitsOf([crc]) == Shift(BitsOf([start]), BitsOf([byte]))
  {
    crc := start;
    var inbyte := byte;
    ghost var r, bits := BitsOf([start]), BitsOf([byte]);
    for i := 0 to 8
      invariant Remaining(byte, i, inbyte) && BitsOf([crc]) == Shift(r, bits[..i])
    {
      ShiftNext(r, bits, i);
      crc, inbyte := ShiftBit(crc, inbyte, byte, i);
    }
    assert bits[..8] == bits;
  }

  lemma ShiftNext(r: seq<bool>, bits: seq<bool>, i: nat)
    requires |r| == 8 && i < |bits|
    ensures Shift(r, bits[..i + 1]) == Step(Shift(r, bits[..i]), bits[i])
  {
    assert bits[..i + 1][..i] == bits[..i];
  }

  lemma CrcNext(message: seq<bv8>, n: nat)
    requires n < |message|
    ensures Crc(message[..n + 1]) == Shift(Crc(message[..n]), BitsOf([message[n]]))
  {
    BitsOfConcat(message[..n], [message[n]]);
    ShiftConcat(Zeros(8), BitsOf(message[..n]), BitsOf([message[n]]));
    assert message[..n] + [message[n]] == message[..n + 1];
  }

  lemma NoBits()
    ensures BitsOf([0]) == Zeros(8)
  {
  }

  /** `crc8`. */
  method ComputeCrc8(addr: seq<bv8>) returns (crc: bv8)
    ensures BitsOf([crc]) == Crc(addr)
  {
    crc := 0;
    NoBits();
    var n := 0;
    while n < |addr|
      invariant n <= |addr| && BitsOf([crc]) == Crc(addr[..n])
    {
      CrcNext(addr, n);
      crc := ShiftByte(crc, addr[n]);
      n := n + 1;
    }
    assert addr[..n] == addr;
  }

  // ---- What the register computes ----

  /** Long division: the feedback decisions are the quotient, the register is the remainder. */
  lemma {:induction false} RegisterDivides(bits: seq<bool>) returns (q: seq<bool>)
    ensures Divides(bits, q, Shift(Zeros(8), bits))
    decreases |bits|
  {
    if bits == [] {
      q := [];
    } else {
      var n := |bits| - 1;
      var b, r := bits[n], Shift(Zeros(8), bits[..n]);
      var q0 := RegisterDivides(bits[..n]);
      var mix := r[0] != b;
      q := q0 + [mix];
      assert q[..n] == q0 && bits == bits[..n] + [b];
      DivisionStep(bits[..n], r, b);
    }
  }

  /** x (m x^8 + r) plus the generator, if the feedback is taken, is (m x + b) x^8 + r'. */
  lemma DivisionStep(m: seq<bool>, r: seq<bool>, b: bool)
    requires |r| == 8
    ensures Add(m + r + [false], Zeros(|m|) + if r[0] != b then GENERATOR else Zeros(9)) == m + [b] + Step(r, b)
  {
    var n, mix := |m|, r[0] != b;
    var tail := if mix then GENERATOR else Zeros(9);
    var sum, expected := Add(m + r + [false], Zeros(n) + tail), m + [b] + Step(r, b);
    forall i | n <= i < n + 9
      ensures sum[i] == expected[i]
    {
      assert tail[i - n] == (mix && GENERATOR[i - n]);
      assert (r + [false])[i - n] == (i - n < 8 && r[i - n]);
    }
  }

  /** The checksum is the remainder modulo x^8 + x^5 + x^4 + 1, and nothing else is. */
  lemma CrcIsTheRemainder(message: seq<bv8>, r: seq<bool>)
    ensures r == Crc(message) <==> exists q :: Divides(BitsOf(message), q, r)
  {
    var bits := BitsOf(message);
    var q := RegisterDivides(bits);
    forall q' | Divides(bits, q', r)
      ensures r == Crc(message)
    {
      QuotientUnique(q, q');
      assert r == (bits + r)[|bits|..] == (bits + Crc(message))[|bits|..] == Crc(message);
    }
  }

  // ---- Linearity and error detection ----

  lemma {:induction false} ShiftLinear(r: seq<bool>, r': seq<bool>, a: seq<bool>, b: seq<bool>)
    requires |r| == |r'| == 8 && |a| == |b|
    ensures Shift(Add(r, r'), Add(a, b)) == Add(Shift(r, a), Shift(r', b))
    decreases |a|
  {
    if a != [] {
      var n := |a| - 1;
      assert Add(a, b)[..n] == Add(a[..n], b[..n]);
      ShiftLinear(r, r', a[..n], b[..n]);
    }
  }

  /** The checksum of a bitwise difference is the difference of the checksums. */
  lemma CrcLinear(a: seq<bool>, b: seq<bool>)
    requires |a| == |b|
    ensures Shift(Zeros(8), Add(a, b)) == Add(Shift(Zeros(8), a), Shift(Zeros(8), b))
  {
    ShiftLinear(Zeros(8), Zeros(8), a, b);
    assert Add(Zeros(8), Zeros(8)) == Zeros(8);
  }

  lemma StepZero(r: seq<bool>)
    requires |r| == 8
    ensures Step(r, false) == Zeros(8) <==> r == Zeros(8)
  {
    if Step(r, false) == Zeros(8) {
      assert !Step(r, false)[7];
      assert forall i | 0 <= i < 7 :: r[i + 1] == Step(r, false)[i];
      assert forall i | 1 <= i < 8 :: r[i] == Step(r, false)[i - 1];
    }
  }

  lemma {:induction false} ShiftZeros(r: seq<bool>, n: nat)
    requires |r| == 8
    ensures Shift(r, Zeros(n)) == Zeros(8) <==> r == Zeros(8)
    decreases n
  {
    if n > 0 {
      assert Zeros(n)[..n - 1] == Zeros(n - 1);
      ShiftZeros(r, n - 1);
      StepZero(Shift(r, Zeros(n - 1)));
    }
  }

  function Pad(w: seq<bool>): (p: seq<bool>)
    requires |w| <= 8
    ensures |p| == 8
  {
    w + Zeros(8 - |w|)
  }

  lemma StepAbsorbs(r: seq<bool>, w: seq<bool>)
    requires |r| == 8 && 0 < |w| <= 8
    ensures Step(Add(r, Pad(w)), false) == Add(Step(r, w[0]), Pad(w[1..]))
  {
  }

  /** Shifting in at most eight bits is the same as adding them to the register first. */
  lemma {:induction false} ShiftAbsorbs(r: seq<bool>, w: seq<bool>)
    requires |r| == 8 && |w| <= 8
    ensures Shift(r, w) == Shift(Add(r, Pad(w)), Zeros(|w|))
    decreases |w|
  {
    if w == [] {
      assert Add(r, Pad(w)) == r;
    } else {
      var b, t := w[0], w[1..];
      assert w == [b] + t && Zeros(|w|) == [false] + Zeros(|t|);
      ShiftConcat(r, [b], t);
      ShiftConcat(Add(r, Pad(w)), [false], Zeros(|t|));
      assert [b][..0] == [] && [false][..0] == [];
      StepAbsorbs(r, w);
      ShiftAbsorbs(Step(r, b), t);
    }
  }

  lemma AddZero(a: seq<bool>, b: seq<bool>)
    requires |a| == |b|
    ensures Add(a, b) == Zeros(|a|) <==> a == b
  {
    if Add(a, b) == Zeros(|a|) {
      forall i | 0 <= i < |a|
        ensures a[i] == b[i]
      {
        assert !Add(a, b)[i];
      }
    }
  }

  /** A message followed by `c` checks to zero exactly when `c` is its checksum. */
  lemma CheckedMessage(message: seq<bv8>, c: bv8)
    ensures Crc(message + [c]) == Zeros(8) <==> BitsOf([c]) == Crc(message)
  {
    var w := BitsOf([c]);
    BitsOfConcat(message, [c]);
    ShiftConcat(Zeros(8), BitsOf(message), w);
    ShiftAbsorbs(Crc(message), w);
    assert Pad(w) == w;
    ShiftZeros(Add(Crc(message), w), 8);
    AddZero(Crc(message), w);
  }

  lemma {:induction false} BurstLeavesTrace(before: nat, w: seq<bool>, after: nat)
    requires |w| <= 8 && w != Zeros(|w|)
    ensures Shift(Zeros(8), Zeros(before) + w + Zeros(after)) != Zeros(8)
  {
    ShiftZeros(Zeros(8), before);
    ShiftConcat(Zeros(8), Zeros(before), w);
    ShiftAbsorbs(Zeros(8), w);
    assert Add(Zeros(8), Pad(w)) == Pad(w);
    assert w == Pad(w)[..|w|] && Zeros(|w|) == Zeros(8)[..|w|];
    ShiftZeros(Pad(w), |w|);
    ShiftConcat(Zeros(8), Zeros(before) + w, Zeros(after));
    ShiftZeros(Shift(Zeros(8), w), after);
  }

  lemma BurstShape(e: seq<bool>, start: nat) returns (w: seq<bool>)
    requires start <= |e| && e != Zeros(|e|)
    requires forall k | 0 <= k < |e| && !(start <= k < start + 8) :: !e[k]
    ensures |w| <= 8 && start + |w| <= |e| && w != Zeros(|w|)
    ensures e == Zeros(start) + w + Zeros(|e| - start - |w|)
  {
    var end := if start + 8 < |e| then start + 8 else |e|;
    w := e[start..end];
    var k := SomeOne(e);
    assert w[k - start];
    var parts := Zeros(start) + w + Zeros(|e| - end);
    assert |parts| == |e|;
    forall i | 0 <= i < |e|
      ensures parts[i] == e[i]
    {
    }
  }

  lemma ZerosOnly(e: seq<bool>)
    ensures (forall i | 0 <= i < |e| :: !e[i]) ==> e == Zeros(|e|)
  {
  }

  lemma SomeOne(e: seq<bool>) returns (k: nat)
    requires e != Zeros(|e|)
    ensures k < |e| && e[k]
  {
    ZerosOnly(e);
    k :| k < |e| && e[k];
  }

  /** Every error confined to eight consecutive bits changes the checksum. */
  lemma BurstDetected(m: seq<bv8>, m': seq<bv8>, start: nat)
    requires |m| == |m'| && m != m' && start <= 8 * |m|
    requires forall k | 0 <= k < 8 * |m| && !(start <= k < start + 8) :: BitsOf(m)[k] == BitsOf(m')[k]
    ensures Crc(m) != Crc(m')
  {
    var a, b := BitsOf(m), BitsOf(m');
    if a == b { SameBitsOf(m, m'); }
    AddZero(a, b);
    CrcLinear(a, b);
    var w := BurstShape(Add(a, b), start);
    BurstLeavesTrace(start, w, |a| - start - |w|);
    AddZero(Crc(m), Crc(m'));
  }
}
