/** Bytes as eight bits, least significant first: the order in which both the
    1-Wire bus and the Dallas CRC consume them. */
module Bits {

  /** The byte with only bit `i` set, i.e. `1 << i`. */
  function Mask(i: nat): bv8
    requires i < 8
  {
    match i
    case 0 => 0x01 case 1 => 0x02 case 2 => 0x04 case 3 => 0x08
    case 4 => 0x10 case 5 => 0x20 case 6 => 0x40 case 7 => 0x80
  }

  predicate IsMask(m: bv8) {
    m == 0x01 || m == 0x02 || m == 0x04 || m == 0x08 || m == 0x10 || m == 0x20 || m == 0x40 || m == 0x80
  }

  lemma MaskIsOneBit(i: nat)
    requires i < 8
    ensures IsMask(Mask(i))
  {
  }

  predicate Bit(b: bv8, i: nat)
    requires i < 8
  {
    b & Mask(i) != 0
  }

  /** All bits of a byte string, byte by byte, least significant bit first. */
  function BitsOf(bytes: seq<bv8>): (bits: seq<bool>)
    ensures |bits| == 8 * |bytes|
  {
    seq(8 * |bytes|, k requires 0 <= k < 8 * |bytes| => Bit(bytes[k / 8], k % 8))
  }

  lemma SetBit(b: bv8, i: nat, j: nat)
    requires i < 8 && j < 8
    ensures Bit(b | Mask(i), j) == (i == j || Bit(b, j))
  {
  }

  lemma ClearBit(b: bv8, i: nat, j: nat)
    requires i < 8 && j < 8
    ensures Bit(b & !Mask(i), j) == (i != j && Bit(b, j))
  {
  }

  /** Walking the mask: `mask <<= 1` moves to the next bit and becomes 0 after bit 7. */
  lemma ShiftMask(i: nat)
    requires i < 8
    ensures Mask(i) << 1 == if i == 7 then 0 else Mask(i + 1)
    ensures Mask(i) != 0 && (i < 7 ==> Mask(i + 1) != 0)
  {
  }

  lemma FirstMask()
    ensures Mask(0) == 0x01
  {
  }

  /** A byte is determined by its bits. */
  lemma SameBits(a: bv8, b: bv8)
    requires forall i: nat | i < 8 :: Bit(a, i) == Bit(b, i)
    ensures a == b
  {
    assert Bit(a, 0) == Bit(b, 0) && Bit(a, 1) == Bit(b, 1) && Bit(a, 2) == Bit(b, 2) && Bit(a, 3) == Bit(b, 3);
    assert Bit(a, 4) == Bit(b, 4) && Bit(a, 5) == Bit(b, 5) && Bit(a, 6) == Bit(b, 6) && Bit(a, 7) == Bit(b, 7);
  }

  lemma SameBitsOf(a: seq<bv8>, b: seq<bv8>)
    requires BitsOf(a) == BitsOf(b)
    ensures a == b
  {
    assert |a| == |b|;
    forall n | 0 <= n < |a|
      ensures a[n] == b[n]
    {
      forall i: nat | i < 8
        ensures Bit(a[n], i) == Bit(b[n], i)
      {
        assert BitsOf(a)[8 * n + i] == BitsOf(b)[8 * n + i];
        assert (8 * n + i) / 8 == n && (8 * n + i) % 8 == i;
      }
      SameBits(a[n], b[n]);
    }
  }

  lemma ByteBit(b: bv8, i: nat)
    requires i < 8
    ensures BitsOf([b])[i] == Bit(b, i) == (Mask(i) & b != 0)
  {
    hide Mask;
    AndSwaps(b, Mask(i));
  }

  lemma AndSwaps(a: bv8, b: bv8)
    ensures a & b == b & a
  {
  }

  /** Bit `i` of byte `n` in the whole string. */
  lemma BitAt(bytes: seq<bv8>, n: nat, i: nat)
    requires n < |bytes| && i < 8
    ensures BitsOf(bytes)[8 * n + i] == Bit(bytes[n], i)
  {
    hide Bit;
    assert (8 * n + i) / 8 == n && (8 * n + i) % 8 == i;
  }

  lemma BitsOfConcat(a: seq<bv8>, b: seq<bv8>)
    ensures BitsOf(a + b) == BitsOf(a) + BitsOf(b)
  {
    hide BitsOf, Bit;
    forall k | 0 <= k < 8 * |a + b|
      ensures BitsOf(a + b)[k] == (BitsOf(a) + BitsOf(b))[k]
    {
      ConcatBit(a, b, k);
    }
  }

  lemma ConcatBit(a: seq<bv8>, b: seq<bv8>, k: nat)
    requires k < 8 * |a + b|
    ensures BitsOf(a + b)[k] == if k < 8 * |a| then BitsOf(a)[k] else BitsOf(b)[k - 8 * |a|]
  {
    hide BitsOf, Bit;
    var n, i := k / 8, k % 8;
    BitAt(a + b, n, i);
    if n < |a| {
      BitAt(a, n, i);
    } else {
      BitAt(b, n - |a|, i);
      assert 8 * (n - |a|) + i == k - 8 * |a|;
    }
  }

  // ---- The number a string of bits stands for ----

  function Digit(bit: bool): nat {
    if bit then 1 else 0
  }

  /** Least significant bit first: the sum of 2^k over the set bits k. */
  function Unsigned(bits: seq<bool>): nat {
    if bits == [] then 0 else Digit(bits[0]) + 2 * Unsigned(bits[1..])
  }

  /** Two's complement: the last bit counts negative. */
  function Signed(bits: seq<bool>): int
    requires bits != []
  {
    var n := |bits| - 1;
    Unsigned(bits[..n]) - if bits[n] then Power2(n) else 0
  }

  function Power2(n: nat): nat {
    if n == 0 then 1 else 2 * Power2(n - 1)
  }

  lemma {:induction false} UnsignedConcat(a: seq<bool>, b: seq<bool>)
    ensures Unsigned(a + b) == Unsigned(a) + Power2(|a|) * Unsigned(b)
    decreases |a|
  {
    if a == [] {
      assert a + b == b;
    } else {
      UnsignedConcat(a[1..], b);
      assert (a + b)[1..] == a[1..] + b;
      Doubled(Power2(|a| - 1), Unsigned(b));
    }
  }

  lemma Doubled(p: nat, u: nat)
    ensures 2 * (p * u) == (2 * p) * u
  {
  }

  lemma {:induction false} UnsignedEight(bits: seq<bool>)
    requires |bits| == 8
    ensures Unsigned(bits) == EightDigits(bits)
  {
    UnsignedFour(bits[..4]);
    UnsignedFour(bits[4..]);
    assert bits == bits[..4] + bits[4..];
    UnsignedConcat(bits[..4], bits[4..]);
    assert Power2(2) == 4 && Power2(4) == 16;
  }

  lemma {:induction false} UnsignedFour(bits: seq<bool>)
    requires |bits| == 4
    ensures Unsigned(bits) == Digit(bits[0]) + 2 * Digit(bits[1]) + 4 * Digit(bits[2]) + 8 * Digit(bits[3])
  {
    assert bits[1..][1..] == bits[2..] && bits[2..][1..] == bits[3..] && bits[3..][1..] == [];
    assert Unsigned(bits[3..]) == Digit(bits[3]);
    assert Unsigned(bits[2..]) == Digit(bits[2]) + 2 * Digit(bits[3]);
  }

  function EightDigits(bits: seq<bool>): nat
    requires |bits| == 8
  {
    Digit(bits[0]) + 2 * Digit(bits[1]) + 4 * Digit(bits[2]) + 8 * Digit(bits[3])
    + 16 * Digit(bits[4]) + 32 * Digit(bits[5]) + 64 * Digit(bits[6]) + 128 * Digit(bits[7])
  }

  lemma ByteDigits(b: bv8)
    ensures b as int == EightDigits(ByteBits(b))
  {
  }

  lemma {:induction false} ByteUnsigned(b: bv8)
    ensures Unsigned(BitsOf([b])) == b as int
  {
    ByteDigits(b);
    hide BitsOf, Unsigned, EightDigits, ByteBits;
    OneByte(b);
    UnsignedEight(BitsOf([b]));
  }

  function ByteBits(b: bv8): (bits: seq<bool>)
    ensures |bits| == 8
  {
    [Bit(b, 0), Bit(b, 1), Bit(b, 2), Bit(b, 3), Bit(b, 4), Bit(b, 5), Bit(b, 6), Bit(b, 7)]
  }

  lemma OneByte(b: bv8)
    ensures BitsOf([b]) == ByteBits(b)
  {
    hide Bit;
  }

  /** Two bytes, the low one first. */
  lemma {:induction false} WordUnsigned(low: bv8, high: bv8)
    ensures Unsigned(BitsOf([low, high])) == 256 * (high as int) + low as int
  {
    hide BitsOf, Unsigned;
    ByteUnsigned(low);
    ByteUnsigned(high);
    BitsOfConcat([low], [high]);
    assert [low] + [high] == [low, high];
    UnsignedConcat(BitsOf([low]), BitsOf([high]));
    assert Power2(4) == 16 && Power2(8) == 256;
  }

  /** The last bit of a word is its sign. */
  lemma {:induction false} WordSigned(word: seq<bool>)
    requires |word| == 16
    ensures Unsigned(word) < 0x10000
    ensures word[15] <==> Unsigned(word) >= 0x8000
    ensures Signed(word) == Unsigned(word) - if word[15] then 0x10000 else 0
  {
    hide Unsigned;
    UnsignedBelow(word[..15]);
    UnsignedConcat(word[..15], word[15..]);
    assert word == word[..15] + word[15..];
    LastDigit(word[15..]);
    assert Power2(5) == 32 && Power2(10) == 1024 && Power2(15) == 0x8000;
  }

  lemma {:induction false} LastDigit(bits: seq<bool>)
    requires |bits| == 1
    ensures Unsigned(bits) == Digit(bits[0])
  {
    assert bits[1..] == [];
  }

  lemma {:induction false} UnsignedBelow(bits: seq<bool>)
    ensures Unsigned(bits) < Power2(|bits|)
    decreases |bits|
  {
    if bits != [] {
      UnsignedBelow(bits[1..]);
    }
  }
}
