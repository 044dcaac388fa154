// Bytes, their bits and their numbers.
module Bits {

  type byte = bv8

  function Mask(k: nat): byte
    requires k < 8
  {
    (1 as byte) << k
  }

  predicate TestBit(b: byte, k: nat)
    requires k < 8
  {
    (b >> k) & 1 == 1
  }

  function PutBit(b: byte, k: nat, v: bool): byte
    requires k < 8
  {
    if v then b | Mask(k) else b & !Mask(k)
  }

  lemma TestBitByMask(b: byte, k: nat)
    requires k < 8
    ensures TestBit(b, k) == (b & Mask(k) != 0)
  {
    if k == 0 {} else if k == 1 {} else if k == 2 {} else if k == 3 {}
    else if k == 4 {} else if k == 5 {} else if k == 6 {} else {}
  }

  lemma MasksDiffer(k: nat, j: nat)
    requires k < 8 && j < 8
    ensures Mask(k) != 0
    ensures j != k ==> Mask(k) & Mask(j) == 0
  {
    if k == 0 {} else if k == 1 {} else if k == 2 {} else if k == 3 {}
    else if k == 4 {} else if k == 5 {} else if k == 6 {} else {}
  }

  lemma SameMask(b: byte, m: byte)
    ensures (b | m) & m == m
    ensures (b & !m) & m == 0
  {
  }

  lemma OtherMask(b: byte, m: byte, n: byte)
    requires m & n == 0
    ensures (b | m) & n == b & n
    ensures (b & !m) & n == b & n
  {
  }

  // Writing one bit of a byte sets that bit and no other.
  lemma PutBitTestBit(b: byte, k: nat, v: bool, j: nat)
    requires k < 8 && j < 8
    ensures TestBit(PutBit(b, k, v), j) == if j == k then v else TestBit(b, j)
  {
    TestBitByMask(PutBit(b, k, v), j);
    TestBitByMask(b, j);
    MasksDiffer(k, j);
    if j == k {
      SameMask(b, Mask(k));
    } else {
      OtherMask(b, Mask(k), Mask(j));
    }
  }

  lemma BytesAreBits(a: byte, b: byte)
    requires forall k: nat | k < 8 :: TestBit(a, k) == TestBit(b, k)
    ensures a == b
  {
    assert TestBit(a, 0) == TestBit(b, 0);
    assert TestBit(a, 1) == TestBit(b, 1);
    assert TestBit(a, 2) == TestBit(b, 2);
    assert TestBit(a, 3) == TestBit(b, 3);
    assert TestBit(a, 4) == TestBit(b, 4);
    assert TestBit(a, 5) == TestBit(b, 5);
    assert TestBit(a, 6) == TestBit(b, 6);
    assert TestBit(a, 7) == TestBit(b, 7);
  }

  // ---------- a byte as a number ----------

  function BitsOf(b: byte): (bits: seq<bool>)
    ensures |bits| == 8 && forall k | 0 <= k < 8 :: bits[k] == TestBit(b, k)
  {
    seq(8, k requires 0 <= k < 8 => TestBit(b, k))
  }

  function FromBits(bits: seq<bool>): byte
    requires |bits| == 8
  {
    (if bits[0] then 0x01 else 0) | (if bits[1] then 0x02 else 0)
    | (if bits[2] then 0x04 else 0) | (if bits[3] then 0x08 else 0)
    | (if bits[4] then 0x10 else 0) | (if bits[5] then 0x20 else 0)
    | (if bits[6] then 0x40 else 0) | (if bits[7] then 0x80 else 0)
  }

  // The number with these binary digits, the lowest first.
  function Number(bits: seq<bool>): nat {
    if bits == [] then 0 else (if bits[0] then 1 else 0) + 2 * Number(bits[1..])
  }

  function BinaryDigits(u: nat, n: nat): (bits: seq<bool>)
    ensures |bits| == n
  {
    if n == 0 then [] else [u % 2 == 1] + BinaryDigits(u / 2, n - 1)
  }

  function PowerOfTwo(n: nat): (p: nat)
    ensures p >= 1
  {
    if n == 0 then 1 else 2 * PowerOfTwo(n - 1)
  }

  lemma {:induction false} NumberOfDigits(u: nat, n: nat)
    requires u < PowerOfTwo(n)
    ensures Number(BinaryDigits(u, n)) == u
  {
    if n > 0 {
      NumberOfDigits(u / 2, n - 1);
      assert BinaryDigits(u, n)[1..] == BinaryDigits(u / 2, n - 1);
    }
  }

  lemma {:induction false} DigitsOfNumber(bits: seq<bool>)
    ensures BinaryDigits(Number(bits), |bits|) == bits && Number(bits) < PowerOfTwo(|bits|)
  {
    if bits != [] {
      DigitsOfNumber(bits[1..]);
      assert bits == [bits[0]] + bits[1..];
    }
  }

  lemma {:induction false} HighestDigit(bits: seq<bool>)
    requires bits != []
    ensures bits[|bits| - 1] <==> Number(bits) >= PowerOfTwo(|bits| - 1)
  {
    if |bits| > 1 {
      HighestDigit(bits[1..]);
    } else {
      assert bits[1..] == [];
    }
  }

  lemma BitsOfFromBits(bits: seq<bool>)
    requires |bits| == 8
    ensures BitsOf(FromBits(bits)) == bits
  {
    var b := FromBits(bits);
    assert TestBit(b, 0) == bits[0] && TestBit(b, 1) == bits[1] && TestBit(b, 2) == bits[2] && TestBit(b, 3) == bits[3];
    assert TestBit(b, 4) == bits[4] && TestBit(b, 5) == bits[5] && TestBit(b, 6) == bits[6] && TestBit(b, 7) == bits[7];
  }

  lemma FromBitsOf(b: byte)
    ensures FromBits(BitsOf(b)) == b
  {
    BitsOfFromBits(BitsOf(b));
    forall k: nat | k < 8
      ensures TestBit(FromBits(BitsOf(b)), k) == TestBit(b, k)
    {
      assert BitsOf(FromBits(BitsOf(b)))[k] == BitsOf(b)[k];
    }
    BytesAreBits(FromBits(BitsOf(b)), b);
  }

  function ToInt(b: byte): (u: nat)
    ensures u < 256
  {
    DigitsOfNumber(BitsOf(b));
    EightDigits();
    Number(BitsOf(b))
  }

  function OfInt(u: nat): byte
    requires u < 256
  {
    FromBits(BinaryDigits(u, 8))
  }

  lemma EightDigits()
    ensures PowerOfTwo(7) == 128 && PowerOfTwo(8) == 256
  {
    assert PowerOfTwo(4) == 16;
  }

  // Bytes and the numbers below 256 correspond one to one.
  lemma ToOfInt(u: nat)
    requires u < 256
    ensures ToInt(OfInt(u)) == u
  {
    EightDigits();
    BitsOfFromBits(BinaryDigits(u, 8));
    NumberOfDigits(u, 8);
  }

  lemma OfToInt(b: byte)
    ensures OfInt(ToInt(b)) == b
  {
    DigitsOfNumber(BitsOf(b));
    FromBitsOf(b);
  }

  function Unit(bit: bool): nat {
    if bit then 1 else 0
  }

  // Bit k counts 2^k, bit 0 being the lowest of the machine byte.
  lemma ByteValue(b: byte)
    ensures ToInt(b) ==
            (if b & 0x01 != 0 then 1 else 0) + (if b & 0x02 != 0 then 2 else 0)
            + (if b & 0x04 != 0 then 4 else 0) + (if b & 0x08 != 0 then 8 else 0)
            + (if b & 0x10 != 0 then 16 else 0) + (if b & 0x20 != 0 then 32 else 0)
            + (if b & 0x40 != 0 then 64 else 0) + (if b & 0x80 != 0 then 128 else 0)
  {
    hide TestBit, ToInt;
    ByteUnits(b);
    EightBits(b);
  }

  lemma ByteUnits(b: byte)
    ensures ToInt(b) ==
            Unit(TestBit(b, 0)) + 2 * Unit(TestBit(b, 1)) + 4 * Unit(TestBit(b, 2)) + 8 * Unit(TestBit(b, 3))
            + 16 * Unit(TestBit(b, 4)) + 32 * Unit(TestBit(b, 5)) + 64 * Unit(TestBit(b, 6)) + 128 * Unit(TestBit(b, 7))
  {
    var bits := BitsOf(b);
    assert bits[0] == TestBit(b, 0) && bits[1] == TestBit(b, 1) && bits[2] == TestBit(b, 2);
    assert bits[3] == TestBit(b, 3) && bits[4] == TestBit(b, 4) && bits[5] == TestBit(b, 5);
    assert bits[6] == TestBit(b, 6) && bits[7] == TestBit(b, 7);
    assert ToInt(b) == Number(bits);
    hide *;
    NumberOfEight(bits);
  }

  lemma EightBits(b: byte)
    ensures TestBit(b, 0) == (b & 0x01 != 0) && TestBit(b, 1) == (b & 0x02 != 0)
    ensures TestBit(b, 2) == (b & 0x04 != 0) && TestBit(b, 3) == (b & 0x08 != 0)
    ensures TestBit(b, 4) == (b & 0x10 != 0) && TestBit(b, 5) == (b & 0x20 != 0)
    ensures TestBit(b, 6) == (b & 0x40 != 0) && TestBit(b, 7) == (b & 0x80 != 0)
  {
  }

  lemma NumberOfEight(bits: seq<bool>)
    requires |bits| == 8
    ensures Number(bits) ==
            Unit(bits[0]) + 2 * Unit(bits[1]) + 4 * Unit(bits[2]) + 8 * Unit(bits[3])
            + 16 * Unit(bits[4]) + 32 * Unit(bits[5]) + 64 * Unit(bits[6]) + 128 * Unit(bits[7])
  {
    hide Number, Unit;
    NumberOfTwo(bits, 0);
    NumberOfTwo(bits, 2);
    NumberOfTwo(bits, 4);
    NumberOfTwo(bits, 6);
    NumberOfNoBits(bits[8..]);
    assert bits[0..] == bits;
  }

  lemma NumberOfTwo(bits: seq<bool>, k: nat)
    requires k + 2 <= |bits|
    ensures Number(bits[k..]) == Unit(bits[k]) + 2 * Unit(bits[k + 1]) + 4 * Number(bits[k + 2..])
  {
    assert bits[k..][1..][1..] == bits[k + 2..];
  }

  lemma TopBit(b: byte)
    ensures TestBit(b, 7) <==> ToInt(b) >= 128
  {
    HighestDigit(BitsOf(b));
    EightDigits();
  }

  lemma {:induction false} NumberOfNoBits(bits: seq<bool>)
    requires forall k | 0 <= k < |bits| :: !bits[k]
    ensures Number(bits) == 0
  {
    if bits != [] {
      NumberOfNoBits(bits[1..]);
    }
  }

  lemma ZeroByte()
    ensures ToInt(0) == 0
    ensures forall k: nat | k < 8 :: !TestBit(0, k)
  {
    forall k: nat | k < 8
      ensures !TestBit(0, k)
    {
      TestBitByMask(0, k);
    }
    NumberOfNoBits(BitsOf(0));
  }
}
