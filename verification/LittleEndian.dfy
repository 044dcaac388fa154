// The integer half of `struct.pack` / `struct.unpack` with a "<" format
// (tstlan/devices/unidriver/netvar.py): little-endian two's complement.
module LittleEndian {
  import opened NetVars
  import opened Bits
  import opened Division

  function Pow256(n: nat): (p: nat)
    ensures p >= 1
  {
    Power(256, n)
  }

  function ToBytes(u: nat, n: nat): (bs: seq<byte>)
    ensures |bs| == n
  {
    if n == 0 then [] else [OfInt(u % 256)] + ToBytes(u / 256, n - 1)
  }

  function FromBytes(bs: seq<byte>): (u: nat)
  {
    if bs == [] then 0 else ToInt(bs[0]) + 256 * FromBytes(bs[1..])
  }

  lemma {:induction false} FromBytesBound(bs: seq<byte>)
    ensures FromBytes(bs) < Pow256(|bs|)
  {
    if bs != [] {
      FromBytesBound(bs[1..]);
    }
  }

  lemma {:induction false} FromToBytes(u: nat, n: nat)
    requires u < Pow256(n)
    ensures FromBytes(ToBytes(u, n)) == u
  {
    hide ToInt, OfInt;
    if n > 0 {
      FromToBytes(u / 256, n - 1);
      ToOfInt(u % 256);
      assert ToBytes(u, n)[1..] == ToBytes(u / 256, n - 1);
    }
  }

  lemma {:induction false} ToFromBytes(bs: seq<byte>)
    ensures ToBytes(FromBytes(bs), |bs|) == bs
  {
    hide ToInt, OfInt;
    if bs != [] {
      ToFromBytes(bs[1..]);
      var rest := FromBytes(bs[1..]);
      OfToInt(bs[0]);
      SplitLowByte(ToInt(bs[0]), rest);
      assert bs == [bs[0]] + bs[1..];
    }
  }

  // Byte k of a number is its digit number k in base 256, the lowest first.
  lemma {:induction false} ByteOf(u: nat, n: nat, k: nat)
    requires k < n
    ensures ToInt(ToBytes(u, n)[k]) == u / Pow256(k) % 256
  {
    hide ToInt, OfInt;
    ToOfInt(u % 256);
    if k > 0 {
      ByteOf(u / 256, n - 1, k - 1);
      assert ToBytes(u, n)[k] == ToBytes(u / 256, n - 1)[k - 1];
      DivideTwice(u, 256, Pow256(k - 1));
    }
  }

  // The digits determine the number.
  lemma FromDigits(bs: seq<byte>, u: nat)
    requires u < Pow256(|bs|)
    requires forall k: nat | k < |bs| :: ToInt(bs[k]) == u / Pow256(k) % 256
    ensures FromBytes(bs) == u
  {
    hide ToInt, OfInt, Pow256, FromBytes;
    forall k: nat | k < |bs|
      ensures ToBytes(u, |bs|)[k] == bs[k]
    {
      ByteOf(u, |bs|, k);
      OfToInt(bs[k]);
      OfToInt(ToBytes(u, |bs|)[k]);
    }
    assert ToBytes(u, |bs|) == bs;
    FromToBytes(u, |bs|);
  }

  lemma SplitLowByte(low: nat, rest: nat)
    requires low < 256
    ensures (low + 256 * rest) % 256 == low && (low + 256 * rest) / 256 == rest
  {
  }

  predicate Signed(ct: CType) {
    ct == I8 || ct == I16 || ct == I32 || ct == I64
  }

  predicate IsInteger(ct: CType) {
    ct != BIT && !IsFloat(ct)
  }

  // The number of bit patterns of an integer type.
  function Modulus(ct: CType): (m: nat)
    requires IsInteger(ct)
  {
    IntRange(ct).1 - IntRange(ct).0 + 1
  }

  lemma ModulusIsPow256(ct: CType)
    requires IsInteger(ct)
    ensures Modulus(ct) == Pow256(ByteSize(ct))
  {
    assert Pow256(1) == 0x100;
    assert Pow256(2) == 0x1_0000;
    assert Pow256(3) == 0x100_0000;
    assert Pow256(4) == 0x1_0000_0000;
    assert Pow256(5) == 0x100_0000_0000;
    assert Pow256(6) == 0x1_0000_0000_0000;
    assert Pow256(7) == 0x100_0000_0000_0000;
    assert Pow256(8) == 0x1_0000_0000_0000_0000;
  }

  // struct.pack of an integer in range
  function PackInt(ct: CType, i: int): (bs: seq<byte>)
    requires IsInteger(ct) && InRange(ct, i)
    ensures |bs| == ByteSize(ct)
  {
    ToBytes(if i < 0 then i + Modulus(ct) else i, ByteSize(ct))
  }

  // struct.unpack: the high half of the patterns of a signed type is negative
  function UnpackInt(ct: CType, bs: seq<byte>): int
    requires IsInteger(ct) && |bs| == ByteSize(ct)
  {
    var u := FromBytes(bs);
    if u > IntRange(ct).1 then u - Modulus(ct) else u
  }

  // Packing and unpacking are inverse to each other, in both orders: the
  // integers a register accepts and its byte strings correspond one to one.
  lemma PackUnpack(ct: CType, i: int)
    requires IsInteger(ct) && InRange(ct, i)
    ensures UnpackInt(ct, PackInt(ct, i)) == i
  {
    ModulusIsPow256(ct);
    FromToBytes(if i < 0 then i + Modulus(ct) else i, ByteSize(ct));
  }

  lemma UnpackPack(ct: CType, bs: seq<byte>)
    requires IsInteger(ct) && |bs| == ByteSize(ct)
    ensures InRange(ct, UnpackInt(ct, bs))
    ensures PackInt(ct, UnpackInt(ct, bs)) == bs
  {
    ModulusIsPow256(ct);
    FromBytesBound(bs);
    ToFromBytes(bs);
  }

  // Every byte of a packed integer: the digits of its two's complement, the
  // lowest first, for signed and unsigned types alike.
  lemma PackedDigit(ct: CType, i: int, k: nat)
    requires IsInteger(ct) && InRange(ct, i) && k < ByteSize(ct)
    ensures ToInt(PackInt(ct, i)[k]) == (if i < 0 then i + Pow256(ByteSize(ct)) else i) / Pow256(k) % 256
  {
    ModulusIsPow256(ct);
    ByteOf(if i < 0 then i + Modulus(ct) else i, ByteSize(ct), k);
  }

  lemma UnpackedDigits(ct: CType, bs: seq<byte>, u: nat)
    requires IsInteger(ct) && |bs| == ByteSize(ct) && u == FromBytes(bs)
    ensures UnpackInt(ct, bs) == if Signed(ct) && 2 * u >= Pow256(|bs|) then u - Pow256(|bs|) else u
  {
    ModulusIsPow256(ct);
    FromBytesBound(bs);
  }

  // A signed type reads a byte string as a negative number exactly when the top
  // bit of its last byte is set.
  lemma SignIsTopBit(ct: CType, bs: seq<byte>)
    requires IsInteger(ct) && |bs| == ByteSize(ct)
    ensures UnpackInt(ct, bs) < 0 <==> Signed(ct) && TestBit(bs[|bs| - 1], 7)
  {
    hide TestBit, ToInt, FromBytes;
    ModulusIsPow256(ct);
    FromBytesBound(bs);
    TopByte(bs);
    TopBit(bs[|bs| - 1]);
    TopHalf(ToInt(bs[|bs| - 1]), Pow256(|bs| - 1), FromBytes(bs));
  }

  lemma TopHalf(top: nat, p: nat, u: nat)
    requires top * p <= u < (top + 1) * p
    ensures u >= 128 * p <==> top >= 128
  {
    if top >= 128 {
      ScaleUp(128, top, p);
    } else {
      ScaleUp(top + 1, 128, p);
    }
  }

  lemma {:induction false} TopByte(bs: seq<byte>)
    requires bs != []
    ensures var top := ToInt(bs[|bs| - 1]); var p := Pow256(|bs| - 1);
            top * p <= FromBytes(bs) < (top + 1) * p
  {
    hide ToInt, OfInt;
    if |bs| > 1 {
      TopByte(bs[1..]);
      ShiftBounds(ToInt(bs[|bs| - 1]), Pow256(|bs| - 2), FromBytes(bs[1..]), ToInt(bs[0]));
    } else {
      assert bs[1..] == [];
    }
  }

  lemma ShiftBounds(top: nat, p: nat, rest: nat, low: nat)
    requires top * p <= rest < (top + 1) * p && low < 256
    ensures top * (256 * p) <= low + 256 * rest < (top + 1) * (256 * p)
  {
    assert top * (256 * p) == 256 * (top * p);
    assert (top + 1) * (256 * p) == 256 * ((top + 1) * p);
  }
}
