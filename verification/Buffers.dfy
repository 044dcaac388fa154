// One zero-extended byte buffer per handle, read and written by bytes or by
// single bits (tstlan/devices/unidriver/io.py).
module Buffers {
  import opened Bits
  import opened Sequences

  // ---------- one buffer ----------

  // The buffer as its users see it: zeros beyond the end.
  function ByteAt(b: seq<byte>, i: nat): byte {
    if i < |b| then b[i] else 0
  }

  predicate BitAt(b: seq<byte>, i: nat, k: nat)
    requires k < 8
  {
    TestBit(ByteAt(b, i), k)
  }

  function Extend(b: seq<byte>, end: nat): (e: seq<byte>)
    ensures |e| == Max(|b|, end)
    ensures forall i: nat :: ByteAt(e, i) == ByteAt(b, i)
  {
    if end > |b| then b + seq(end - |b|, _ => 0) else b
  }

  function Slice(b: seq<byte>, i: nat, n: nat): (s: seq<byte>)
    ensures |s| == n
    ensures forall k | 0 <= k < n :: s[k] == ByteAt(b, i + k)
  {
    seq(n, k requires 0 <= k => ByteAt(b, i + k))
  }

  function PutBytes(b: seq<byte>, i: nat, v: seq<byte>): (e: seq<byte>)
    ensures |e| == Max(|b|, i + |v|)
    ensures forall j: nat :: ByteAt(e, j) == if i <= j < i + |v| then v[j - i] else ByteAt(b, j)
  {
    var x := Extend(b, i + |v|);
    assert forall j: nat :: ByteAt(x, j) == ByteAt(b, j);
    x[..i] + v + x[i + |v|..]
  }

  function PutBitAt(b: seq<byte>, i: nat, k: nat, v: bool): (e: seq<byte>)
    requires k < 8
    ensures |e| == Max(|b|, i + 1)
    ensures forall j: nat :: ByteAt(e, j) == if j == i then PutBit(ByteAt(b, i), k, v) else ByteAt(b, j)
  {
    var x := Extend(b, i + 1);
    assert ByteAt(x, i) == ByteAt(b, i);
    x[i := PutBit(x[i], k, v)]
  }

  lemma BuffersAreBits(a: seq<byte>, b: seq<byte>)
    requires |a| == |b|
    requires forall i: nat, k: nat | k < 8 :: BitAt(a, i, k) == BitAt(b, i, k)
    ensures a == b
  {
    forall i | 0 <= i < |a|
      ensures a[i] == b[i]
    {
      forall k: nat | k < 8
        ensures TestBit(a[i], k) == TestBit(b[i], k)
      {
        assert BitAt(a, i, k) == BitAt(b, i, k);
      }
      BytesAreBits(a[i], b[i]);
    }
  }

  // ---------- raw requests ----------

  // A call on the memory interface, on one buffer.
  datatype Access =
    | ReadBytes(index: nat, size: nat)
    | WriteBytes(index: nat, data: seq<byte>)
    | ReadBit(byteIndex: nat, bitIndex: nat)
    | WriteBit(byteIndex: nat, bitIndex: nat, value: bool)

  // Raised stands for the error of putting a number over 255 into a byte.
  datatype Reply = Data(data: seq<byte>) | Bit(value: bool) | Done | Raised

  predicate IsWrite(a: Access) {
    a.WriteBytes? || a.WriteBit?
  }

  // The buffer length an access makes sure of.
  function End(a: Access): nat {
    match a
    case ReadBytes(i, n) => i + n
    case WriteBytes(i, v) => i + |v|
    case ReadBit(i, _) => i + 1
    case WriteBit(i, _, _) => i + 1
  }

  // A byte has no bit over 7: reading one finds it false, clearing one changes
  // nothing, and setting one raises. Each of them has grown the buffer by then.
  predicate Raises(a: Access) {
    a.WriteBit? && a.bitIndex >= 8 && a.value
  }

  function After(b: seq<byte>, a: Access): seq<byte> {
    match a
    case ReadBytes(i, n) => Extend(b, i + n)
    case WriteBytes(i, v) => PutBytes(b, i, v)
    case ReadBit(i, _) => Extend(b, i + 1)
    case WriteBit(i, k, v) => if k < 8 then PutBitAt(b, i, k, v) else Extend(b, i + 1)
  }

  function Answer(b: seq<byte>, a: Access): Reply {
    match a
    case ReadBytes(i, n) => Data(Slice(b, i, n))
    case ReadBit(i, k) => Bit(k < 8 && BitAt(b, i, k))
    case _ => if Raises(a) then Raised else Done
  }

  // Which bits an access writes, and what it writes there.
  predicate Covers(a: Access, i: nat, k: nat) {
    match a
    case WriteBytes(index, v) => index <= i < index + |v|
    case WriteBit(index, bit, _) => i == index && k == bit
    case _ => false
  }

  predicate Written(a: Access, i: nat, k: nat)
    requires k < 8 && Covers(a, i, k)
  {
    match a
    case WriteBytes(index, v) => TestBit(v[i - index], k)
    case WriteBit(_, _, v) => v
  }

  // An access overlays the bits it covers with its own and keeps all others,
  // and only lengthens the buffer.
  lemma AccessOverlays(b: seq<byte>, a: Access, i: nat, k: nat)
    requires k < 8
    ensures |After(b, a)| == Max(|b|, End(a))
    ensures BitAt(After(b, a), i, k) == if Covers(a, i, k) then Written(a, i, k) else BitAt(b, i, k)
  {
    if a.WriteBit? && i == a.byteIndex && a.bitIndex < 8 {
      PutBitTestBit(ByteAt(b, i), a.bitIndex, a.value, k);
    }
  }

  // ---------- all buffers ----------

  type Memory = map<int, seq<byte>>

  function BufferOf(m: Memory, handle: int): seq<byte> {
    if handle in m then m[handle] else []
  }

  function Execute(m: Memory, handle: int, a: Access): Memory {
    m[handle := After(BufferOf(m, handle), a)]
  }

  class InMemoryUnidriverIO {
    var buffers: Memory

    constructor ()
      ensures buffers == map[]
    {
      buffers := map[];
    }

    method Ensure(handle: int, end: nat)
      modifies this
      ensures buffers == old(buffers)[handle := Extend(BufferOf(old(buffers), handle), end)]
    {
      if handle !in buffers {
        buffers := buffers[handle := []];
      }
      var buffer := buffers[handle];
      if end > |buffer| {
        buffers := buffers[handle := buffer + seq(end - |buffer|, _ => 0)];
      }
    }

    method ReadBytes(handle: int, index: nat, size: nat) returns (data: seq<byte>)
      modifies this
      ensures buffers == Execute(old(buffers), handle, Access.ReadBytes(index, size))
      ensures Data(data) == Answer(BufferOf(old(buffers), handle), Access.ReadBytes(index, size))
      ensures |data| == size && forall k | 0 <= k < size :: data[k] == ByteAt(BufferOf(old(buffers), handle), index + k)
    {
      Ensure(handle, index + size);
      data := buffers[handle][index..index + size];
      ghost var b := BufferOf(old(buffers), handle);
      forall k | 0 <= k < size
        ensures data[k] == Slice(b, index, size)[k]
      {
        assert ByteAt(buffers[handle], index + k) == ByteAt(b, index + k);
      }
    }

    method WriteBytes(handle: int, index: nat, value: seq<byte>)
      modifies this
      ensures buffers == Execute(old(buffers), handle, Access.WriteBytes(index, value))
      ensures forall j: nat :: ByteAt(BufferOf(buffers, handle), j) ==
                               if index <= j < index + |value| then value[j - index]
                               else ByteAt(BufferOf(old(buffers), handle), j)
    {
      Ensure(handle, index + |value|);
      var buffer := buffers[handle];
      buffers := buffers[handle := buffer[..index] + value + buffer[index + |value|..]];
    }

    method ReadBit(handle: int, byteIndex: nat, bitIndex: nat) returns (value: bool)
      modifies this
      ensures buffers == Execute(old(buffers), handle, Access.ReadBit(byteIndex, bitIndex))
      ensures Bit(value) == Answer(BufferOf(old(buffers), handle), Access.ReadBit(byteIndex, bitIndex))
      ensures value <==> bitIndex < 8 && BitAt(BufferOf(old(buffers), handle), byteIndex, bitIndex)
    {
      Ensure(handle, byteIndex + 1);
      value := bitIndex < 8 && (buffers[handle][byteIndex] >> bitIndex) & 1 == 1;
      assert ByteAt(buffers[handle], byteIndex) == ByteAt(BufferOf(old(buffers), handle), byteIndex);
    }

    // `ok` is false where the number made is too large for a byte.
    method WriteBit(handle: int, byteIndex: nat, bitIndex: nat, value: bool) returns (ok: bool)
      modifies this
      ensures buffers == Execute(old(buffers), handle, Access.WriteBit(byteIndex, bitIndex, value))
      ensures (if ok then Done else Raised) ==
              Answer(BufferOf(old(buffers), handle), Access.WriteBit(byteIndex, bitIndex, value))
    {
      Ensure(handle, byteIndex + 1);
      var buffer := buffers[handle];
      assert buffer == Extend(BufferOf(old(buffers), handle), byteIndex + 1);
      if bitIndex >= 8 {
        return !value;
      }
      buffers := buffers[handle := buffer[byteIndex := PutBit(buffer[byteIndex], bitIndex, value)]];
      return true;
    }
  }
}
