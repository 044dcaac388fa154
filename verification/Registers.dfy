// A device's variables as registers: values packed into a buffer at their
// addresses (tstlan/devices/unidriver/netvar.py).
module Registers {
  import opened Wrappers
  import opened NetVars
  import opened Bits
  import opened LittleEndian
  import opened Buffers
  import opened Layout

  // ---------- packing ----------

  // struct.pack(_STRUCT_FORMAT[ct], v), None where it raises
  function PackValue(c: FloatCodec, ct: CType, v: Value): Option<seq<byte>>
    requires ct != BIT
  {
    if IsFloat(ct) then
      var d := ToDouble(c, v);
      if d.None? then None
      else if ct == F64 then Some(ToBytes(d.value, 8))
      else
        var s := c.narrow(d.value);
        if s.Some? then Some(ToBytes(s.value, 4)) else None
    else
      match v
      case IntV(i) => if InRange(ct, i) then Some(PackInt(ct, i)) else None
      case FloatV(_) => None
      case BoolV(b) => Some(PackInt(ct, if b then 1 else 0))
  }

  // struct.unpack(_STRUCT_FORMAT[ct], bs)[0]
  function UnpackValue(c: FloatCodec, ct: CType, bs: seq<byte>): Value
    requires ct != BIT && |bs| == ByteSize(ct)
  {
    ModulusOfFloats(bs);
    if ct == F64 then FloatV(FromBytes(bs))
    else if ct == F32 then FloatV(c.widen(FromBytes(bs)))
    else IntV(UnpackInt(ct, bs))
  }

  lemma ModulusOfFloats(bs: seq<byte>)
    ensures FromBytes(bs) < Pow256(|bs|)
    ensures Pow256(4) == 0x1_0000_0000 && Pow256(8) == 0x1_0000_0000_0000_0000
  {
    FromBytesBound(bs);
    ModulusIsPow256(U32);
    ModulusIsPow256(U64);
  }

  lemma UnpackPacked(c: FloatCodec, ct: CType, v: Value)
    requires ct != BIT
    ensures PackValue(c, ct, v).Some? <==> Stored(c, ct, v).Some?
    ensures PackValue(c, ct, v).Some? ==>
              && |PackValue(c, ct, v).value| == ByteSize(ct)
              && UnpackValue(c, ct, PackValue(c, ct, v).value) == Stored(c, ct, v).value
  {
    hide ToBytes, FromBytes, Pow256;
    if PackValue(c, ct, v).Some? {
      if IsFloat(ct) {
        var u := if ct == F64 then ToDouble(c, v).value else c.narrow(ToDouble(c, v).value).value;
        ModulusOfFloats([]);
        FromToBytes(u, ByteSize(ct));
      } else {
        PackUnpack(ct, match v case IntV(i) => i case BoolV(b) => if b then 1 else 0);
      }
    }
  }

  // The bytes that packing puts down, the lowest first: the two's complement of an
  // integer, the bit pattern of a float. A bool packs as 0 or 1.
  lemma PackedBytes(c: FloatCodec, ct: CType, v: Value, k: nat)
    requires ct != BIT && PackValue(c, ct, v).Some? && k < ByteSize(ct)
    ensures |PackValue(c, ct, v).value| == ByteSize(ct)
    ensures var digit := ToInt(PackValue(c, ct, v).value[k]);
            match v
            case IntV(i) =>
              if ct == F64 then c.ofInt(i).Some? && digit == c.ofInt(i).value / Pow256(k) % 256
              else if ct == F32 then
                c.ofInt(i).Some? && c.narrow(c.ofInt(i).value).Some? &&
                digit == c.narrow(c.ofInt(i).value).value / Pow256(k) % 256
              else InRange(ct, i) && digit == (if i < 0 then i + Pow256(ByteSize(ct)) else i) / Pow256(k) % 256
            case FloatV(d) =>
              if ct == F64 then digit == d / Pow256(k) % 256
              else ct == F32 && c.narrow(d).Some? && digit == c.narrow(d).value / Pow256(k) % 256
            case BoolV(b) => PackValue(c, ct, v) == PackValue(c, ct, IntV(if b then 1 else 0))
  {
    hide ToBytes, PackInt, Pow256, ToInt;
    if IsFloat(ct) {
      var u := if ct == F64 then ToDouble(c, v).value else c.narrow(ToDouble(c, v).value).value;
      ByteOf(u, ByteSize(ct), k);
    } else {
      PackedDigit(ct, match v case IntV(i) => i case BoolV(b) => if b then 1 else 0, k);
    }
  }

  // What unpacking makes of the bytes of the number `u`.
  lemma UnpackedValue(c: FloatCodec, ct: CType, bs: seq<byte>, u: nat)
    requires ct != BIT && |bs| == ByteSize(ct) && u < Pow256(|bs|)
    requires forall k: nat | k < |bs| :: ToInt(bs[k]) == u / Pow256(k) % 256
    ensures ct == F64 ==> UnpackValue(c, ct, bs) == FloatV(u)
    ensures ct == F32 ==> u < 0x1_0000_0000 && UnpackValue(c, ct, bs) == FloatV(c.widen(u))
    ensures !IsFloat(ct) ==>
              UnpackValue(c, ct, bs) == IntV(if Signed(ct) && 2 * u >= Pow256(|bs|) then u - Pow256(|bs|) else u)
  {
    hide ToInt, FromBytes, Pow256;
    FromDigits(bs, u);
    ModulusOfFloats(bs);
    if !IsFloat(ct) {
      UnpackedDigits(ct, bs, u);
    }
  }

  // ---------- a register in a buffer ----------

  // The accesses an accessor makes.
  function GetAccess(ct: CType, off: VarOffset): Access
    requires FitsType(ct, off)
    ensures !IsWrite(GetAccess(ct, off))
  {
    if ct == BIT then Access.ReadBit(off.byte, off.bit.value)
    else Access.ReadBytes(off.byte, ByteSize(ct))
  }

  function SetAccess(c: FloatCodec, ct: CType, off: VarOffset, v: Value): Access
    requires FitsType(ct, off) && Stored(c, ct, v).Some?
    ensures !Raises(SetAccess(c, ct, off, v))
  {
    if ct == BIT then Access.WriteBit(off.byte, off.bit.value, Truthy(v))
    else UnpackPacked(c, ct, v); Access.WriteBytes(off.byte, PackValue(c, ct, v).value)
  }

  // What the register at `off` shows.
  function Load(c: FloatCodec, b: seq<byte>, ct: CType, off: VarOffset): Value
    requires FitsType(ct, off)
  {
    if ct == BIT then IntV(if BitAt(b, off.byte, off.bit.value) then 1 else 0)
    else UnpackValue(c, ct, Slice(b, off.byte, ByteSize(ct)))
  }

  lemma SameOwnByte(a: seq<byte>, b: seq<byte>, ct: CType, off: VarOffset, n: nat)
    requires FitsType(ct, off) && ct != BIT && n < ByteSize(ct)
    requires forall i: nat, k: nat | k < 8 && Owns(ct, off, i, k) :: BitAt(a, i, k) == BitAt(b, i, k)
    ensures ByteAt(a, off.byte + n) == ByteAt(b, off.byte + n)
  {
    var i := off.byte + n;
    forall k: nat | k < 8
      ensures TestBit(ByteAt(a, i), k) == TestBit(ByteAt(b, i), k)
    {
      assert Owns(ct, off, i, k);
      assert BitAt(a, i, k) == BitAt(b, i, k);
    }
    BytesAreBits(ByteAt(a, i), ByteAt(b, i));
  }

  // The value `get` makes of the reply to its access.
  function ReplyValue(c: FloatCodec, ct: CType, reply: Reply): Option<Value> {
    match reply
    case Bit(bit) => if ct == BIT then Some(IntV(if bit then 1 else 0)) else None
    case Data(raw) => if ct != BIT && |raw| == ByteSize(ct) then Some(UnpackValue(c, ct, raw)) else None
    case _ => None
  }

  lemma ReplyShowsRegister(c: FloatCodec, b: seq<byte>, ct: CType, off: VarOffset)
    requires FitsType(ct, off)
    ensures ReplyValue(c, ct, Answer(b, GetAccess(ct, off))) == Some(Load(c, b, ct, off))
  {
  }

  // A register shows nothing but the bits it owns.
  lemma LoadOwnBits(c: FloatCodec, a: seq<byte>, b: seq<byte>, ct: CType, off: VarOffset)
    requires FitsType(ct, off)
    requires forall i: nat, k: nat | k < 8 && Owns(ct, off, i, k) :: BitAt(a, i, k) == BitAt(b, i, k)
    ensures Load(c, a, ct, off) == Load(c, b, ct, off)
  {
    if ct == BIT {
      assert Owns(ct, off, off.byte, off.bit.value);
    } else {
      forall n | 0 <= n < ByteSize(ct)
        ensures Slice(a, off.byte, ByteSize(ct))[n] == Slice(b, off.byte, ByteSize(ct))[n]
      {
        SameOwnByte(a, b, ct, off, n);
      }
      assert Slice(a, off.byte, ByteSize(ct)) == Slice(b, off.byte, ByteSize(ct));
    }
  }

  // An accessor writes no bit that its variable does not own.
  lemma SetCoversOwned(c: FloatCodec, ct: CType, off: VarOffset, v: Value, i: nat, k: nat)
    requires FitsType(ct, off) && Stored(c, ct, v).Some? && k < 8
    ensures Covers(SetAccess(c, ct, off, v), i, k) <==> Owns(ct, off, i, k)
  {
    if ct != BIT {
      UnpackPacked(c, ct, v);
    }
  }

  lemma LoadAfterSet(c: FloatCodec, b: seq<byte>, ct: CType, off: VarOffset, v: Value)
    requires FitsType(ct, off) && Stored(c, ct, v).Some?
    ensures Load(c, After(b, SetAccess(c, ct, off, v)), ct, off) == Stored(c, ct, v).value
  {
    var a := SetAccess(c, ct, off, v);
    if ct == BIT {
      AccessOverlays(b, a, off.byte, off.bit.value);
    } else {
      UnpackPacked(c, ct, v);
      assert Slice(After(b, a), off.byte, ByteSize(ct)) == a.data;
    }
  }

  // What a set leaves in the buffer, byte by byte.
  lemma SetWritesBytes(c: FloatCodec, b: seq<byte>, ct: CType, off: VarOffset, v: Value, k: nat)
    requires FitsType(ct, off) && Stored(c, ct, v).Some? && k < ByteSize(ct)
    ensures var after := After(b, SetAccess(c, ct, off, v));
            if ct == BIT then BitAt(after, off.byte, off.bit.value) == Truthy(v)
            else
              && PackValue(c, ct, v).Some? && |PackValue(c, ct, v).value| == ByteSize(ct)
              && ByteAt(after, off.byte + k) == PackValue(c, ct, v).value[k]
  {
    if ct == BIT {
      AccessOverlays(b, SetAccess(c, ct, off, v), off.byte, off.bit.value);
    } else {
      UnpackPacked(c, ct, v);
    }
  }

  // An access that covers none of a register's bits does not change it.
  lemma LoadAfterOther(c: FloatCodec, b: seq<byte>, a: Access, ct: CType, off: VarOffset)
    requires FitsType(ct, off)
    requires forall i: nat, k: nat | k < 8 && Owns(ct, off, i, k) :: !Covers(a, i, k)
    ensures Load(c, After(b, a), ct, off) == Load(c, b, ct, off)
  {
    forall i: nat, k: nat | k < 8 && Owns(ct, off, i, k)
      ensures BitAt(After(b, a), i, k) == BitAt(b, i, k)
    {
      AccessOverlays(b, a, i, k);
    }
    LoadOwnBits(c, After(b, a), b, ct, off);
  }

  // ---------- all registers of a device ----------

  function RegisterAt(c: FloatCodec, b: seq<byte>, cts: seq<CType>, i: nat): Value
    requires i < |cts|
  {
    OffsetsFitTypes(cts, i);
    Load(c, b, cts[i], Offsets(cts)[i])
  }

  function RegistersOf(c: FloatCodec, b: seq<byte>, cts: seq<CType>): (regs: seq<Value>)
    ensures |regs| == |cts|
  {
    seq(|cts|, i requires 0 <= i < |cts| => RegisterAt(c, b, cts, i))
  }

  function SetOf(c: FloatCodec, cts: seq<CType>, i: nat, v: Value): Access
    requires i < |cts| && Stored(c, cts[i], v).Some?
    ensures !Raises(SetOf(c, cts, i, v))
  {
    OffsetsFitTypes(cts, i);
    SetAccess(c, cts[i], Offsets(cts)[i], v)
  }

  // Writing one variable of a device changes that register to the stored value
  // and no other register, even where bits share a byte.
  lemma SetOneRegister(c: FloatCodec, b: seq<byte>, cts: seq<CType>, i: nat, v: Value)
    requires i < |cts| && Stored(c, cts[i], v).Some?
    ensures RegistersOf(c, After(b, SetOf(c, cts, i, v)), cts) ==
            RegistersOf(c, b, cts)[i := Stored(c, cts[i], v).value]
  {
    var a := SetOf(c, cts, i, v);
    OffsetsFitTypes(cts, i);
    forall j: nat | j < |cts|
      ensures RegisterAt(c, After(b, a), cts, j) ==
              if j == i then Stored(c, cts[i], v).value else RegisterAt(c, b, cts, j)
    {
      if j == i {
        LoadAfterSet(c, b, cts[i], Offsets(cts)[i], v);
      } else {
        OffsetsFitTypes(cts, j);
        forall n: nat, k: nat | k < 8 && Owns(cts[j], Offsets(cts)[j], n, k)
          ensures !Covers(a, n, k)
        {
          OffsetsDisjoint(cts, if i < j then i else j, if i < j then j else i);
          SetCoversOwned(c, cts[i], Offsets(cts)[i], v, n, k);
        }
        LoadAfterOther(c, b, a, cts[j], Offsets(cts)[j]);
      }
    }
  }

  // Reads grow the buffer but change no register.
  lemma ReadKeepsRegisters(c: FloatCodec, b: seq<byte>, a: Access, cts: seq<CType>)
    requires !IsWrite(a)
    ensures RegistersOf(c, After(b, a), cts) == RegistersOf(c, b, cts)
  {
    forall j: nat | j < |cts|
      ensures RegisterAt(c, After(b, a), cts, j) == RegisterAt(c, b, cts, j)
    {
      OffsetsFitTypes(cts, j);
      LoadAfterOther(c, b, a, cts[j], Offsets(cts)[j]);
    }
  }

  lemma {:induction false} FromZeros(n: nat)
    ensures FromBytes(seq(n, _ => 0)) == 0
  {
    if n > 0 {
      ZeroByte();
      FromZeros(n - 1);
      var zeros: seq<byte> := seq(n, _ => 0);
      assert zeros[1..] == seq(n - 1, _ => 0);
    }
  }

  // Untouched registers show zero.
  lemma FreshRegisters(c: FloatCodec, cts: seq<CType>, i: nat)
    requires i < |cts|
    ensures RegistersOf(c, [], cts)[i] == Zero(c, cts[i])
  {
    var ct := cts[i];
    var off := Offsets(cts)[i];
    OffsetsFitTypes(cts, i);
    if ct == BIT {
      ZeroByte();
    } else {
      var zeros: seq<byte> := seq(ByteSize(ct), _ => 0);
      assert |zeros| == ByteSize(ct) && forall n | 0 <= n < ByteSize(ct) :: zeros[n] == 0;
      assert Slice([], off.byte, ByteSize(ct)) == zeros;
      FromZeros(ByteSize(ct));
    }
  }

  // ---------- whole runs over any number of handles ----------

  datatype RegisterCall =
    | Get(handle: int, index: nat)
    | Set(handle: int, index: nat, value: Value)

  // Every call goes through an accessor of its handle's variable list.
  predicate CallsFit(layouts: map<int, seq<CType>>, calls: seq<RegisterCall>) {
    forall n | 0 <= n < |calls| ::
      calls[n].handle in layouts && calls[n].index < |layouts[calls[n].handle]|
  }

  // A `set` that cannot pack its value raises and leaves the memory alone.
  function CallMemory(c: FloatCodec, layouts: map<int, seq<CType>>, m: Memory, call: RegisterCall): Memory
    requires CallsFit(layouts, [call])
  {
    assert [call][0] == call;
    var cts := layouts[call.handle];
    OffsetsFitTypes(cts, call.index);
    match call
    case Get(h, i) => Execute(m, h, GetAccess(cts[i], Offsets(cts)[i]))
    case Set(h, i, v) => if Stored(c, cts[i], v).Some? then Execute(m, h, SetOf(c, cts, i, v)) else m
  }

  function RunMemory(c: FloatCodec, layouts: map<int, seq<CType>>, m: Memory, calls: seq<RegisterCall>): Memory
    requires CallsFit(layouts, calls)
  {
    if calls == [] then m
    else
      var n := |calls| - 1;
      assert [calls[n]][0] == calls[n];
      CallMemory(c, layouts, RunMemory(c, layouts, m, calls[..n]), calls[n])
  }

  // The last value that was accepted for a register, or `initial`.
  function LastSet(c: FloatCodec, ct: CType, calls: seq<RegisterCall>, handle: int, index: nat, initial: Value): Value {
    if calls == [] then initial
    else
      var last := calls[|calls| - 1];
      if last.Set? && last.handle == handle && last.index == index && Stored(c, ct, last.value).Some?
      then Stored(c, ct, last.value).value
      else LastSet(c, ct, calls[..|calls| - 1], handle, index, initial)
  }

  // After any run of `get` and `set` calls on any handles, every register shows
  // the last value accepted for it, or what it showed before the run.
  lemma {:induction false} RunShowsLastSet(
    c: FloatCodec, layouts: map<int, seq<CType>>, m: Memory, calls: seq<RegisterCall>, handle: int, index: nat)
    requires CallsFit(layouts, calls)
    requires handle in layouts && index < |layouts[handle]|
    ensures RegistersOf(c, BufferOf(RunMemory(c, layouts, m, calls), handle), layouts[handle])[index] ==
            LastSet(c, layouts[handle][index], calls, handle, index,
                    RegistersOf(c, BufferOf(m, handle), layouts[handle])[index])
  {
    if calls != [] {
      var n := |calls| - 1;
      var call := calls[n];
      var before := RunMemory(c, layouts, m, calls[..n]);
      RunShowsLastSet(c, layouts, m, calls[..n], handle, index);
      assert [call][0] == call;
      var cts := layouts[call.handle];
      var b := BufferOf(before, call.handle);
      OffsetsFitTypes(cts, call.index);
      if call.Get? {
        ReadKeepsRegisters(c, b, GetAccess(cts[call.index], Offsets(cts)[call.index]), cts);
      } else if Stored(c, cts[call.index], call.value).Some? {
        SetOneRegister(c, b, cts, call.index, call.value);
      }
    }
  }

  // `LastSet` is the value of the last accepted set of that register, or else the
  // initial one.
  lemma {:induction false} LastSetIsLast(
    c: FloatCodec, ct: CType, calls: seq<RegisterCall>, handle: int, index: nat, initial: Value, n: nat)
    requires n <= |calls|
    requires forall k | n <= k < |calls| ::
               !(calls[k].Set? && calls[k].handle == handle && calls[k].index == index &&
                 Stored(c, ct, calls[k].value).Some?)
    ensures n == 0 ==> LastSet(c, ct, calls, handle, index, initial) == initial
    ensures n > 0 && calls[n - 1].Set? && calls[n - 1].handle == handle && calls[n - 1].index == index &&
            Stored(c, ct, calls[n - 1].value).Some? ==>
              Some(LastSet(c, ct, calls, handle, index, initial)) == Stored(c, ct, calls[n - 1].value)
  {
    hide Stored;
    if n < |calls| {
      LastSetIsLast(c, ct, calls[..|calls| - 1], handle, index, initial, n);
    }
  }

  // On a fresh memory: the last value set, or zero if there was none.
  lemma FreshRunShowsLastSet(
    c: FloatCodec, layouts: map<int, seq<CType>>, calls: seq<RegisterCall>, handle: int, index: nat)
    requires CallsFit(layouts, calls)
    requires handle in layouts && index < |layouts[handle]|
    ensures RegistersOf(c, BufferOf(RunMemory(c, layouts, map[], calls), handle), layouts[handle])[index] ==
            LastSet(c, layouts[handle][index], calls, handle, index, Zero(c, layouts[handle][index]))
  {
    RunShowsLastSet(c, layouts, map[], calls, handle, index);
    FreshRegisters(c, layouts[handle], index);
  }
}
