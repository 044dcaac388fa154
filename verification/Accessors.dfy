// Variables and their accessors over a memory interface
// (tstlan/models.py, tstlan/devices/unidriver/netvar.py, tstlan/devices/runtime.py).
module Accessors {
  import opened Wrappers
  import opened NetVars
  import opened Buffers
  import opened Layout
  import opened Registers
  import opened Sequences

  class NetVar {
    const name: string
    const ctype: CType
    const mode: Mode
    var value: Value

    constructor (name: string, ctype: CType, mode: Mode, value: Value)
      ensures this.name == name && this.ctype == ctype && this.mode == mode && this.value == value
    {
      this.name, this.ctype, this.mode, this.value := name, ctype, mode, value;
    }
  }

  class NetVarAccessor {
    const codec: FloatCodec
    const io: InMemoryUnidriverIO
    const handle: int
    const variable: NetVar
    const offset: VarOffset

    constructor (codec: FloatCodec, io: InMemoryUnidriverIO, handle: int, variable: NetVar, offset: VarOffset)
      ensures this.codec == codec && this.io == io && this.handle == handle
      ensures this.variable == variable && this.offset == offset
    {
      this.codec, this.io, this.handle, this.variable, this.offset := codec, io, handle, variable, offset;
    }

    // Asserted before each access; every address of a layout satisfies it.
    predicate Fits() {
      FitsType(variable.ctype, offset)
    }

    function Name(): string {
      variable.name
    }

    method Get() returns (value: Value)
      requires Fits()
      modifies io
      ensures io.buffers == Execute(old(io.buffers), handle, GetAccess(variable.ctype, offset))
      ensures value == Load(codec, BufferOf(old(io.buffers), handle), variable.ctype, offset)
    {
      if variable.ctype == BIT {
        var bit := io.ReadBit(handle, offset.byte, offset.bit.value);
        value := IntV(if bit then 1 else 0);
      } else {
        var raw := io.ReadBytes(handle, offset.byte, ByteSize(variable.ctype));
        value := UnpackValue(codec, variable.ctype, raw);
      }
    }

    // `ok` is false where packing raises, before anything is written.
    method Set(value: Value) returns (ok: bool)
      requires Fits()
      modifies io
      ensures ok <==> Stored(codec, variable.ctype, value).Some?
      ensures io.buffers ==
              if ok then Execute(old(io.buffers), handle, SetAccess(codec, variable.ctype, offset, value))
              else old(io.buffers)
    {
      if variable.ctype == BIT {
        ok := io.WriteBit(handle, offset.byte, offset.bit.value, Truthy(value));
        return;
      }
      UnpackPacked(codec, variable.ctype, value);
      var packed := PackValue(codec, variable.ctype, value);
      if packed.None? {
        return false;
      }
      io.WriteBytes(handle, offset.byte, packed.value);
      return true;
    }
  }

  function Types(variables: seq<NetVar>): (cts: seq<CType>)
    ensures |cts| == |variables|
    ensures forall i | 0 <= i < |variables| :: cts[i] == variables[i].ctype
  {
    seq(|variables|, i requires 0 <= i < |variables| => variables[i].ctype)
  }

  function Names(variables: seq<NetVar>): (names: seq<string>)
    ensures |names| == |variables|
    ensures forall i | 0 <= i < |variables| :: names[i] == variables[i].name
  {
    seq(|variables|, i requires 0 <= i < |variables| => variables[i].name)
  }

  // The variable that the name of variable `i` leads to in a dict: the last one
  // of that name, and so `i` itself where names are distinct.
  function Slot(variables: seq<NetVar>, i: nat): (slot: nat)
    requires i < |variables|
    ensures i <= slot < |variables| && variables[slot].name == variables[i].name
    ensures forall j | slot < j < |variables| :: variables[j].name != variables[i].name
  {
    LastOf(Names(variables), i)
  }

  lemma SlotOfSlot(variables: seq<NetVar>, i: nat)
    requires i < |variables|
    ensures Slot(variables, Slot(variables, i)) == Slot(variables, i)
  {
  }

  // `acc` is the accessor of variable `i` of a device under `handle`.
  ghost predicate Bound(acc: NetVarAccessor, codec: FloatCodec, io: InMemoryUnidriverIO, handle: int,
                        variables: seq<NetVar>, i: nat)
    requires i < |variables|
  {
    && acc.codec == codec && acc.io == io && acc.handle == handle
    && acc.variable == variables[i] && acc.offset == Offsets(Types(variables))[i]
  }

  method BuildScheme(codec: FloatCodec, io: InMemoryUnidriverIO, handle: int, variables: seq<NetVar>)
    returns (scheme: seq<NetVarAccessor>)
    ensures |scheme| == |variables|
    ensures forall i | 0 <= i < |variables| :: Bound(scheme[i], codec, io, handle, variables, i)
  {
    var offsets := VariableOffsets(Types(variables));
    scheme := [];
    for i := 0 to |variables|
      invariant |scheme| == i
      invariant forall j | 0 <= j < i :: Bound(scheme[j], codec, io, handle, variables, j)
    {
      var acc := new NetVarAccessor(codec, io, handle, variables[i], offsets[i]);
      scheme := scheme + [acc];
    }
  }

  // ---------- runtimes ----------

  datatype Device = Device(id: string, name: string, deviceType: string, enabled: bool, variables: seq<NetVar>)

  datatype DeviceRuntime = DeviceRuntime(device: Device, scheme: map<string, NetVarAccessor>)

  // The scheme has the variables' names, each with the accessor of its slot.
  ghost predicate Wired(scheme: map<string, NetVarAccessor>, codec: FloatCodec, io: InMemoryUnidriverIO,
                        handle: int, variables: seq<NetVar>)
  {
    && (forall name | name in scheme :: exists i :: 0 <= i < |variables| && variables[i].name == name)
    && (forall i {:trigger Slot(variables, i)} | 0 <= i < |variables| ::
          && variables[i].name in scheme
          && Bound(scheme[variables[i].name], codec, io, handle, variables, Slot(variables, i)))
  }

  ghost function RegistersAt(codec: FloatCodec, io: InMemoryUnidriverIO, handle: int, variables: seq<NetVar>)
    : (regs: seq<Value>)
    reads io
    ensures |regs| == |variables|
  {
    RegistersOf(codec, BufferOf(io.buffers, handle), Types(variables))
  }

  // `acc` is the accessor of the last variable called `name` among the first `n`.
  ghost predicate LastBound(acc: NetVarAccessor, codec: FloatCodec, io: InMemoryUnidriverIO, handle: int,
                            variables: seq<NetVar>, n: nat, name: string)
    requires n <= |variables|
  {
    exists j: nat ::
      && j < n && Bound(acc, codec, io, handle, variables, j) && variables[j].name == name
      && forall k | j < k < n :: variables[k].name != name
  }

  // The dict of a device's accessors by name, in which a repeated name keeps the
  // last accessor; nothing is written.
  method SchemeByName(codec: FloatCodec, io: InMemoryUnidriverIO, handle: int, variables: seq<NetVar>)
    returns (scheme: map<string, NetVarAccessor>)
    ensures Wired(scheme, codec, io, handle, variables)
  {
    hide Types, Bound, LastBound, Wired, Slot;
    var accessors := BuildScheme(codec, io, handle, variables);
    scheme := map[];
    for i := 0 to |accessors|
      invariant forall j | 0 <= j < i :: variables[j].name in scheme
      invariant forall name | name in scheme :: LastBound(scheme[name], codec, io, handle, variables, i, name)
    {
      LastBoundNext(scheme, accessors[i], codec, io, handle, variables, i);
      scheme := scheme[accessors[i].Name() := accessors[i]];
    }
    LastBoundIsWired(scheme, codec, io, handle, variables);
  }

  lemma LastBoundNext(scheme: map<string, NetVarAccessor>, acc: NetVarAccessor, codec: FloatCodec,
                      io: InMemoryUnidriverIO, handle: int, variables: seq<NetVar>, i: nat)
    requires i < |variables| && Bound(acc, codec, io, handle, variables, i)
    requires forall name | name in scheme :: LastBound(scheme[name], codec, io, handle, variables, i, name)
    ensures var after := scheme[variables[i].name := acc];
            && acc.Name() == variables[i].name
            && forall name | name in after :: LastBound(after[name], codec, io, handle, variables, i + 1, name)
  {
    assert acc.variable == variables[i];
    hide Bound;
    var after := scheme[variables[i].name := acc];
    forall name | name in after
      ensures LastBound(after[name], codec, io, handle, variables, i + 1, name)
    {
      if name != variables[i].name {
        assert LastBound(scheme[name], codec, io, handle, variables, i, name);
      }
    }
  }

  lemma LastBoundIsWired(scheme: map<string, NetVarAccessor>, codec: FloatCodec, io: InMemoryUnidriverIO,
                         handle: int, variables: seq<NetVar>)
    requires forall i | 0 <= i < |variables| :: variables[i].name in scheme
    requires forall name | name in scheme ::
               LastBound(scheme[name], codec, io, handle, variables, |variables|, name)
    ensures Wired(scheme, codec, io, handle, variables)
  {
    hide Bound, Slot;
    forall i: nat | i < |variables|
      ensures Bound(scheme[variables[i].name], codec, io, handle, variables, Slot(variables, i))
    {
      assert LastBound(scheme[variables[i].name], codec, io, handle, variables, |variables|, variables[i].name);
    }
    forall name | name in scheme
      ensures exists i :: 0 <= i < |variables| && variables[i].name == name
    {
      assert LastBound(scheme[name], codec, io, handle, variables, |variables|, name);
    }
  }

  // One `get` / `set` of an accessor, seen on the registers of all handles.
  method GetBound(acc: NetVarAccessor, ghost codec: FloatCodec, ghost io: InMemoryUnidriverIO, ghost handle: int,
                  ghost variables: seq<NetVar>, ghost slot: nat)
    returns (value: Value)
    requires slot < |variables| && Bound(acc, codec, io, handle, variables, slot)
    modifies io
    ensures value == RegistersAt(codec, io, handle, variables)[slot]
    ensures forall h, cts :: RegistersOf(codec, BufferOf(io.buffers, h), cts) ==
                             RegistersOf(codec, BufferOf(old(io.buffers), h), cts)
    ensures forall h | h != handle :: BufferOf(io.buffers, h) == BufferOf(old(io.buffers), h)
  {
    OffsetsFitTypes(Types(variables), slot);
    value := acc.Get();
    forall cts
      ensures RegistersOf(codec, BufferOf(io.buffers, handle), cts) ==
              RegistersOf(codec, BufferOf(old(io.buffers), handle), cts)
    {
      ReadKeepsRegisters(codec, BufferOf(old(io.buffers), handle), GetAccess(variables[slot].ctype, acc.offset), cts);
    }
  }

  method SetBound(acc: NetVarAccessor, ghost codec: FloatCodec, ghost io: InMemoryUnidriverIO, ghost handle: int,
                  ghost variables: seq<NetVar>, ghost slot: nat, value: Value)
    returns (ok: bool)
    requires slot < |variables| && Bound(acc, codec, io, handle, variables, slot)
    modifies io
    ensures ok <==> Stored(codec, variables[slot].ctype, value).Some?
    ensures RegistersAt(codec, io, handle, variables) ==
            if ok
            then old(RegistersAt(codec, io, handle, variables))
                 [slot := Stored(codec, variables[slot].ctype, value).value]
            else old(RegistersAt(codec, io, handle, variables))
    ensures forall h | h != handle :: BufferOf(io.buffers, h) == BufferOf(old(io.buffers), h)
  {
    OffsetsFitTypes(Types(variables), slot);
    ok := acc.Set(value);
    if ok {
      SetOneRegister(codec, BufferOf(old(io.buffers), handle), Types(variables), slot, value);
    }
  }

  // One `get` / `set` by name: it goes to the slot of the name.
  method GetRegister(ghost codec: FloatCodec, ghost io: InMemoryUnidriverIO, ghost handle: int,
                     scheme: map<string, NetVarAccessor>, variables: seq<NetVar>, i: nat)
    returns (value: Value)
    requires Wired(scheme, codec, io, handle, variables) && i < |variables|
    modifies io
    ensures value == RegistersAt(codec, io, handle, variables)[Slot(variables, i)]
    ensures forall h, cts :: RegistersOf(codec, BufferOf(io.buffers, h), cts) ==
                             RegistersOf(codec, BufferOf(old(io.buffers), h), cts)
    ensures forall h | h != handle :: BufferOf(io.buffers, h) == BufferOf(old(io.buffers), h)
  {
    hide RegistersOf, RegistersAt, Bound, Slot, Types, BufferOf;
    ghost var slot := Slot(variables, i);
    value := GetBound(scheme[variables[i].name], codec, io, handle, variables, slot);
  }

  method SetRegister(ghost codec: FloatCodec, ghost io: InMemoryUnidriverIO, ghost handle: int,
                     scheme: map<string, NetVarAccessor>, variables: seq<NetVar>, i: nat, value: Value)
    returns (ok: bool)
    requires Wired(scheme, codec, io, handle, variables) && i < |variables|
    modifies io
    ensures ok <==> Stored(codec, variables[Slot(variables, i)].ctype, value).Some?
    ensures RegistersAt(codec, io, handle, variables) ==
            if ok then SlotSet(codec, variables, old(RegistersAt(codec, io, handle, variables)), i, value)
            else old(RegistersAt(codec, io, handle, variables))
    ensures forall h | h != handle :: BufferOf(io.buffers, h) == BufferOf(old(io.buffers), h)
  {
    hide RegistersOf, RegistersAt, Bound, Slot, Types, BufferOf, Stored;
    ghost var slot := Slot(variables, i);
    ok := SetBound(scheme[variables[i].name], codec, io, handle, variables, slot, value);
  }

  // The registers with `value` put into the slot of variable `i`.
  ghost function SlotSet(codec: FloatCodec, variables: seq<NetVar>, regs: seq<Value>, i: nat, value: Value)
    : (after: seq<Value>)
    requires |regs| == |variables| && i < |variables|
    requires Stored(codec, variables[Slot(variables, i)].ctype, value).Some?
    ensures |after| == |regs|
  {
    regs[Slot(variables, i) := Stored(codec, variables[Slot(variables, i)].ctype, value).value]
  }

  // Every initial value fits the slot it is published to.
  ghost predicate Storable(codec: FloatCodec, variables: seq<NetVar>)
    reads variables
  {
    forall i {:trigger Slot(variables, i)} | 0 <= i < |variables| ::
      Stored(codec, variables[Slot(variables, i)].ctype, variables[i].value).Some?
  }

  // The registers once the initial values are published: each holds the value of
  // its own variable, except where a later variable has the name; no access goes
  // there.
  ghost function Published(codec: FloatCodec, variables: seq<NetVar>, before: seq<Value>): (regs: seq<Value>)
    requires |before| == |variables| && Storable(codec, variables)
    reads variables
    ensures |regs| == |variables|
    ensures forall i {:trigger regs[i]} | 0 <= i < |variables| ::
              if Slot(variables, i) == i
              then Some(regs[i]) == Stored(codec, variables[i].ctype, variables[i].value)
              else regs[i] == before[i]
  {
    seq(|variables|, i requires 0 <= i < |variables| reads variables requires Storable(codec, variables) =>
      if Slot(variables, i) == i then Stored(codec, variables[i].ctype, variables[i].value).value else before[i])
  }

  // `ok` is false where an initial value does not fit its type and `set` raises.
  method PublishValues(ghost codec: FloatCodec, ghost io: InMemoryUnidriverIO, ghost handle: int,
                       scheme: map<string, NetVarAccessor>, variables: seq<NetVar>)
    returns (ok: bool)
    requires Wired(scheme, codec, io, handle, variables)
    modifies io
    ensures ok <==> Storable(codec, variables)
    ensures ok ==> RegistersAt(codec, io, handle, variables) ==
                   Published(codec, variables, old(RegistersAt(codec, io, handle, variables)))
    ensures forall h | h != handle :: BufferOf(io.buffers, h) == BufferOf(old(io.buffers), h)
  {
    hide RegistersOf, RegistersAt, Wired, Types, BufferOf, Slot, Stored, Published, SlotSet;
    ghost var before := RegistersAt(codec, io, handle, variables);
    for i := 0 to |variables|
      invariant PublishedUpTo(codec, variables, before, RegistersAt(codec, io, handle, variables), i)
      invariant forall h | h != handle :: BufferOf(io.buffers, h) == BufferOf(old(io.buffers), h)
    {
      ghost var regs := RegistersAt(codec, io, handle, variables);
      var fits := SetRegister(codec, io, handle, scheme, variables, i, variables[i].value);
      if !fits {
        return false;
      }
      PublishedNext(codec, variables, before, regs, i);
    }
    assert RegistersAt(codec, io, handle, variables) == Published(codec, variables, before);
    return true;
  }

  // The first `n` initial values are published.
  ghost predicate PublishedUpTo(codec: FloatCodec, variables: seq<NetVar>, before: seq<Value>, regs: seq<Value>, n: nat)
    requires |before| == |regs| == |variables| && n <= |variables|
    reads variables
  {
    && (forall i | 0 <= i < n :: Stored(codec, variables[Slot(variables, i)].ctype, variables[i].value).Some?)
    && (forall i | 0 <= i < |variables| ::
          if Slot(variables, i) != i then regs[i] == before[i]
          else i < n ==> Some(regs[i]) == Stored(codec, variables[i].ctype, variables[i].value))
  }

  lemma PublishedNext(codec: FloatCodec, variables: seq<NetVar>, before: seq<Value>, regs: seq<Value>, n: nat)
    requires |before| == |regs| == |variables| && n < |variables|
    requires PublishedUpTo(codec, variables, before, regs, n)
    requires Stored(codec, variables[Slot(variables, n)].ctype, variables[n].value).Some?
    ensures PublishedUpTo(codec, variables, before, SlotSet(codec, variables, regs, n, variables[n].value), n + 1)
  {
    hide Slot, Stored;
    SlotOfSlot(variables, n);
  }

  method AttachDevice(codec: FloatCodec, io: InMemoryUnidriverIO, device: Device, handle: int)
    returns (runtime: DeviceRuntime)
    ensures runtime.device == device && Wired(runtime.scheme, codec, io, handle, device.variables)
  {
    var scheme := SchemeByName(codec, io, handle, device.variables);
    runtime := DeviceRuntime(device, scheme);
  }

  method BindDevice(codec: FloatCodec, io: InMemoryUnidriverIO, device: Device, handle: int)
    returns (runtime: Option<DeviceRuntime>)
    modifies io
    ensures runtime.Some? <==> Storable(codec, device.variables)
    ensures runtime.Some? ==>
              && runtime.value.device == device
              && Wired(runtime.value.scheme, codec, io, handle, device.variables)
              && RegistersAt(codec, io, handle, device.variables) ==
                 Published(codec, device.variables, old(RegistersAt(codec, io, handle, device.variables)))
    ensures forall h | h != handle :: BufferOf(io.buffers, h) == BufferOf(old(io.buffers), h)
  {
    hide RegistersOf, Wired, Types, BufferOf, Slot, Stored, Published, Storable;
    var attached := AttachDevice(codec, io, device, handle);
    var ok := PublishValues(codec, io, handle, attached.scheme, device.variables);
    runtime := if ok then Some(attached) else None;
  }
}
