// The simulation engine over the memory interface
// (tstlan/devices/simulation/engine.py).
module Engine {
  import opened Wrappers
  import opened NetVars
  import opened Buffers
  import opened Registers
  import opened Accessors
  import opened Simulation

  datatype EngineError = DuplicateHandle | UnpackableValue

  // No buffer changed but those of `handles`.
  ghost predicate OnlyBuffers(handles: set<int>, before: Memory, after: Memory) {
    forall h | h !in handles :: BufferOf(after, h) == BufferOf(before, h)
  }

  lemma OnlyBuffersTwice(handles: set<int>, all: set<int>, a: Memory, b: Memory, c: Memory)
    requires OnlyBuffers(all, a, b) && OnlyBuffers(handles, b, c) && handles <= all
    ensures OnlyBuffers(all, a, c)
  {
    forall h | h !in all
      ensures BufferOf(c, h) == BufferOf(a, h)
    {
      assert BufferOf(b, h) == BufferOf(a, h);
    }
  }

  ghost function RegistersOfAll(codec: FloatCodec, io: InMemoryUnidriverIO, devices: seq<SimulatedDevice>)
    : (regs: seq<seq<Value>>)
    reads io
    ensures |regs| == |devices|
    ensures forall k | 0 <= k < |devices| ::
              regs[k] == RegistersAt(codec, io, devices[k].handle, devices[k].device.variables)
  {
    seq(|devices|, k requires 0 <= k < |devices| reads io =>
      RegistersAt(codec, io, devices[k].handle, devices[k].device.variables))
  }

  // The device has its scheme, and its initial values are published.
  ghost predicate Ready(scheme: map<string, NetVarAccessor>, codec: FloatCodec, io: InMemoryUnidriverIO,
                        simulated: SimulatedDevice, before: seq<Value>)
    requires |before| == |simulated.device.variables|
    reads io, simulated.device.variables
  {
    && Storable(codec, simulated.device.variables)
    && Wired(scheme, codec, io, simulated.handle, simulated.device.variables)
    && RegistersAt(codec, io, simulated.handle, simulated.device.variables) ==
       Published(codec, simulated.device.variables, before)
  }

  ghost predicate SameShape(devices: seq<SimulatedDevice>, regs: seq<seq<Value>>) {
    |regs| == |devices| && forall k | 0 <= k < |devices| :: |regs[k]| == |devices[k].device.variables|
  }

  // The first `n` devices are.
  ghost predicate AllReady(schemes: map<int, map<string, NetVarAccessor>>, codec: FloatCodec, io: InMemoryUnidriverIO,
                           devices: seq<SimulatedDevice>, before: seq<seq<Value>>, n: nat)
    requires n <= |devices| && SameShape(devices, before)
    reads io, Objects(devices)
  {
    forall k | 0 <= k < n ::
      devices[k].handle in schemes && Ready(schemes[devices[k].handle], codec, io, devices[k], before[k])
  }

  // The registers of devices under other handles than those in `handles` are as before.
  ghost predicate StillBefore(handles: set<int>, codec: FloatCodec, io: InMemoryUnidriverIO,
                              devices: seq<SimulatedDevice>, before: seq<seq<Value>>)
    requires SameShape(devices, before)
    reads io
  {
    forall k | 0 <= k < |devices| && devices[k].handle !in handles ::
      RegistersAt(codec, io, devices[k].handle, devices[k].device.variables) == before[k]
  }

  ghost function Handles(devices: seq<SimulatedDevice>, n: nat): set<int>
    requires n <= |devices|
  {
    set k | 0 <= k < n :: devices[k].handle
  }

  lemma HandlesNext(devices: seq<SimulatedDevice>, i: nat)
    requires i < |devices|
    ensures Handles(devices, i + 1) == Handles(devices, i) + {devices[i].handle}
    ensures devices[i].handle in Handles(devices, i) <==>
            exists j :: 0 <= j < i && devices[j].handle == devices[i].handle
  {
  }

  lemma ReadyIsStorable(schemes: map<int, map<string, NetVarAccessor>>, codec: FloatCodec, io: InMemoryUnidriverIO,
                        devices: seq<SimulatedDevice>, before: seq<seq<Value>>)
    requires SameShape(devices, before) && AllReady(schemes, codec, io, devices, before, |devices|)
    ensures forall k | 0 <= k < |devices| :: Storable(codec, devices[k].device.variables)
  {
  }

  lemma NoneReady(codec: FloatCodec, io: InMemoryUnidriverIO, devices: seq<SimulatedDevice>, before: seq<seq<Value>>)
    requires before == RegistersOfAll(codec, io, devices)
    ensures SameShape(devices, before) && AllReady(map[], codec, io, devices, before, 0)
    ensures StillBefore({}, codec, io, devices, before) && Handles(devices, 0) == {}
  {
  }

  class SimulationEngine {
    const codec: FloatCodec
    const io: InMemoryUnidriverIO
    const devices: seq<SimulatedDevice>
    const schemes: map<int, map<string, NetVarAccessor>>
    // every variable object the engine reads or assigns
    ghost const objects: set<NetVar>

    ghost predicate Valid() {
      && objects == Objects(devices)
      && (forall j, k | 0 <= j < k < |devices| :: devices[j].handle != devices[k].handle)
      && forall k | 0 <= k < |devices| ::
           && devices[k].handle in schemes
           && Wired(schemes[devices[k].handle], codec, io, devices[k].handle, devices[k].device.variables)
    }

    ghost function RegistersNow(): (regs: seq<seq<Value>>)
      reads io
      ensures |regs| == |devices|
      ensures forall k | 0 <= k < |devices| ::
                regs[k] == RegistersAt(codec, io, devices[k].handle, devices[k].device.variables)
    {
      RegistersOfAll(codec, io, devices)
    }

    ghost function ValuesNow(): (vars: map<NetVar, Value>)
      reads objects
      ensures vars.Keys == objects
    {
      map v | v in objects :: v.value
    }

    ghost function Now(ok: bool): (s: Sim)
      requires Valid()
      reads io, objects
      ensures Fitting(devices, s)
    {
      Sim(ValuesNow(), RegistersNow(), ok)
    }

    constructor (codec: FloatCodec, io: InMemoryUnidriverIO, devices: seq<SimulatedDevice>,
                 schemes: map<int, map<string, NetVarAccessor>>)
      ensures this.codec == codec && this.io == io && this.devices == devices && this.schemes == schemes
      ensures this.objects == Objects(devices)
    {
      this.objects := Objects(devices);
      this.codec, this.io, this.devices, this.schemes := codec, io, devices, schemes;
    }

    // The next device is bound; those bound before stay ready.
    static method BindNext(codec: FloatCodec, io: InMemoryUnidriverIO, devices: seq<SimulatedDevice>, i: nat,
                           schemes: map<int, map<string, NetVarAccessor>>, ghost before: seq<seq<Value>>)
      returns (r: Option<map<int, map<string, NetVarAccessor>>>)
      requires i < |devices| && SameShape(devices, before) && devices[i].handle !in schemes
      requires StillBefore(schemes.Keys, codec, io, devices, before)
      requires AllReady(schemes, codec, io, devices, before, i)
      modifies io
      ensures r.Some? <==> Storable(codec, devices[i].device.variables)
      ensures r.Some? ==>
                && r.value.Keys == schemes.Keys + {devices[i].handle}
                && AllReady(r.value, codec, io, devices, before, i + 1)
      ensures r.Some? ==> StillBefore(r.value.Keys, codec, io, devices, before)
    {
      hide RegistersOf, Published, Storable, Wired, Types, BufferOf, Slot;
      var runtime := BindDevice(codec, io, devices[i].device, devices[i].handle);
      if runtime.None? {
        return None;
      }
      return Some(schemes[devices[i].handle := runtime.value.scheme]);
    }

    // The scheme of each device, and its initial values published.
    static method BindDevices(codec: FloatCodec, io: InMemoryUnidriverIO, devices: seq<SimulatedDevice>,
                              ghost before: seq<seq<Value>>)
      returns (r: Result<map<int, map<string, NetVarAccessor>>, EngineError>)
      requires before == RegistersOfAll(codec, io, devices)
      modifies io
      ensures r.Ok? <==>
              && (forall j, k | 0 <= j < k < |devices| :: devices[j].handle != devices[k].handle)
              && (forall k | 0 <= k < |devices| :: Storable(codec, devices[k].device.variables))
      ensures r.Ok? ==> SameShape(devices, before) && AllReady(r.value, codec, io, devices, before, |devices|)
    {
      hide RegistersOf, RegistersAt, Storable, AllReady, StillBefore, BufferOf, Types, Handles;
      NoneReady(codec, io, devices, before);
      var schemes: map<int, map<string, NetVarAccessor>> := map[];
      for i := 0 to |devices|
        invariant schemes.Keys == Handles(devices, i)
        invariant forall j, k | 0 <= j < k < i :: devices[j].handle != devices[k].handle
        invariant StillBefore(schemes.Keys, codec, io, devices, before)
        invariant AllReady(schemes, codec, io, devices, before, i)
      {
        HandlesNext(devices, i);
        if devices[i].handle in schemes {
          return Err(DuplicateHandle);
        }
        var next := BindNext(codec, io, devices, i, schemes, before);
        if next.None? {
          return Err(UnpackableValue);
        }
        schemes := next.value;
      }
      ReadyIsStorable(schemes, codec, io, devices, before);
      return Ok(schemes);
    }

    // Fails on a second device under one handle and on an initial value that
    // does not fit; otherwise the initial values are published.
    static method Create(codec: FloatCodec, io: InMemoryUnidriverIO, devices: seq<SimulatedDevice>)
      returns (r: Result<SimulationEngine, EngineError>)
      modifies io
      ensures r.Ok? <==>
              && (forall j, k | 0 <= j < k < |devices| :: devices[j].handle != devices[k].handle)
              && (forall k | 0 <= k < |devices| :: Storable(codec, devices[k].device.variables))
      ensures r.Ok? ==>
                && fresh(r.value) && r.value.Valid()
                && r.value.io == io && r.value.codec == codec && r.value.devices == devices
                && forall k | 0 <= k < |devices| ::
                     r.value.RegistersNow()[k] ==
                     Published(codec, devices[k].device.variables, old(RegistersOfAll(codec, io, devices))[k])
    {
      hide RegistersOf, RegistersAt, Published, Storable, Wired, Types, BufferOf, Objects, Slot;
      var schemes := BindDevices(codec, io, devices, RegistersOfAll(codec, io, devices));
      if schemes.Err? {
        return Err(schemes.error);
      }
      var engine := new SimulationEngine(codec, io, devices, schemes.value);
      return Ok(engine);
    }

    method Assign(variable: NetVar, value: Value)
      requires variable in objects
      modifies variable
      ensures ValuesNow() == old(ValuesNow())[variable := value]
    {
      variable.value := value;
    }

    lemma IsObject(k: nat, i: nat)
      requires Valid() && k < |devices| && i < |devices[k].device.variables|
      ensures devices[k].device.variables[i] in objects
    {
    }

    // A variable takes over the register that its name leads to.
    method ReadRegister(k: nat, i: nat)
      requires Valid() && k < |devices| && i < |devices[k].device.variables|
      modifies io, devices[k].device.variables[i]
      ensures RegistersNow() == old(RegistersNow())
      ensures ValuesNow() == old(ValuesNow())[devices[k].device.variables[i] :=
                                         old(RegistersNow())[k][Slot(devices[k].device.variables, i)]]
      ensures OnlyBuffers({devices[k].handle}, old(io.buffers), io.buffers)
    {
      hide RegistersOf, Types, Objects, BufferOf, Wired, Slot;
      IsObject(k, i);
      var simulated := devices[k];
      var value := GetRegister(codec, io, simulated.handle, schemes[simulated.handle], simulated.device.variables, i);
      assert value == old(RegistersNow())[k][Slot(devices[k].device.variables, i)];
      assert ValuesNow() == old(ValuesNow());
      Assign(devices[k].device.variables[i], value);
    }

    // A variable is assigned, and the value put into the register of its name.
    // `ok` is false where it does not fit there; the variable then has it anyway.
    method Publish(k: nat, i: nat, value: Value) returns (ok: bool)
      requires Valid() && k < |devices| && i < |devices[k].device.variables|
      modifies io, devices[k].device.variables[i]
      ensures var variables := devices[k].device.variables;
              ok <==> Stored(codec, variables[Slot(variables, i)].ctype, value).Some?
      ensures ValuesNow() == old(ValuesNow())[devices[k].device.variables[i] := value]
      ensures RegistersNow()[k] ==
              if ok then SlotSet(codec, devices[k].device.variables, old(RegistersNow())[k], i, value)
              else old(RegistersNow())[k]
      ensures forall j | 0 <= j < |devices| && j != k :: RegistersNow()[j] == old(RegistersNow())[j]
      ensures OnlyBuffers({devices[k].handle}, old(io.buffers), io.buffers)
    {
      hide RegistersOf, Types, Stored, Objects, BufferOf, Slot, SlotSet;
      IsObject(k, i);
      Assign(devices[k].device.variables[i], value);
      label Assigned:
      var simulated := devices[k];
      ok := SetRegister(codec, io, simulated.handle, schemes[simulated.handle], simulated.device.variables, i, value);
      assert ValuesNow() == old@Assigned(ValuesNow());
      forall j | 0 <= j < |devices| && j != k
        ensures RegistersNow()[j] == old(RegistersNow())[j]
      {
        assert devices[j].handle != devices[k].handle;
        assert BufferOf(io.buffers, devices[j].handle) == BufferOf(old(io.buffers), devices[j].handle);
      }
    }

    lemma IsTarget(k: nat, i: nat)
      requires Valid() && k < |devices| && i < |devices[k].device.variables| && HasSignal(devices, k, i)
      ensures var signal := devices[k].signals[devices[k].device.variables[i].name];
              signal.Follow? ==> signal.target in objects
    {
    }

    // The number that the signal of a variable gives now; None where it raises.
    method Sample(k: nat, i: nat, samples: Samples) returns (x: Option<Double>)
      requires Valid() && k < |devices| && i < |devices[k].device.variables| && HasSignal(devices, k, i)
      ensures x == Sampled(codec, devices, Now(true), k, i, samples)
    {
      IsTarget(k, i);
      match devices[k].signals[devices[k].device.variables[i].name]
      case Generated => x := Some(samples(k, i));
      case Follow(target) => x := ToDouble(codec, target.value);
    }

    // One variable of the publishing loop.
    method PublishSignal(k: nat, i: nat, samples: Samples) returns (ok: bool)
      requires Valid() && k < |devices| && i < |devices[k].device.variables|
      modifies io, objects
      ensures Now(ok) == VariablePublished(codec, devices, old(Now(true)), k, i, samples)
      ensures OnlyBuffers({devices[k].handle}, old(io.buffers), io.buffers)
    {
      hide Objects, Stored, FitValue, Wired, BufferOf;
      var variable := devices[k].device.variables[i];
      if variable.name !in devices[k].signals {
        return true;
      }
      IsObject(k, i);
      var x := Sample(k, i, samples);
      if x.None? {
        return false;
      }
      ok := Publish(k, i, FitValue(codec, variable.ctype, x.value));
      OneRowChanged(old(RegistersNow()), RegistersNow(), k);
    }

    lemma OneRowChanged(before: seq<seq<Value>>, after: seq<seq<Value>>, k: nat)
      requires |after| == |before| && k < |before|
      requires forall j | 0 <= j < |before| && j != k :: after[j] == before[j]
      ensures after == before[k := after[k]]
      ensures after[k] == before[k] ==> after == before
    {
    }

    ghost function EnabledHandles(): set<int> {
      set k | 0 <= k < |devices| && devices[k].device.enabled :: devices[k].handle
    }

    lemma UntouchedBuffers()
      ensures forall handles: set<int> :: OnlyBuffers(handles, io.buffers, io.buffers)
    {
    }

    // One variable of the reading loop.
    method ReadControl(k: nat, i: nat)
      requires Valid() && k < |devices| && i < |devices[k].device.variables|
      modifies io, objects
      ensures Now(true) == ControlRead(devices, old(Now(true)), k, i)
      ensures OnlyBuffers({devices[k].handle}, old(io.buffers), io.buffers)
    {
      if devices[k].device.variables[i].mode != Mode.R {
        IsObject(k, i);
        ReadRegister(k, i);
      }
    }

    // The first loop over a device's variables.
    method ReadControls(k: nat)
      requires Valid() && k < |devices|
      modifies io, objects
      ensures Now(true) == ControlsRead(devices, old(Now(true)), k, |devices[k].device.variables|)
      ensures OnlyBuffers({devices[k].handle}, old(io.buffers), io.buffers)
    {
      UntouchedBuffers();
      hide Objects, Wired, OnlyBuffers, RegistersNow, ValuesNow, ControlRead;
      ghost var own := {devices[k].handle};
      for i := 0 to |devices[k].device.variables|
        invariant Now(true) == ControlsRead(devices, old(Now(true)), k, i)
        invariant OnlyBuffers(own, old(io.buffers), io.buffers)
      {
        ghost var before := io.buffers;
        ReadControl(k, i);
        OnlyBuffersTwice(own, own, old(io.buffers), before, io.buffers);
      }
    }

    // The second loop; false if something raised.
    method PublishSignals(k: nat, samples: Samples) returns (ok: bool)
      requires Valid() && k < |devices|
      modifies io, objects
      ensures Now(ok) ==
              SignalsPublished(codec, devices, old(Now(true)), k, |devices[k].device.variables|, samples)
      ensures OnlyBuffers({devices[k].handle}, old(io.buffers), io.buffers)
    {
      UntouchedBuffers();
      hide Objects, Wired, OnlyBuffers, RegistersNow, ValuesNow, VariablePublished;
      ghost var own := {devices[k].handle};
      for i := 0 to |devices[k].device.variables|
        invariant Now(true) == SignalsPublished(codec, devices, old(Now(true)), k, i, samples)
        invariant OnlyBuffers(own, old(io.buffers), io.buffers)
      {
        ghost var before := io.buffers;
        ok := PublishSignal(k, i, samples);
        OnlyBuffersTwice(own, own, old(io.buffers), before, io.buffers);
        if !ok {
          RaiseEndsDevice(codec, devices, old(Now(true)), k, i + 1, |devices[k].device.variables|, samples);
          return false;
        }
      }
      return true;
    }

    // One tick; false if something raised. Devices that are disabled, and
    // buffers of other handles, are not touched at all.
    method Tick(samples: Samples) returns (ok: bool)
      requires Valid()
      modifies io, objects
      ensures Now(ok) == Ticked(codec, devices, old(Now(true)), |devices|, samples)
      ensures OnlyBuffers(EnabledHandles(), old(io.buffers), io.buffers)
    {
      UntouchedBuffers();
      hide Objects, Wired, OnlyBuffers, RegistersNow, ValuesNow, SignalsPublished, ControlsRead;
      for k := 0 to |devices|
        invariant Now(true) == Ticked(codec, devices, old(Now(true)), k, samples)
        invariant OnlyBuffers(EnabledHandles(), old(io.buffers), io.buffers)
      {
        if devices[k].device.enabled {
          ghost var before := io.buffers;
          ReadControls(k);
          OnlyBuffersTwice({devices[k].handle}, EnabledHandles(), old(io.buffers), before, io.buffers);
          before := io.buffers;
          ok := PublishSignals(k, samples);
          OnlyBuffersTwice({devices[k].handle}, EnabledHandles(), old(io.buffers), before, io.buffers);
          if !ok {
            RaiseEndsTick(codec, devices, old(Now(true)), k + 1, |devices|, samples);
            return false;
          }
        }
      }
      return true;
    }
  }

  lemma {:induction false} RaiseEndsDevice(
    c: FloatCodec, devices: seq<SimulatedDevice>, s: Sim, k: nat, m: nat, n: nat, samples: Samples)
    requires Fitting(devices, s) && k < |devices| && m <= n <= |devices[k].device.variables|
    requires !SignalsPublished(c, devices, s, k, m, samples).ok
    ensures SignalsPublished(c, devices, s, k, n, samples) == SignalsPublished(c, devices, s, k, m, samples)
    decreases n
  {
    if m < n {
      RaiseEndsDevice(c, devices, s, k, m, n - 1, samples);
    }
  }

  lemma {:induction false} RaiseEndsTick(
    c: FloatCodec, devices: seq<SimulatedDevice>, s: Sim, m: nat, n: nat, samples: Samples)
    requires Fitting(devices, s) && m <= n <= |devices|
    requires !Ticked(c, devices, s, m, samples).ok
    ensures Ticked(c, devices, s, n, samples) == Ticked(c, devices, s, m, samples)
    decreases n
  {
    if m < n {
      RaiseEndsTick(c, devices, s, m, n - 1, samples);
    }
  }
}
