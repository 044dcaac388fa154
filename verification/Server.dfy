// The test device: requests and ticks on one buffer, one at a time under a lock
// (devsim/server.py).
module Server {
  import opened Wrappers
  import opened NetVars
  import opened Bits
  import opened Buffers
  import opened Layout
  import opened Registers
  import opened Accessors
  import opened Protocol
  import opened Client
  import opened Simulation
  import opened Engine

  const HANDLE := 1

  // How the device starts: its initial values, published to a fresh buffer ...
  ghost function Beginning(codec: FloatCodec, device: Device, signals: map<string, Signal>): (s: Sim)
    requires Storable(codec, device.variables)
    reads Objects([SimulatedDevice(device, signals, HANDLE)]), device.variables
    ensures Fitting([SimulatedDevice(device, signals, HANDLE)], s)
  {
    var blank := RegistersOf(codec, [], Types(device.variables));
    Sim(map v | v in Objects([SimulatedDevice(device, signals, HANDLE)]) :: v.value,
        [Published(codec, device.variables, blank)], true)
  }

  // ... after one tick.
  ghost function Started(codec: FloatCodec, device: Device, signals: map<string, Signal>, samples: Samples): Sim
    requires Storable(codec, device.variables)
    reads Objects([SimulatedDevice(device, signals, HANDLE)]), device.variables
  {
    Ticked(codec, [SimulatedDevice(device, signals, HANDLE)], Beginning(codec, device, signals), 1, samples)
  }

  // A variable without a signal, reached by its name, starts with its initial value.
  lemma StartsWithInitial(codec: FloatCodec, device: Device, signals: map<string, Signal>, samples: Samples, i: nat)
    requires Storable(codec, device.variables) && i < |device.variables|
    requires Slot(device.variables, i) == i && device.variables[i].name !in signals
    ensures Some(Started(codec, device, signals, samples).regs[0][i]) ==
            Stored(codec, device.variables[i].ctype, device.variables[i].value)
  {
    hide Objects, Storable, Published, RegistersOf, Stored, Slot;
    var devices := [SimulatedDevice(device, signals, HANDLE)];
    TickKeeps(codec, devices, Beginning(codec, device, signals), 1, samples, 0, i);
  }

  class DeviceServer {
    const io: InMemoryUnidriverIO
    const engine: SimulationEngine

    ghost predicate Valid() {
      && engine.Valid() && engine.io == io
      && |engine.devices| == 1 && engine.devices[0].handle == HANDLE
    }

    ghost function Variables(): seq<NetVar>
      requires Valid()
    {
      engine.devices[0].device.variables
    }

    constructor (io: InMemoryUnidriverIO, engine: SimulationEngine)
      ensures this.io == io && this.engine == engine
    {
      this.io, this.engine := io, engine;
    }

    // The engine over a fresh memory; None where an initial value does not fit.
    static method Begin(codec: FloatCodec, device: Device, signals: map<string, Signal>)
      returns (engine: Option<SimulationEngine>)
      ensures engine.Some? <==> old(Storable(codec, device.variables))
      ensures engine.Some? ==>
                && fresh(engine.value.io) && engine.value.Valid() && engine.value.codec == codec
                && engine.value.devices == [SimulatedDevice(device, signals, HANDLE)]
                && engine.value.Now(true) == old(Beginning(codec, device, signals))
    {
      hide RegistersOf, Published, Wired, Types, Storable, Slot;
      var io := new InMemoryUnidriverIO();
      var created := SimulationEngine.Create(codec, io, [SimulatedDevice(device, signals, HANDLE)]);
      assert [SimulatedDevice(device, signals, HANDLE)][0].device == device;
      if created.Err? {
        return None;
      }
      return Some(created.value);
    }

    // Publishes the initial values, then ticks once before serving. None where
    // an initial value does not fit or the first tick raises.
    static method Serve(codec: FloatCodec, device: Device, signals: map<string, Signal>, samples: Samples)
      returns (server: Option<DeviceServer>)
      modifies Objects([SimulatedDevice(device, signals, HANDLE)])
      ensures server.Some? <==>
              old(Storable(codec, device.variables)) && old(Started(codec, device, signals, samples)).ok
      ensures server.Some? ==>
                && server.value.Valid() && server.value.engine.codec == codec
                && server.value.engine.devices == [SimulatedDevice(device, signals, HANDLE)]
                && server.value.engine.Now(true) == old(Started(codec, device, signals, samples))
    {
      hide RegistersOf, Published, Wired, Types, Ticked, Storable, Beginning, Objects;
      var engine := Begin(codec, device, signals);
      if engine.None? {
        return None;
      }
      assert |engine.value.devices| == 1;
      var ok := engine.value.Tick(samples);
      if !ok {
        return None;
      }
      var created := new DeviceServer(engine.value.io, engine.value);
      return Some(created);
    }

    // One request line. Setting a variable over the wire is the event of a
    // client set; reading one changes nothing.
    method Handle(message: Message) returns (r: Result<Response, ProtocolError>)
      requires Valid()
      modifies io
      ensures r == Outcome(BufferOf(old(io.buffers), message.handle), message)
      ensures io.buffers ==
              if Asked(message).None? then old(io.buffers)
              else Execute(old(io.buffers), message.handle, Asked(message).value)
    {
      r := Apply(io, message);
    }

    method HandleSet(i: nat, v: Value) returns (r: Result<Response, ProtocolError>)
      requires Valid() && i < |Variables()| && Stored(engine.codec, Variables()[i].ctype, v).Some?
      modifies io
      ensures r == Ok(OkResponse)
      ensures engine.Now(true) ==
              Happened(engine.codec, engine.devices, old(engine.Now(true)), ClientSet(0, i, v))
    {
      hide RegistersOf, Stored, After, Objects, Wired, Asked, Encode;
      var variables := engine.devices[0].device.variables;
      var a := SetOf(engine.codec, Types(variables), i, v);
      IsWriteOf(engine.codec, Types(variables), i, v);
      WireIsFaithful(HANDLE, a, BufferOf(io.buffers, HANDLE));
      r := Handle(Encode(HANDLE, a));
      SetOneRegister(engine.codec, BufferOf(old(io.buffers), HANDLE), Types(variables), i, v);
      assert engine.ValuesNow() == old(engine.ValuesNow());
    }

    lemma IsWriteOf(c: FloatCodec, cts: seq<CType>, i: nat, v: Value)
      requires i < |cts| && Stored(c, cts[i], v).Some?
      ensures IsWrite(SetOf(c, cts, i, v))
    {
    }

    method HandleGet(i: nat) returns (r: Result<Response, ProtocolError>)
      requires Valid() && i < |Variables()|
      modifies io
      ensures engine.Now(true) == old(engine.Now(true))
      ensures FitsType(Variables()[i].ctype, Offsets(Types(Variables()))[i])
      ensures r.Ok? && ValueReceived(i, r.value) == Some(engine.Now(true).regs[0][i])
    {
      hide RegistersOf, After, Objects, Wired, Answer, Asked, Encode, Responding, Load, ReplyValue;
      var variables := engine.devices[0].device.variables;
      var cts := Types(variables);
      OffsetsFitTypes(cts, i);
      var off := Offsets(cts)[i];
      var a := GetAccess(cts[i], off);
      ghost var before := BufferOf(io.buffers, HANDLE);
      WireIsFaithful(HANDLE, a, before);
      r := Handle(Encode(HANDLE, a));
      ReadKeepsRegisters(engine.codec, before, a, cts);
      ReplyShowsRegister(engine.codec, before, cts[i], off);
      RegisterIsLoad(engine.codec, before, cts, i);
      assert engine.ValuesNow() == old(engine.ValuesNow());
    }

    // What a client's `get` of variable `i` makes of a response.
    ghost function ValueReceived(i: nat, response: Response): Option<Value>
      requires Valid() && i < |Variables()|
      requires FitsType(Variables()[i].ctype, Offsets(Types(Variables()))[i])
    {
      var reply := Decode(GetAccess(Variables()[i].ctype, Offsets(Types(Variables()))[i]), response);
      if reply.Some? then ReplyValue(engine.codec, Variables()[i].ctype, reply.value) else None
    }

    lemma RegisterIsLoad(c: FloatCodec, b: seq<byte>, cts: seq<CType>, i: nat)
      requires i < |cts| && FitsType(cts[i], Offsets(cts)[i])
      ensures RegistersOf(c, b, cts)[i] == Load(c, b, cts[i], Offsets(cts)[i])
    {
    }

    // One round of the tick loop.
    method Drive(samples: Samples) returns (ok: bool)
      requires Valid()
      modifies io, engine.objects
      ensures engine.Now(ok) ==
              Happened(engine.codec, engine.devices, old(engine.Now(true)), Tick(samples))
    {
      ok := engine.Tick(samples);
    }
  }
}
