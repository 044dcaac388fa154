// The backend's access to devices (tstlan/devices/service.py).
module Service {
  import opened Wrappers
  import opened NetVars
  import opened Buffers
  import opened Registers
  import opened Sequences
  import opened Accessors

  datatype ServiceError =
    | DeviceNotFound | VariableNotFound | VariableAccessError | Invalid(error: ValueError) | Unpackable

  // ---------- what the service promises, over plain values ----------

  datatype VarSpec = VarSpec(name: string, ctype: CType, mode: Mode)

  // What the variables show, per device id.
  type Values = map<string, seq<Value>>

  function SpecNames(specs: seq<VarSpec>): (names: seq<string>)
    ensures |names| == |specs|
    ensures forall i | 0 <= i < |specs| :: names[i] == specs[i].name
  {
    seq(|specs|, i requires 0 <= i < |specs| => specs[i].name)
  }

  // The type of the register that the name of variable `i` leads to.
  function SlotType(specs: seq<VarSpec>, i: nat): CType
    requires i < |specs|
  {
    specs[LastOf(SpecNames(specs), i)].ctype
  }

  function IndexOf(specs: seq<VarSpec>, name: string): (r: Option<nat>)
    ensures r.Some? ==> r.value < |specs| && specs[r.value].name == name
    ensures r.Some? ==> forall i | 0 <= i < r.value :: specs[i].name != name
    ensures r.None? ==> forall i | 0 <= i < |specs| :: specs[i].name != name
  {
    if specs == [] then None
    else if specs[0].name == name then Some(0)
    else
      var r := IndexOf(specs[1..], name);
      if r.Some? then Some(r.value + 1) else None
  }

  // The outcome of a write: the number put into the register, or the error. The
  // first variable of the name says whether and how the number is accepted, the
  // last one where it goes; `Unpackable` is where it does not fit there.
  function CheckWrite(c: FloatCodec, devices: map<string, seq<VarSpec>>, id: string, name: string, v: Value)
    : Result<Value, ServiceError>
  {
    if id !in devices then Err(DeviceNotFound)
    else
      var i := IndexOf(devices[id], name);
      if i.None? then Err(VariableNotFound)
      else
        var spec := devices[id][i.value];
        if spec.mode == Mode.R then Err(VariableAccessError)
        else
          var coerced := CoerceValue(c, spec.ctype, v);
          if coerced.Err? then Err(Invalid(coerced.error))
          else if Stored(c, SlotType(devices[id], i.value), coerced.value).None? then Err(Unpackable)
          else Ok(coerced.value)
  }

  predicate Matches(devices: map<string, seq<VarSpec>>, values: Values) {
    values.Keys == devices.Keys && forall id | id in devices :: |values[id]| == |devices[id]|
  }

  function AfterWrite(c: FloatCodec, devices: map<string, seq<VarSpec>>, values: Values,
                      id: string, name: string, v: Value): (after: Values)
    requires Matches(devices, values)
    ensures Matches(devices, after)
  {
    var w := CheckWrite(c, devices, id, name, v);
    if w.Err? then values
    else
      var i := IndexOf(devices[id], name).value;
      values[id := Renewed(devices[id], values[id], name, Stored(c, SlotType(devices[id], i), w.value).value)]
  }

  // Every variable called `name` shows `shown`.
  function Renewed(specs: seq<VarSpec>, values: seq<Value>, name: string, shown: Value): (after: seq<Value>)
    requires |specs| == |values|
    ensures |after| == |values|
    ensures forall i | 0 <= i < |specs| :: after[i] == if specs[i].name == name then shown else values[i]
  {
    seq(|specs|, i requires 0 <= i < |specs| => if specs[i].name == name then shown else values[i])
  }

  // Variable `i` is the only one called `name`.
  predicate OnlyOne(specs: seq<VarSpec>, name: string, i: nat) {
    && i < |specs| && specs[i].name == name
    && forall j | 0 <= j < |specs| && j != i :: specs[j].name != name
  }

  // When a write to a variable is accepted, what is returned and what it shows
  // then: a read-only one is refused; an integer one takes the integers in its
  // range; a float one the numbers that convert, and with 32 bits narrow.
  ghost predicate WriteAnswered(c: FloatCodec, spec: VarSpec, v: Value, before: Value,
                                answer: Result<Value, ServiceError>, after: Value)
  {
    && (answer.Err? ==> after == before)
    && if spec.mode == Mode.R then answer == Err(VariableAccessError)
       else if v.BoolV? then answer == Err(Invalid(BoolRejected))
       else if !IsFloat(spec.ctype) then
         && (answer.Ok? <==> v.IntV? && InRange(spec.ctype, v.i))
         && (answer.Ok? ==> answer == Ok(v) && after == v)
         && (answer.Err? ==> answer == Err(Invalid(if v.IntV? then OutOfRange else NotAnInteger)))
       else if v.IntV? && c.ofInt(v.i).None? then answer == Err(Invalid(Overflow))
       else
         var d := if v.IntV? then c.ofInt(v.i).value else v.d;
         if spec.ctype == F64 then answer == Ok(FloatV(d)) && after == FloatV(d)
         else if c.narrow(d).None? then answer == Err(Unpackable)
         else answer == Ok(FloatV(d)) && after == FloatV(c.widen(c.narrow(d).value))
  }

  // ... and all a write does: it fails for an unknown device or variable, and it
  // leaves alone what every other name shows.
  ghost predicate Answered(c: FloatCodec, devices: map<string, seq<VarSpec>>, before: Values, id: string, name: string,
                           v: Value, answer: Result<Value, ServiceError>, after: Values)
    requires Matches(devices, before) && Matches(devices, after)
  {
    && (id !in devices ==> answer == Err(DeviceNotFound))
    && (id in devices && (forall i | 0 <= i < |devices[id]| :: devices[id][i].name != name) ==>
          answer == Err(VariableNotFound))
    && (forall i: nat | id in devices && OnlyOne(devices[id], name, i) ::
          WriteAnswered(c, devices[id][i], v, before[id][i], answer, after[id][i]))
    && (forall other, i: nat | other in devices && i < |devices[other]| &&
                               (other != id || devices[other][i].name != name) ::
          after[other][i] == before[other][i])
  }

  lemma OneIsAnswered(c: FloatCodec, devices: map<string, seq<VarSpec>>, values: Values,
                      id: string, name: string, v: Value, i: nat)
    requires Matches(devices, values) && id in devices && OnlyOne(devices[id], name, i)
    ensures WriteAnswered(c, devices[id][i], v, values[id][i], CheckWrite(c, devices, id, name, v),
                          AfterWrite(c, devices, values, id, name, v)[id][i])
  {
    var specs := devices[id];
    assert IndexOf(specs, name) == Some(i);
    assert LastOf(SpecNames(specs), i) == i;
    AcceptedExactly(c, specs[i].ctype, v);
    var w := CoerceValue(c, specs[i].ctype, v);
    if w.Ok? {
      StoredExactly(c, specs[i].ctype, w.value);
    }
    hide Stored, CoerceValue, LastOf, IndexOf, IntRange;
  }

  lemma WriteIsAnswered(c: FloatCodec, devices: map<string, seq<VarSpec>>, values: Values,
                        id: string, name: string, v: Value)
    requires Matches(devices, values)
    ensures Answered(c, devices, values, id, name, v, CheckWrite(c, devices, id, name, v),
                     AfterWrite(c, devices, values, id, name, v))
  {
    hide WriteAnswered, CoerceValue, Stored, SlotType;
    forall i: nat | id in devices && OnlyOne(devices[id], name, i)
      ensures WriteAnswered(c, devices[id][i], v, values[id][i], CheckWrite(c, devices, id, name, v),
                            AfterWrite(c, devices, values, id, name, v)[id][i])
    {
      OneIsAnswered(c, devices, values, id, name, v, i);
    }
  }

  // Under a repeated name the first variable of it accepts the number and the last
  // one takes it; all of them show it.
  lemma WriteByName(c: FloatCodec, devices: map<string, seq<VarSpec>>, values: Values,
                    id: string, name: string, v: Value, first: nat, last: nat, i: nat)
    requires Matches(devices, values) && id in devices
    requires first < |devices[id]| && last < |devices[id]| && i < |devices[id]|
    requires devices[id][first].name == devices[id][last].name == devices[id][i].name == name
    requires forall j | 0 <= j < first :: devices[id][j].name != name
    requires forall j | last < j < |devices[id]| :: devices[id][j].name != name
    ensures var answer := CheckWrite(c, devices, id, name, v);
            var after := AfterWrite(c, devices, values, id, name, v)[id][i];
            var w := CoerceValue(c, devices[id][first].ctype, v);
            if devices[id][first].mode == Mode.R then answer == Err(VariableAccessError) && after == values[id][i]
            else if w.Err? then answer == Err(Invalid(w.error)) && after == values[id][i]
            else
              var stored := Stored(c, devices[id][last].ctype, w.value);
              if stored.None? then answer == Err(Unpackable) && after == values[id][i]
              else answer == Ok(w.value) && after == stored.value
  {
    hide Stored, CoerceValue;
    var specs := devices[id];
    assert IndexOf(specs, name) == Some(first);
    assert LastOf(SpecNames(specs), first) == last;
  }

  // A register of type `ct` shows the number `w` put into it unchanged.
  predicate ShownUnchanged(c: FloatCodec, ct: CType, w: Value) {
    match ct
    case F32 => w.FloatV? && IsSingle(c, w.d)
    case F64 => w.FloatV?
    case BIT => w == IntV(0) || w == IntV(1)
    case _ => true
  }

  // The number an accepted write returns is the one shown after it, unless the
  // register is a 32-bit float and the number not one that 32 bits hold. (Under a
  // repeated name the register may also be a float or a bit where the variable
  // first found is an integer.)
  lemma ReturnedIsShown(c: FloatCodec, devices: map<string, seq<VarSpec>>, values: Values,
                        id: string, name: string, v: Value)
    requires Matches(devices, values) && CheckWrite(c, devices, id, name, v).Ok?
    ensures var i := IndexOf(devices[id], name).value;
            var ct := devices[id][i].ctype;
            var w := CheckWrite(c, devices, id, name, v).value;
            && (AfterWrite(c, devices, values, id, name, v)[id][i] == w <==>
                ShownUnchanged(c, SlotType(devices[id], i), w))
            && (ct == F32 ==> ToDouble(c, v).Some?)
            && (SlotType(devices[id], i) == ct ==>
                  (ShownUnchanged(c, ct, w) <==> (ct == F32 ==> IsSingle(c, ToDouble(c, v).value))))
  {
    hide SlotType;
    var i := IndexOf(devices[id], name).value;
    if SlotType(devices[id], i) == devices[id][i].ctype {
      WrittenIsShown(c, devices[id][i].ctype, v);
    }
  }

  datatype Write = Write(id: string, name: string, value: Value)

  function AfterWrites(c: FloatCodec, devices: map<string, seq<VarSpec>>, values: Values, writes: seq<Write>)
    : (after: Values)
    requires Matches(devices, values)
    ensures Matches(devices, after)
  {
    if writes == [] then values
    else
      var last := writes[|writes| - 1];
      AfterWrite(c, devices, AfterWrites(c, devices, values, writes[..|writes| - 1]), last.id, last.name, last.value)
  }

  predicate Accepted(c: FloatCodec, devices: map<string, seq<VarSpec>>, w: Write, id: string, name: string) {
    w.id == id && w.name == name && CheckWrite(c, devices, w.id, w.name, w.value).Ok?
  }

  // Over any run of writes, to any devices and variables, accepted or not: a
  // variable shows the last write accepted for it...
  lemma {:induction false} ShowsLastAccepted(
    c: FloatCodec, devices: map<string, seq<VarSpec>>, values: Values, writes: seq<Write>, n: nat,
    id: string, i: nat)
    requires Matches(devices, values) && n < |writes|
    requires id in devices && i < |devices[id]|
    requires Accepted(c, devices, writes[n], id, devices[id][i].name)
    requires forall k | n < k < |writes| :: !Accepted(c, devices, writes[k], id, devices[id][i].name)
    ensures Some(AfterWrites(c, devices, values, writes)[id][i]) ==
            Stored(c, SlotType(devices[id], i), CheckWrite(c, devices, id, devices[id][i].name, writes[n].value).value)
  {
    hide SlotType, Stored, CoerceValue;
    if n < |writes| - 1 {
      ShowsLastAccepted(c, devices, values, writes[..|writes| - 1], n, id, i);
      OtherWriteKeeps(c, devices, AfterWrites(c, devices, values, writes[..|writes| - 1]), writes[|writes| - 1], id, i);
    } else {
      SameSlot(devices[id], i, IndexOf(devices[id], devices[id][i].name).value);
    }
  }

  lemma SameSlot(specs: seq<VarSpec>, i: nat, j: nat)
    requires i < |specs| && j < |specs| && specs[i].name == specs[j].name
    ensures SlotType(specs, i) == SlotType(specs, j)
  {
  }

  // ... or else its initial value.
  lemma {:induction false} ShowsInitial(
    c: FloatCodec, devices: map<string, seq<VarSpec>>, values: Values, writes: seq<Write>, id: string, i: nat)
    requires Matches(devices, values)
    requires id in devices && i < |devices[id]|
    requires forall k | 0 <= k < |writes| :: !Accepted(c, devices, writes[k], id, devices[id][i].name)
    ensures AfterWrites(c, devices, values, writes)[id][i] == values[id][i]
  {
    if writes != [] {
      ShowsInitial(c, devices, values, writes[..|writes| - 1], id, i);
      OtherWriteKeeps(c, devices, AfterWrites(c, devices, values, writes[..|writes| - 1]), writes[|writes| - 1], id, i);
    }
  }

  lemma OtherWriteKeeps(c: FloatCodec, devices: map<string, seq<VarSpec>>, values: Values, w: Write, id: string, i: nat)
    requires Matches(devices, values)
    requires id in devices && i < |devices[id]|
    requires !Accepted(c, devices, w, id, devices[id][i].name)
    ensures AfterWrite(c, devices, values, w.id, w.name, w.value)[id][i] == values[id][i]
  {
  }

  // The indices of the variables a client may read, in order.
  function Readable(specs: seq<VarSpec>, n: nat): (indices: seq<nat>)
    requires n <= |specs|
    ensures forall k | 0 <= k < |indices| :: indices[k] < n && specs[indices[k]].mode != Mode.W
    ensures forall k, l | 0 <= k < l < |indices| :: indices[k] < indices[l]
    ensures forall i: nat | i < n && specs[i].mode != Mode.W :: i in indices
  {
    if n == 0 then []
    else if specs[n - 1].mode != Mode.W then Readable(specs, n - 1) + [n - 1]
    else Readable(specs, n - 1)
  }

  // ---------- the service ----------

  function Specs(variables: seq<NetVar>): (specs: seq<VarSpec>)
    ensures |specs| == |variables|
    ensures forall i | 0 <= i < |variables| ::
              specs[i] == VarSpec(variables[i].name, variables[i].ctype, variables[i].mode)
  {
    seq(|variables|, i requires 0 <= i < |variables| =>
      VarSpec(variables[i].name, variables[i].ctype, variables[i].mode))
  }

  function Ids(devices: seq<Device>): (ids: seq<string>)
    ensures |ids| == |devices|
    ensures forall i | 0 <= i < |devices| :: ids[i] == devices[i].id
  {
    seq(|devices|, i requires 0 <= i < |devices| => devices[i].id)
  }

  function DevicesOf(runtimes: seq<DeviceRuntime>): (devices: seq<Device>)
    ensures |devices| == |runtimes|
    ensures forall i | 0 <= i < |runtimes| :: devices[i] == runtimes[i].device
  {
    seq(|runtimes|, i requires 0 <= i < |runtimes| => runtimes[i].device)
  }

  // A dict filled in order: of the items under one key the last one stays ...
  function Keyed<T>(keys: seq<string>, items: seq<T>): (m: map<string, T>)
    requires |keys| == |items|
    ensures forall i {:trigger LastOf(keys, i)} | 0 <= i < |keys| ::
              keys[i] in m && m[keys[i]] == items[LastOf(keys, i)]
    ensures forall key :: key in m <==> key in keys
  {
    map i | 0 <= i < |keys| :: keys[i] := items[LastOf(keys, i)]
  }

  // ... in the place where the key came first.
  function KeyOrder(keys: seq<string>): (order: seq<string>)
    ensures Distinct(order)
    ensures forall key :: key in order <==> key in keys
    ensures Distinct(keys) ==> order == keys
  {
    if keys == [] then []
    else
      var n := |keys| - 1;
      var before := KeyOrder(keys[..n]);
      assert keys == keys[..n] + [keys[n]];
      if keys[n] in before then before else before + [keys[n]]
  }

  lemma {:induction false} KeyOrderIsOfFirsts(keys: seq<string>, a: nat, b: nat)
    requires a < b < |KeyOrder(keys)|
    ensures exists p: nat :: p < |keys| && keys[p] == KeyOrder(keys)[a] && KeyOrder(keys)[b] !in keys[..p + 1]
  {
    var n := |keys| - 1;
    var before := KeyOrder(keys[..n]);
    assert keys == keys[..n] + [keys[n]];
    if b < |before| {
      KeyOrderIsOfFirsts(keys[..n], a, b);
      var p: nat :| p < n && keys[..n][p] == before[a] && before[b] !in keys[..n][..p + 1];
      assert keys[..p + 1] == keys[..n][..p + 1] && keys[p] == before[a];
    } else {
      assert before[a] in before;
      assert before[a] in keys[..n];
      var p: nat :| p < n && keys[..n][p] == before[a];
      assert keys[p] == before[a];
      assert forall q | 0 <= q < p + 1 :: keys[..p + 1][q] == keys[..n][q];
    }
  }

  lemma KeyedDistinct<T>(keys: seq<string>, items: seq<T>)
    requires |keys| == |items| && Distinct(items)
    ensures var m := Keyed(keys, items);
            forall a, b | a in m && b in m && a != b :: m[a] != m[b]
  {
    hide Keyed, LastOf;
    var m := Keyed(keys, items);
    forall a, b | a in m && b in m && a != b
      ensures m[a] != m[b]
    {
      var i: nat :| i < |keys| && keys[i] == a;
      var j: nat :| j < |keys| && keys[j] == b;
      var k, l := LastOf(keys, i), LastOf(keys, j);
      assert keys[k] != keys[l] && m[a] == items[k] && m[b] == items[l];
      assert k < l || l < k;
    }
  }

  lemma KeyedWired(codec: FloatCodec, io: InMemoryUnidriverIO, runtimes: seq<DeviceRuntime>, handles: seq<int>)
    requires |handles| == |runtimes|
    requires forall i | 0 <= i < |runtimes| ::
               Wired(runtimes[i].scheme, codec, io, handles[i], runtimes[i].device.variables)
    ensures var ids := Ids(DevicesOf(runtimes));
            var m, hs := Keyed(ids, runtimes), Keyed(ids, handles);
            && m.Keys == hs.Keys
            && forall id | id in m ::
                 m[id].device.id == id && Wired(m[id].scheme, codec, io, hs[id], m[id].device.variables)
  {
    hide Wired;
    var ids := Ids(DevicesOf(runtimes));
    var m, hs := Keyed(ids, runtimes), Keyed(ids, handles);
    forall id | id in m
      ensures id in hs && m[id].device.id == id && Wired(m[id].scheme, codec, io, hs[id], m[id].device.variables)
    {
      var i :| 0 <= i < |runtimes| && ids[i] == id;
    }
    assert m.Keys == hs.Keys;
  }

  // What the variables of a device show: each the register its name leads to.
  ghost function ShownAt(codec: FloatCodec, io: InMemoryUnidriverIO, handle: int, variables: seq<NetVar>)
    : (shown: seq<Value>)
    reads io
    ensures |shown| == |variables|
    ensures forall i {:trigger shown[i]} | 0 <= i < |variables| ::
              shown[i] == RegistersAt(codec, io, handle, variables)[Slot(variables, i)]
  {
    seq(|variables|, i requires 0 <= i < |variables| reads io =>
      RegistersAt(codec, io, handle, variables)[Slot(variables, i)])
  }

  // What they show once the initial values are published: each the initial value
  // of the last variable of its name, so its own where names are distinct.
  ghost function InitiallyShown(codec: FloatCodec, variables: seq<NetVar>): (shown: seq<Value>)
    requires Storable(codec, variables)
    reads variables
    ensures |shown| == |variables|
    ensures forall i {:trigger shown[i]} | 0 <= i < |variables| ::
              var slot := variables[Slot(variables, i)];
              SlotFits(codec, variables, i) && shown[i] == Stored(codec, slot.ctype, slot.value).value
  {
    SlotsFit(codec, variables);
    seq(|variables|, i requires 0 <= i < |variables| reads variables requires SlotFits(codec, variables, i) =>
      Stored(codec, variables[Slot(variables, i)].ctype, variables[Slot(variables, i)].value).value)
  }

  ghost predicate SlotFits(codec: FloatCodec, variables: seq<NetVar>, i: nat)
    requires i < |variables|
    reads variables
  {
    Stored(codec, variables[Slot(variables, i)].ctype, variables[Slot(variables, i)].value).Some?
  }

  lemma SlotsFit(codec: FloatCodec, variables: seq<NetVar>)
    requires Storable(codec, variables)
    ensures forall i | 0 <= i < |variables| :: SlotFits(codec, variables, i)
  {
    hide Stored;
    forall i: nat | i < |variables|
      ensures SlotFits(codec, variables, i)
    {
      SlotOfSlot(variables, i);
    }
  }

  lemma PublishedIsShown(codec: FloatCodec, io: InMemoryUnidriverIO, handle: int, variables: seq<NetVar>,
                         before: seq<Value>)
    requires Storable(codec, variables) && |before| == |variables|
    requires RegistersAt(codec, io, handle, variables) == Published(codec, variables, before)
    ensures ShownAt(codec, io, handle, variables) == InitiallyShown(codec, variables)
  {
    hide Slot, Stored, RegistersAt, Published, Storable;
    forall i: nat | i < |variables|
      ensures ShownAt(codec, io, handle, variables)[i] == InitiallyShown(codec, variables)[i]
    {
      SlotOfSlot(variables, i);
    }
  }

  method BindDevices(codec: FloatCodec, devices: seq<Device>, io: InMemoryUnidriverIO)
    returns (runtimes: Option<seq<DeviceRuntime>>)
    modifies io
    ensures runtimes.Some? <==> forall i | 0 <= i < |devices| :: Storable(codec, devices[i].variables)
    ensures runtimes.Some? ==>
              && |runtimes.value| == |devices|
              && forall i | 0 <= i < |devices| ::
                   && runtimes.value[i].device == devices[i]
                   && Wired(runtimes.value[i].scheme, codec, io, i + 1, devices[i].variables)
                   && ShownAt(codec, io, i + 1, devices[i].variables) == InitiallyShown(codec, devices[i].variables)
  {
    hide RegistersOf, InitiallyShown, Published, Wired, Storable, Types, BufferOf, Slot, Stored;
    var bound: seq<DeviceRuntime> := [];
    for i := 0 to |devices|
      invariant |bound| == i
      invariant forall j | 0 <= j < i ::
                  && bound[j].device == devices[j]
                  && Wired(bound[j].scheme, codec, io, j + 1, devices[j].variables)
                  && Storable(codec, devices[j].variables)
      invariant forall j | 0 <= j < i ::
                  ShownAt(codec, io, j + 1, devices[j].variables) == InitiallyShown(codec, devices[j].variables)
    {
      ghost var before := RegistersAt(codec, io, i + 1, devices[i].variables);
      var runtime := BindDevice(codec, io, devices[i], i + 1);
      if runtime.None? {
        return None;
      }
      PublishedIsShown(codec, io, i + 1, devices[i].variables, before);
      bound := bound + [runtime.value];
    }
    return Some(bound);
  }

  lemma OneDeviceChanged(before: Values, after: Values, id: string)
    requires id in before && after.Keys == before.Keys
    requires forall other | other in before && other != id :: after[other] == before[other]
    ensures after == before[id := after[id]]
    ensures after[id] == before[id] ==> after == before
  {
  }

  // The handles 1, 2, ... of n devices.
  ghost function FirstHandles(n: nat): (handles: seq<int>)
    ensures |handles| == n && Distinct(handles)
    ensures forall i | 0 <= i < n :: handles[i] == i + 1
  {
    seq(n, i => i + 1)
  }

  // Variables of one name show one value, that of the register it leads to.
  ghost predicate NamesAgree(specs: seq<VarSpec>, shown: seq<Value>)
    requires |specs| == |shown|
  {
    forall i, j | 0 <= i < |specs| && 0 <= j < |specs| && specs[i].name == specs[j].name :: shown[i] == shown[j]
  }

  lemma ShownNamesAgree(codec: FloatCodec, io: InMemoryUnidriverIO, handle: int, variables: seq<NetVar>)
    ensures NamesAgree(Specs(variables), ShownAt(codec, io, handle, variables))
  {
    hide Slot;
    var specs := Specs(variables);
    forall i, j | 0 <= i < |specs| && 0 <= j < |specs| && specs[i].name == specs[j].name
      ensures Slot(variables, i) == Slot(variables, j)
    {
    }
  }

  lemma SlotTypeIsSlots(variables: seq<NetVar>, i: nat)
    requires i < |variables|
    ensures SlotType(Specs(variables), i) == variables[Slot(variables, i)].ctype
  {
    assert SpecNames(Specs(variables)) == Names(variables);
  }

  // Setting the register that a name leads to changes what all variables of that
  // name show, and no other.
  lemma SetIsRenewed(codec: FloatCodec, variables: seq<NetVar>, before: seq<Value>, after: seq<Value>,
                     shownBefore: seq<Value>, shownAfter: seq<Value>, i: nat, value: Value)
    requires |before| == |after| == |shownBefore| == |shownAfter| == |variables| && i < |variables|
    requires Stored(codec, variables[Slot(variables, i)].ctype, value).Some?
    requires after == SlotSet(codec, variables, before, i, value)
    requires forall j | 0 <= j < |variables| ::
               shownBefore[j] == before[Slot(variables, j)] && shownAfter[j] == after[Slot(variables, j)]
    ensures shownAfter == Renewed(Specs(variables), shownBefore, variables[i].name,
                                  Stored(codec, variables[Slot(variables, i)].ctype, value).value)
  {
    hide Slot, Stored;
    forall j: nat | j < |variables|
      ensures Slot(variables, j) == Slot(variables, i) <==> variables[j].name == variables[i].name
    {
    }
  }

  class DeviceService {
    // the runtimes by device id, and the ids in the order they came first
    const runtimes: map<string, DeviceRuntime>
    const ids: seq<string>
    const codec: FloatCodec
    ghost const io: InMemoryUnidriverIO
    ghost const handles: map<string, int>

    ghost predicate Valid() {
      && handles.Keys == runtimes.Keys && Distinct(ids)
      && (forall id | id in ids :: id in runtimes)
      && (forall id | id in runtimes ::
            && id in ids && runtimes[id].device.id == id
            && Wired(runtimes[id].scheme, codec, io, handles[id], runtimes[id].device.variables))
      && (forall a, b | a in handles && b in handles && a != b :: handles[a] != handles[b])
    }

    ghost function Devices(): map<string, seq<VarSpec>> {
      map id | id in runtimes :: Specs(runtimes[id].device.variables)
    }

    // The values of all variables of all devices, as the buffers hold them.
    ghost function Shown(): Values
      requires Valid()
      reads io
      ensures Matches(Devices(), Shown())
    {
      map id | id in runtimes :: ShownAt(codec, io, handles[id], runtimes[id].device.variables)
    }

    constructor (codec: FloatCodec, ghost io: InMemoryUnidriverIO, runtimes: seq<DeviceRuntime>,
                 ghost handles: seq<int>)
      requires |handles| == |runtimes| && Distinct(handles)
      requires forall i | 0 <= i < |runtimes| ::
                 Wired(runtimes[i].scheme, codec, io, handles[i], runtimes[i].device.variables)
      ensures Valid() && this.io == io && this.codec == codec
      ensures ids == KeyOrder(Ids(DevicesOf(runtimes)))
      ensures forall i | 0 <= i < |runtimes| ::
                var last := LastOf(Ids(DevicesOf(runtimes)), i);
                && runtimes[i].device.id in this.runtimes
                && this.runtimes[runtimes[i].device.id] == runtimes[last]
                && this.handles[runtimes[i].device.id] == handles[last]
    {
      hide RegistersOf, Types, BufferOf, Bound, Wired, KeyOrder, LastOf, Keyed, Ids, DevicesOf, Distinct;
      this.codec, this.io, this.ids := codec, io, KeyOrder(Ids(DevicesOf(runtimes)));
      this.runtimes := Keyed(Ids(DevicesOf(runtimes)), runtimes);
      this.handles := Keyed(Ids(DevicesOf(runtimes)), handles);
      new;
      KeyedWired(codec, io, runtimes, handles);
      KeyedDistinct(Ids(DevicesOf(runtimes)), handles);
    }

    // Handles 1, 2, ... in order; of the devices of one id the last one stays.
    // None where an initial value does not fit its type, so that publishing raises.
    static method FromDevices(codec: FloatCodec, devices: seq<Device>, io: InMemoryUnidriverIO)
      returns (service: Option<DeviceService>)
      modifies io
      ensures service.Some? <==> forall i | 0 <= i < |devices| :: Storable(codec, devices[i].variables)
      ensures service.Some? ==>
                && service.value.Valid() && service.value.io == io && service.value.codec == codec
                && service.value.ids == KeyOrder(Ids(devices))
                && forall i | 0 <= i < |devices| && LastOf(Ids(devices), i) == i ::
                     && devices[i].id in service.value.runtimes
                     && service.value.runtimes[devices[i].id].device == devices[i]
                     && service.value.handles[devices[i].id] == i + 1
                     && service.value.Shown()[devices[i].id] == InitiallyShown(codec, devices[i].variables)
    {
      hide RegistersOf, Types, BufferOf, Wired, Stored, InitiallyShown, Storable, Slot, ShownAt, KeyOrder, LastOf;
      var runtimes := BindDevices(codec, devices, io);
      if runtimes.None? {
        return None;
      }
      assert DevicesOf(runtimes.value) == devices;
      hide Distinct, Ids;
      var created := new DeviceService(codec, io, runtimes.value, FirstHandles(|devices|));
      service := Some(created);
    }

    method ListDevices() returns (devices: seq<Device>)
      requires Valid()
      ensures |devices| == |ids|
      ensures forall i | 0 <= i < |ids| :: devices[i] == runtimes[ids[i]].device
    {
      devices := seq(|ids|, i requires 0 <= i < |ids| && ids[i] in runtimes => runtimes[ids[i]].device);
    }

    method Variable(runtime: DeviceRuntime, name: string) returns (index: Option<nat>)
      ensures index == IndexOf(Specs(runtime.device.variables), name)
    {
      hide IndexOf;
      var variables := runtime.device.variables;
      ghost var specs := Specs(variables);
      for i := 0 to |variables|
        invariant forall j | 0 <= j < i :: specs[j].name != name
      {
        if variables[i].name == name {
          assert specs[i].name == name;
          return Some(i);
        }
      }
      return None;
    }

    method Snapshot(id: string, i: nat) returns (snapshot: NetVar)
      requires Valid() && id in runtimes && i < |runtimes[id].device.variables|
      modifies io
      ensures fresh(snapshot)
      ensures VarSpec(snapshot.name, snapshot.ctype, snapshot.mode) == Devices()[id][i]
      ensures snapshot.value == Shown()[id][i]
      ensures Shown() == old(Shown())
    {
      hide RegistersOf, Wired, Types, Slot, BufferOf;
      var value := GetRegister(codec, io, handles[id], runtimes[id].scheme, runtimes[id].device.variables, i);
      var variable := runtimes[id].device.variables[i];
      snapshot := new NetVar(variable.name, variable.ctype, variable.mode, value);
      assert forall other | other in runtimes ::
          ShownAt(codec, io, handles[other], runtimes[other].device.variables) == old(Shown())[other];
    }

    method Put(id: string, i: nat, value: Value) returns (ok: bool)
      requires Valid() && id in runtimes && i < |runtimes[id].device.variables|
      modifies io
      ensures ok <==> Stored(codec, SlotType(Devices()[id], i), value).Some?
      ensures Shown().Keys == old(Shown()).Keys
      ensures Shown()[id] ==
              if ok
              then Renewed(Devices()[id], old(Shown())[id], Devices()[id][i].name,
                           Stored(codec, SlotType(Devices()[id], i), value).value)
              else old(Shown())[id]
      ensures forall other | other in runtimes && other != id :: Shown()[other] == old(Shown())[other]
    {
      hide RegistersOf, Types, Stored, BufferOf, Bound, Wired, SlotType, Slot;
      var variables := runtimes[id].device.variables;
      SlotTypeIsSlots(variables, i);
      ghost var regs := RegistersAt(codec, io, handles[id], variables);
      ok := SetRegister(codec, io, handles[id], runtimes[id].scheme, variables, i, value);
      if ok {
        SetIsRenewed(codec, variables, regs, RegistersAt(codec, io, handles[id], variables),
                     old(Shown())[id], Shown()[id], i, value);
      }
      forall other | other in runtimes && other != id
        ensures Shown()[other] == old(Shown())[other]
      {
        assert BufferOf(io.buffers, handles[other]) == BufferOf(old(io.buffers), handles[other]);
      }
    }

    method ReadValue(id: string, name: string) returns (r: Result<NetVar, ServiceError>)
      requires Valid()
      modifies io
      ensures Shown() == old(Shown())
      ensures id !in runtimes ==> r == Err(DeviceNotFound)
      ensures id in runtimes ==>
                var i := IndexOf(Devices()[id], name);
                if i.None? then r == Err(VariableNotFound)
                else if Devices()[id][i.value].mode == Mode.W then r == Err(VariableAccessError)
                else
                  && r.Ok?
                  && VarSpec(r.value.name, r.value.ctype, r.value.mode) == Devices()[id][i.value]
                  && r.value.value == Shown()[id][i.value]
    {
      if id !in runtimes {
        return Err(DeviceNotFound);
      }
      var i := Variable(runtimes[id], name);
      if i.None? {
        return Err(VariableNotFound);
      }
      if runtimes[id].device.variables[i.value].mode == Mode.W {
        return Err(VariableAccessError);
      }
      var snapshot := Snapshot(id, i.value);
      return Ok(snapshot);
    }

    // Exactly the variables that are not write-only, in order, each with its
    // current value; reading changes nothing.
    method ReadValues(id: string) returns (r: Result<seq<NetVar>, ServiceError>)
      requires Valid()
      modifies io
      ensures Shown() == old(Shown())
      ensures id !in runtimes ==> r == Err(DeviceNotFound)
      ensures id in runtimes ==> r.Ok? && ShowsReadable(r.value, Devices()[id], Shown()[id], |Devices()[id]|)
    {
      hide Shown, Wired, ShowsReadable, Readable;
      if id !in runtimes {
        return Err(DeviceNotFound);
      }
      NothingReadable(Devices()[id], Shown()[id]);
      var variables := runtimes[id].device.variables;
      var values: seq<NetVar> := [];
      for i := 0 to |variables|
        invariant Shown() == old(Shown())
        invariant forall k | 0 <= k < |values| :: fresh(values[k])
        invariant ShowsReadable(values, Devices()[id], Shown()[id], i)
      {
        if variables[i].mode != Mode.W {
          var snapshot := Snapshot(id, i);
          ExtendReadable(values, snapshot, Devices()[id], Shown()[id], i);
          values := values + [snapshot];
        } else {
          SkipReadable(values, Devices()[id], Shown()[id], i);
        }
      }
      return Ok(values);
    }

    // An accepted write changes the one register it names; a rejected one
    // changes none. The variable returned carries the coerced number.
    method WriteValue(id: string, name: string, value: Value) returns (r: Result<NetVar, ServiceError>)
      requires Valid()
      modifies io
      ensures Shown() == AfterWrite(codec, Devices(), old(Shown()), id, name, value)
      ensures Told(r) == CheckWrite(codec, Devices(), id, name, value)
      ensures r.Ok? ==>
                var i := IndexOf(Devices()[id], name).value;
                VarSpec(r.value.name, r.value.ctype, r.value.mode) == Devices()[id][i]
      ensures Answered(codec, Devices(), old(Shown()), id, name, value, Told(r), Shown())
    {
      WriteIsAnswered(codec, Devices(), Shown(), id, name, value);
      hide Answered, IndexOf, SlotType, LastOf, Renewed, Matches;
      hide Shown, Stored, CoerceValue, Wired;
      if id !in runtimes {
        return Err(DeviceNotFound);
      }
      var i := Variable(runtimes[id], name);
      if i.None? {
        return Err(VariableNotFound);
      }
      var variable := runtimes[id].device.variables[i.value];
      if variable.mode == Mode.R {
        return Err(VariableAccessError);
      }
      var coerced := CoerceValue(codec, variable.ctype, value);
      if coerced.Err? {
        return Err(Invalid(coerced.error));
      }
      var ok := Put(id, i.value, coerced.value);
      OneDeviceChanged(old(Shown()), Shown(), id);
      if !ok {
        return Err(Unpackable);
      }
      var written := new NetVar(variable.name, variable.ctype, variable.mode, coerced.value);
      return Ok(written);
    }
  }

  // The number an answer carries, or its error.
  function Told(r: Result<NetVar, ServiceError>): Result<Value, ServiceError>
    reads if r.Ok? then {r.value} else {}
  {
    if r.Ok? then Ok(r.value.value) else Err(r.error)
  }

  // `values` are the readable ones among the first `n` variables.
  ghost predicate ShowsReadable(values: seq<NetVar>, specs: seq<VarSpec>, shown: seq<Value>, n: nat)
    requires n <= |specs| == |shown|
    reads values
  {
    var indices := Readable(specs, n);
    && |values| == |indices|
    && forall k | 0 <= k < |indices| ::
         && VarSpec(values[k].name, values[k].ctype, values[k].mode) == specs[indices[k]]
         && values[k].value == shown[indices[k]]
  }

  lemma NothingReadable(specs: seq<VarSpec>, shown: seq<Value>)
    requires |specs| == |shown|
    ensures ShowsReadable([], specs, shown, 0)
  {
  }

  lemma SkipReadable(values: seq<NetVar>, specs: seq<VarSpec>, shown: seq<Value>, n: nat)
    requires n < |specs| == |shown|
    requires ShowsReadable(values, specs, shown, n)
    requires specs[n].mode == Mode.W
    ensures ShowsReadable(values, specs, shown, n + 1)
  {
  }

  lemma ExtendReadable(values: seq<NetVar>, next: NetVar, specs: seq<VarSpec>, shown: seq<Value>, n: nat)
    requires n < |specs| == |shown|
    requires ShowsReadable(values, specs, shown, n)
    requires specs[n].mode != Mode.W
    requires VarSpec(next.name, next.ctype, next.mode) == specs[n] && next.value == shown[n]
    ensures ShowsReadable(values + [next], specs, shown, n + 1)
  {
  }
}
