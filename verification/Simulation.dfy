// The device side: on each tick the controls are read from the registers, the
// signals are sampled and fitted, and the results are published
// (tstlan/devices/simulation/engine.py).
module Simulation {
  import opened Wrappers
  import opened NetVars
  import opened Sequences
  import opened Accessors

  // Follow repeats the current value of a variable. Every other signal (noise,
  // sine, sums, ...) is a number the model leaves open, new on each tick.
  datatype Signal = Follow(target: NetVar) | Generated

  datatype SimulatedDevice = SimulatedDevice(device: Device, signals: map<string, Signal>, handle: int)

  // The numbers generated on one tick, by device and variable.
  type Samples = (nat, nat) -> Double

  // ---------- what a tick does, over plain values ----------

  // The values held by the variable objects, the register values of each
  // device, and whether nothing has raised so far.
  datatype Sim = Sim(vars: map<NetVar, Value>, regs: seq<seq<Value>>, ok: bool)

  ghost function Objects(devices: seq<SimulatedDevice>): set<NetVar> {
    (set k, i | 0 <= k < |devices| && 0 <= i < |devices[k].device.variables| :: devices[k].device.variables[i])
    + (set k, name | 0 <= k < |devices| && name in devices[k].signals && devices[k].signals[name].Follow? ::
         devices[k].signals[name].target)
  }

  ghost predicate Fitting(devices: seq<SimulatedDevice>, s: Sim) {
    && s.vars.Keys == Objects(devices)
    && |s.regs| == |devices|
    && forall k | 0 <= k < |devices| :: |s.regs[k]| == |devices[k].device.variables|
  }

  // Variable `i` of device `k`, if a control, takes over the register of its name.
  ghost function ControlRead(devices: seq<SimulatedDevice>, s: Sim, k: nat, i: nat): (t: Sim)
    requires Fitting(devices, s) && k < |devices| && i < |devices[k].device.variables|
    ensures Fitting(devices, t) && t.regs == s.regs && t.ok == s.ok
  {
    var v := devices[k].device.variables[i];
    if v.mode != Mode.R then s.(vars := s.vars[v := s.regs[k][Slot(devices[k].device.variables, i)]]) else s
  }

  // The first `n` variables of device `k` do.
  ghost function ControlsRead(devices: seq<SimulatedDevice>, s: Sim, k: nat, n: nat): (t: Sim)
    requires Fitting(devices, s) && k < |devices| && n <= |devices[k].device.variables|
    ensures Fitting(devices, t) && t.regs == s.regs && t.ok == s.ok
  {
    if n == 0 then s else ControlRead(devices, ControlsRead(devices, s, k, n - 1), k, n - 1)
  }

  ghost function Sampled(c: FloatCodec, devices: seq<SimulatedDevice>, s: Sim, k: nat, i: nat, samples: Samples)
    : Option<Double>
    requires Fitting(devices, s) && k < |devices| && i < |devices[k].device.variables|
    requires devices[k].device.variables[i].name in devices[k].signals
  {
    match devices[k].signals[devices[k].device.variables[i].name]
    case Generated => Some(samples(k, i))
    case Follow(target) => ToDouble(c, s.vars[target])
  }

  // Variable `i` of device `k`, if it has a signal, is assigned and published to
  // the register of its name.
  ghost function VariablePublished(
    c: FloatCodec, devices: seq<SimulatedDevice>, s: Sim, k: nat, i: nat, samples: Samples)
    : (t: Sim)
    requires Fitting(devices, s) && k < |devices| && i < |devices[k].device.variables|
    ensures Fitting(devices, t)
  {
    var v := devices[k].device.variables[i];
    if !s.ok || v.name !in devices[k].signals then s
    else
      var x := Sampled(c, devices, s, k, i, samples);
      if x.None? then s.(ok := false)
      else
        var fitted := FitValue(c, v.ctype, x.value);
        var slot := Slot(devices[k].device.variables, i);
        var stored := Stored(c, devices[k].device.variables[slot].ctype, fitted);
        var updated := s.(vars := s.vars[v := fitted]);
        if stored.None? then updated.(ok := false)
        else updated.(regs := s.regs[k := s.regs[k][slot := stored.value]])
  }

  ghost function SignalsPublished(
    c: FloatCodec, devices: seq<SimulatedDevice>, s: Sim, k: nat, n: nat, samples: Samples)
    : (t: Sim)
    requires Fitting(devices, s) && k < |devices| && n <= |devices[k].device.variables|
    ensures Fitting(devices, t)
  {
    if n == 0 then s
    else VariablePublished(c, devices, SignalsPublished(c, devices, s, k, n - 1, samples), k, n - 1, samples)
  }

  ghost function DeviceTicked(c: FloatCodec, devices: seq<SimulatedDevice>, s: Sim, k: nat, samples: Samples): (t: Sim)
    requires Fitting(devices, s) && k < |devices|
    ensures Fitting(devices, t)
  {
    if !s.ok || !devices[k].device.enabled then s
    else
      var n := |devices[k].device.variables|;
      SignalsPublished(c, devices, ControlsRead(devices, s, k, n), k, n, samples)
  }

  // The first `n` devices tick; a raise ends the tick.
  ghost function Ticked(c: FloatCodec, devices: seq<SimulatedDevice>, s: Sim, n: nat, samples: Samples): (t: Sim)
    requires Fitting(devices, s) && n <= |devices|
    ensures Fitting(devices, t)
  {
    if n == 0 then s else DeviceTicked(c, devices, Ticked(c, devices, s, n - 1, samples), n - 1, samples)
  }

  // ---------- what a tick guarantees ----------

  predicate HasSignal(devices: seq<SimulatedDevice>, k: nat, i: nat)
    requires k < |devices| && i < |devices[k].device.variables|
  {
    devices[k].device.variables[i].name in devices[k].signals
  }

  lemma {:induction false} PublishingKeeps(
    c: FloatCodec, devices: seq<SimulatedDevice>, s: Sim, k: nat, n: nat, samples: Samples, j: nat, i: nat)
    requires Fitting(devices, s) && k < |devices| && n <= |devices[k].device.variables|
    requires j < |devices| && i < |devices[j].device.variables|
    requires j != k || !HasSignal(devices, j, i)
    ensures SignalsPublished(c, devices, s, k, n, samples).regs[j][i] == s.regs[j][i]
  {
    if n > 0 {
      PublishingKeeps(c, devices, s, k, n - 1, samples, j, i);
    }
  }

  // No tick, not even one that raises half-way, changes the register of a
  // variable without a signal, of a disabled device, or of a device not reached.
  lemma {:induction false} TickKeeps(
    c: FloatCodec, devices: seq<SimulatedDevice>, s: Sim, n: nat, samples: Samples, j: nat, i: nat)
    requires Fitting(devices, s) && n <= |devices|
    requires j < |devices| && i < |devices[j].device.variables|
    requires j >= n || !devices[j].device.enabled || !HasSignal(devices, j, i)
    ensures Ticked(c, devices, s, n, samples).regs[j][i] == s.regs[j][i]
  {
    if n > 0 {
      TickKeeps(c, devices, s, n - 1, samples, j, i);
      var before := Ticked(c, devices, s, n - 1, samples);
      var count := |devices[n - 1].device.variables|;
      if before.ok && devices[n - 1].device.enabled {
        PublishingKeeps(c, devices, ControlsRead(devices, before, n - 1, count), n - 1, count, samples, j, i);
      }
    }
  }

  // Nothing that raised is undone.
  lemma {:induction false} StaysFailed(
    c: FloatCodec, devices: seq<SimulatedDevice>, s: Sim, k: nat, n: nat, samples: Samples)
    requires Fitting(devices, s) && k < |devices| && n <= |devices[k].device.variables|
    requires SignalsPublished(c, devices, s, k, n, samples).ok
    ensures s.ok
    ensures forall m: nat | m <= n :: SignalsPublished(c, devices, s, k, m, samples).ok
  {
    if n > 0 {
      StaysFailed(c, devices, s, k, n - 1, samples);
    }
  }

  // Within a device's own tick: the register of a signalled variable is set at
  // the turn of that variable, from the signal's value then, and then left alone.
  lemma {:induction false} SetAtItsTurn(
    c: FloatCodec, devices: seq<SimulatedDevice>, s: Sim, k: nat, n: nat, samples: Samples, i: nat)
    requires Fitting(devices, s) && k < |devices| && i < n <= |devices[k].device.variables|
    requires HasSignal(devices, k, i) && Slot(devices[k].device.variables, i) == i
    requires SignalsPublished(c, devices, s, k, n, samples).ok
    ensures var turn := SignalsPublished(c, devices, s, k, i, samples);
            var x := Sampled(c, devices, turn, k, i, samples);
            var ct := devices[k].device.variables[i].ctype;
            && x.Some?
            && Stored(c, ct, FitValue(c, ct, x.value)) ==
               Some(SignalsPublished(c, devices, s, k, n, samples).regs[k][i])
  {
    hide Stored, FitValue, Objects, ToDouble;
    StaysFailed(c, devices, s, k, n, samples);
    if i < n - 1 {
      SetAtItsTurn(c, devices, s, k, n - 1, samples, i);
    }
  }

  // The state a device starts its own tick in: its registers are as they were
  // before the whole tick.
  lemma {:induction false} OwnTick(
    c: FloatCodec, devices: seq<SimulatedDevice>, s: Sim, n: nat, samples: Samples, k: nat)
    requires Fitting(devices, s) && k < n <= |devices|
    requires Ticked(c, devices, s, n, samples).ok
    ensures Ticked(c, devices, s, k, samples).ok
    ensures Ticked(c, devices, s, k, samples).regs[k] == s.regs[k]
    ensures Ticked(c, devices, s, k + 1, samples).ok
    ensures Ticked(c, devices, s, n, samples).regs[k] == Ticked(c, devices, s, k + 1, samples).regs[k]
    decreases n
  {
    hide VariablePublished, ControlsRead, Objects;
    if n > k + 1 {
      var before := Ticked(c, devices, s, n - 1, samples);
      var count := |devices[n - 1].device.variables|;
      if devices[n - 1].device.enabled && before.ok {
        StaysFailed(c, devices, ControlsRead(devices, before, n - 1, count), n - 1, count, samples);
      }
      OwnTick(c, devices, s, n - 1, samples, k);
      forall i: nat | i < |devices[k].device.variables|
        ensures Ticked(c, devices, s, n, samples).regs[k][i] == before.regs[k][i]
      {
        if before.ok && devices[n - 1].device.enabled {
          PublishingKeeps(c, devices, ControlsRead(devices, before, n - 1, count), n - 1, count, samples, k, i);
        }
      }
    } else {
      var before := Ticked(c, devices, s, k, samples);
      var count := |devices[k].device.variables|;
      if devices[k].device.enabled && before.ok {
        StaysFailed(c, devices, ControlsRead(devices, before, k, count), k, count, samples);
      }
      forall i: nat | i < |devices[k].device.variables|
        ensures before.regs[k][i] == s.regs[k][i]
      {
        TickKeeps(c, devices, s, k, samples, k, i);
      }
    }
  }

  // The state in which the signal of variable `i` of device `k` is sampled.
  ghost function Turn(c: FloatCodec, devices: seq<SimulatedDevice>, s: Sim, k: nat, i: nat, samples: Samples): (t: Sim)
    requires Fitting(devices, s) && k < |devices| && i <= |devices[k].device.variables|
    ensures Fitting(devices, t)
  {
    var read := ControlsRead(devices, Ticked(c, devices, s, k, samples), k, |devices[k].device.variables|);
    SignalsPublished(c, devices, read, k, i, samples)
  }

  // `shown` is the number `x` as far as a register of type `ct` can show it.
  ghost predicate ShowsFitted(c: FloatCodec, ct: CType, x: Double, shown: Value) {
    if IsFloat(ct) then Stored(c, ct, FloatV(x)) == Some(shown)
    else shown.IntV? && BestFit(ct, c.toReal(x), shown.i)
  }

  lemma FittedIsShown(c: FloatCodec, ct: CType, x: Double)
    requires Stored(c, ct, FitValue(c, ct, x)).Some?
    ensures ShowsFitted(c, ct, x, Stored(c, ct, FitValue(c, ct, x)).value)
  {
    if !IsFloat(ct) {
      FitIsBest(c, ct, x);
    }
  }

  // After a tick of an enabled device every variable with a signal, of any kind,
  // shows what the signal gave at its turn, fitted to its type; an integer
  // register shows the best fit there is. (Of several variables of one name this
  // speaks of the last one, whose register the name leads to.)
  lemma SampledIsShown(c: FloatCodec, devices: seq<SimulatedDevice>, s: Sim, samples: Samples, k: nat, i: nat)
    requires Fitting(devices, s) && k < |devices| && i < |devices[k].device.variables|
    requires devices[k].device.enabled && HasSignal(devices, k, i)
    requires Slot(devices[k].device.variables, i) == i
    requires Ticked(c, devices, s, |devices|, samples).ok
    ensures var x := Sampled(c, devices, Turn(c, devices, s, k, i, samples), k, i, samples);
            && x.Some?
            && ShowsFitted(c, devices[k].device.variables[i].ctype, x.value,
                           Ticked(c, devices, s, |devices|, samples).regs[k][i])
  {
    var count := |devices[k].device.variables|;
    OwnTick(c, devices, s, |devices|, samples, k);
    SetAtItsTurn(c, devices, ControlsRead(devices, Ticked(c, devices, s, k, samples), k, count), k, count, samples, i);
    var x := Sampled(c, devices, Turn(c, devices, s, k, i, samples), k, i, samples);
    FittedIsShown(c, devices[k].device.variables[i].ctype, x.value);
  }

  // A generated signal is the number generated for its own variable.
  lemma GeneratedIsShown(c: FloatCodec, devices: seq<SimulatedDevice>, s: Sim, samples: Samples, k: nat, i: nat)
    requires Fitting(devices, s) && k < |devices| && i < |devices[k].device.variables|
    requires devices[k].device.enabled && HasSignal(devices, k, i)
    requires Slot(devices[k].device.variables, i) == i
    requires Ticked(c, devices, s, |devices|, samples).ok
    requires devices[k].signals[devices[k].device.variables[i].name] == Generated
    ensures ShowsFitted(c, devices[k].device.variables[i].ctype, samples(k, i),
                        Ticked(c, devices, s, |devices|, samples).regs[k][i])
  {
    SampledIsShown(c, devices, s, samples, k, i);
  }

  // A following one is the value its target has at its turn, converted to float.
  lemma FollowIsShown(
    c: FloatCodec, devices: seq<SimulatedDevice>, s: Sim, samples: Samples, k: nat, i: nat, target: NetVar)
    requires Fitting(devices, s) && k < |devices| && i < |devices[k].device.variables|
    requires devices[k].device.enabled && HasSignal(devices, k, i)
    requires Slot(devices[k].device.variables, i) == i
    requires Ticked(c, devices, s, |devices|, samples).ok
    requires devices[k].signals[devices[k].device.variables[i].name] == Follow(target)
    ensures target in Turn(c, devices, s, k, i, samples).vars
    ensures var found := Turn(c, devices, s, k, i, samples).vars[target];
            exists x: Double ::
              && (found == FloatV(x) || (found.IntV? && c.ofInt(found.i) == Some(x)) ||
                  (found.BoolV? && c.ofInt(if found.b then 1 else 0) == Some(x)))
              && ShowsFitted(c, devices[k].device.variables[i].ctype, x,
                             Ticked(c, devices, s, |devices|, samples).regs[k][i])
  {
    TargetIsObject(devices, k, i, target);
    SampledIsShown(c, devices, s, samples, k, i);
    var found := Turn(c, devices, s, k, i, samples).vars[target];
    assert ShowsFitted(c, devices[k].device.variables[i].ctype, ToDouble(c, found).value,
                       Ticked(c, devices, s, |devices|, samples).regs[k][i]);
  }

  lemma TargetIsObject(devices: seq<SimulatedDevice>, k: nat, i: nat, target: NetVar)
    requires k < |devices| && i < |devices[k].device.variables| && HasSignal(devices, k, i)
    requires devices[k].signals[devices[k].device.variables[i].name] == Follow(target)
    ensures target in Objects(devices)
  {
  }

  // What a Follow of variable `m` of the same device finds at the turn of
  // variable `i`: the value just assigned, if `m` has a signal and comes first;
  // else, for a control, its register as it was before the tick; else the value
  // the variable had before.
  lemma FollowFinds(
    c: FloatCodec, devices: seq<SimulatedDevice>, s: Sim, samples: Samples, k: nat, i: nat, m: nat)
    requires Fitting(devices, s) && k < |devices|
    requires i < |devices[k].device.variables| && m < |devices[k].device.variables|
    requires Distinct(devices[k].device.variables) && devices[k].device.enabled
    requires Ticked(c, devices, s, |devices|, samples).ok
    ensures var v := devices[k].device.variables[m];
            var found := Turn(c, devices, s, k, i, samples).vars[v];
            if HasSignal(devices, k, m) && m < i then
              Slot(devices[k].device.variables, m) == m ==>
                Stored(c, v.ctype, found) == Some(Ticked(c, devices, s, |devices|, samples).regs[k][m])
            else if v.mode != Mode.R then found == s.regs[k][Slot(devices[k].device.variables, m)]
            else found == Ticked(c, devices, s, k, samples).vars[v]
  {
    var count := |devices[k].device.variables|;
    var start := Ticked(c, devices, s, k, samples);
    var read := ControlsRead(devices, start, k, count);
    OwnTick(c, devices, s, |devices|, samples, k);
    if HasSignal(devices, k, m) && m < i {
      StaysFailed(c, devices, read, k, count, samples);
      AssignedAtItsTurn(c, devices, read, k, i, samples, m);
      if Slot(devices[k].device.variables, m) == m {
        SetAtItsTurn(c, devices, read, k, count, samples, m);
      }
    } else {
      NotAssigned(c, devices, read, k, i, samples, m);
      ControlReads(devices, start, k, count, m);
    }
  }

  // A Follow of a control without a signal shows the control's register as it
  // was before the tick, converted to float.
  lemma FollowShowsControl(
    c: FloatCodec, devices: seq<SimulatedDevice>, s: Sim, samples: Samples, k: nat, i: nat, m: nat)
    requires Fitting(devices, s) && k < |devices|
    requires i < |devices[k].device.variables| && m < |devices[k].device.variables|
    requires Distinct(devices[k].device.variables)
    requires Slot(devices[k].device.variables, i) == i
    requires devices[k].device.enabled && HasSignal(devices, k, i)
    requires devices[k].signals[devices[k].device.variables[i].name] == Follow(devices[k].device.variables[m])
    requires devices[k].device.variables[m].mode != Mode.R && !HasSignal(devices, k, m)
    requires Ticked(c, devices, s, |devices|, samples).ok
    ensures var x := ToDouble(c, s.regs[k][Slot(devices[k].device.variables, m)]);
            && x.Some?
            && ShowsFitted(c, devices[k].device.variables[i].ctype, x.value,
                           Ticked(c, devices, s, |devices|, samples).regs[k][i])
  {
    SampledIsShown(c, devices, s, samples, k, i);
    FollowFinds(c, devices, s, samples, k, i, m);
  }

  // A variable that is not a control is not read.
  lemma {:induction false} ControlReads(devices: seq<SimulatedDevice>, s: Sim, k: nat, n: nat, m: nat)
    requires Fitting(devices, s) && k < |devices| && m < n <= |devices[k].device.variables|
    requires Distinct(devices[k].device.variables)
    ensures var v := devices[k].device.variables[m];
            ControlsRead(devices, s, k, n).vars[v] ==
            if v.mode != Mode.R then s.regs[k][Slot(devices[k].device.variables, m)] else s.vars[v]
  {
    hide Objects;
    if m < n - 1 {
      ControlReads(devices, s, k, n - 1, m);
    } else {
      NotReadYet(devices, s, k, m, m);
    }
  }

  lemma {:induction false} NotReadYet(devices: seq<SimulatedDevice>, s: Sim, k: nat, n: nat, m: nat)
    requires Fitting(devices, s) && k < |devices| && n <= m < |devices[k].device.variables|
    requires Distinct(devices[k].device.variables)
    ensures var v := devices[k].device.variables[m];
            ControlsRead(devices, s, k, n).vars[v] == s.vars[v]
  {
    hide Objects;
    if n > 0 {
      NotReadYet(devices, s, k, n - 1, m);
    }
  }

  lemma {:induction false} NotAssigned(
    c: FloatCodec, devices: seq<SimulatedDevice>, s: Sim, k: nat, n: nat, samples: Samples, m: nat)
    requires Fitting(devices, s) && k < |devices| && n <= |devices[k].device.variables|
    requires m < |devices[k].device.variables| && (m >= n || !HasSignal(devices, k, m))
    requires Distinct(devices[k].device.variables)
    ensures var v := devices[k].device.variables[m];
            SignalsPublished(c, devices, s, k, n, samples).vars[v] == s.vars[v]
  {
    hide VariablePublished, Objects;
    if n > 0 {
      NotAssigned(c, devices, s, k, n - 1, samples, m);
      OtherIsKept(c, devices, SignalsPublished(c, devices, s, k, n - 1, samples), k, n - 1, samples, m);
    }
  }

  lemma OtherIsKept(c: FloatCodec, devices: seq<SimulatedDevice>, s: Sim, k: nat, i: nat, samples: Samples, m: nat)
    requires Fitting(devices, s) && k < |devices|
    requires i < |devices[k].device.variables| && m < |devices[k].device.variables|
    requires Distinct(devices[k].device.variables) && (m != i || !HasSignal(devices, k, i))
    ensures var v := devices[k].device.variables[m];
            VariablePublished(c, devices, s, k, i, samples).vars[v] == s.vars[v]
  {
    hide Stored, FitValue, Objects, ToDouble;
    if m != i {
    }
  }

  lemma OwnIsAssigned(c: FloatCodec, devices: seq<SimulatedDevice>, s: Sim, k: nat, i: nat, samples: Samples)
    requires Fitting(devices, s) && k < |devices| && i < |devices[k].device.variables|
    requires HasSignal(devices, k, i) && VariablePublished(c, devices, s, k, i, samples).ok
    ensures var v := devices[k].device.variables[i];
            var x := Sampled(c, devices, s, k, i, samples);
            x.Some? && VariablePublished(c, devices, s, k, i, samples).vars[v] == FitValue(c, v.ctype, x.value)
  {
    hide FitValue, Objects, ToDouble;
  }

  lemma {:induction false} AssignedAtItsTurn(
    c: FloatCodec, devices: seq<SimulatedDevice>, s: Sim, k: nat, n: nat, samples: Samples, m: nat)
    requires Fitting(devices, s) && k < |devices| && m < n <= |devices[k].device.variables|
    requires Distinct(devices[k].device.variables) && HasSignal(devices, k, m)
    requires SignalsPublished(c, devices, s, k, n, samples).ok
    ensures var v := devices[k].device.variables[m];
            var x := Sampled(c, devices, SignalsPublished(c, devices, s, k, m, samples), k, m, samples);
            && x.Some?
            && SignalsPublished(c, devices, s, k, n, samples).vars[v] == FitValue(c, v.ctype, x.value)
  {
    hide VariablePublished, Sampled, FitValue, Objects;
    var before := SignalsPublished(c, devices, s, k, n - 1, samples);
    if m < n - 1 {
      assert before.ok by {
        StaysFailed(c, devices, s, k, n, samples);
      }
      AssignedAtItsTurn(c, devices, s, k, n - 1, samples, m);
      OtherIsKept(c, devices, before, k, n - 1, samples, m);
    } else {
      OwnIsAssigned(c, devices, before, k, m, samples);
    }
  }

  // ---------- when a tick raises ----------

  // The number sampled for variable `i` of device `k` can be published.
  ghost predicate SampleFits(c: FloatCodec, devices: seq<SimulatedDevice>, s: Sim, k: nat, i: nat, samples: Samples)
    requires Fitting(devices, s) && k < |devices| && i < |devices[k].device.variables|
    requires HasSignal(devices, k, i)
  {
    var variables := devices[k].device.variables;
    var x := Sampled(c, devices, s, k, i, samples);
    x.Some? && Stored(c, variables[Slot(variables, i)].ctype, FitValue(c, variables[i].ctype, x.value)).Some?
  }

  lemma {:induction false} PublishingSucceeds(
    c: FloatCodec, devices: seq<SimulatedDevice>, s: Sim, k: nat, n: nat, samples: Samples)
    requires Fitting(devices, s) && k < |devices| && n <= |devices[k].device.variables|
    ensures SignalsPublished(c, devices, s, k, n, samples).ok <==>
            s.ok && forall i: nat | i < n && HasSignal(devices, k, i) ::
                      SampleFits(c, devices, SignalsPublished(c, devices, s, k, i, samples), k, i, samples)
  {
    hide Objects, Stored, FitValue, Sampled;
    if n > 0 {
      PublishingSucceeds(c, devices, s, k, n - 1, samples);
    }
  }

  ghost predicate SamplesFit(c: FloatCodec, devices: seq<SimulatedDevice>, s: Sim, k: nat, samples: Samples)
    requires Fitting(devices, s) && k < |devices|
  {
    forall i: nat | i < |devices[k].device.variables| && HasSignal(devices, k, i) ::
      SampleFits(c, devices, Turn(c, devices, s, k, i, samples), k, i, samples)
  }

  // Where it raises on the number sampled, nothing was assigned; where it raises on
  // publishing, the variable has its new value and the registers do not.
  lemma RaiseLeaves(c: FloatCodec, devices: seq<SimulatedDevice>, s: Sim, k: nat, i: nat, samples: Samples)
    requires Fitting(devices, s) && k < |devices| && i < |devices[k].device.variables|
    requires s.ok && !VariablePublished(c, devices, s, k, i, samples).ok
    ensures var v, after := devices[k].device.variables[i], VariablePublished(c, devices, s, k, i, samples);
            && HasSignal(devices, k, i) && after.regs == s.regs
            && var x := Sampled(c, devices, s, k, i, samples);
               after.vars == if x.None? then s.vars else s.vars[v := FitValue(c, v.ctype, x.value)]
  {
    hide Stored, FitValue, Objects, ToDouble;
  }

  // A tick goes through if and only if every sample, at its turn, converts and
  // fits the register it goes to.
  lemma {:induction false} TickSucceeds(
    c: FloatCodec, devices: seq<SimulatedDevice>, s: Sim, n: nat, samples: Samples)
    requires Fitting(devices, s) && n <= |devices|
    ensures Ticked(c, devices, s, n, samples).ok <==>
            s.ok && forall k: nat | k < n && devices[k].device.enabled :: SamplesFit(c, devices, s, k, samples)
  {
    hide SamplesFit, DeviceTicked;
    if n > 0 {
      TickSucceeds(c, devices, s, n - 1, samples);
      DeviceSucceeds(c, devices, s, n - 1, samples);
    }
  }

  lemma DeviceSucceeds(c: FloatCodec, devices: seq<SimulatedDevice>, s: Sim, k: nat, samples: Samples)
    requires Fitting(devices, s) && k < |devices|
    ensures var before := Ticked(c, devices, s, k, samples);
            DeviceTicked(c, devices, before, k, samples).ok <==>
            before.ok && (devices[k].device.enabled ==> SamplesFit(c, devices, s, k, samples))
  {
    hide Objects, SampleFits, SignalsPublished, ControlsRead, Ticked;
    var before := Ticked(c, devices, s, k, samples);
    var count := |devices[k].device.variables|;
    PublishingSucceeds(c, devices, ControlsRead(devices, before, k, count), k, count, samples);
  }

  // In a register of the variable's own type every sample fits, unless it has 32
  // bits and the number overflows them.
  lemma FittedFits(c: FloatCodec, ct: CType, x: Double)
    ensures Stored(c, ct, FitValue(c, ct, x)).Some? <==> (ct == F32 ==> c.narrow(x).Some?)
  {
  }

  // ---------- what a tick leaves alone ----------

  // Of the variable objects a tick assigns those of enabled devices only, and of
  // these neither reads the read-only ones nor assigns the others without a signal
  // anything but their register.
  ghost predicate Untouched(devices: seq<SimulatedDevice>, k: nat, v: NetVar)
    requires k < |devices|
  {
    forall i: nat | i < |devices[k].device.variables| ::
      devices[k].device.variables[i] == v ==> v.mode == Mode.R && v.name !in devices[k].signals
  }

  lemma {:induction false} TickKeepsValue(
    c: FloatCodec, devices: seq<SimulatedDevice>, s: Sim, n: nat, samples: Samples, v: NetVar)
    requires Fitting(devices, s) && n <= |devices| && v in s.vars
    requires forall k: nat | k < n && devices[k].device.enabled :: Untouched(devices, k, v)
    ensures v in Ticked(c, devices, s, n, samples).vars
    ensures Ticked(c, devices, s, n, samples).vars[v] == s.vars[v]
  {
    hide Objects, Untouched;
    if n > 0 {
      TickKeepsValue(c, devices, s, n - 1, samples, v);
      var before := Ticked(c, devices, s, n - 1, samples);
      var count := |devices[n - 1].device.variables|;
      if devices[n - 1].device.enabled && before.ok {
        ReadingKeepsValue(devices, before, n - 1, count, v);
        PublishingKeepsValue(c, devices, ControlsRead(devices, before, n - 1, count), n - 1, count, samples, v);
      }
    }
  }

  lemma {:induction false} ReadingKeepsValue(devices: seq<SimulatedDevice>, s: Sim, k: nat, n: nat, v: NetVar)
    requires Fitting(devices, s) && k < |devices| && n <= |devices[k].device.variables|
    requires v in s.vars && Untouched(devices, k, v)
    ensures v in ControlsRead(devices, s, k, n).vars && ControlsRead(devices, s, k, n).vars[v] == s.vars[v]
  {
    hide Objects;
    if n > 0 {
      ReadingKeepsValue(devices, s, k, n - 1, v);
    }
  }

  lemma {:induction false} PublishingKeepsValue(
    c: FloatCodec, devices: seq<SimulatedDevice>, s: Sim, k: nat, n: nat, samples: Samples, v: NetVar)
    requires Fitting(devices, s) && k < |devices| && n <= |devices[k].device.variables|
    requires v in s.vars && Untouched(devices, k, v)
    ensures v in SignalsPublished(c, devices, s, k, n, samples).vars
    ensures SignalsPublished(c, devices, s, k, n, samples).vars[v] == s.vars[v]
  {
    hide Objects, Stored, FitValue, ToDouble;
    if n > 0 {
      PublishingKeepsValue(c, devices, s, k, n - 1, samples, v);
    }
  }

  // Conversion to float is exact up to 2^53 in magnitude.
  ghost predicate ExactUpTo2Pow53(c: FloatCodec) {
    forall i: int | -0x20_0000_0000_0000 <= i <= 0x20_0000_0000_0000 ::
      c.ofInt(i).Some? && c.toReal(c.ofInt(i).value) == i as real
  }

  // ... so an integer that fits the following register arrives unchanged.
  lemma FollowIsExact(c: FloatCodec, ct: CType, i: int, shown: Value)
    requires ExactUpTo2Pow53(c)
    requires -0x20_0000_0000_0000 <= i <= 0x20_0000_0000_0000
    requires !IsFloat(ct) && InRange(ct, i)
    requires ShowsFitted(c, ct, ToDouble(c, IntV(i)).value, shown)
    ensures shown == IntV(i)
  {
    assert Distance(shown.i, i as real) <= Distance(i, i as real);
  }

  // ---------- client calls between ticks ----------

  // What happens to a device server, one at a time under its lock: a client
  // sets a variable, or the device ticks (perhaps raising half-way).
  datatype Event = ClientSet(device: nat, index: nat, value: Value) | Tick(samples: Samples)

  ghost function Happened(c: FloatCodec, devices: seq<SimulatedDevice>, s: Sim, e: Event): (t: Sim)
    requires Fitting(devices, s)
    ensures Fitting(devices, t)
  {
    match e
    case ClientSet(k, i, v) =>
      if k < |devices| && i < |devices[k].device.variables| && Stored(c, devices[k].device.variables[i].ctype, v).Some?
      then s.(regs := s.regs[k := s.regs[k][i := Stored(c, devices[k].device.variables[i].ctype, v).value]])
      else s
    case Tick(samples) => Ticked(c, devices, s.(ok := true), |devices|, samples)
  }

  ghost function HappenedAll(c: FloatCodec, devices: seq<SimulatedDevice>, s: Sim, events: seq<Event>): (t: Sim)
    requires Fitting(devices, s)
    ensures Fitting(devices, t)
  {
    if events == [] then s
    else Happened(c, devices, HappenedAll(c, devices, s, events[..|events| - 1]), events[|events| - 1])
  }

  ghost function LastClientSet(c: FloatCodec, ct: CType, events: seq<Event>, k: nat, i: nat, initial: Value): Value {
    if events == [] then initial
    else
      var last := events[|events| - 1];
      if last.ClientSet? && last.device == k && last.index == i && Stored(c, ct, last.value).Some?
      then Stored(c, ct, last.value).value
      else LastClientSet(c, ct, events[..|events| - 1], k, i, initial)
  }

  // `LastClientSet` is the last value a client set, or else the initial one.
  lemma {:induction false} LastClientSetIsLast(
    c: FloatCodec, ct: CType, events: seq<Event>, k: nat, i: nat, initial: Value, n: nat)
    requires n <= |events|
    requires forall e | n <= e < |events| ::
               !(events[e].ClientSet? && events[e].device == k && events[e].index == i &&
                 Stored(c, ct, events[e].value).Some?)
    ensures n == 0 ==> LastClientSet(c, ct, events, k, i, initial) == initial
    ensures n > 0 && events[n - 1].ClientSet? && events[n - 1].device == k && events[n - 1].index == i &&
            Stored(c, ct, events[n - 1].value).Some? ==>
              Some(LastClientSet(c, ct, events, k, i, initial)) == Stored(c, ct, events[n - 1].value)
  {
    hide Stored;
    if n < |events| {
      LastClientSetIsLast(c, ct, events[..|events| - 1], k, i, initial, n);
    }
  }

  // However sets and ticks interleave, a variable without a signal shows the
  // last value a client put there, or its initial one.
  lemma {:induction false} ControlsBelongToClients(
    c: FloatCodec, devices: seq<SimulatedDevice>, s: Sim, events: seq<Event>, k: nat, i: nat)
    requires Fitting(devices, s)
    requires k < |devices| && i < |devices[k].device.variables|
    requires !HasSignal(devices, k, i)
    ensures HappenedAll(c, devices, s, events).regs[k][i] ==
            LastClientSet(c, devices[k].device.variables[i].ctype, events, k, i, s.regs[k][i])
  {
    if events != [] {
      var n := |events| - 1;
      ControlsBelongToClients(c, devices, s, events[..n], k, i);
      var before := HappenedAll(c, devices, s, events[..n]);
      if events[n].Tick? {
        TickKeeps(c, devices, before.(ok := true), |devices|, events[n].samples, k, i);
      }
    }
  }
}
