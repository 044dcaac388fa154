// Bounded histories of the devices' values, fed by a sampler
// (tstlan/devices/history.py).
module History {
  import opened NetVars
  import opened Accessors
  import opened Service

  const MAX_POINTS: nat := 900

  datatype Sample = Sample(t: real, values: map<string, Value>)

  // The last `n` elements.
  function Last<T>(s: seq<T>, n: nat): seq<T> {
    if |s| > n then s[|s| - n..] else s
  }

  // ---------- what the recorder promises, over whole runs ----------

  // A round of sampling: the samples of the devices that could be read.
  type Round = map<string, Sample>

  type Points = map<string, seq<Sample>>

  function PointsOf(points: Points, id: string): seq<Sample> {
    if id in points then points[id] else []
  }

  function AfterRound(points: Points, round: Round): (after: Points)
    ensures forall id :: PointsOf(after, id) ==
                         if id in round then Last(PointsOf(points, id) + [round[id]], MAX_POINTS)
                         else PointsOf(points, id)
  {
    map id | id in points.Keys + round.Keys ::
      if id in round then Last(PointsOf(points, id) + [round[id]], MAX_POINTS) else points[id]
  }

  function AfterRounds(points: Points, rounds: seq<Round>): Points {
    if rounds == [] then points
    else AfterRound(AfterRounds(points, rounds[..|rounds| - 1]), rounds[|rounds| - 1])
  }

  // All samples ever taken of one device, in order.
  function Taken(rounds: seq<Round>, id: string): seq<Sample> {
    if rounds == [] then []
    else
      var before := Taken(rounds[..|rounds| - 1], id);
      var round := rounds[|rounds| - 1];
      if id in round then before + [round[id]] else before
  }

  // However the reads of any devices fail, the history of each one is the last
  // 900 of its own successful samples; other devices have no part in it.
  lemma HistoryIsLastTaken(rounds: seq<Round>, id: string)
    ensures var history, taken := PointsOf(AfterRounds(map[], rounds), id), Taken(rounds, id);
            && |history| == (if |taken| < 900 then |taken| else 900)
            && history == taken[|taken| - |history|..]
  {
    HistoryIsLast(rounds, id);
  }

  // A new sample is the last one of its device's history; a device that was not
  // read keeps its history.
  lemma NewestIsLast(rounds: seq<Round>, round: Round, id: string)
    ensures var before := PointsOf(AfterRounds(map[], rounds), id);
            var after := PointsOf(AfterRounds(map[], rounds + [round]), id);
            if id in round then after != [] && after[|after| - 1] == round[id] else after == before
  {
    assert (rounds + [round])[..|rounds|] == rounds;
  }

  lemma {:induction false} HistoryIsLast(rounds: seq<Round>, id: string)
    ensures PointsOf(AfterRounds(map[], rounds), id) == Last(Taken(rounds, id), MAX_POINTS)
  {
    if rounds != [] {
      HistoryIsLast(rounds[..|rounds| - 1], id);
      var round := rounds[|rounds| - 1];
      if id in round {
        LastOfLast(Taken(rounds[..|rounds| - 1], id), round[id], MAX_POINTS);
      }
    }
  }

  lemma LastOfLast<T>(s: seq<T>, x: T, n: nat)
    ensures Last(Last(s, n) + [x], n) == Last(s + [x], n)
  {
  }

  // ---------- the recorder ----------

  // The values of the variables at `indices`, by name.
  function ValuesAt(specs: seq<VarSpec>, shown: seq<Value>, indices: seq<nat>): map<string, Value>
    requires |specs| == |shown|
    requires forall k | 0 <= k < |indices| :: indices[k] < |specs|
  {
    if indices == [] then map[]
    else
      var last := indices[|indices| - 1];
      ValuesAt(specs, shown, indices[..|indices| - 1])[specs[last].name := shown[last]]
  }

  function SampledValues(specs: seq<VarSpec>, shown: seq<Value>): map<string, Value>
    requires |specs| == |shown|
  {
    ValuesAt(specs, shown, Readable(specs, |specs|))
  }

  lemma {:induction false} ValuesAtHold(specs: seq<VarSpec>, shown: seq<Value>, indices: seq<nat>, i: nat)
    requires |specs| == |shown| && i < |specs| && NamesAgree(specs, shown)
    requires forall k | 0 <= k < |indices| :: indices[k] < |specs|
    requires i in indices
    ensures specs[i].name in ValuesAt(specs, shown, indices)
    ensures ValuesAt(specs, shown, indices)[specs[i].name] == shown[i]
  {
    var n := |indices| - 1;
    assert indices == indices[..n] + [indices[n]];
    if specs[i].name != specs[indices[n]].name {
      ValuesAtHold(specs, shown, indices[..n], i);
    }
  }

  lemma {:induction false} OnlyNames(specs: seq<VarSpec>, shown: seq<Value>, indices: seq<nat>, name: string)
    requires |specs| == |shown|
    requires forall k | 0 <= k < |indices| :: indices[k] < |specs|
    requires name in ValuesAt(specs, shown, indices)
    ensures exists k :: 0 <= k < |indices| && specs[indices[k]].name == name
  {
    var n := |indices| - 1;
    if specs[indices[n]].name != name {
      OnlyNames(specs, shown, indices[..n], name);
    }
  }

  // A sample holds exactly the variables that are not write-only, each under its
  // name with the value it shows.
  lemma SampleHoldsReadable(specs: seq<VarSpec>, shown: seq<Value>)
    requires |specs| == |shown| && NamesAgree(specs, shown)
    ensures var values := SampledValues(specs, shown);
            && (forall i | 0 <= i < |specs| && specs[i].mode != Mode.W ::
                  specs[i].name in values && values[specs[i].name] == shown[i])
            && (forall name | name in values ::
                  exists i :: 0 <= i < |specs| && specs[i].name == name && specs[i].mode != Mode.W)
  {
    var indices := Readable(specs, |specs|);
    forall i | 0 <= i < |specs| && specs[i].mode != Mode.W
      ensures specs[i].name in SampledValues(specs, shown) && SampledValues(specs, shown)[specs[i].name] == shown[i]
    {
      ValuesAtHold(specs, shown, indices, i);
    }
    forall name | name in SampledValues(specs, shown)
      ensures exists i :: 0 <= i < |specs| && specs[i].name == name && specs[i].mode != Mode.W
    {
      OnlyNames(specs, shown, indices, name);
    }
  }

  method ByName(values: seq<NetVar>, ghost specs: seq<VarSpec>, ghost shown: seq<Value>)
    returns (m: map<string, Value>)
    requires |specs| == |shown|
    requires ShowsReadable(values, specs, shown, |specs|)
    ensures m == SampledValues(specs, shown)
  {
    ghost var indices := Readable(specs, |specs|);
    m := map[];
    hide Readable, ValuesAt;
    NoValues(specs, shown, indices);
    for k := 0 to |values|
      invariant m == ValuesAt(specs, shown, indices[..k])
    {
      NextValue(specs, shown, indices, k);
      assert VarSpec(values[k].name, values[k].ctype, values[k].mode) == specs[indices[k]];
      m := m[values[k].name := values[k].value];
    }
    assert indices[..|values|] == indices;
  }

  lemma NoValues(specs: seq<VarSpec>, shown: seq<Value>, indices: seq<nat>)
    requires |specs| == |shown|
    ensures ValuesAt(specs, shown, indices[..0]) == map[]
  {
  }

  lemma NextValue(specs: seq<VarSpec>, shown: seq<Value>, indices: seq<nat>, k: nat)
    requires |specs| == |shown| && k < |indices|
    requires forall l | 0 <= l < |indices| :: indices[l] < |specs|
    ensures ValuesAt(specs, shown, indices[..k + 1]) ==
            ValuesAt(specs, shown, indices[..k])[specs[indices[k]].name := shown[indices[k]]]
  {
    assert indices[..k + 1][..k] == indices[..k];
  }

  // The round that the first `n` devices make: the samples of the reachable ones.
  function RoundOf(ids: seq<string>, samples: seq<Sample>, unreachable: set<string>, n: nat): (round: Round)
    requires n <= |ids| == |samples|
  {
    if n == 0 then map[]
    else
      var before := RoundOf(ids, samples, unreachable, n - 1);
      if ids[n - 1] in unreachable then before else before[ids[n - 1] := samples[n - 1]]
  }

  lemma {:induction false} NotInRound(
    ids: seq<string>, samples: seq<Sample>, unreachable: set<string>, n: nat, id: string)
    requires n <= |ids| == |samples| && forall k | 0 <= k < n :: ids[k] != id
    ensures id !in RoundOf(ids, samples, unreachable, n)
  {
    if n > 0 {
      NotInRound(ids, samples, unreachable, n - 1, id);
    }
  }

  // It holds the devices that are not unreachable, each with its own sample.
  lemma {:induction false} RoundHolds(
    ids: seq<string>, samples: seq<Sample>, unreachable: set<string>, n: nat, i: nat)
    requires i < n <= |ids| == |samples| && forall j, k | 0 <= j < k < |ids| :: ids[j] != ids[k]
    ensures var round := RoundOf(ids, samples, unreachable, n);
            && (forall id | id in round :: id in ids)
            && (ids[i] in round <==> ids[i] !in unreachable)
            && (ids[i] in round ==> round[ids[i]] == samples[i])
  {
    if n > 1 {
      RoundHolds(ids, samples, unreachable, n - 1, if i < n - 1 then i else 0);
      if i == n - 1 {
        NotInRound(ids, samples, unreachable, n - 1, ids[i]);
      }
    }
  }

  // The devices append one after the other.
  function Appended(points: Points, id: string, sample: Sample): Points {
    points[id := Last(PointsOf(points, id) + [sample], MAX_POINTS)]
  }

  function AfterDevices(points: Points, ids: seq<string>, samples: seq<Sample>, unreachable: set<string>, n: nat)
    : Points
    requires n <= |ids| == |samples|
  {
    if n == 0 then points
    else
      var before := AfterDevices(points, ids, samples, unreachable, n - 1);
      if ids[n - 1] in unreachable then before else Appended(before, ids[n - 1], samples[n - 1])
  }

  lemma NoDevices(points: Points, ids: seq<string>, samples: seq<Sample>, unreachable: set<string>)
    requires |ids| == |samples|
    ensures AfterDevices(points, ids, samples, unreachable, 0) == points
  {
  }

  lemma NextDevice(points: Points, ids: seq<string>, samples: seq<Sample>, unreachable: set<string>, n: nat)
    requires n < |ids| == |samples|
    ensures var before := AfterDevices(points, ids, samples, unreachable, n);
            AfterDevices(points, ids, samples, unreachable, n + 1) ==
            if ids[n] in unreachable then before else Appended(before, ids[n], samples[n])
  {
  }

  // One pass is one round: each reachable device gets its one new sample.
  lemma PassIsRound(points: Points, ids: seq<string>, samples: seq<Sample>, unreachable: set<string>)
    requires |ids| == |samples| && forall i, j | 0 <= i < j < |ids| :: ids[i] != ids[j]
    ensures AfterDevices(points, ids, samples, unreachable, |ids|) ==
            AfterRound(points, RoundOf(ids, samples, unreachable, |ids|))
  {
    var a := AfterDevices(points, ids, samples, unreachable, |ids|);
    var b := AfterRound(points, RoundOf(ids, samples, unreachable, |ids|));
    PassKeys(points, ids, samples, unreachable, |ids|);
    forall id | id in a
      ensures a[id] == b[id]
    {
      PassPoints(points, ids, samples, unreachable, |ids|, id);
      assert PointsOf(a, id) == a[id] && PointsOf(b, id) == b[id];
    }
  }

  lemma {:induction false} PassKeys(
    points: Points, ids: seq<string>, samples: seq<Sample>, unreachable: set<string>, n: nat)
    requires n <= |ids| == |samples|
    ensures AfterDevices(points, ids, samples, unreachable, n).Keys ==
            AfterRound(points, RoundOf(ids, samples, unreachable, n)).Keys
  {
    if n > 0 {
      PassKeys(points, ids, samples, unreachable, n - 1);
    }
  }

  lemma {:induction false} PassPoints(
    points: Points, ids: seq<string>, samples: seq<Sample>, unreachable: set<string>, n: nat, id: string)
    requires n <= |ids| == |samples| && forall i, j | 0 <= i < j < |ids| :: ids[i] != ids[j]
    ensures PointsOf(AfterDevices(points, ids, samples, unreachable, n), id) ==
            PointsOf(AfterRound(points, RoundOf(ids, samples, unreachable, n)), id)
  {
    hide Last, AfterRound;
    if n > 0 {
      PassPoints(points, ids, samples, unreachable, n - 1, id);
      if id == ids[n - 1] {
        NotInRound(ids, samples, unreachable, n - 1, id);
      }
    }
  }

  ghost function SamplesNow(service: DeviceService, times: seq<real>): (samples: seq<Sample>)
    requires service.Valid() && |times| == |service.ids|
    reads service.io
    ensures |samples| == |times|
    ensures forall i {:trigger samples[i]} | 0 <= i < |times| ::
              && service.ids[i] in service.runtimes && samples[i].t == times[i]
              && samples[i].values ==
                 SampledValues(service.Devices()[service.ids[i]], service.Shown()[service.ids[i]])
  {
    seq(|times|, i requires 0 <= i < |times| reads service.io =>
      assert service.ids[i] in service.runtimes;
      Sample(times[i], SampledValues(service.Devices()[service.ids[i]], service.Shown()[service.ids[i]])))
  }

  class Recorder {
    var points: Points

    constructor ()
      ensures points == map[]
    {
      points := map[];
    }

    // The sample joins the history of the device, which is there from its first
    // sample on; beyond the bound the oldest one falls out.
    method Append(id: string, sample: Sample)
      modifies this
      ensures points == Appended(old(points), id, sample)
      ensures var all := PointsOf(old(points), id) + [sample];
              points == old(points)[id := if |all| <= 900 then all else all[|all| - 900..]]
    {
      if id !in points {
        points := points[id := []];
      }
      var deque := points[id] + [sample];
      points := points[id := if |deque| > MAX_POINTS then deque[|deque| - MAX_POINTS..] else deque];
    }

    method SampleDevice(service: DeviceService, id: string, t: real)
      requires service.Valid() && id in service.runtimes
      modifies this, service.io
      ensures service.Shown() == old(service.Shown())
      ensures points ==
              Appended(old(points), id, Sample(t, SampledValues(service.Devices()[id], old(service.Shown())[id])))
    {
      hide SampledValues;
      var read := service.ReadValues(id);
      var values := ByName(read.value, service.Devices()[id], service.Shown()[id]);
      Append(id, Sample(t, values));
    }

    // Device number `i` of a pass; reading an unreachable one raises an OSError and
    // skips it. The clock gives `times[i]`.
    method SampleNext(service: DeviceService, devices: seq<Device>, unreachable: set<string>, times: seq<real>, i: nat,
                      ghost before: Points)
      requires service.Valid() && i < |service.ids| == |times| == |devices|
      requires service.ids[i] in service.runtimes && devices[i] == service.runtimes[service.ids[i]].device
      requires points == AfterDevices(before, service.ids, SamplesNow(service, times), unreachable, i)
      modifies this, service.io
      ensures service.Shown() == old(service.Shown())
      ensures SamplesNow(service, times) == old(SamplesNow(service, times))
      ensures points == AfterDevices(before, service.ids, SamplesNow(service, times), unreachable, i + 1)
    {
      hide SampledValues, Appended, AfterDevices, Last;
      NextDevice(before, service.ids, SamplesNow(service, times), unreachable, i);
      if devices[i].id !in unreachable {
        assert SamplesNow(service, times)[i].t == times[i];
        SampleDevice(service, devices[i].id, times[i]);
      }
    }

    // One pass over all devices.
    method RecordSnapshot(service: DeviceService, unreachable: set<string>, times: seq<real>)
      requires service.Valid() && |times| == |service.ids|
      modifies this, service.io
      ensures service.Shown() == old(service.Shown())
      ensures points == AfterRound(old(points), RoundOf(service.ids, old(SamplesNow(service, times)),
                                                        unreachable, |service.ids|))
    {
      hide SampledValues, Appended, AfterRound, RoundOf, AfterDevices, Last, SamplesNow, Wired;
      var devices := service.ListDevices();
      ghost var samples := SamplesNow(service, times);
      NoDevices(points, service.ids, samples, unreachable);
      for i := 0 to |devices|
        invariant service.Shown() == old(service.Shown())
        invariant SamplesNow(service, times) == samples
        invariant points == AfterDevices(old(points), service.ids, samples, unreachable, i)
      {
        assert service.ids[i] in service.ids;
        SampleNext(service, devices, unreachable, times, i, old(points));
      }
      PassIsRound(old(points), service.ids, samples, unreachable);
    }
  }
}
