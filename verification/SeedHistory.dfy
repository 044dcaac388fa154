// The client's charts: server history put under the live points, and the live
// append (web/tstlan-web/lib/history.ts, components/device-monitor.tsx).
module SeedHistory {

  datatype Sample = Sample(t: real, v: real)

  datatype HistoryPoint = HistoryPoint(t: real, values: map<string, real>)

  datatype NamedValue = NamedValue(name: string, value: real)

  type Series = map<string, seq<Sample>>

  // Array.prototype.slice(-n): slice(-0) is the whole array.
  function Tail(s: seq<Sample>, n: nat): seq<Sample> {
    if 0 < n < |s| then s[|s| - n..] else s
  }

  // The last `n` points.
  function LastOnes(s: seq<Sample>, n: nat): seq<Sample> {
    if |s| <= n then s else s[|s| - n..]
  }

  function SeriesOf(series: Series, name: string): seq<Sample> {
    if name in series then series[name] else []
  }

  // ---------- one series ----------

  // The samples before the first live one; all of them if there is none.
  function Older(samples: seq<Sample>, live: seq<Sample>): seq<Sample> {
    if samples == [] then []
    else
      var n := |samples| - 1;
      var before := Older(samples[..n], live);
      if live == [] || samples[n].t < live[0].t then before + [samples[n]] else before
  }

  function Seeded(live: seq<Sample>, samples: seq<Sample>, maxPoints: nat): seq<Sample> {
    Tail(Older(samples, live) + live, maxPoints)
  }

  function Appended(live: seq<Sample>, sample: Sample, maxPoints: nat): seq<Sample> {
    Tail(live + [sample], maxPoints)
  }

  predicate Ordered(s: seq<Sample>) {
    forall i, j | 0 <= i < j < |s| :: s[i].t <= s[j].t
  }

  predicate EndsWith(s: seq<Sample>, end: seq<Sample>) {
    |end| <= |s| && s[|s| - |end|..] == end
  }

  // The first `n` samples are before the first live one, and no others.
  predicate Cut(samples: seq<Sample>, live: seq<Sample>, n: nat) {
    && n <= |samples|
    && (forall k | 0 <= k < n :: live == [] || samples[k].t < live[0].t)
    && (forall k | n <= k < |samples| :: live != [] && samples[k].t >= live[0].t)
  }

  // Of an ordered list, the older samples are a beginning.
  lemma {:induction false} OlderIsPrefix(samples: seq<Sample>, live: seq<Sample>)
    requires Ordered(samples)
    ensures var n := |Older(samples, live)|;
            Cut(samples, live, n) && Older(samples, live) == samples[..n]
  {
    if samples != [] {
      var last := |samples| - 1;
      var before := samples[..last];
      OlderIsPrefix(before, live);
      var m := |Older(before, live)|;
      assert before[..m] == samples[..m];
      CutGrows(samples, live, m);
    }
  }

  lemma CutGrows(samples: seq<Sample>, live: seq<Sample>, m: nat)
    requires samples != [] && Ordered(samples) && Cut(samples[..|samples| - 1], live, m)
    ensures var last := |samples| - 1;
            if live == [] || samples[last].t < live[0].t then m == last && Cut(samples, live, last + 1)
            else Cut(samples, live, m)
  {
    var last := |samples| - 1;
    assert forall k | 0 <= k < last :: samples[..last][k] == samples[k];
    if m < last {
      assert samples[..last][m] == samples[m] && samples[m].t <= samples[last].t;
    }
  }

  lemma {:induction false} NoneOlder(samples: seq<Sample>, live: seq<Sample>)
    requires live != [] && forall k | 0 <= k < |samples| :: samples[k].t >= live[0].t
    ensures Older(samples, live) == []
  {
    if samples != [] {
      NoneOlder(samples[..|samples| - 1], live);
    }
  }

  // Seeding gives an ordered series within the limit that still ends with all
  // the live points.
  lemma SeedingIsOrdered(live: seq<Sample>, samples: seq<Sample>, maxPoints: nat)
    requires maxPoints > 0 && Ordered(samples) && Ordered(live) && |live| <= maxPoints
    ensures Ordered(Seeded(live, samples, maxPoints))
    ensures |Seeded(live, samples, maxPoints)| <= maxPoints
    ensures EndsWith(Seeded(live, samples, maxPoints), live)
  {
    OlderIsPrefix(samples, live);
    assert Ordered(Older(samples, live) + live);
  }

  lemma SeedingTwice(live: seq<Sample>, samples: seq<Sample>, maxPoints: nat)
    requires maxPoints > 0 && Ordered(samples) && |live| <= maxPoints
    ensures var once := Seeded(live, samples, maxPoints);
            Seeded(once, samples, maxPoints) == once
  {
    OlderIsPrefix(samples, live);
    var once := Seeded(live, samples, maxPoints);
    if |once| < maxPoints {
      if once != [] {
        NoneOlder(samples, once);
      }
    } else {
      FullTail(Older(samples, once), once, maxPoints);
    }
  }

  lemma FullTail(more: seq<Sample>, s: seq<Sample>, n: nat)
    requires n > 0 && |s| == n
    ensures Tail(more + s, n) == s
  {
  }

  // Seeding and appending a live point may be done in either order if and only
  // if there already are live points, or the limit is a single point, or the
  // new point is later than all that is seeded.
  predicate AnyOrder(live: seq<Sample>, samples: seq<Sample>, sample: Sample, maxPoints: nat) {
    live != [] || maxPoints == 1 || forall k | 0 <= k < |samples| :: samples[k].t < sample.t
  }

  lemma SeedAndAppendCommute(live: seq<Sample>, samples: seq<Sample>, sample: Sample, maxPoints: nat)
    requires maxPoints > 0 && Ordered(samples) && |live| <= maxPoints
    ensures Appended(Seeded(live, samples, maxPoints), sample, maxPoints) ==
            Seeded(Appended(live, sample, maxPoints), samples, maxPoints)
            <==> AnyOrder(live, samples, sample, maxPoints)
  {
    if live != [] {
      CommuteWhenLive(live, samples, sample, maxPoints);
    } else {
      CommuteWhenEmpty(samples, sample, maxPoints);
    }
  }

  lemma CommuteWhenLive(live: seq<Sample>, samples: seq<Sample>, sample: Sample, maxPoints: nat)
    requires live != [] && |live| <= maxPoints
    ensures Appended(Seeded(live, samples, maxPoints), sample, maxPoints) ==
            Seeded(Appended(live, sample, maxPoints), samples, maxPoints)
  {
    var longer := live + [sample];
    if |live| == maxPoints {
      FullTail(Older(samples, live), live, maxPoints);
      FullTail(Older(samples, Tail(longer, maxPoints)), Tail(longer, maxPoints), maxPoints);
    } else {
      SameFirstSameOlder(samples, live, longer);
      var older := Older(samples, live);
      assert older + longer == (older + live) + [sample];
      TailOfTail(older + live, sample, maxPoints);
    }
  }

  lemma {:induction false} SameFirstSameOlder(samples: seq<Sample>, a: seq<Sample>, b: seq<Sample>)
    requires a != [] && b != [] && a[0] == b[0]
    ensures Older(samples, a) == Older(samples, b)
  {
    if samples != [] {
      SameFirstSameOlder(samples[..|samples| - 1], a, b);
    }
  }

  lemma TailOfTail(s: seq<Sample>, sample: Sample, n: nat)
    requires n > 0
    ensures Tail(Tail(s, n) + [sample], n) == Tail(s + [sample], n)
  {
  }

  lemma CommuteWhenEmpty(samples: seq<Sample>, sample: Sample, maxPoints: nat)
    requires maxPoints > 0 && Ordered(samples)
    ensures Appended(Seeded([], samples, maxPoints), sample, maxPoints) ==
            Seeded(Appended([], sample, maxPoints), samples, maxPoints)
            <==> AnyOrder([], samples, sample, maxPoints)
  {
    EmptySeeds(samples, sample, maxPoints);
    OlderIsPrefix(samples, [sample]);
    var older := Older(samples, [sample]);
    hide Ordered, Older, Tail, Appended, Seeded;
    if |older| == |samples| {
      assert older == samples;
    } else if maxPoints > 1 {
      assert samples[|older|].t >= sample.t;
      LastIsNotOlder(samples, |older|, sample);
      LastButOneDiffers(samples, older, sample, maxPoints);
    } else {
      OneIsLeft(samples, sample);
      OneIsLeft(older, sample);
    }
  }

  lemma EmptySeeds(samples: seq<Sample>, sample: Sample, maxPoints: nat)
    requires maxPoints > 0 && Ordered(samples)
    ensures Appended(Seeded([], samples, maxPoints), sample, maxPoints) == Tail(samples + [sample], maxPoints)
    ensures Seeded(Appended([], sample, maxPoints), samples, maxPoints) ==
            Tail(Older(samples, [sample]) + [sample], maxPoints)
  {
    OlderIsPrefix(samples, []);
    assert samples + [] == samples;
    assert [] + [sample] == [sample];
    TailOfTail(samples, sample, maxPoints);
  }

  lemma OneIsLeft(s: seq<Sample>, sample: Sample)
    ensures Tail(s + [sample], 1) == [sample]
  {
  }

  lemma LastIsNotOlder(samples: seq<Sample>, n: nat, sample: Sample)
    requires Ordered(samples) && n < |samples| && samples[n].t >= sample.t
    ensures samples[|samples| - 1].t >= sample.t
  {
  }

  lemma LastButOneDiffers(samples: seq<Sample>, older: seq<Sample>, sample: Sample, n: nat)
    requires n > 1 && |older| < |samples| && samples[|samples| - 1].t >= sample.t
    requires forall k | 0 <= k < |older| :: older[k].t < sample.t
    ensures Tail(samples + [sample], n) != Tail(older + [sample], n)
  {
    var all, kept := Tail(samples + [sample], n), Tail(older + [sample], n);
    assert |all| >= 2 && all[|all| - 2] == samples[|samples| - 1];
    if |kept| > 1 {
      assert kept[|kept| - 2] == older[|older| - 1];
    }
  }

  // The condition is needed: a first live point at the time of the last sample of
  // the history replaces it in one order and follows it in the other.
  lemma SameTimeSeam(maxPoints: nat, first: real, second: real)
    requires maxPoints > 1
    ensures var samples, sample := [Sample(2.0, first)], Sample(2.0, second);
            && Appended(Seeded([], samples, maxPoints), sample, maxPoints) == [Sample(2.0, first), sample]
            && Seeded(Appended([], sample, maxPoints), samples, maxPoints) == [sample]
  {
    var samples, sample := [Sample(2.0, first)], Sample(2.0, second);
    assert samples[..0] == [];
    assert Older(samples, []) == samples;
    assert Older(samples, [sample]) == [];
    assert [] + [sample] == [sample];
  }

  // Older keeps the samples before the first live one, whatever their order.
  lemma {:induction false} OlderHolds(samples: seq<Sample>, live: seq<Sample>, s: Sample)
    ensures s in Older(samples, live) <==> s in samples && (live == [] || s.t < live[0].t)
  {
    if samples != [] {
      var n := |samples| - 1;
      OlderHolds(samples[..n], live, s);
      assert samples == samples[..n] + [samples[n]];
    }
  }

  // ---------- all series ----------

  function Names(points: seq<HistoryPoint>): set<string> {
    set k, name | 0 <= k < |points| && name in points[k].values :: name
  }

  // The samples of one variable, in the order of the points.
  function Collected(points: seq<HistoryPoint>, name: string): seq<Sample> {
    if points == [] then []
    else
      var n := |points| - 1;
      var before := Collected(points[..n], name);
      if name in points[n].values then before + [Sample(points[n].t, points[n].values[name])] else before
  }

  // A sample is collected for each point that names the variable, of its time and
  // value, and for no other.
  lemma {:induction false} CollectedExactly(points: seq<HistoryPoint>, name: string, s: Sample)
    ensures s in Collected(points, name) <==> exists k :: 0 <= k < |points| && Gives(points[k], name, s)
  {
    if points != [] {
      var n := |points| - 1;
      CollectedExactly(points[..n], name, s);
      if k :| 0 <= k < n && Gives(points[..n][k], name, s) {
        assert points[k] == points[..n][k];
      }
      if k :| 0 <= k < n && Gives(points[k], name, s) {
        assert points[k] == points[..n][k];
      }
    }
  }

  predicate Gives(point: HistoryPoint, name: string, s: Sample) {
    name in point.values && s.t == point.t && s.v == point.values[name]
  }

  ghost function Naming(points: seq<HistoryPoint>, name: string): set<int> {
    set k | 0 <= k < |points| && name in points[k].values
  }

  lemma {:induction false} CollectedOnce(points: seq<HistoryPoint>, name: string)
    ensures |Collected(points, name)| == |Naming(points, name)|
  {
    if points != [] {
      var n := |points| - 1;
      CollectedOnce(points[..n], name);
      assert Naming(points, name) == Naming(points[..n], name) + if name in points[n].values then {n} else {};
    }
  }

  function SeededAll(prev: Series, points: seq<HistoryPoint>, maxPoints: nat): Series {
    map name | name in prev.Keys + Names(points) ::
      if name in Names(points) then Seeded(SeriesOf(prev, name), Collected(points, name), maxPoints) else prev[name]
  }

  // In one series: of the samples of the history those before the first live point,
  // then all live points, and of these the last `maxPoints`. Series the history does
  // not name stay.
  lemma SeedOne(prev: Series, points: seq<HistoryPoint>, maxPoints: nat, name: string)
    requires maxPoints > 0 && PointsOrdered(points)
    ensures var after := SeededAll(prev, points, maxPoints);
            var samples, live := Collected(points, name), SeriesOf(prev, name);
            && (name in after <==> name in prev || name in Names(points))
            && (name !in Names(points) ==> SeriesOf(after, name) == live)
            && (name in Names(points) ==> IsSeeded(samples, live, maxPoints, SeriesOf(after, name)))
  {
    CollectedOrdered(points, name);
    SeededIs(SeriesOf(prev, name), Collected(points, name), maxPoints);
  }

  // The samples before the first live one, then all live ones; of these the last
  // `maxPoints`.
  ghost predicate IsSeeded(samples: seq<Sample>, live: seq<Sample>, maxPoints: nat, after: seq<Sample>) {
    exists n: nat :: Cut(samples, live, n) && after == LastOnes(samples[..n] + live, maxPoints)
  }

  lemma SeededIs(live: seq<Sample>, samples: seq<Sample>, maxPoints: nat)
    requires maxPoints > 0 && Ordered(samples)
    ensures IsSeeded(samples, live, maxPoints, Seeded(live, samples, maxPoints))
  {
    OlderIsPrefix(samples, live);
    assert Cut(samples, live, |Older(samples, live)|);
  }

  method CollectPoint(byName: Series, point: HistoryPoint) returns (r: Series)
    ensures r.Keys == byName.Keys + point.values.Keys
    ensures forall name | name in r ::
              r[name] == if name in point.values then SeriesOf(byName, name) + [Sample(point.t, point.values[name])]
                         else byName[name]
  {
    r := byName;
    var left := point.values.Keys;
    while left != {}
      invariant left <= point.values.Keys
      invariant r.Keys == byName.Keys + (point.values.Keys - left)
      invariant forall name | name in r ::
                  r[name] == if name in point.values && name !in left
                             then SeriesOf(byName, name) + [Sample(point.t, point.values[name])]
                             else byName[name]
      decreases left
    {
      var name :| name in left;
      if name !in r {
        r := r[name := []];
      }
      r := r[name := r[name] + [Sample(point.t, point.values[name])]];
      left := left - {name};
    }
  }

  method CollectAll(points: seq<HistoryPoint>) returns (byName: Series)
    ensures byName.Keys == Names(points)
    ensures forall name | name in byName :: byName[name] == Collected(points, name)
  {
    byName := map[];
    for i := 0 to |points|
      invariant byName.Keys == Names(points[..i])
      invariant forall name | name in byName :: byName[name] == Collected(points[..i], name)
    {
      NamesOfMore(points, i);
      forall name | name !in byName
        ensures Collected(points[..i], name) == []
      {
        CollectedOutside(points[..i], name);
      }
      byName := CollectPoint(byName, points[i]);
    }
    assert points[..|points|] == points;
  }

  method SeedAll(prev: Series, points: seq<HistoryPoint>, maxPoints: nat) returns (next: Series)
    ensures next == SeededAll(prev, points, maxPoints)
  {
    hide Collected, Names, Tail, Older;
    var byName := CollectAll(points);
    next := prev;
    var left := byName.Keys;
    while left != {}
      invariant left <= byName.Keys
      invariant next.Keys == prev.Keys + (byName.Keys - left)
      invariant forall name | name in next ::
                  next[name] == if name in byName && name !in left
                                then Seeded(SeriesOf(prev, name), byName[name], maxPoints)
                                else prev[name]
      decreases left
    {
      var name :| name in left;
      var live := if name in next then next[name] else [];
      var samples := byName[name];
      next := next[name := Tail(Older(samples, live) + live, maxPoints)];
      left := left - {name};
    }
  }

  lemma NamesOfMore(points: seq<HistoryPoint>, i: nat)
    requires i < |points|
    ensures Names(points[..i + 1]) == Names(points[..i]) + points[i].values.Keys
    ensures points[..i + 1][..i] == points[..i]
  {
    forall name | name in points[i].values
      ensures name in Names(points[..i + 1])
    {
      assert points[..i + 1][i] == points[i];
    }
    forall name | name in Names(points[..i])
      ensures name in Names(points[..i + 1])
    {
      var k :| 0 <= k < i && name in points[..i][k].values;
      assert points[..i + 1][k] == points[..i][k];
    }
  }

  lemma {:induction false} CollectedOutside(points: seq<HistoryPoint>, name: string)
    requires name !in Names(points)
    ensures Collected(points, name) == []
  {
    if points != [] {
      var n := |points| - 1;
      NamesOfMore(points, n);
      assert points[..n + 1] == points;
      CollectedOutside(points[..n], name);
    }
  }

  // Each variable of the snapshot appends one point to its series, which keeps the
  // last `maxPoints`.
  function AppendedAll(series: Series, snapshot: seq<NamedValue>, t: real, maxPoints: nat): Series {
    if snapshot == [] then series
    else
      var last := snapshot[|snapshot| - 1];
      var before := AppendedAll(series, snapshot[..|snapshot| - 1], t, maxPoints);
      before[last.name := Appended(SeriesOf(before, last.name), Sample(t, last.value), maxPoints)]
  }

  method AppendAll(prev: Series, snapshot: seq<NamedValue>, t: real, maxPoints: nat) returns (next: Series)
    ensures next == AppendedAll(prev, snapshot, t, maxPoints)
  {
    next := prev;
    for i := 0 to |snapshot|
      invariant next == AppendedAll(prev, snapshot[..i], t, maxPoints)
    {
      assert snapshot[..i + 1][..i] == snapshot[..i];
      var v := snapshot[i];
      var live := if v.name in next then next[v.name] else [];
      next := next[v.name := Tail(live + [Sample(t, v.value)], maxPoints)];
    }
    assert snapshot[..|snapshot|] == snapshot;
  }

  predicate NamedOnce(snapshot: seq<NamedValue>) {
    forall i, j | 0 <= i < j < |snapshot| :: snapshot[i].name != snapshot[j].name
  }

  predicate InSnapshot(snapshot: seq<NamedValue>, name: string) {
    exists i :: 0 <= i < |snapshot| && snapshot[i].name == name
  }

  // The point a snapshot adds to a variable's series.
  function NewPoint(snapshot: seq<NamedValue>, t: real, name: string): Sample
    requires InSnapshot(snapshot, name)
  {
    var n := |snapshot| - 1;
    if snapshot[n].name == name then Sample(t, snapshot[n].value) else NewPoint(snapshot[..n], t, name)
  }

  // A snapshot names each variable once, so its series gets exactly one point.
  lemma {:induction false} AppendOne(series: Series, snapshot: seq<NamedValue>, t: real, maxPoints: nat, name: string)
    requires NamedOnce(snapshot)
    ensures var after := AppendedAll(series, snapshot, t, maxPoints);
            && (name in after <==> name in series || InSnapshot(snapshot, name))
            && SeriesOf(after, name) ==
               if InSnapshot(snapshot, name)
               then Appended(SeriesOf(series, name), NewPoint(snapshot, t, name), maxPoints)
               else SeriesOf(series, name)
  {
    if snapshot != [] {
      var n := |snapshot| - 1;
      AppendOne(series, snapshot[..n], t, maxPoints, name);
      if snapshot[n].name == name {
        assert !InSnapshot(snapshot[..n], name);
        assert InSnapshot(snapshot, name);
      } else if InSnapshot(snapshot, name) {
        var i :| 0 <= i < |snapshot| && snapshot[i].name == name;
        assert snapshot[..n][i] == snapshot[i];
      }
    }
  }

  // That point has the time of the snapshot and the variable's value in it; the
  // series keeps the last `maxPoints`.
  lemma SnapshotAppends(series: Series, snapshot: seq<NamedValue>, t: real, maxPoints: nat, i: nat)
    requires maxPoints > 0 && NamedOnce(snapshot) && i < |snapshot|
    ensures var after := AppendedAll(series, snapshot, t, maxPoints);
            var all := SeriesOf(series, snapshot[i].name) + [Sample(t, snapshot[i].value)];
            SeriesOf(after, snapshot[i].name) == LastOnes(all, maxPoints)
  {
    AppendOne(series, snapshot, t, maxPoints, snapshot[i].name);
    NewPointIs(snapshot, t, i);
  }

  lemma {:induction false} NewPointIs(snapshot: seq<NamedValue>, t: real, i: nat)
    requires NamedOnce(snapshot) && i < |snapshot|
    ensures InSnapshot(snapshot, snapshot[i].name)
    ensures NewPoint(snapshot, t, snapshot[i].name) == Sample(t, snapshot[i].value)
  {
    var n := |snapshot| - 1;
    if i < n {
      assert snapshot[..n][i] == snapshot[i];
      NewPointIs(snapshot[..n], t, i);
    }
  }

  // Whether the history arrives before or after a live snapshot makes no
  // difference to the charts if and only if it makes none to any variable that
  // is in both.
  lemma SeedAndAppendAllCommute(
    prev: Series, points: seq<HistoryPoint>, snapshot: seq<NamedValue>, t: real, maxPoints: nat)
    requires maxPoints > 0 && NamedOnce(snapshot)
    requires forall name | name in prev :: |prev[name]| <= maxPoints
    requires PointsOrdered(points)
    ensures AppendedAll(SeededAll(prev, points, maxPoints), snapshot, t, maxPoints) ==
            SeededAll(AppendedAll(prev, snapshot, t, maxPoints), points, maxPoints)
            <==> forall name | name in Names(points) && InSnapshot(snapshot, name) ::
                   AnyOrder(SeriesOf(prev, name), Collected(points, name), NewPoint(snapshot, t, name), maxPoints)
  {
    hide InSnapshot, NewPoint, AppendedAll, SeededAll, Collected, Names, AnyOrder, PointsOrdered;
    var left := AppendedAll(SeededAll(prev, points, maxPoints), snapshot, t, maxPoints);
    var right := SeededAll(AppendedAll(prev, snapshot, t, maxPoints), points, maxPoints);
    forall name
      ensures name in left <==> name in right
      ensures SeriesOf(left, name) == SeriesOf(right, name) <==>
              (name in Names(points) && InSnapshot(snapshot, name) ==>
                 AnyOrder(SeriesOf(prev, name), Collected(points, name), NewPoint(snapshot, t, name), maxPoints))
    {
      OneCommutes(prev, points, snapshot, t, maxPoints, name);
    }
    SameSeries(left, right);
  }

  lemma SameSeries(a: Series, b: Series)
    ensures a == b <==> forall name :: (name in a <==> name in b) && SeriesOf(a, name) == SeriesOf(b, name)
  {
    if forall name :: (name in a <==> name in b) && SeriesOf(a, name) == SeriesOf(b, name) {
      assert a.Keys == b.Keys;
      forall name | name in a
        ensures a[name] == b[name]
      {
        assert SeriesOf(a, name) == SeriesOf(b, name);
      }
    }
  }

  lemma OneCommutes(
    prev: Series, points: seq<HistoryPoint>, snapshot: seq<NamedValue>, t: real, maxPoints: nat, name: string)
    requires maxPoints > 0 && NamedOnce(snapshot)
    requires forall other | other in prev :: |prev[other]| <= maxPoints
    requires PointsOrdered(points)
    ensures var left := AppendedAll(SeededAll(prev, points, maxPoints), snapshot, t, maxPoints);
            var right := SeededAll(AppendedAll(prev, snapshot, t, maxPoints), points, maxPoints);
            && (name in left <==> name in right)
            && (SeriesOf(left, name) == SeriesOf(right, name) <==>
                (name in Names(points) && InSnapshot(snapshot, name) ==>
                   AnyOrder(SeriesOf(prev, name), Collected(points, name), NewPoint(snapshot, t, name), maxPoints)))
  {
    AppendOne(SeededAll(prev, points, maxPoints), snapshot, t, maxPoints, name);
    AppendOne(prev, snapshot, t, maxPoints, name);
    CollectedOrdered(points, name);
    hide InSnapshot, NewPoint, AppendedAll, Collected, Names, AnyOrder, Appended, Seeded;
    if InSnapshot(snapshot, name) {
      SeedAndAppendCommute(SeriesOf(prev, name), Collected(points, name), NewPoint(snapshot, t, name), maxPoints);
    }
  }

  predicate PointsOrdered(points: seq<HistoryPoint>) {
    forall i, j | 0 <= i < j < |points| :: points[i].t <= points[j].t
  }

  lemma {:induction false} CollectedOrdered(points: seq<HistoryPoint>, name: string)
    requires PointsOrdered(points)
    ensures Ordered(Collected(points, name))
    ensures forall k | 0 <= k < |Collected(points, name)| :: Collected(points, name)[k].t <= points[|points| - 1].t
  {
    if points != [] {
      var n := |points| - 1;
      CollectedOrdered(points[..n], name);
      if n > 0 {
        assert points[n - 1].t <= points[n].t;
      }
    }
  }

  // Seeding twice with the same history changes nothing the second time.
  lemma SeedAllTwice(prev: Series, points: seq<HistoryPoint>, maxPoints: nat)
    requires maxPoints > 0 && PointsOrdered(points)
    requires forall name | name in prev :: |prev[name]| <= maxPoints
    ensures SeededAll(SeededAll(prev, points, maxPoints), points, maxPoints) == SeededAll(prev, points, maxPoints)
  {
    var once := SeededAll(prev, points, maxPoints);
    forall name | name in Names(points)
      ensures Seeded(once[name], Collected(points, name), maxPoints) == once[name]
    {
      CollectedOrdered(points, name);
      SeedingTwice(SeriesOf(prev, name), Collected(points, name), maxPoints);
    }
  }
}
