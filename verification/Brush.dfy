// A brush selection kept in time while points are appended and dropped
// (web/tstlan-web/lib/chart-brush.ts, components/time-series-chart.tsx).
module Brush {
  import opened Wrappers
  import opened Sequences

  datatype TimeRange = TimeRange(startT: real, endT: real)

  // `times[i]` of JavaScript: undefined outside the array.
  function At(times: seq<real>, i: int): Option<real> {
    if 0 <= i < |times| then Some(times[i]) else None
  }

  function ToTimeRange(times: seq<real>, startIndex: Option<int>, endIndex: Option<int>): Option<TimeRange> {
    if startIndex.None? || endIndex.None? then None
    else if startIndex.value <= 0 && endIndex.value >= |times| - 1 then None
    else
      var startT := At(times, startIndex.value);
      var endT := At(times, endIndex.value);
      if startT.None? || endT.None? then None else Some(TimeRange(startT.value, endT.value))
  }

  // `i` is the result of the scan from the left for a time at or after `t`.
  ghost predicate FirstAtOrAfter(times: seq<real>, t: real, i: int) {
    if exists k :: 0 <= k < |times| && times[k] >= t then
      0 <= i < |times| && times[i] >= t && forall k | 0 <= k < i :: times[k] < t
    else i == if times == [] then 0 else |times| - 1
  }

  // ... and of the scan from the right for a time at or before `t`.
  ghost predicate LastAtOrBefore(times: seq<real>, t: real, i: int) {
    if exists k :: 0 <= k < |times| && times[k] <= t then
      0 <= i < |times| && times[i] <= t && forall k | i < k < |times| :: times[k] > t
    else i == 0
  }

  method FirstIndexAtOrAfter(times: seq<real>, t: real) returns (i: int)
    ensures FirstAtOrAfter(times, t, i)
  {
    for k := 0 to |times|
      invariant forall l | 0 <= l < k :: times[l] < t
    {
      if times[k] >= t {
        return k;
      }
    }
    return if |times| - 1 > 0 then |times| - 1 else 0;
  }

  method LastIndexAtOrBefore(times: seq<real>, t: real) returns (i: int)
    ensures LastAtOrBefore(times, t, i)
  {
    for k := |times| downto 0
      invariant forall l | k <= l < |times| :: times[l] > t
    {
      if times[k] <= t {
        return k;
      }
    }
    return 0;
  }

  // A partial selection survives the way to time and back, and as the chart
  // gains any newer points and loses its `k` oldest, it moves along with its
  // points, held at the left edge once they are gone.
  lemma SelectionFollowsPoints(times: seq<real>, newer: seq<real>, k: nat, i: nat, j: nat, first: int, last: int)
    requires Increasing(times + newer) && k < |times| + |newer|
    requires i <= j < |times| && !(i == 0 && j == |times| - 1)
    requires ToTimeRange(times, Some(i), Some(j)).Some?
    requires FirstAtOrAfter((times + newer)[k..], ToTimeRange(times, Some(i), Some(j)).value.startT, first)
    requires LastAtOrBefore((times + newer)[k..], ToTimeRange(times, Some(i), Some(j)).value.endT, last)
    ensures first == Max(0, i - k) && last == Max(0, j - k)
  {
    var all := times + newer;
    var now := all[k..];
    assert forall n | 0 <= n < |now| :: now[n] == all[n + k];
    assert all[i] == times[i] && all[j] == times[j];
    var f, l := Max(0, i - k), Max(0, j - k);
    assert now[f] == all[f + k] && now[f] >= times[i];
    if j >= k {
      assert now[l] == all[j];
    } else {
      assert forall n | 0 <= n < |now| :: now[n] > times[j];
    }
  }

  // A selection is partial exactly if it turns into a time range.
  lemma PartialSelections(times: seq<real>, i: nat, j: nat)
    requires i <= j < |times|
    ensures ToTimeRange(times, Some(i), Some(j)).Some? <==> !(i == 0 && j == |times| - 1)
  {
  }

  // Just when indices of any kind, missing or outside the chart, give a range, and
  // which one.
  lemma RangesExactly(times: seq<real>, startIndex: Option<int>, endIndex: Option<int>)
    ensures ToTimeRange(times, startIndex, endIndex).Some? <==>
            && startIndex.Some? && endIndex.Some?
            && 0 <= startIndex.value < |times| && 0 <= endIndex.value < |times|
            && !(startIndex.value == 0 && endIndex.value == |times| - 1)
    ensures ToTimeRange(times, startIndex, endIndex).Some? ==>
              ToTimeRange(times, startIndex, endIndex).value ==
              TimeRange(times[startIndex.value], times[endIndex.value])
  {
  }

  // The rows inside the range; all of them if there are none.
  function Within(times: seq<real>, range: TimeRange): seq<real> {
    if times == [] then []
    else
      var n := |times| - 1;
      var before := Within(times[..n], range);
      if range.startT <= times[n] <= range.endT then before + [times[n]] else before
  }

  function Visible(times: seq<real>, range: Option<TimeRange>): seq<real> {
    if range.None? then times
    else
      var within := Within(times, range.value);
      if |within| > 0 then within else times
  }

  lemma {:induction false} WithinIsSlice(times: seq<real>, range: TimeRange, f: nat, l: nat)
    requires Increasing(times) && f <= l <= |times|
    requires forall n | 0 <= n < |times| :: range.startT <= times[n] <= range.endT <==> f <= n < l
    ensures Within(times, range) == times[f..l]
  {
    if times != [] {
      var n := |times| - 1;
      var inner := if l > n then n else l;
      if f > n {
        WithinIsSlice(times[..n], range, n, n);
      } else {
        WithinIsSlice(times[..n], range, f, inner);
      }
    }
  }

  // While a partial selection has points left, the rows shown are exactly the slice
  // that was selected, less what was dropped; afterwards, and where the whole chart
  // is selected, all rows are shown.
  lemma VisibleIsSelection(times: seq<real>, newer: seq<real>, k: nat, i: nat, j: nat)
    requires Increasing(times + newer) && k < |times| + |newer|
    requires i <= j < |times|
    ensures Visible((times + newer)[k..], ToTimeRange(times, Some(i), Some(j))) ==
            if j >= k && !(i == 0 && j == |times| - 1) then (times + newer)[Max(i, k)..j + 1] else (times + newer)[k..]
  {
    hide Increasing, Visible;
    var all := times + newer;
    RangesExactly(times, Some(i), Some(j));
    var range := ToTimeRange(times, Some(i), Some(j));
    if range.Some? {
      assert range.value == TimeRange(all[i], all[j]);
      SelectedVisible(all, k, i, j, range.value);
    } else {
      AllVisible(all[k..]);
    }
  }

  lemma AllVisible(times: seq<real>)
    ensures Visible(times, None) == times
  {
  }

  lemma SelectedVisible(all: seq<real>, k: nat, i: nat, j: nat, range: TimeRange)
    requires Increasing(all) && k < |all| && i <= j < |all| && range == TimeRange(all[i], all[j])
    ensures Visible(all[k..], Some(range)) == if j >= k then all[Max(i, k)..j + 1] else all[k..]
  {
    hide Increasing;
    var f, l := Max(0, i - k), Max(0, j + 1 - k);
    DroppedWithin(all, k, i, j, range);
    WithinIsSlice(all[k..], range, f, l);
    SliceOfDrop(all, k, f, l);
  }

  lemma DroppedWithin(all: seq<real>, k: nat, i: nat, j: nat, range: TimeRange)
    requires Increasing(all) && k < |all| && i <= j < |all| && range == TimeRange(all[i], all[j])
    ensures forall n | 0 <= n < |all[k..]| ::
              range.startT <= all[k..][n] <= range.endT <==> Max(0, i - k) <= n < Max(0, j + 1 - k)
    ensures Increasing(all[k..])
  {
    forall n | 0 <= n < |all[k..]|
      ensures range.startT <= all[k..][n] <= range.endT <==> Max(0, i - k) <= n < Max(0, j + 1 - k)
    {
      assert all[k..][n] == all[n + k];
    }
  }

  lemma SliceOfDrop(s: seq<real>, k: nat, f: nat, l: nat)
    requires f <= l && l + k <= |s|
    ensures s[k..][f..l] == s[f + k..l + k]
  {
  }
}
