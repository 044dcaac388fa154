// Time ticks of a chart (web/tstlan-web/lib/chart-grid.ts), on integer
// milliseconds.
module TimeGrid {
  import opened Division

  const STEPS: seq<int> := [
    1000, 2000, 5000, 10000, 15000, 30000, 60000, 120000, 300000, 600000, 900000,
    1800000, 3600000, 7200000, 10800000, 21600000, 43200000, 86400000]

  const DAY := 86400000

  // candidate >= span / target, in whole numbers
  predicate AtLeastRough(candidate: int, span: int, target: nat) {
    candidate * target >= span
  }

  // `step` is the first rung that is wide enough, or the last one.
  ghost predicate IsStep(step: int, span: int, target: nat) {
    exists k :: 0 <= k < |STEPS| && STEPS[k] == step
      && (AtLeastRough(step, span, target) || k == |STEPS| - 1)
      && forall j | 0 <= j < k :: !AtLeastRough(STEPS[j], span, target)
  }

  method ChooseStep(span: int, target: nat) returns (step: int)
    ensures IsStep(step, span, target)
    ensures step > 0
  {
    StepsArePositive();
    for i := 0 to |STEPS|
      invariant forall j | 0 <= j < i :: !AtLeastRough(STEPS[j], span, target)
    {
      if AtLeastRough(STEPS[i], span, target) {
        return STEPS[i];
      }
    }
    step := STEPS[|STEPS| - 1];
    assert STEPS[|STEPS| - 1] == step;
  }

  lemma StepsArePositive()
    ensures forall k | 0 <= k < |STEPS| :: 1000 <= STEPS[k] <= DAY
    ensures STEPS[0] == 1000 && STEPS[|STEPS| - 1] == DAY
  {
  }

  // Each rung is at most two and a half times the one before.
  lemma LadderRatio(k: nat)
    requires 0 < k < |STEPS|
    ensures 2 * STEPS[k] <= 5 * STEPS[k - 1]
  {
  }

  // Math.ceil(a / b)
  function CeilDiv(a: int, b: int): (q: int)
    requires b > 0
    ensures (q - 1) * b < a <= q * b
  {
    -((-a) / b)
  }

  // `t` lies on the grid: a multiple of `step`, shifted by the time zone.
  ghost predicate OnGrid(t: int, step: int, tzOffset: int) {
    exists q: int :: t == q * step + tzOffset
  }

  method NiceTimeTicks(min: int, max: int, target: nat, tzOffsetMinutes: int)
    returns (ticks: seq<int>, secondsGrid: bool, ghost step: int)
    ensures max <= min ==> ticks == [min] && secondsGrid
    ensures max > min ==>
              && step > 0 && IsStep(step, max - min, target) && (secondsGrid <==> step < 60000)
              && (forall t :: t in ticks <==> min <= t <= max && OnGrid(t, step, tzOffsetMinutes * 60000))
              && (forall k | 0 < k < |ticks| :: ticks[k] == ticks[k - 1] + step)
              && (max - min) / step <= |ticks| <= (max - min) / step + 1
  {
    var span := max - min;
    if !(span > 0) {
      step := 0;
      return [min], true, step;
    }
    var chosen := ChooseStep(span, target);
    step := chosen;
    var tzOffset := tzOffsetMinutes * 60000;
    ghost var q;
    ticks, q := PushTicks(min, max, chosen, tzOffset);
    TicksAreGrid(ticks, min, max, chosen, tzOffset, q);
    TickCount(ticks, min, max, chosen, tzOffset, q);
    return ticks, chosen < 60000, step;
  }

  // The for loop that pushes the ticks.
  method PushTicks(min: int, max: int, step: int, tzOffset: int) returns (ticks: seq<int>, ghost q: int)
    requires step > 0
    ensures Multiples(ticks, min, max, step, tzOffset, q)
  {
    var first := CeilDiv(min - tzOffset, step) * step + tzOffset;
    q := CeilDiv(min - tzOffset, step);
    ticks := [];
    var t := first;
    while t <= max
      invariant t == (q + |ticks|) * step + tzOffset
      invariant forall k | 0 <= k < |ticks| :: ticks[k] == (q + k) * step + tzOffset
      invariant ticks != [] ==> t - step <= max
      decreases max - t
    {
      ticks := ticks + [t];
      NextMultiple(q + |ticks| - 1, step);
      t := t + step;
    }
    NextMultiple(q + |ticks| - 1, step);
  }

  lemma NextMultiple(q: int, step: int)
    ensures (q + 1) * step == q * step + step
  {
  }

  lemma MultiplesGrow(a: int, b: int, step: int)
    requires step > 0
    ensures a < b <==> a * step < b * step
    ensures a <= b - 1 ==> a * step <= b * step - step
  {
    if a < b {
      ScaleUp(a + 1, b, step);
      NextMultiple(a, step);
    } else {
      ScaleUp(b, a, step);
    }
  }

  // The multiples from the first one not before `min` to the last not after `max`.
  ghost predicate Multiples(ticks: seq<int>, min: int, max: int, step: int, tzOffset: int, q: int) {
    && step > 0
    && (q - 1) * step < min - tzOffset <= q * step
    && (forall k | 0 <= k < |ticks| :: ticks[k] == (q + k) * step + tzOffset)
    && (ticks != [] ==> (q + |ticks| - 1) * step + tzOffset <= max)
    && (q + |ticks|) * step + tzOffset > max
  }

  lemma TicksAreGrid(ticks: seq<int>, min: int, max: int, step: int, tzOffset: int, q: int)
    requires Multiples(ticks, min, max, step, tzOffset, q)
    ensures forall t :: t in ticks <==> min <= t <= max && OnGrid(t, step, tzOffset)
    ensures forall k | 0 < k < |ticks| :: ticks[k] == ticks[k - 1] + step
  {
    forall t | t in ticks
      ensures min <= t <= max && OnGrid(t, step, tzOffset)
    {
      var k :| 0 <= k < |ticks| && ticks[k] == t;
      assert t == (q + k) * step + tzOffset;
      MultiplesGrow(q - 1, q + k, step);
      if k > 0 {
        MultiplesGrow(q, q + k, step);
      }
      if k < |ticks| - 1 {
        MultiplesGrow(q + k, q + |ticks| - 1, step);
      }
    }
    forall t | min <= t <= max && OnGrid(t, step, tzOffset)
      ensures t in ticks
    {
      var p: int :| t == p * step + tzOffset;
      MultiplesGrow(q - 1, p, step);
      MultiplesGrow(p, q + |ticks|, step);
      assert ticks[p - q] == t;
    }
    forall k | 0 < k < |ticks|
      ensures ticks[k] == ticks[k - 1] + step
    {
      NextMultiple(q + k - 1, step);
    }
  }

  lemma TickCount(ticks: seq<int>, min: int, max: int, step: int, tzOffset: int, q: int)
    requires Multiples(ticks, min, max, step, tzOffset, q) && min <= max
    ensures (max - min) / step <= |ticks| <= (max - min) / step + 1
  {
    var n, d := |ticks|, (max - min) / step;
    var r := (max - min) % step;
    assert max - min == d * step + r;
    Distribute(q, n, step);
    if n > 0 {
      Distribute(q, n - 1, step);
      Distribute(d, 1, step);
      MultiplesGrow(n - 1, d + 1, step);
    }
    Distribute(q, -1, step);
    Distribute(n, 1, step);
    MultiplesGrow(d, n + 1, step);
  }

  lemma Distribute(a: int, b: int, step: int)
    ensures (a + b) * step == a * step + b * step
  {
  }

  // Up to `target` days, there are at most target + 1 ticks ...
  lemma NotTooMany(span: int, target: nat, step: int, count: nat)
    requires span > 0 && IsStep(step, span, target) && step > 0
    requires span / step <= count <= span / step + 1
    requires span <= DAY * target
    ensures count <= target + 1
  {
    assert AtLeastRough(step, span, target);
    assert span <= step * target;
    QuotientAtMost(span, step, target);
  }

  lemma QuotientAtMost(a: int, b: int, q: nat)
    requires b > 0 && 0 <= a <= b * q
    ensures a / b <= q
  {
    assert (a / b) * b <= a;
    MultiplesGrow(q, a / b, b);
  }

  lemma QuotientAtLeast(a: int, b: int, q: nat)
    requires b > 0 && b * q <= a
    ensures a / b >= q
  {
    assert a < (a / b) * b + b;
    MultiplesGrow(a / b, q, b);
  }

  // ... and from `target` seconds on, at least two fifths of target.
  lemma NotTooFew(span: int, target: nat, step: int, count: nat)
    requires span > 0 && IsStep(step, span, target) && step > 0
    requires span / step <= count <= span / step + 1
    requires span >= 1000 * target
    ensures count >= 2 * target / 5
  {
    var k :| 0 <= k < |STEPS| && STEPS[k] == step
      && (AtLeastRough(step, span, target) || k == |STEPS| - 1)
      && forall j | 0 <= j < k :: !AtLeastRough(STEPS[j], span, target);
    StepsArePositive();
    if k == 0 {
      QuotientAtLeast(span, step, target);
    } else {
      LadderRatio(k);
      var before := STEPS[k - 1];
      assert !AtLeastRough(before, span, target);
      TwoFifths(before, step, target, span);
      QuotientAtLeast(span, step, 2 * target / 5);
    }
  }

  lemma TwoFifths(before: int, step: int, target: nat, span: int)
    requires before > 0 && step > 0 && 2 * step <= 5 * before && before * target <= span
    ensures step * (2 * target / 5) <= span
  {
    var p := 2 * target / 5;
    assert 5 * p <= 2 * target;
    ScaleUp(5 * p, 2 * target, step);
    ScaleUp(2 * step, 5 * before, target);
    assert 5 * (step * p) == (5 * p) * step;
    assert (2 * target) * step == (2 * step) * target;
    assert (5 * before) * target == 5 * (before * target);
  }
}
