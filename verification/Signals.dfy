// The signals that are plain arithmetic, over real numbers
// (tstlan/devices/simulation/signals.py).
module Signals {
  import opened NetVars

  // ---------- periodic signals ----------

  // t % period, floored as in Python
  function Modulo(t: real, period: real): real
    requires period > 0.0
  {
    t - (t / period).Floor as real * period
  }

  // The part of a period that has passed.
  function Fraction(t: real, period: real): real
    requires period > 0.0
  {
    Modulo(t, period) / period
  }

  function Sawtooth(period: real, low: real, high: real, t: real): real
    requires period > 0.0
  {
    low + (high - low) * Fraction(t, period)
  }

  function Square(period: real, low: real, high: real, duty: real, t: real): real
    requires period > 0.0
  {
    if Fraction(t, period) < duty then high else low
  }

  lemma FractionInUnit(t: real, period: real)
    requires period > 0.0
    ensures Fraction(t, period) == t / period - (t / period).Floor as real
    ensures 0.0 <= Fraction(t, period) < 1.0
  {
    var n := (t / period).Floor as real;
    assert Modulo(t, period) == (t / period - n) * period;
  }

  lemma QuotientIs(a: real, b: real, q: real)
    requires b > 0.0 && q * b == a
    ensures a / b == q
  {
  }

  lemma FractionRepeats(t: real, period: real)
    requires period > 0.0
    ensures Fraction(t + period, period) == Fraction(t, period)
  {
    FractionInUnit(t, period);
    FractionInUnit(t + period, period);
    var q := t / period;
    assert (q + 1.0) * period == q * period + period;
    QuotientIs(t + period, period, q + 1.0);
    assert (q + 1.0).Floor == q.Floor + 1;
  }

  // Over the reals both repeat with their period at any time, before the start
  // included, and stay between their bounds; the sawtooth never reaches its upper
  // one. (A floating-point remainder can be rounded up to the whole period.)
  lemma SignalsRepeat(period: real, low: real, high: real, duty: real, t: real)
    requires period > 0.0
    ensures Sawtooth(period, low, high, t + period) == Sawtooth(period, low, high, t)
    ensures Square(period, low, high, duty, t + period) == Square(period, low, high, duty, t)
    ensures low < high ==> low <= Sawtooth(period, low, high, t) < high
    ensures low <= high ==> low <= Square(period, low, high, duty, t) <= high
  {
    FractionInUnit(t, period);
    FractionRepeats(t, period);
    hide Fraction;
    if low < high {
      Between(low, high, Fraction(t, period));
    }
  }

  // What they are at a fraction of any period, before the start as after it: the
  // sawtooth has risen by as much of its range, and the square is high for the
  // first part of the period and low for the rest.
  lemma SignalsAt(period: real, low: real, high: real, duty: real, n: int, u: real)
    requires period > 0.0 && 0.0 <= u < 1.0
    ensures Sawtooth(period, low, high, (n as real + u) * period) == low + (high - low) * u
    ensures Square(period, low, high, duty, (n as real + u) * period) == if u < duty then high else low
  {
    var t := (n as real + u) * period;
    FractionInUnit(t, period);
    QuotientIs(t, period, n as real + u);
    assert (n as real + u).Floor == n;
  }

  lemma Between(low: real, high: real, fraction: real)
    requires 0.0 <= fraction < 1.0 && low < high
    ensures low <= low + (high - low) * fraction < high
  {
    ScaledInto(high - low, fraction, (high - low) * fraction);
  }

  lemma ScaledInto(width: real, fraction: real, part: real)
    requires 0.0 <= fraction < 1.0 && width > 0.0 && part == width * fraction
    ensures 0.0 <= part < width
  {
    Product(width, fraction);
  }

  lemma Product(width: real, fraction: real)
    requires 0.0 <= fraction < 1.0 && width > 0.0
    ensures 0.0 <= width * fraction < width
  {
    var rest := 1.0 - fraction;
    assert width * rest > 0.0;
    assert width * fraction + width * rest == width * (fraction + rest);
  }

  // ---------- the random walk ----------

  function Lower(a: real, b: real): real {
    if a < b then a else b
  }

  function Higher(a: real, b: real): real {
    if a < b then b else a
  }

  function Walked(low: real, high: real, value: real, move: real): real {
    Lower(high, Higher(low, value + move))
  }

  // The value after all moves, each drawn from [-step, step].
  function WalkedAll(low: real, high: real, start: real, moves: seq<real>): real {
    if moves == [] then start
    else Walked(low, high, WalkedAll(low, high, start, moves[..|moves| - 1]), moves[|moves| - 1])
  }

  class RandomWalk {
    var value: real
    const step: real
    const low: real
    const high: real
    ghost const start: real
    ghost var moves: seq<real>

    ghost predicate Valid()
      reads this
    {
      && value == WalkedAll(low, high, start, moves)
      && forall k | 0 <= k < |moves| :: -step <= moves[k] <= step
    }

    constructor (start: real, step: real, low: real, high: real)
      ensures Valid() && moves == [] && this.start == start
      ensures this.step == step && this.low == low && this.high == high
    {
      value, this.step, this.low, this.high := start, step, low, high;
      this.start, moves := start, [];
    }

    // `drawn` is what the generator gives for uniform(-step, step).
    method Sample(drawn: real) returns (x: real)
      requires Valid() && -step <= drawn <= step
      modifies this
      ensures Valid() && moves == old(moves) + [drawn]
      ensures x == value == WalkedAll(low, high, start, moves)
    {
      value := value + drawn;
      value := Lower(high, Higher(low, value));
      moves := moves + [drawn];
      assert moves[..|moves| - 1] == old(moves);
      return value;
    }
  }

  // A move that stays in the corridor is made in full; one that leads out of it
  // stops at the bound.
  lemma WalkMoves(low: real, high: real, start: real, moves: seq<real>, move: real)
    requires low <= high
    ensures WalkedAll(low, high, start, []) == start
    ensures var before, after := WalkedAll(low, high, start, moves), WalkedAll(low, high, start, moves + [move]);
            && (low <= before + move <= high ==> after == before + move)
            && (before + move < low ==> after == low)
            && (before + move > high ==> after == high)
  {
    assert (moves + [move])[..|moves|] == moves;
  }

  // Wherever it starts, every sample lies in the corridor if and only if there
  // is one; and once inside, the walk never moves further than a step at a time.
  lemma {:induction false} WalkStaysInCorridor(low: real, high: real, start: real, moves: seq<real>, step: real)
    requires moves != [] && forall k | 0 <= k < |moves| :: -step <= moves[k] <= step
    ensures low <= WalkedAll(low, high, start, moves) <= high <==> low <= high
    ensures |moves| > 1 && low <= high ==>
              var before := WalkedAll(low, high, start, moves[..|moves| - 1]);
              -step <= WalkedAll(low, high, start, moves) - before <= step
  {
    if |moves| > 1 {
      WalkStaysInCorridor(low, high, start, moves[..|moves| - 1], step);
      assert -step <= moves[|moves| - 1] <= step;
    }
  }

  // Shown in an integer register, a signal between two whole numbers that the
  // register can hold stays between them.
  lemma BoundsSurviveFitting(ct: CType, low: int, high: int, x: real, shown: int)
    requires !IsFloat(ct) && InRange(ct, low) && InRange(ct, high)
    requires low as real <= x <= high as real
    requires BestFit(ct, x, shown)
    ensures low <= shown <= high
  {
    assert Distance(shown, x) <= Distance(low, x);
    assert Distance(shown, x) <= Distance(high, x);
  }
}
