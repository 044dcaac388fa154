// Variable types, access modes and values (tstlan/models.py), and the checks a
// value passes on its way into a register (tstlan/devices/models.py).
module NetVars {
  import opened Wrappers

  datatype CType = BIT | U8 | I8 | U16 | I16 | U32 | I32 | U64 | I64 | F32 | F64

  datatype Mode = R | W | RW

  // An IEEE 754 binary64 / binary32 number, as its bit pattern.
  type Double = n: nat | n < 0x1_0000_0000_0000_0000
  type Single = n: nat | n < 0x1_0000_0000

  // A Python number: `int`, `float` or `bool`.
  datatype Value = IntV(i: int) | FloatV(d: Double) | BoolV(b: bool)

  // The conversions of the IEEE 754 arithmetic, which the model leaves open:
  // from an integer to a double, and from a double to 32 bits, may overflow.
  datatype FloatCodec = FloatCodec(
    ofInt: int -> Option<Double>,
    narrow: Double -> Option<Single>,
    widen: Single -> Double,
    toReal: Double -> real)

  const MINUS_ZERO: Double := 0x8000_0000_0000_0000

  function ByteSize(ct: CType): (n: nat)
    ensures 1 <= n <= 8
  {
    match ct
    case BIT => 1
    case U8 => 1
    case I8 => 1
    case U16 => 2
    case I16 => 2
    case U32 => 4
    case I32 => 4
    case U64 => 8
    case I64 => 8
    case F32 => 4
    case F64 => 8
  }

  predicate IsFloat(ct: CType) {
    ct == F32 || ct == F64
  }

  function IntRange(ct: CType): (r: (int, int))
    requires !IsFloat(ct)
    ensures r.0 <= 0 < r.1
  {
    match ct
    case BIT => (0, 1)
    case U8 => (0, 0xFF)
    case I8 => (-0x80, 0x7F)
    case U16 => (0, 0xFFFF)
    case I16 => (-0x8000, 0x7FFF)
    case U32 => (0, 0xFFFF_FFFF)
    case I32 => (-0x8000_0000, 0x7FFF_FFFF)
    case U64 => (0, 0xFFFF_FFFF_FFFF_FFFF)
    case I64 => (-0x8000_0000_0000_0000, 0x7FFF_FFFF_FFFF_FFFF)
  }

  predicate InRange(ct: CType, i: int)
    requires !IsFloat(ct)
  {
    IntRange(ct).0 <= i <= IntRange(ct).1
  }

  // The truth value: only the zeros are false.
  predicate Truthy(v: Value) {
    match v
    case IntV(i) => i != 0
    case FloatV(d) => d != 0 && d != MINUS_ZERO
    case BoolV(b) => b
  }

  // Conversion to a double; None where it overflows.
  function ToDouble(c: FloatCodec, v: Value): Option<Double> {
    match v
    case IntV(i) => c.ofInt(i)
    case FloatV(d) => Some(d)
    case BoolV(b) => c.ofInt(if b then 1 else 0)
  }

  // The value a register of type `ct` shows after `v` was put into it, or None
  // where packing `v` raises: a float in an integer register, a number out of
  // range, an overflow. A bit register takes the truth value of anything.
  function Stored(c: FloatCodec, ct: CType, v: Value): Option<Value> {
    match ct
    case BIT => Some(IntV(if Truthy(v) then 1 else 0))
    case F64 =>
      var d := ToDouble(c, v);
      if d.Some? then Some(FloatV(d.value)) else None
    case F32 =>
      var d := ToDouble(c, v);
      if d.None? then None
      else if c.narrow(d.value).None? then None
      else Some(FloatV(c.widen(c.narrow(d.value).value)))
    case _ =>
      match v
      case IntV(i) => if InRange(ct, i) then Some(IntV(i)) else None
      case FloatV(_) => None
      case BoolV(b) => Some(IntV(if b then 1 else 0))
  }

  // In full: a bit register shows whether the value is other than zero; an integer
  // one takes integers in range and bools; a float one what converts to float and,
  // if it has 32 bits, narrows.
  lemma StoredExactly(c: FloatCodec, ct: CType, v: Value)
    ensures ct == BIT ==>
              var zero := v == IntV(0) || v == FloatV(0) || v == FloatV(MINUS_ZERO) || v == BoolV(false);
              Stored(c, ct, v) == Some(IntV(if zero then 0 else 1))
    ensures ct != BIT && !IsFloat(ct) ==>
              && (Stored(c, ct, v).Some? <==> v.BoolV? || (v.IntV? && IntRange(ct).0 <= v.i <= IntRange(ct).1))
              && (v.IntV? && Stored(c, ct, v).Some? ==> Stored(c, ct, v) == Some(v))
              && (v.BoolV? ==> Stored(c, ct, v) == Some(IntV(if v.b then 1 else 0)))
    ensures ct == F64 ==>
              && (v.FloatV? ==> Stored(c, ct, v) == Some(v))
              && (v.IntV? ==>
                    (Stored(c, ct, v).Some? <==> c.ofInt(v.i).Some?) &&
                    (Stored(c, ct, v).Some? ==> Stored(c, ct, v) == Some(FloatV(c.ofInt(v.i).value))))
    ensures ct == F32 ==>
              && (v.FloatV? ==>
                    (Stored(c, ct, v).Some? <==> c.narrow(v.d).Some?) &&
                    (Stored(c, ct, v).Some? ==> Stored(c, ct, v) == Some(FloatV(c.widen(c.narrow(v.d).value)))))
              && (v.IntV? ==>
                    (Stored(c, ct, v).Some? <==> c.ofInt(v.i).Some? && c.narrow(c.ofInt(v.i).value).Some?) &&
                    (Stored(c, ct, v).Some? ==>
                       Stored(c, ct, v) == Some(FloatV(c.widen(c.narrow(c.ofInt(v.i).value).value)))))
    ensures IsFloat(ct) && v.BoolV? ==> Stored(c, ct, v) == Stored(c, ct, IntV(if v.b then 1 else 0))
  {
  }

  // What an untouched, zero-filled register shows.
  function Zero(c: FloatCodec, ct: CType): Value {
    match ct
    case F32 => FloatV(c.widen(0))
    case F64 => FloatV(0)
    case _ => IntV(0)
  }

  datatype ValueError = BoolRejected | NotAnInteger | OutOfRange | Overflow

  function CoerceValue(c: FloatCodec, ct: CType, v: Value): Result<Value, ValueError> {
    if v.BoolV? then Err(BoolRejected)
    else if IsFloat(ct) then
      var d := ToDouble(c, v);
      if d.Some? then Ok(FloatV(d.value)) else Err(Overflow)
    else if !v.IntV? then Err(NotAnInteger)
    else if !InRange(ct, v.i) then Err(OutOfRange)
    else Ok(v)
  }

  // Just what is accepted, and why anything else is not: integers in range by an
  // integer type, numbers that convert to float by a float type.
  lemma AcceptedExactly(c: FloatCodec, ct: CType, v: Value)
    ensures v.BoolV? ==> CoerceValue(c, ct, v) == Err(BoolRejected)
    ensures v.IntV? && !IsFloat(ct) ==>
              CoerceValue(c, ct, v) == if IntRange(ct).0 <= v.i <= IntRange(ct).1 then Ok(v) else Err(OutOfRange)
    ensures v.IntV? && IsFloat(ct) ==>
              CoerceValue(c, ct, v) == if c.ofInt(v.i).Some? then Ok(FloatV(c.ofInt(v.i).value)) else Err(Overflow)
    ensures v.FloatV? ==> CoerceValue(c, ct, v) == if IsFloat(ct) then Ok(v) else Err(NotAnInteger)
  {
  }

  // An accepted integer write is shown back unchanged; an accepted write to a
  // 64-bit float register shows the number converted to float.
  lemma AcceptedIsStored(c: FloatCodec, ct: CType, v: Value)
    requires CoerceValue(c, ct, v).Ok?
    ensures !IsFloat(ct) ==> v.IntV? && Stored(c, ct, CoerceValue(c, ct, v).value) == Some(v)
    ensures ct == F64 ==> Stored(c, ct, CoerceValue(c, ct, v).value) == Some(FloatV(ToDouble(c, v).value))
    ensures ct == F32 ==> Stored(c, ct, CoerceValue(c, ct, v).value) == Stored(c, ct, v)
  {
  }

  // The number is one that 32 bits hold: narrowing it loses nothing.
  predicate IsSingle(c: FloatCodec, d: Double) {
    c.narrow(d).Some? && c.widen(c.narrow(d).value) == d
  }

  // The number a write returns is the one the next read shows if and only if the
  // register is not a 32-bit float or the number is one that 32 bits hold.
  lemma WrittenIsShown(c: FloatCodec, ct: CType, v: Value)
    requires CoerceValue(c, ct, v).Ok?
    requires Stored(c, ct, CoerceValue(c, ct, v).value).Some?
    ensures ct == F32 ==> ToDouble(c, v).Some?
    ensures Stored(c, ct, CoerceValue(c, ct, v).value) == Some(CoerceValue(c, ct, v).value) <==>
            (ct == F32 ==> IsSingle(c, ToDouble(c, v).value))
  {
  }

  // Two of more than `n` numbers below `n` are equal.
  lemma {:induction false} Pigeonhole(f: nat -> nat, n: nat, m: nat) returns (i: nat, j: nat)
    requires n < m && forall k: nat | k < m :: f(k) < n
    ensures i < j < m && f(i) == f(j)
    decreases n
  {
    var last := m - 1;
    if k: nat :| k < last && f(k) == f(last) {
      i, j := k, last;
    } else {
      // nobody shares the last one's hole, so its place can go to the top hole's
      var g := (k: nat) => if f(k) == n - 1 then f(last) else f(k);
      i, j := Pigeonhole(g, n - 1, last);
    }
  }

  // Under any conversions there are doubles that 32 bits do not hold.
  lemma SomeDoubleIsNotSingle(c: FloatCodec)
    ensures exists d: Double :: !IsSingle(c, d)
  {
    var f := (k: nat) => if k < 0x1_0000_0001 && c.narrow(k).Some? then c.narrow(k).value else 0;
    var i, j := Pigeonhole(f, 0x1_0000_0000, 0x1_0000_0001);
    var d: Double := if IsSingle(c, i) then j else i;
    assert !IsSingle(c, d);
  }

  // One such number under IEEE 754 is 0.1: its write returns 0.1, and the next
  // read shows 0.10000000149011612.
  const TENTH: Double := 0x3FB9_9999_9999_999A
  const TENTH_SINGLE: Single := 0x3DCC_CCCD
  const TENTH_SHOWN: Double := 0x3FB9_9999_A000_0000

  lemma TenthIsShownRounded(c: FloatCodec)
    requires c.narrow(TENTH) == Some(TENTH_SINGLE) && c.widen(TENTH_SINGLE) == TENTH_SHOWN
    ensures CoerceValue(c, F32, FloatV(TENTH)) == Ok(FloatV(TENTH))
    ensures Stored(c, F32, FloatV(TENTH)) == Some(FloatV(TENTH_SHOWN))
    ensures FloatV(TENTH_SHOWN) != FloatV(TENTH)
  {
  }

  // To the nearest integer, halves to the even neighbour.
  function RoundHalfEven(x: real): int {
    var f := x.Floor;
    var frac := x - f as real;
    if frac < 0.5 then f
    else if frac > 0.5 then f + 1
    else if f % 2 == 0 then f
    else f + 1
  }

  function Clamp(low: int, high: int, i: int): int {
    var capped := if high < i then high else i;
    if low > capped then low else capped
  }

  function FitValue(c: FloatCodec, ct: CType, d: Double): Value {
    if IsFloat(ct) then FloatV(d)
    else IntV(Clamp(IntRange(ct).0, IntRange(ct).1, RoundHalfEven(c.toReal(d))))
  }

  function Distance(i: int, x: real): real {
    if i as real < x then x - i as real else i as real - x
  }

  // `i` is the in-range integer a signal value `x` is fitted to: none is
  // strictly closer, and of two equally close ones it is the even one.
  ghost predicate BestFit(ct: CType, x: real, i: int)
    requires !IsFloat(ct)
  {
    && InRange(ct, i)
    && (forall j: int | InRange(ct, j) :: Distance(i, x) <= Distance(j, x))
    && (forall j: int | InRange(ct, j) && j != i :: Distance(i, x) == Distance(j, x) ==> i % 2 == 0)
  }

  lemma RoundIsNear(x: real)
    ensures var r := RoundHalfEven(x); r as real - 0.5 <= x <= r as real + 0.5
    ensures var r := RoundHalfEven(x); (x == r as real - 0.5 || x == r as real + 0.5) ==> r % 2 == 0
  {
  }

  lemma FitIsBest(c: FloatCodec, ct: CType, d: Double)
    requires !IsFloat(ct)
    ensures FitValue(c, ct, d).IntV? && BestFit(ct, c.toReal(d), FitValue(c, ct, d).i)
  {
    RoundIsNear(c.toReal(d));
    var i := FitValue(c, ct, d).i;
    forall j: int | InRange(ct, j) && j != i
      ensures Distance(i, c.toReal(d)) <= Distance(j, c.toReal(d))
      ensures Distance(i, c.toReal(d)) == Distance(j, c.toReal(d)) ==> i % 2 == 0
    {
      FitBeats(IntRange(ct).0, IntRange(ct).1, c.toReal(d), j);
    }
  }

  lemma FitBeats(low: int, high: int, x: real, j: int)
    requires low <= j <= high
    ensures var i := Clamp(low, high, RoundHalfEven(x));
            j != i ==> Distance(i, x) <= Distance(j, x) && (Distance(i, x) == Distance(j, x) ==> i % 2 == 0)
  {
    RoundIsNear(x);
    var r := RoundHalfEven(x);
    var i := Clamp(low, high, r);
    if j < i {
      assert j + 1 <= i;
    } else if j > i {
      assert j >= i + 1;
    }
  }

  // BestFit pins the integer down.
  lemma BestFitIsUnique(ct: CType, x: real, i: int, j: int)
    requires !IsFloat(ct) && BestFit(ct, x, i) && BestFit(ct, x, j)
    ensures i == j
  {
    // an integer strictly between them, if there is one, would be closer
    var m := if i < j then i + 1 else if j < i then j + 1 else i;
    assert InRange(ct, m);
    assert Distance(i, x) <= Distance(m, x) && Distance(j, x) <= Distance(m, x);
  }
}
