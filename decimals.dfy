/**
 * Exact decimal numbers as java.math.BigDecimal represents them: an
 * arbitrary-precision unscaled integer and a 32-bit scale, standing for
 * unscaled * 10^(-scale).  Value gives the exact rational number a Decimal
 * denotes, so sums can be stated without any rounding.
 */
module Decimals {

  const INT_MIN: int := -0x8000_0000
  const INT_MAX: int := 0x7fff_ffff

  /** True when x fits a Java `int`. */
  predicate IsInt32(x: int) {
    INT_MIN <= x <= INT_MAX
  }

  datatype Decimal = Decimal(unscaled: int, scale: int)

  /** BigDecimal's invariant: the scale is a Java `int`. */
  predicate ValidDecimal(d: Decimal) {
    IsInt32(d.scale)
  }

  /** `new BigDecimal(0.0)`: the value zero with scale 0. */
  const Zero: Decimal := Decimal(0, 0)

  function Pow10(n: nat): (r: nat)
    ensures r >= 1
  {
    if n == 0 then 1 else 10 * Pow10(n - 1)
  }

  /**
   * x * 10^(-n): the decimal point of x moved n places to the left (to the
   * right when n < 0), one place at a time so that only linear arithmetic
   * is involved.
   */
  function MovePointLeft(x: real, n: int): real
    decreases if n >= 0 then n else -n
  {
    if n == 0 then x
    else if n > 0 then MovePointLeft(x, n - 1) / 10.0
    else MovePointLeft(x, n + 1) * 10.0
  }

  /** The exact number a Decimal stands for: unscaled * 10^(-scale). */
  function Value(d: Decimal): real {
    MovePointLeft(d.unscaled as real, d.scale)
  }

  function Max(a: int, b: int): int {
    if a >= b then a else b
  }

  lemma {:induction false} MovePointLeftAdd(x: real, y: real, n: int)
    ensures MovePointLeft(x + y, n) == MovePointLeft(x, n) + MovePointLeft(y, n)
    decreases if n >= 0 then n else -n
  {
    if n > 0 {
      MovePointLeftAdd(x, y, n - 1);
    } else if n < 0 {
      MovePointLeftAdd(x, y, n + 1);
    }
  }

  lemma {:induction false} MovePointLeftNegate(x: real, n: int)
    ensures MovePointLeft(-x, n) == -MovePointLeft(x, n)
    decreases if n >= 0 then n else -n
  {
    if n > 0 {
      MovePointLeftNegate(x, n - 1);
    } else if n < 0 {
      MovePointLeftNegate(x, n + 1);
    }
  }

  /** Multiplying by ten is moving the point one place to the right. */
  lemma {:induction false} MovePointLeftTimesTen(x: real, n: int)
    ensures MovePointLeft(x * 10.0, n) == MovePointLeft(x, n - 1)
    decreases if n >= 0 then n else -n
  {
    if n > 0 {
      MovePointLeftTimesTen(x, n - 1);
    } else if n < 0 {
      MovePointLeftTimesTen(x, n + 1);
    }
  }

  lemma {:induction false} MovePointLeftZero(x: real, n: int)
    ensures MovePointLeft(x, n) == 0.0 <==> x == 0.0
    decreases if n >= 0 then n else -n
  {
    if n > 0 {
      MovePointLeftZero(x, n - 1);
    } else if n < 0 {
      MovePointLeftZero(x, n + 1);
    }
  }

  /** One more place to the left is one more division by ten, whatever the sign of n. */
  lemma MovePointLeftStep(x: real, n: int)
    ensures MovePointLeft(x, n + 1) == MovePointLeft(x, n) / 10.0
  {
  }

  /** Moving the point a places and then b places is moving it a + b places. */
  lemma {:induction false} MovePointLeftCompose(x: real, a: int, b: int)
    ensures MovePointLeft(MovePointLeft(x, a), b) == MovePointLeft(x, a + b)
    decreases if b >= 0 then b else -b
  {
    if b > 0 {
      MovePointLeftCompose(x, a, b - 1);
      MovePointLeftStep(x, a + b - 1);
    } else if b < 0 {
      MovePointLeftCompose(x, a, b + 1);
      MovePointLeftStep(x, a + b);
    }
  }

  /** x * 10^k, one factor of ten at a time. */
  function ShiftLeft(x: int, k: nat): int {
    if k == 0 then x else 10 * ShiftLeft(x, k - 1)
  }

  /** Shifting k places left and moving the point k places left gives back x. */
  lemma {:induction false} ShiftLeftValue(x: int, k: nat)
    ensures MovePointLeft(ShiftLeft(x, k) as real, k) == x as real
  {
    if k > 0 {
      var y := ShiftLeft(x, k - 1);
      ShiftLeftValue(x, k - 1);
      assert (10 * y) as real == (y as real) * 10.0;
      MovePointLeftTimesTen(y as real, k);
    }
  }

  lemma {:induction false} ShiftLeftNegate(x: int, k: nat)
    ensures ShiftLeft(-x, k) == -ShiftLeft(x, k)
  {
    if k > 0 {
      ShiftLeftNegate(x, k - 1);
    }
  }

  /** Raising the scale by k while multiplying the unscaled value by 10^k keeps the value. */
  lemma {:induction false} Rescale(u: int, scale: int, k: nat)
    ensures Value(Decimal(u * Pow10(k), scale + k)) == Value(Decimal(u, scale))
  {
    if k > 0 {
      var v := u * Pow10(k - 1);
      assert u * Pow10(k) == v * 10;
      assert (v * 10) as real == (v as real) * 10.0;
      MovePointLeftTimesTen(v as real, scale + k);
      Rescale(u, scale, k - 1);
    }
  }

  /** Both operands brought to scale s; adding or subtracting there is exact. */
  lemma AlignedValue(a: Decimal, b: Decimal, s: int, negate: bool)
    requires s >= a.scale && s >= b.scale
    ensures var x, y := a.unscaled * Pow10(s - a.scale), b.unscaled * Pow10(s - b.scale);
      Value(Decimal(if negate then x - y else x + y, s))
        == if negate then Value(a) - Value(b) else Value(a) + Value(b)
  {
    var x, y := a.unscaled * Pow10(s - a.scale), b.unscaled * Pow10(s - b.scale);
    Rescale(a.unscaled, a.scale, s - a.scale);
    Rescale(b.unscaled, b.scale, s - b.scale);
    if negate {
      MovePointLeftNegate(y as real, s);
      MovePointLeftAdd(x as real, -(y as real), s);
    } else {
      MovePointLeftAdd(x as real, y as real, s);
    }
  }

  /** BigDecimal.add: exact, with the larger of the two scales. */
  function Add(a: Decimal, b: Decimal): (r: Decimal)
    ensures r.scale == Max(a.scale, b.scale)
    ensures ValidDecimal(a) && ValidDecimal(b) ==> ValidDecimal(r)
    ensures Value(r) == Value(a) + Value(b)
  {
    var s := Max(a.scale, b.scale);
    AlignedValue(a, b, s, false);
    Decimal(a.unscaled * Pow10(s - a.scale) + b.unscaled * Pow10(s - b.scale), s)
  }

  /** BigDecimal.subtract: exact, with the larger of the two scales. */
  function Subtract(a: Decimal, b: Decimal): (r: Decimal)
    ensures r.scale == Max(a.scale, b.scale)
    ensures ValidDecimal(a) && ValidDecimal(b) ==> ValidDecimal(r)
    ensures Value(r) == Value(a) - Value(b)
  {
    var s := Max(a.scale, b.scale);
    AlignedValue(a, b, s, true);
    Decimal(a.unscaled * Pow10(s - a.scale) - b.unscaled * Pow10(s - b.scale), s)
  }

  /** The zero test on a parsed amount (exact: only the unscaled part matters). */
  predicate IsZero(d: Decimal) {
    d.unscaled == 0
  }

  lemma IsZeroIffValueZero(d: Decimal)
    ensures IsZero(d) <==> Value(d) == 0.0
  {
    MovePointLeftZero(d.unscaled as real, d.scale);
  }
}
