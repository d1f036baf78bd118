/** Rounding, on integers and on reals. */
module Arithmetic {

  function Max(a: int, b: int): int {
    if a >= b then a else b
  }

  function Min(a: int, b: int): int {
    if a <= b then a else b
  }

  function MinReal(a: real, b: real): real {
    if a <= b then a else b
  }

  /** Lua's math.floor of a quotient; Dafny's division floors for a positive divisor. */
  function FloorDiv(a: int, b: int): (q: int)
    requires b > 0
    ensures b * q <= a < b * q + b
  {
    a / b
  }

  function CeilDiv(a: int, b: int): (q: int)
    requires b > 0
    ensures b * q - b < a <= b * q
  {
    -((-a) / b)
  }

  /** The largest multiple of b that is not above a. */
  function RoundDown(a: int, b: int): (r: int)
    requires b > 0
    ensures r <= a < r + b
    decreases if a < 0 then b - a else a
  {
    if a < 0 then RoundDown(a + b, b) - b
    else if a < b then 0
    else RoundDown(a - b, b) + b
  }

  /** Lua's math.ceil. */
  function Ceil(x: real): (n: int)
    ensures n as real - 1.0 < x <= n as real
  {
    -((-x).Floor)
  }

  lemma Distribute(a: int, x: int, y: int)
    ensures a * (x + y) == a * x + a * y
  {
  }

  lemma MulMonotone(a: int, x: int, y: int)
    requires a >= 0 && x <= y
    ensures a * x <= a * y
  {
  }

  /** A multiple of b strictly below another one is below it by at least b. */
  lemma QuotientUnique(a: int, b: int, q: int, r: int)
    requires b > 0
    requires b * q <= a < b * q + b
    requires b * r <= a < b * r + b
    ensures q == r
  {
    if q < r {
      MulMonotone(b, q + 1, r);
    } else if r < q {
      MulMonotone(b, r + 1, q);
    }
  }

  lemma FloorDivShifts(a: int, b: int)
    requires b > 0
    ensures FloorDiv(a + b, b) * b == FloorDiv(a, b) * b + b
  {
    assert b * (FloorDiv(a, b) + 1) == b * FloorDiv(a, b) + b;
    QuotientUnique(a + b, b, FloorDiv(a + b, b), FloorDiv(a, b) + 1);
  }

  lemma {:induction false} RoundDownIsFloor(a: int, b: int)
    requires b > 0
    ensures RoundDown(a, b) == FloorDiv(a, b) * b
    decreases if a < 0 then b - a else a
  {
    if a < 0 {
      RoundDownIsFloor(a + b, b);
      FloorDivShifts(a, b);
    } else if a < b {
      QuotientUnique(a, b, FloorDiv(a, b), 0);
    } else {
      RoundDownIsFloor(a - b, b);
      FloorDivShifts(a - b, b);
    }
  }

  lemma CeilDivLeast(a: int, b: int, q: int)
    requires b > 0 && a <= b * q
    ensures CeilDiv(a, b) <= q
  {
    var r := CeilDiv(a, b);
    if q < r {
      MulMonotone(b, q, r - 1);
    }
  }

  lemma RealScale(x: real, y: real, k: real)
    requires k > 0.0
    ensures x <= y <==> x * k <= y * k
  {
  }

  lemma RealQuotientBounds(a: int, b: int, q: int)
    requires b > 0
    ensures b * q <= a <==> q as real <= a as real / b as real
    ensures a <= b * q <==> a as real / b as real <= q as real
  {
    var x := a as real / b as real;
    assert x * b as real == a as real;
    assert (b * q) as real == b as real * q as real;
    RealScale(q as real, x, b as real);
    RealScale(x, q as real, b as real);
  }

  lemma RealFloorIsFloorDiv(a: int, b: int)
    requires b > 0
    ensures (a as real / b as real).Floor == FloorDiv(a, b)
  {
    var q := FloorDiv(a, b);
    RealQuotientBounds(a, b, q);
    RealQuotientBounds(a, b, q + 1);
    assert b * (q + 1) == b * q + b;
  }

  lemma RealCeilIsCeilDiv(a: int, b: int)
    requires b > 0
    ensures Ceil(a as real / b as real) == CeilDiv(a, b)
  {
    var q := CeilDiv(a, b);
    RealQuotientBounds(a, b, q);
    RealQuotientBounds(a, b, q - 1);
    assert b * (q - 1) == b * q - b;
  }
}
