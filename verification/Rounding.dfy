/** Rounding money to whole cents, halves away from zero. */
module Rounding {
  predicate WholeCents(x: real) { (x * 100.0).Floor as real == x * 100.0 }

  function HalfUp(x: real): real { ((x * 100.0 + 0.5).Floor as real) / 100.0 }

  function Quantize(x: real): real {
    if x >= 0.0 then HalfUp(x) else -HalfUp(-x)
  }

  function Abs(x: real): real { if x < 0.0 then -x else x }

  /** The result is a whole number of cents at most half a cent away; a tie goes away from zero. */
  lemma QuantizeNearest(x: real)
    ensures WholeCents(Quantize(x))
    ensures Abs(Quantize(x) - x) <= 0.005
    ensures Abs(Quantize(x) - x) == 0.005 ==> Abs(Quantize(x)) > Abs(x)
  {
    var y := if x >= 0.0 then x else -x;
    var n := (y * 100.0 + 0.5).Floor;
    assert HalfUp(y) * 100.0 == n as real;
    assert Quantize(x) * 100.0 == (if x >= 0.0 then n else -n) as real;
  }

  lemma FloorIs(y: real, n: int)
    requires n as real <= y < n as real + 1.0
    ensures y.Floor == n
  {
  }

  lemma HalfUpOfCents(y: real, n: int)
    requires y * 100.0 == n as real
    ensures HalfUp(y) == y
  {
    FloorIs(y * 100.0 + 0.5, n);
    assert HalfUp(y) * 100.0 == n as real;
  }

  lemma WholeCentsStay(x: real)
    requires WholeCents(x)
    ensures Quantize(x) == x
  {
    var n := (x * 100.0).Floor;
    if x >= 0.0 {
      HalfUpOfCents(x, n);
    } else {
      assert (-x) * 100.0 == (-n) as real;
      HalfUpOfCents(-x, -n);
    }
  }

  lemma HalfUpMonotone(x: real, y: real)
    requires x <= y
    ensures HalfUp(x) <= HalfUp(y)
  {
    var m, n := (x * 100.0 + 0.5).Floor, (y * 100.0 + 0.5).Floor;
    assert m <= n;
    assert HalfUp(x) * 100.0 == m as real && HalfUp(y) * 100.0 == n as real;
  }

  lemma HalfUpNonNegative(x: real)
    requires x >= 0.0
    ensures HalfUp(x) >= 0.0
  {
    assert (x * 100.0 + 0.5).Floor >= 0;
  }

  lemma QuantizeMonotone(x: real, y: real)
    requires x <= y
    ensures Quantize(x) <= Quantize(y)
  {
    hide HalfUp;
    if x >= 0.0 {
      HalfUpMonotone(x, y);
    } else if y < 0.0 {
      HalfUpMonotone(-y, -x);
    } else {
      HalfUpNonNegative(-x);
      HalfUpNonNegative(y);
    }
  }
}
