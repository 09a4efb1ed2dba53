/** The few nonlinear facts the proofs need, each proved on its own. */
module Arithmetic {

  lemma MulMonotone(a: int, b: int, c: int)
    requires a <= b && 0 <= c
    ensures a * c <= b * c
  {
  }

  lemma MulDistributes(a: int, b: int, c: int)
    ensures (a + b) * c == a * c + b * c
  {
  }

  lemma MulNonnegative(a: int, b: int)
    requires 0 <= a && 0 <= b
    ensures 0 <= a * b
  {
  }

  lemma MulAssociates(a: int, b: int, c: int)
    ensures (a * b) * c == a * (b * c)
  {
  }

  function Quotient(n: nat, d: nat): nat
    requires d > 0
  {
    n / d
  }

  lemma QuotientBrackets(n: nat, d: nat)
    requires d > 0
    ensures Quotient(n, d) * d <= n < Quotient(n, d) * d + d
  {
  }

  /** A quotient is pinned down by its remainder. */
  lemma QuotientIs(n: nat, d: nat, q: nat, r: nat)
    requires r < d && n == q * d + r
    ensures Quotient(n, d) == q
  {
    var x := Quotient(n, d);
    QuotientBrackets(n, d);
    if x > q {
      MulMonotone(q + 1, x, d);
      MulDistributes(q, 1, d);
      assert false;
    }
    if x < q {
      MulMonotone(x + 1, q, d);
      MulDistributes(x, 1, d);
      assert false;
    }
  }

  lemma QuotientMonotone(a: nat, b: nat, d: nat)
    requires a <= b && d > 0
    ensures Quotient(a, d) <= Quotient(b, d)
  {
    var x, y := Quotient(a, d), Quotient(b, d);
    QuotientBrackets(a, d);
    QuotientBrackets(b, d);
    if x > y {
      MulMonotone(y + 1, x, d);
      MulDistributes(y, 1, d);
      assert false;
    }
  }

  /** Two nested floors are one floor. */
  lemma NestedFloor(a: nat, x: nat, m: nat, b: nat)
    requires m > 0 && b > 0
    ensures b * m > 0 && a * m >= 0
    ensures Quotient(a + Quotient(x, m), b) == Quotient(a * m + x, b * m)
  {
    MulMonotone(1, b, m);
    MulNonnegative(a, m);
    var q := Quotient(x, m);
    var t := Quotient(a + q, b);
    QuotientBrackets(x, m);
    QuotientBrackets(a + q, b);
    var r, u := x - q * m, a + q - t * b;
    MulDistributes(a, q, m);
    MulDistributes(t * b, u, m);
    MulAssociates(t, b, m);
    MulMonotone(u, b - 1, m);
    MulDistributes(b - 1, 1, m);
    MulNonnegative(u, m);
    assert a * m + x == t * (b * m) + (u * m + r);
    QuotientIs(a * m + x, b * m, t, u * m + r);
  }

  lemma RealProduct(a: int, b: int)
    ensures (a * b) as real == a as real * b as real
  {
  }

  lemma RealCancel(a: real, b: real, c: real)
    requires a * c <= b * c && c > 0.0
    ensures a <= b
  {
  }

  /** x = 86400 v / w lies between q and q + 1 when 86400 v lies between q w and q w + w. */
  lemma RatioBounds(q: real, w: real, f: real, v: real, p: real)
    requires w > 0.0 && p == q * w && f * w == v && p <= 86400.0 * v < p + w
    ensures q <= 86400.0 * f < q + 1.0
  {
    var x := 86400.0 * f;
    assert x * w == 86400.0 * v;
    RealCancel(q, x, w);
    if x >= q + 1.0 {
      RealCancel(q + 1.0, x, w);
      assert false;
    }
  }
}
