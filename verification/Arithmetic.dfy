/** The few nonlinear facts the models need, proved once. */
module Arithmetic {

  lemma MulMonotone(b: nat, x: nat, y: nat)
    requires x <= y
    ensures b * x <= b * y
    ensures x < y ==> b * x + b <= b * y
  {
    var d := y - x;
    assert b * y == b * x + b * d;
    if d > 0 {
      assert b * d == b * (d - 1) + b;
    }
  }

  /** Quotient and remainder are unique. */
  lemma DivModUnique(x: nat, a: nat, q: nat, r: nat)
    requires r < a && x == a * q + r
    ensures x / a == q && x % a == r
  {
    var q', r' := x / a, x % a;
    assert x == a * q' + r';
    if q < q' {
      MulMonotone(a, q, q');
    } else if q' < q {
      MulMonotone(a, q', q);
    }
  }

  lemma MultipleTimes(b: nat, c: nat, a: nat)
    requires a > 0 && b % a == 0
    ensures b * c % a == 0
  {
    var q := b / a;
    assert b == a * q;
    assert b * c == a * (q * c) by {
      assert (a * q) * c == a * (q * c);
    }
    DivModUnique(b * c, a, q * c, 0);
  }

  lemma SumOfMultiples(x: nat, y: nat, a: nat)
    requires a > 0 && x % a == 0 && y % a == 0
    ensures (x + y) % a == 0
  {
    var p, q := x / a, y / a;
    assert x == a * p && y == a * q;
    assert a * (p + q) == a * p + a * q;
    DivModUnique(x + y, a, p + q, 0);
  }

  /** `c > max / b` is an exact test for `b * c > max`. */
  lemma DivisionTest(b: nat, c: nat, max: nat)
    requires b > 0
    ensures c > max / b <==> b * c > max
  {
    var q := max / b;
    assert max == b * q + max % b;
    if c <= q {
      MulMonotone(b, c, q);
    } else {
      MulMonotone(b, q, c);
    }
  }

  lemma RoundDown(x: nat, a: nat)
    requires a > 0
    ensures x / a * a % a == 0
    ensures x - a < x / a * a <= x
  {
    var q := x / a;
    assert x == a * q + x % a;
    MultipleTimes(a, q, a);
    assert q * a == a * q;
  }

  /** n * b, one summand at a time. */
  function Times(n: nat, b: nat): nat {
    if n == 0 then 0 else Times(n - 1, b) + b
  }

  lemma {:induction false} TimesIsProduct(n: nat, b: nat)
    ensures Times(n, b) == n * b
  {
    if n > 0 {
      TimesIsProduct(n - 1, b);
      assert n * b == (n - 1) * b + b;
    }
  }
}
