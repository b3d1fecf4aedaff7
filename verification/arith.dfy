/** Integer helpers for the machine arithmetic of the source. Rust's `/` and `%`
    on signed integers truncate toward zero, whereas Dafny's are Euclidean; the
    truncating forms are written out here. */
module Arith {

  function Abs(x: int): (r: nat)
    ensures r == x || r == -x
  {
    if x < 0 then -x else x
  }

  /** Rust's `a / b` for a positive divisor: the quotient rounded toward zero. */
  function TruncDiv(a: int, b: int): (q: int)
    requires b > 0
    ensures a >= 0 ==> q == a / b
    ensures a >= 0 ==> q * b <= a < q * b + b
    ensures a < 0 ==> q * b - b < a <= q * b
  {
    if a >= 0 then a / b else -((-a) / b)
  }

  /** Rust's `a % b` for a positive divisor: the remainder takes the sign of `a`. */
  function TruncRem(a: int, b: int): (r: int)
    requires b > 0
    ensures a == TruncDiv(a, b) * b + r
    ensures a >= 0 ==> 0 <= r < b && r == a % b
    ensures a < 0 ==> -b < r <= 0
  {
    a - TruncDiv(a, b) * b
  }

  function Pow10(n: nat): (p: nat)
    ensures p >= 1
  {
    if n == 0 then 1 else 10 * Pow10(n - 1)
  }

  /** Ten to a larger power is larger. */
  lemma {:induction false} Pow10Monotone(a: nat, b: nat)
    requires a <= b
    ensures Pow10(a) <= Pow10(b)
    decreases b
  {
    if a < b {
      Pow10Monotone(a, b - 1);
    }
  }

  /** Dividing twice, by `10^n` and then by ten, is dividing once by `10^(n+1)`. */
  lemma {:induction false} DivPow10Step(a: nat, n: nat)
    ensures a / Pow10(n) / 10 == a / Pow10(n + 1)
  {
    var p := Pow10(n);
    var q := a / p;
    var r := a % p;
    var q2 := q / 10;
    var r2 := q % 10;
    assert a == p * q + r;
    assert q == 10 * q2 + r2;
    Distribute(p, q2, r2);
    MulMonotone(p, r2, 9);
    DivUnique(a, 10 * p, q2, p * r2 + r);
  }

  /** `p * (10q + r) == 10p * q + p * r`. */
  lemma Distribute(p: int, q: int, r: int)
    ensures p * (10 * q + r) == (10 * p) * q + p * r
  {
    assert p * (10 * q + r) == p * (10 * q) + p * r;
  }

  lemma DivUnique(a: int, d: int, q: int, r: int)
    requires d > 0 && 0 <= r < d && a == d * q + r
    ensures a / d == q
  {
    var q' := a / d;
    assert a == d * q' + a % d;
    if q' < q {
      MulMonotone(d, q' + 1, q);
      assert false;
    } else if q' > q {
      MulMonotone(d, q + 1, q');
      assert false;
    }
  }

  lemma MulMonotone(d: nat, x: int, y: int)
    requires x <= y
    ensures d * x <= d * y
  {
    assert d * y - d * x == d * (y - x);
  }
}
