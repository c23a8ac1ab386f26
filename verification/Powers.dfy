/** Integer powers and the few facts about products that the other modules share. */
module Powers {

  function Pow(b: nat, e: nat): nat
  {
    if e == 0 then 1 else b * Pow(b, e - 1)
  }

  lemma PowStep(b: nat, e: nat)
    ensures Pow(b, e + 1) == b * Pow(b, e)
  {
  }

  lemma {:induction false} PowPositive(b: nat, e: nat)
    requires 0 < b
    ensures 0 < Pow(b, e)
  {
    if e != 0 {
      PowPositive(b, e - 1);
    }
  }

  lemma {:induction false} PowAdd(b: nat, d: nat, e: nat)
    ensures Pow(b, d + e) == Pow(b, d) * Pow(b, e)
  {
    if d != 0 {
      PowAdd(b, d - 1, e);
      MulAssoc(b, Pow(b, d - 1), Pow(b, e));
    }
  }

  lemma {:induction false} PowMonotone(b: nat, d: nat, e: nat)
    requires 0 < b && d <= e
    ensures Pow(b, d) <= Pow(b, e)
  {
    PowAdd(b, d, e - d);
    PowPositive(b, e - d);
    MulMonotone(Pow(b, d), 1, Pow(b, e - d));
  }

  lemma {:induction false} PowMul(b: nat, d: nat, e: nat)
    ensures Pow(Pow(b, d), e) == Pow(b, d * e)
  {
    if e == 0 {
      assert d * e == 0;
    } else {
      PowMul(b, d, e - 1);
      assert d * e == d + d * (e - 1);
      PowAdd(b, d, d * (e - 1));
    }
  }

  lemma MulAssoc(a: int, b: int, c: int)
    ensures a * b * c == a * (b * c)
  {
  }

  lemma MulMonotone(a: int, b: int, c: int)
    requires 0 <= a && b <= c
    ensures a * b <= a * c
  {
  }

  lemma MulCancel(a: int, b: int, c: int)
    requires 0 < a && a * b <= a * c
    ensures b <= c
  {
    assert a * (c - b) == a * c - a * b;
    if c - b <= -1 {
      MulMonotone(a, c - b, -1);
    }
  }

  /** Quotient and remainder are determined by the division equation. */
  lemma DivModUnique(n: int, d: int, q: int, r: int)
    requires 0 < d && n == q * d + r && 0 <= r < d
    ensures n / d == q && n % d == r
  {
    var q', r' := n / d, n % d;
    assert n == q' * d + r' by {
      assert n == d * (n / d) + n % d;
    }
    assert (q' - q) * d == r - r';
    if q' - q >= 1 {
      MulMonotone(d, 1, q' - q);
    } else if q' - q <= -1 {
      MulMonotone(d, q' - q, -1);
    }
  }

  lemma QuotientAtMost(a: nat, d: nat)
    requires 0 < d
    ensures 0 <= a / d <= a
  {
    assert a == d * (a / d) + a % d;
    if a / d < 0 {
      MulMonotone(d, a / d, -1);
    } else {
      MulMonotone(a / d, 1, d);
    }
  }

  lemma DivDouble(x: nat, p: nat)
    requires 0 < p
    ensures x / (2 * p) == x / 2 / p
  {
    var h := x / 2;
    assert h == p * (h / p) + h % p;
    assert x == (h / p) * (2 * p) + (2 * (h % p) + x % 2);
    DivModUnique(x, 2 * p, h / p, 2 * (h % p) + x % 2);
  }
}
