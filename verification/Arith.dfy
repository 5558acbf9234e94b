/** Division with remainder, powers and congruences. */
module Arith {

  lemma MulLess(a: int, b: int, n: int)
    requires a < b && n > 0
    ensures a * n + n <= b * n
  {
    assert (b - a - 1) * n >= 0;
  }

  lemma NonNegFactor(x: int, n: int)
    requires n > 0 && x * n >= 0
    ensures x >= 0
  {
    if x < 0 {
      MulLess(x, 0, n);
    }
  }

  /** Quotient and remainder are determined by the division identity. */
  lemma DivModUnique(k: int, n: int, q: int, r: int)
    requires n > 0 && k == q * n + r && 0 <= r < n
    ensures k / n == q && k % n == r
  {
    var q', r' := k / n, k % n;
    assert k == q' * n + r';
    if q' < q {
      MulLess(q', q, n);
    } else if q < q' {
      MulLess(q, q', n);
    }
  }

  /** a * b, under a name that proofs can hide */
  function Times(a: nat, b: nat): nat {
    a * b
  }

  lemma TimesPlus(a: nat, b: nat, c: nat)
    ensures Times(a + b, c) == Times(a, c) + Times(b, c)
  {
  }

  lemma TimesSmall(b: nat)
    ensures Times(0, b) == 0 && Times(1, b) == b
  {
  }

  lemma DivTimes(k: nat, n: nat)
    requires n > 0
    ensures k == Times(k / n, n) + k % n
  {
  }

  lemma TimesCommutes(a: nat, b: nat)
    ensures Times(a, b) == Times(b, a)
  {
  }

  lemma TimesAssociates(a: nat, b: nat, c: nat)
    ensures Times(Times(a, b), c) == Times(a, Times(b, c))
  {
  }

  function Pow3(e: nat): (r: nat)
    ensures r >= 1 && r % 2 == 1
  {
    if e == 0 then 1 else 3 * Pow3(e - 1)
  }

  /** d = 3^t u with u prime to 3, when 3^e does not divide d */
  lemma {:induction false} Valuation3(d: nat, e: nat) returns (t: nat, u: nat)
    requires d % Pow3(e) != 0
    ensures t < e && d == Pow3(t) * u && u % 3 != 0
    decreases e
  {
    if d % 3 != 0 {
      t, u := 0, d;
      assert e != 0 by {
        assert d % 1 == 0;
      }
    } else {
      var k := Pow3(e - 1);
      if (d / 3) % k == 0 {
        var q := (d / 3) / k;
        assert d == q * (3 * k) + 0;
        DivModUnique(d, 3 * k, q, 0);
      }
      t, u := Valuation3(d / 3, e - 1);
      t := t + 1;
      assert d == 3 * (Pow3(t - 1) * u);
    }
  }

  lemma {:induction false} Pow3Plus(s: nat, t: nat)
    ensures Pow3(s + t) == Times(Pow3(s), Pow3(t))
    decreases s
  {
    if s > 0 {
      Pow3Plus(s - 1, t);
      assert Times(3 * Pow3(s - 1), Pow3(t)) == 3 * Times(Pow3(s - 1), Pow3(t));
    }
  }
}
