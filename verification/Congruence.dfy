/** Divisibility, congruences, coprimality and primes. */
module Congruence {

  /** k * m, under a name that proofs can hide */
  function Scale(k: int, m: int): int {
    k * m
  }

  ghost predicate Divides(m: int, x: int) {
    exists k: int :: x == Scale(k, m)
  }

  ghost predicate Cong(a: int, b: int, m: int) {
    Divides(m, a - b)
  }

  lemma DividesBy(m: int, x: int, k: int)
    requires x == k * m
    ensures Divides(m, x)
  {
    assert x == Scale(k, m);
  }

  lemma Factor(m: int, x: int) returns (k: int)
    requires Divides(m, x)
    ensures x == k * m
  {
    k :| x == Scale(k, m);
  }

  lemma DividesPlus(m: int, x: int, y: int)
    requires Divides(m, x) && Divides(m, y)
    ensures Divides(m, x + y) && Divides(m, x - y) && Divides(m, -x)
  {
    var j := Factor(m, x);
    var k := Factor(m, y);
    DividesBy(m, x + y, j + k);
    DividesBy(m, x - y, j - k);
    DividesBy(m, -x, -j);
  }

  lemma DividesTimes(m: int, x: int, y: int)
    requires Divides(m, x)
    ensures Divides(m, x * y) && Divides(m, y * x)
  {
    var k := Factor(m, x);
    assert (k * m) * y == (k * y) * m;
    DividesBy(m, x * y, k * y);
  }

  lemma DividesTrans(a: int, b: int, c: int)
    requires Divides(a, b) && Divides(b, c)
    ensures Divides(a, c)
  {
    var j := Factor(a, b);
    var k := Factor(b, c);
    assert k * (j * a) == (k * j) * a;
    DividesBy(a, c, k * j);
  }

  lemma DividesMod(m: int, x: int)
    requires m > 0
    ensures Divides(m, x) <==> x % m == 0
  {
    if x % m == 0 {
      DividesBy(m, x, x / m);
    }
    if Divides(m, x) {
      var k := Factor(m, x);
      ModOfMultiple(k, m);
    }
  }

  lemma MultipleSize(k: int, m: int)
    requires m > 0
    ensures (k >= 1 ==> k * m >= m) && (k <= -1 ==> k * m <= -m)
  {
    if k >= 1 {
      assert (k - 1) * m >= 0;
    }
    if k <= -1 {
      assert (-1 - k) * m >= 0;
    }
  }

  lemma ModOfMultiple(k: int, m: int)
    requires m > 0
    ensures (k * m) % m == 0
  {
    var q, r := (k * m) / m, (k * m) % m;
    assert (k - q) * m == r;
    MultipleSize(k - q, m);
  }

  /** A multiple of m that is smaller than m is 0. */
  lemma SmallMultiple(m: int, x: int)
    requires Divides(m, x) && -m < x < m
    ensures x == 0
  {
    var k := Factor(m, x);
    MultipleSize(k, m);
  }

  // ---------- Congruences ----------

  lemma CongSame(a: int, m: int)
    ensures Cong(a, a, m)
  {
    DividesBy(m, 0, 0);
  }

  lemma CongSwap(a: int, b: int, m: int)
    requires Cong(a, b, m)
    ensures Cong(b, a, m)
  {
    DividesPlus(m, a - b, a - b);
  }

  lemma CongTrans(a: int, b: int, c: int, m: int)
    requires Cong(a, b, m) && Cong(b, c, m)
    ensures Cong(a, c, m)
  {
    DividesPlus(m, a - b, b - c);
  }

  lemma CongPlus(a: int, b: int, c: int, d: int, m: int)
    requires Cong(a, b, m) && Cong(c, d, m)
    ensures Cong(a + c, b + d, m) && Cong(a - c, b - d, m)
  {
    DividesPlus(m, a - b, c - d);
    assert (a - b) + (c - d) == (a + c) - (b + d);
    assert (a - b) - (c - d) == (a - c) - (b - d);
  }

  lemma CongTimes(a: int, b: int, c: int, d: int, m: int)
    requires Cong(a, b, m) && Cong(c, d, m)
    ensures Cong(a * c, b * d, m)
  {
    DividesTimes(m, a - b, c);
    DividesTimes(m, c - d, b);
    DividesPlus(m, (a - b) * c, (c - d) * b);
    assert (a - b) * c + (c - d) * b == a * c - b * d;
  }

  lemma CongMod(a: int, m: int)
    requires m > 0
    ensures Cong(a % m, a, m) && Cong(a, a % m, m)
  {
    assert a == (a / m) * m + a % m;
    DividesBy(m, a % m - a, -(a / m));
    DividesBy(m, a - a % m, a / m);
  }

  /** Residues between 0 and m - 1 that are congruent are equal. */
  lemma CongResidues(a: int, b: int, m: int)
    requires m > 0 && Cong(a, b, m) && 0 <= a < m && 0 <= b < m
    ensures a == b
  {
    SmallMultiple(m, a - b);
  }

  function Pow(x: int, n: nat): int {
    if n == 0 then 1 else x * Pow(x, n - 1)
  }

  lemma {:induction false} PowPlus(x: int, m: nat, n: nat)
    ensures Pow(x, m + n) == Pow(x, m) * Pow(x, n)
    decreases m
  {
    if m > 0 {
      PowPlus(x, m - 1, n);
      assert x * (Pow(x, m - 1) * Pow(x, n)) == (x * Pow(x, m - 1)) * Pow(x, n);
    }
  }

  lemma {:induction false} PowOfProduct(x: int, y: int, n: nat)
    ensures Pow(x * y, n) == Pow(x, n) * Pow(y, n)
    decreases n
  {
    if n > 0 {
      PowOfProduct(x, y, n - 1);
      SwapFactors(x, y, Pow(x, n - 1), Pow(y, n - 1));
    }
  }

  lemma SwapFactors(x: int, y: int, a: int, b: int)
    ensures (x * y) * (a * b) == (x * a) * (y * b)
  {
    assert (x * y) * (a * b) == x * (y * (a * b)) == x * (a * (y * b));
  }

  lemma {:induction false} CongPow(a: int, b: int, n: nat, m: int)
    requires Cong(a, b, m)
    ensures Cong(Pow(a, n), Pow(b, n), m)
    decreases n
  {
    if n == 0 {
      CongSame(1, m);
    } else {
      CongPow(a, b, n - 1, m);
      CongTimes(a, b, Pow(a, n - 1), Pow(b, n - 1), m);
    }
  }

  lemma {:induction false} PowOne(n: nat)
    ensures Pow(1, n) == 1
    decreases n
  {
    if n > 0 {
      PowOne(n - 1);
    }
  }

  // ---------- Coprime numbers ----------

  /** Some combination of a and b is 1. */
  ghost predicate Coprime(a: int, b: int) {
    exists u: int, v: int :: Scale(u, a) + Scale(v, b) == 1
  }

  lemma CoprimeBy(a: int, b: int, u: int, v: int)
    requires u * a + v * b == 1
    ensures Coprime(a, b)
  {
    assert Scale(u, a) + Scale(v, b) == 1;
  }

  lemma Bezout(a: int, b: int) returns (u: int, v: int)
    requires Coprime(a, b)
    ensures u * a + v * b == 1
  {
    u, v :| Scale(u, a) + Scale(v, b) == 1;
  }

  lemma CoprimeSwap(a: int, b: int)
    requires Coprime(a, b)
    ensures Coprime(b, a)
  {
    var u, v := Bezout(a, b);
    CoprimeBy(b, a, v, u);
  }

  lemma CoprimeOne(b: int)
    ensures Coprime(1, b)
  {
    CoprimeBy(1, b, 1, 0);
  }

  /** a and b coprime to m: so is a b. */
  lemma CoprimeProduct(a: int, b: int, m: int)
    requires Coprime(a, m) && Coprime(b, m)
    ensures Coprime(a * b, m)
  {
    var u, v := Bezout(a, m);
    var s, t := Bezout(b, m);
    ProductBezout(a, b, m, u, v, s, t);
    CoprimeBy(a * b, m, u * s, u * a * t + v);
  }

  lemma ProductBezout(a: int, b: int, m: int, u: int, v: int, s: int, t: int)
    requires u * a + v * m == 1 && s * b + t * m == 1
    ensures (u * s) * (a * b) + (u * a * t + v) * m == 1
  {
    assert (u * a) * (s * b + t * m) + v * m == 1;
    assert (u * a) * (s * b) == (u * s) * (a * b);
    assert (u * a) * (t * m) == (u * a * t) * m;
    assert (u * a) * (s * b + t * m) == (u * a) * (s * b) + (u * a) * (t * m);
  }

  lemma {:induction false} CoprimePow(a: int, n: nat, m: int)
    requires Coprime(a, m)
    ensures Coprime(Pow(a, n), m)
    decreases n
  {
    if n == 0 {
      CoprimeOne(m);
    } else {
      CoprimePow(a, n - 1, m);
      CoprimeProduct(a, Pow(a, n - 1), m);
    }
  }

  /** A factor coprime to m can be cancelled. */
  lemma Cancel(a: int, x: int, m: int)
    requires Coprime(a, m) && Divides(m, a * x)
    ensures Divides(m, x)
  {
    var u, v := Bezout(a, m);
    var k := Factor(m, a * x);
    CancelArith(a, x, m, u, v, k);
    DividesBy(m, x, u * k + v * x);
  }

  lemma CancelArith(a: int, x: int, m: int, u: int, v: int, k: int)
    requires u * a + v * m == 1 && a * x == k * m
    ensures x == (u * k + v * x) * m
  {
    assert (u * a + v * m) * x == x;
    assert (u * a) * x == u * (a * x) == u * (k * m) == (u * k) * m;
    assert (v * m) * x == (v * x) * m;
  }

  lemma CongCancel(a: int, x: int, y: int, m: int)
    requires Coprime(a, m) && Cong(a * x, a * y, m)
    ensures Cong(x, y, m)
  {
    assert a * x - a * y == a * (x - y);
    Cancel(a, x - y, m);
  }

  /** Two coprime divisors: so is their product. */
  lemma ProductDivides(a: int, b: int, x: int)
    requires Coprime(a, b) && Divides(a, x) && Divides(b, x)
    ensures Divides(a * b, x)
  {
    var k := Factor(b, x);
    assert x == k * b == b * k;
    CoprimeSwap(a, b);
    Cancel(b, k, a);
    var j := Factor(a, k);
    assert (j * a) * b == j * (a * b);
    DividesBy(a * b, x, j);
  }

  lemma CoprimeCong(a: int, b: int, m: int)
    requires Coprime(a, m) && Cong(a, b, m)
    ensures Coprime(b, m)
  {
    var u, v := Bezout(a, m);
    var k := Factor(m, a - b);
    assert u * (b + k * m) + v * m == u * b + (u * k + v) * m by {
      assert u * (k * m) == (u * k) * m;
    }
    CoprimeBy(b, m, u, u * k + v);
  }

  /** The inverse modulo p, as mpz_invert gives it */
  method Invert(c: int, p: int) returns (x: int)
    requires p > 1 && Coprime(c, p)
    ensures 0 <= x < p && Cong(c * x, 1, p)
  {
    ghost var w := InverseExists(c, p);
    x := 0;
    while (c * x) % p != 1
      invariant 0 <= x <= w < p && (c * w) % p == 1
      decreases w - x
    {
      x := x + 1;
    }
    CongMod(c * x, p);
  }

  lemma InverseExists(c: int, p: int) returns (w: int)
    requires p > 1 && Coprime(c, p)
    ensures 0 <= w < p && (c * w) % p == 1
  {
    var u, v := Bezout(c, p);
    w := u % p;
    CongMod(u, p);
    CongSame(c, p);
    CongTimes(c, c, w, u, p);
    assert c * u - 1 == (-v) * p;
    DividesBy(p, c * u - 1, -v);
    CongTrans(c * w, c * u, 1, p);
    CongMod(c * w, p);
    CongTrans((c * w) % p, c * w, 1, p);
    CongResidues((c * w) % p, 1, p);
  }

  // ---------- Primes ----------

  ghost predicate Prime(p: int) {
    p >= 2 && forall d: int :: 1 < d < p ==> p % d != 0
  }

  /** The greatest common divisor, with its combination */
  lemma {:induction false} Gcd(a: nat, b: nat) returns (g: nat, u: int, v: int)
    requires a > 0 || b > 0
    ensures g > 0 && Divides(g, a) && Divides(g, b) && u * a + v * b == g
    decreases b
  {
    if b == 0 {
      g, u, v := a, 1, 0;
      DividesBy(g, a, 1);
      DividesBy(g, 0, 0);
    } else {
      var s, t;
      g, s, t := Gcd(b, a % b);
      var q := a / b;
      assert a == q * b + a % b;
      u, v := t, s - t * q;
      assert u * a + v * b == t * (q * b + a % b) + (s - t * q) * b == s * b + t * (a % b) by {
        assert t * (q * b) == (t * q) * b;
      }
      DividesTimes(g, b, q);
      DividesPlus(g, q * b, a % b);
    }
  }

  lemma PrimeCoprime(p: int, x: int)
    requires Prime(p) && !Divides(p, x)
    ensures Coprime(x, p)
  {
    var r := x % p;
    var g, u, v := Gcd(r, p);
    var k := Factor(g, p);
    if g == p {
      DividesMod(p, r);
      SmallMultiple(p, r);
      DividesMod(p, x);
    } else {
      if g > p {
        SmallMultiple(g, p);
      }
      if 1 < g < p {
        DividesMod(g, p);
      }
      CoprimeBy(r, p, u, v);
      CongMod(x, p);
      CoprimeCong(r, x, p);
    }
  }

  lemma PrimeDivides(p: int, x: int, y: int)
    requires Prime(p) && Divides(p, x * y)
    ensures Divides(p, x) || Divides(p, y)
  {
    if !Divides(p, x) {
      PrimeCoprime(p, x);
      Cancel(x, y, p);
    }
  }

  lemma CoprimeFactor(a: int, b: int, m: int)
    requires Coprime(a * b, m)
    ensures Coprime(a, m) && Coprime(b, m)
  {
    var u, v := Bezout(a * b, m);
    assert u * (a * b) == (u * b) * a == (u * a) * b;
    CoprimeBy(a, m, u * b, v);
    CoprimeBy(b, m, u * a, v);
  }

  lemma CoprimeBoth(a: int, m: int, n: int)
    requires Coprime(a, m) && Coprime(a, n)
    ensures Coprime(a, m * n)
  {
    CoprimeSwap(a, m);
    CoprimeSwap(a, n);
    CoprimeProduct(m, n, a);
    CoprimeSwap(m * n, a);
  }

  /** A congruence modulo p, times p, is one modulo p^2. */
  lemma CongScaled(a: int, b: int, p: int, k: int)
    requires Cong(a, b, p)
    ensures Cong(a * (k * p), b * (k * p), p * p)
  {
    var j := Factor(p, a - b);
    assert a * (k * p) - b * (k * p) == (a - b) * (k * p) == (j * p) * (k * p);
    SwapFactors(j, p, k, p);
    DividesBy(p * p, (j * p) * (k * p), j * k);
  }

  lemma SquareDivides(p: int, b: int)
    requires Divides(p, b)
    ensures Divides(p * p, b * b)
  {
    var k := Factor(p, b);
    SwapFactors(k, p, k, p);
    DividesBy(p * p, b * b, k * k);
  }

  lemma CongCoarser(a: int, b: int, m: int, n: int)
    requires Cong(a, b, n) && Divides(m, n)
    ensures Cong(a, b, m)
  {
    DividesTrans(m, n, a - b);
  }

  /** (a + b)^d = a^d + d a^(d-1) b modulo b^2 */
  lemma {:induction false} PowOfSum(a: int, b: int, d: nat)
    requires d >= 1
    ensures Cong(Pow(a + b, d), Pow(a, d) + (d * Pow(a, d - 1)) * b, b * b)
    decreases d
  {
    if d == 1 {
      assert Pow(a, 0) == 1 && Pow(a + b, 0) == 1;
      CongSame(a + b, b * b);
    } else {
      PowOfSum(a, b, d - 1);
      var A := Pow(a, d - 2);
      var k := Factor(b * b, Pow(a + b, d - 1) - (Pow(a, d - 1) + ((d - 1) * A) * b));
      PowOfSumArith(a, b, d, A, k, Pow(a + b, d - 1));
      DividesBy(b * b, Pow(a + b, d) - (Pow(a, d) + (d * Pow(a, d - 1)) * b), k * (a + b) + (d - 1) * A);
    }
  }

  lemma PowOfSumArith(a: int, b: int, d: int, A: int, k: int, P: int)
    requires P - (a * A + ((d - 1) * A) * b) == k * (b * b)
    ensures (a + b) * P - (a * (a * A) + (d * (a * A)) * b) == (k * (a + b) + (d - 1) * A) * (b * b)
  {
    var e := (d - 1) * A;
    var B := b * b;
    assert P == a * A + e * b + k * B;
    assert a * (e * b) == (a * e) * b && b * (e * b) == e * B && a * (k * B) == (k * a) * B && b * (k * B) == (k * b) * B by {
      assert b * (e * b) == e * (b * b);
    }
    assert (a + b) * P == a * (a * A) + a * (e * b) + a * (k * B) + b * (a * A) + b * (e * b) + b * (k * B);
    assert d * (a * A) == (d - 1) * (a * A) + a * A;
    assert (d - 1) * (a * A) == a * e;
    assert (k * (a + b) + e) * B == (k * a) * B + (k * b) * B + e * B;
  }
}
