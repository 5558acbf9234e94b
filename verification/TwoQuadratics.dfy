/** polyselect/twoquadratics.c: lattice reduction of two vectors, and Montgomery's two quadratics. */
module TwoQuadratics {
  import opened Congruence
  import opened Residues
  import opened ModularSquareRoot

  datatype Vec = Vec(x: int, y: int, z: int)

  function Dot(a: Vec, b: Vec): int {
    a.x * b.x + a.y * b.y + a.z * b.z
  }

  function Norm(a: Vec): int {
    Dot(a, a)
  }

  /** a - k b */
  function Minus(a: Vec, k: int, b: Vec): Vec {
    Vec(a.x - k * b.x, a.y - k * b.y, a.z - k * b.z)
  }

  function Combination(u: int, a: Vec, v: int, b: Vec): Vec {
    Vec(u * a.x + v * b.x, u * a.y + v * b.y, u * a.z + v * b.z)
  }

  ghost predicate InLattice(w: Vec, a: Vec, b: Vec) {
    exists u: int, v: int :: w == Combination(u, a, v, b)
  }

  ghost predicate SameLattice(a: Vec, b: Vec, a': Vec, b': Vec) {
    forall w: Vec :: InLattice(w, a, b) <==> InLattice(w, a', b')
  }

  // ---------- Algebra ----------

  lemma DotMinus(a: Vec, k: int, b: Vec, c: Vec)
    ensures Dot(Minus(a, k, b), c) == Dot(a, c) - k * Dot(b, c)
  {
    assert (a.x - k * b.x) * c.x == a.x * c.x - k * (b.x * c.x);
    assert (a.y - k * b.y) * c.y == a.y * c.y - k * (b.y * c.y);
    assert (a.z - k * b.z) * c.z == a.z * c.z - k * (b.z * c.z);
    assert k * (b.x * c.x + b.y * c.y + b.z * c.z) == k * (b.x * c.x) + k * (b.y * c.y) + k * (b.z * c.z);
  }

  lemma DotSwap(a: Vec, b: Vec)
    ensures Dot(a, b) == Dot(b, a)
  {
  }

  lemma NormMinus(a: Vec, k: int, b: Vec)
    ensures Norm(Minus(a, k, b)) == Norm(a) - 2 * (k * Dot(a, b)) + k * (k * Norm(b))
  {
    hide Dot, Minus;
    var m := Minus(a, k, b);
    DotMinus(a, k, b, m);
    DotSwap(a, m);
    DotSwap(b, m);
    DotMinus(a, k, b, a);
    DotMinus(a, k, b, b);
    DotSwap(a, b);
    NormArith(k, Norm(a), Dot(a, b), Norm(b));
  }

  lemma NormArith(k: int, n: int, s: int, d: int)
    ensures (n - k * s) - k * (s - k * d) == n - 2 * (k * s) + k * (k * d)
  {
    assert k * (s - k * d) == k * s - k * (k * d);
  }

  lemma NormPositive(a: Vec)
    ensures Norm(a) >= 0
  {
    assert a.x * a.x >= 0 && a.y * a.y >= 0 && a.z * a.z >= 0;
  }

  /** The determinant of the Gram matrix; it is positive exactly for independent vectors. */
  function Gram(a: Vec, b: Vec): int {
    Norm(a) * Norm(b) - Dot(a, b) * Dot(a, b)
  }

  lemma GramMinus(a: Vec, k: int, b: Vec)
    ensures Gram(Minus(a, k, b), b) == Gram(a, b)
  {
    hide Dot, Minus;
    NormMinus(a, k, b);
    DotMinus(a, k, b, b);
    GramArith(k, Norm(a), Dot(a, b), Norm(b));
  }

  lemma GramArith(k: int, n: int, s: int, d: int)
    ensures (n - 2 * (k * s) + k * (k * d)) * d - (s - k * d) * (s - k * d) == n * d - s * s
  {
    var e := k * d;
    assert (k * s) * d == e * s && (k * (k * d)) * d == e * e by {
      assert (k * (k * d)) * d == (k * e) * d == (k * d) * e;
    }
    assert (n - 2 * (k * s) + k * e) * d == n * d - 2 * ((k * s) * d) + (k * e) * d;
    assert (s - e) * (s - e) == s * s - 2 * (e * s) + e * e;
  }

  lemma GramSwap(a: Vec, b: Vec)
    ensures Gram(a, b) == Gram(b, a)
  {
    hide Dot;
    DotSwap(a, b);
  }

  lemma Independent(a: Vec, b: Vec)
    requires Gram(a, b) > 0
    ensures Norm(a) > 0 && Norm(b) > 0
  {
    hide Dot;
    NormPositive(a);
    NormPositive(b);
    SquareNonNegative(Dot(a, b));
    assert Norm(b) == 0 ==> Norm(a) * Norm(b) == 0;
    assert Norm(a) == 0 ==> Norm(a) * Norm(b) == 0;
  }

  lemma SquareNonNegative(s: int)
    ensures s * s >= 0
  {
  }

  // ---------- The lattice ----------

  lemma LatticeStep(w: Vec, a: Vec, k: int, b: Vec)
    requires InLattice(w, Minus(a, k, b), b)
    ensures InLattice(w, a, b)
  {
    var u: int, v: int :| w == Combination(u, Minus(a, k, b), v, b);
    LatticeArith(u, a.x, k, b.x, v);
    LatticeArith(u, a.y, k, b.y, v);
    LatticeArith(u, a.z, k, b.z, v);
    assert w == Combination(u, a, v - u * k, b);
  }

  lemma LatticeArith(u: int, x: int, k: int, y: int, v: int)
    ensures u * (x - k * y) + v * y == u * x + (v - u * k) * y
  {
    assert u * (k * y) == (u * k) * y;
  }

  lemma MinusBack(a: Vec, k: int, b: Vec)
    ensures Minus(Minus(a, k, b), -k, b) == a
  {
    assert (-k) * b.x == -(k * b.x) && (-k) * b.y == -(k * b.y) && (-k) * b.z == -(k * b.z);
  }

  lemma LatticeKept(a: Vec, k: int, b: Vec)
    ensures SameLattice(a, b, Minus(a, k, b), b)
  {
    hide Minus, InLattice;
    forall w: Vec ensures InLattice(w, a, b) <==> InLattice(w, Minus(a, k, b), b) {
      if InLattice(w, Minus(a, k, b), b) {
        LatticeStep(w, a, k, b);
      }
      if InLattice(w, a, b) {
        MinusBack(a, k, b);
        LatticeStep(w, Minus(a, k, b), -k, b);
      }
    }
  }

  lemma LatticeSwap(a: Vec, b: Vec)
    ensures SameLattice(a, b, b, a)
  {
    forall w: Vec ensures InLattice(w, a, b) <==> InLattice(w, b, a) {
      if InLattice(w, a, b) {
        var u: int, v: int :| w == Combination(u, a, v, b);
        assert w == Combination(v, b, u, a);
      }
      if InLattice(w, b, a) {
        var u: int, v: int :| w == Combination(u, b, v, a);
        assert w == Combination(v, a, u, b);
      }
    }
  }

  lemma LatticeTrans(a: Vec, b: Vec, a': Vec, b': Vec, a'': Vec, b'': Vec)
    requires SameLattice(a, b, a', b') && SameLattice(a', b', a'', b'')
    ensures SameLattice(a, b, a'', b'')
  {
    hide InLattice;
  }

  // ---------- One reduction ----------

  /** What a reduction of a by b does: k is the nearest integer to a.b / |b|^2, the smaller one for a tie.
      If k is not 0, a gets shorter, or it stays as long and a.b turns from negative to positive. */
  ghost predicate Reduced(a: Vec, b: Vec, k: int, a': Vec) {
    && a' == Minus(a, k, b)
    && 2 * Dot(a', b) <= Norm(b) && -Norm(b) < 2 * Dot(a', b)
    && (k != 0 ==> Norm(a') < Norm(a) || (Norm(a') == Norm(a) && Dot(a, b) < 0 < Dot(a', b)))
  }

  /** s = k d + r with -d/2 < r <= d/2: how much shorter a gets */
  lemma ShorterArith(k: int, s: int, d: int, r: int)
    requires d > 0 && s == k * d + r && 2 * r <= d && -d < 2 * r && k != 0
    ensures var change := 2 * (k * s) - k * (k * d); change > 0 || (change == 0 && s < 0 < r)
  {
    ChangeArith(k, s, d, r);
    MultipleSize(k, d);
    ProductSign(k, k * d + 2 * r);
  }

  lemma ChangeArith(k: int, s: int, d: int, r: int)
    requires s == k * d + r
    ensures 2 * (k * s) - k * (k * d) == k * (k * d + 2 * r)
  {
    assert k * s == k * (k * d) + k * r;
    assert k * (2 * r) == 2 * (k * r);
  }

  lemma ProductSign(x: int, y: int)
    ensures x > 0 && y > 0 ==> x * y > 0
    ensures x < 0 && y < 0 ==> x * y > 0
    ensures y == 0 ==> x * y == 0
  {
  }

  /** reduction: the floor of a.b / |b|^2, or one more if that makes a shorter */
  method Reduction(a: Vec, b: Vec) returns (k: int, a': Vec)
    requires Norm(b) > 0
    ensures Reduced(a, b, k, a')
  {
    hide Dot, Minus;
    var n, d := Dot(a, b), Norm(b);
    k := n / d;
    var X1 := Minus(a, k, b);
    var norm1 := Norm(X1);
    var X2 := Minus(X1, 1, b);
    var norm2 := Norm(X2);
    NormMinus(X1, 1, b);
    DotMinus(a, k, b, b);
    DotMinus(X1, 1, b, b);
    assert n == k * d + n % d;
    if norm1 > norm2 {
      k := k + 1;
      a' := X2;
      MinusTwice(a, k - 1, b);
    } else {
      a' := X1;
    }
    NormMinus(a, k, b);
    DotMinus(a, k, b, b);
    if k != 0 {
      ShorterArith(k, n, d, Dot(a', b));
    }
  }

  lemma MinusTwice(a: Vec, k: int, b: Vec)
    ensures Minus(Minus(a, k, b), 1, b) == Minus(a, k + 1, b)
  {
    assert (k + 1) * b.x == k * b.x + b.x && (k + 1) * b.y == k * b.y + b.y && (k + 1) * b.z == k * b.z + b.z;
  }

  // ---------- The whole reduction ----------

  function Negative(a: Vec, b: Vec): nat {
    if Dot(a, b) < 0 then 1 else 0
  }

  function Abs(x: int): int {
    if x < 0 then -x else x
  }

  lemma ReducedKeeps(a: Vec, b: Vec, k: int, a': Vec)
    requires Reduced(a, b, k, a') && Gram(a, b) > 0
    ensures Gram(a', b) > 0 && SameLattice(a, b, a', b) && Norm(a') <= Norm(a)
    ensures k == 0 ==> a' == a
    ensures k != 0 ==> Norm(a') < Norm(a) || (Norm(a') == Norm(a) && Negative(a', b) < Negative(a, b))
  {
    hide Dot, SameLattice;
    GramMinus(a, k, b);
    LatticeKept(a, k, b);
    if k == 0 {
      MinusNothing(a, b);
    }
  }

  lemma MinusNothing(a: Vec, b: Vec)
    ensures Minus(a, 0, b) == a
  {
  }

  /** LLL: ends with vectors of the same lattice that neither reduction changes. */
  method LLL(a0: Vec, b0: Vec) returns (a: Vec, b: Vec)
    requires Gram(a0, b0) > 0
    ensures SameLattice(a0, b0, a, b) && Gram(a, b) > 0
    ensures 2 * Abs(Dot(a, b)) <= Norm(a) && 2 * Abs(Dot(a, b)) <= Norm(b)
  {
    hide Dot, SameLattice, Reduced, Gram;
    a, b := a0, b0;
    LatticeKept(a, 0, b);
    MinusNothing(a, b);
    var k, l := 1, 1;
    while k != 0 || l != 0
      invariant SameLattice(a0, b0, a, b) && Gram(a, b) > 0
      invariant k == 0 && l == 0 ==> 2 * Abs(Dot(a, b)) <= Norm(a) && 2 * Abs(Dot(a, b)) <= Norm(b)
      decreases Size(a, b), Negative(a, b), if k != 0 || l != 0 then 1 else 0
    {
      ghost var a1, b1 := a, b;
      Independent(a, b);
      k, a := Reduction(a, b);
      ReducedKeeps(a1, b, k, a);
      LatticeTrans(a0, b0, a1, b, a, b);
      GramSwap(a, b);
      Independent(a, b);
      l, b := Reduction(b, a);
      ReducedKeeps(b1, a, l, b);
      LatticeSwaps(a, b1, b);
      LatticeTrans(a0, b0, a, b1, a, b);
      GramSwap(b, a);
      Sizes(a1, b1, a, b);
      if l == 0 {
        NearBoth(a1, b1, a, b, k, l);
      }
    }
  }

  function Size(a: Vec, b: Vec): nat {
    NormPositive(a);
    NormPositive(b);
    Norm(a) + Norm(b)
  }

  lemma LatticeSwaps(a: Vec, b: Vec, b': Vec)
    requires SameLattice(b, a, b', a)
    ensures SameLattice(a, b, a, b')
  {
    hide InLattice;
    LatticeSwap(a, b);
    LatticeSwap(b', a);
  }

  lemma Sizes(a1: Vec, b1: Vec, a: Vec, b: Vec)
    ensures Negative(a, b1) == Negative(b1, a) && Negative(a, b) == Negative(b, a) && Negative(a1, b1) == Negative(b1, a1)
  {
    DotSwap(a, b1);
    DotSwap(a, b);
    DotSwap(a1, b1);
  }

  lemma NearBoth(a1: Vec, b1: Vec, a: Vec, b: Vec, k: int, l: int)
    requires Reduced(a1, b1, k, a) && Reduced(b1, a, l, b) && l == 0
    ensures b == b1 && 2 * Abs(Dot(a, b)) <= Norm(a) && 2 * Abs(Dot(a, b)) <= Norm(b)
  {
    MinusNothing(b1, a);
    DotSwap(a, b);
  }

  // ---------- Two quadratics ----------

  /** c = (p, c1, c2) with c1^2 - p c2 = N */
  ghost predicate IsTriple(c: Vec, N: int, p: int) {
    c.x == p && c.y * c.y - p * c.z == N
  }

  /** The quadratic a.x + a.y X + a.z X^2 vanishes at c1/p modulo N: p^2 times its value there is a multiple of N. */
  ghost predicate HasRoot(a: Vec, c1: int, p: int, N: int) {
    Divides(N, a.x * (p * p) + a.y * (c1 * p) + a.z * (c1 * c1))
  }

  lemma OrthogonalRoot(a: Vec, c: Vec, N: int, p: int)
    requires IsTriple(c, N, p) && Dot(a, c) == 0
    ensures HasRoot(a, c.y, p, N)
  {
    RootArith(a.x, a.y, a.z, p, c.y, c.z, N);
    DividesBy(N, a.x * (p * p) + a.y * (c.y * p) + a.z * (c.y * c.y), a.z);
  }

  lemma RootArith(x: int, y: int, z: int, p: int, c1: int, c2: int, N: int)
    requires x * p + y * c1 + z * c2 == 0 && c1 * c1 - p * c2 == N
    ensures x * (p * p) + y * (c1 * p) + z * (c1 * c1) == z * N
  {
    assert (x * p + y * c1 + z * c2) * p == 0;
    assert x * (p * p) == (x * p) * p && y * (c1 * p) == (y * c1) * p;
    assert z * (c1 * c1) == z * N + z * (p * c2) && z * (p * c2) == (z * c2) * p;
  }

  lemma DotCombination(u: int, a: Vec, v: int, b: Vec, c: Vec)
    ensures Dot(Combination(u, a, v, b), c) == u * Dot(a, c) + v * Dot(b, c)
  {
    CoordinateArith(u, a.x, v, b.x, c.x);
    CoordinateArith(u, a.y, v, b.y, c.y);
    CoordinateArith(u, a.z, v, b.z, c.z);
    assert u * (a.x * c.x + a.y * c.y + a.z * c.z) == u * (a.x * c.x) + u * (a.y * c.y) + u * (a.z * c.z);
    assert v * (b.x * c.x + b.y * c.y + b.z * c.z) == v * (b.x * c.x) + v * (b.y * c.y) + v * (b.z * c.z);
  }

  lemma CoordinateArith(u: int, x: int, v: int, y: int, c: int)
    ensures (u * x + v * y) * c == u * (x * c) + v * (y * c)
  {
  }

  /** Reduction stays in the plane orthogonal to c. */
  lemma StaysOrthogonal(a0: Vec, b0: Vec, a: Vec, b: Vec, c: Vec)
    requires SameLattice(a0, b0, a, b) && Dot(a0, c) == 0 && Dot(b0, c) == 0
    ensures Dot(a, c) == 0 && Dot(b, c) == 0
  {
    hide Dot;
    assert a == Combination(1, a, 0, b) && b == Combination(0, a, 1, b);
    assert InLattice(a, a, b) && InLattice(b, a, b);
    var u: int, v: int :| a == Combination(u, a0, v, b0);
    var s: int, t: int :| b == Combination(s, a0, t, b0);
    DotCombination(u, a0, v, b0, c);
    DotCombination(s, a0, t, b0, c);
  }

  lemma FirstGram(c1: int, p: int, b0: int, b1: int)
    requires p > 0
    ensures Gram(Vec(c1, -p, 0), Vec(b0, b1, 1)) > 0
  {
    GramIdentity(c1, p, b0, b1);
    SquareNonNegative(c1 * b1 + p * b0);
    SquareNonNegative(c1);
    assert p * p > 0;
  }

  lemma GramIdentity(c1: int, p: int, b0: int, b1: int)
    ensures Gram(Vec(c1, -p, 0), Vec(b0, b1, 1)) == (c1 * b1 + p * b0) * (c1 * b1 + p * b0) + c1 * c1 + p * p
  {
    var a, b := Vec(c1, -p, 0), Vec(b0, b1, 1);
    var A, B, C, D := c1 * c1, p * p, b0 * b0, b1 * b1;
    assert Norm(a) == A + B && Norm(b) == C + D + 1 && Dot(a, b) == c1 * b0 - p * b1;
    assert (A + B) * (C + D + 1) == A * C + A * D + A + B * C + B * D + B;
    SquareOfDifference(c1 * b0, p * b1);
    SquareOfSum(c1 * b1, p * b0);
    SwapFactors(c1, b0, c1, b0);
    SwapFactors(p, b1, p, b1);
    SwapFactors(c1, b1, c1, b1);
    SwapFactors(p, b0, p, b0);
    assert (c1 * b0) * (p * b1) == (c1 * b1) * (p * b0) by {
      SwapFactors(c1, b0, p, b1);
      SwapFactors(c1, b1, p, b0);
    }
  }

  lemma SquareOfDifference(x: int, y: int)
    ensures (x - y) * (x - y) == x * x - 2 * (x * y) + y * y
  {
  }

  lemma SquareOfSum(x: int, y: int)
    ensures (x + y) * (x + y) == x * x + 2 * (x * y) + y * y
  {
  }

  /** The sign of the root and multiples of p do not matter. */
  lemma ShiftedRoot(N: int, p: int, r: int, c: int, q: int)
    requires p > 0 && Cong(r * r, N, p) && (c == r || c == -r)
    ensures Cong((c + q * p) * (c + q * p), N, p)
  {
    hide Cong;
    assert c * c == r * r;
    CongShift(c, q, p);
    CongTimes(c + q * p, c, c + q * p, c, p);
    CongTrans((c + q * p) * (c + q * p), c * c, N, p);
  }

  lemma CongDivides(x: int, y: int, p: int)
    requires Cong(x, y, p)
    ensures Divides(p, x - y)
  {
  }

  lemma CongShift(c: int, q: int, p: int)
    ensures Cong(c + q * p, c, p)
  {
    DividesBy(p, q * p, q);
  }

  lemma ExactQuotient(x: int, p: int)
    requires p > 0 && Divides(p, x)
    ensures x == (x / p) * p
  {
    DividesMod(p, x);
  }

  lemma RootCoprime(N: int, p: int, c: int)
    requires QuadraticResidue(N, p) && Cong(c * c, N, p)
    ensures Coprime(c, p)
  {
    CongSwap(c * c, N, p);
    CoprimeCong(N, c * c, p);
    SquareCoprime(c, p);
  }

  lemma SecondVector(c1: int, c2: int, p: int, inverse: int)
    requires p > 0 && Cong(c1 * inverse, 1, p)
    ensures Cong(c1 * ((inverse * c2) % p), c2, p) && Divides(p, c1 * ((inverse * c2) % p) - c2)
  {
    var y := inverse * c2;
    CongMod(y, p);
    CongSame(c1, p);
    CongTimes(c1, c1, y % p, y, p);
    CongSame(c2, p);
    CongTimes(c1 * inverse, 1, c2, c2, p);
    assert c1 * y == (c1 * inverse) * c2;
    CongTrans(c1 * (y % p), c1 * y, c2, p);
  }

  lemma BothOrthogonal(c1: int, c2: int, p: int, X: int, x: int)
    requires c1 * x - c2 == X * p
    ensures Dot(Vec(c1, -p, 0), Vec(p, c1, c2)) == 0 && Dot(Vec(X, -x, 1), Vec(p, c1, c2)) == 0
  {
    assert (-p) * c1 == -(c1 * p) && (-x) * c1 == -(c1 * x);
  }

  /** The quadratics orthogonal to c = (p, c1, c2) are the lattice of (c1, -p, 0) and (X, -x, 1). */
  lemma OrthogonalLattice(c: Vec, X: int, x: int, v: Vec)
    requires c.x > 0 && Coprime(c.y, c.x) && c.y * x - c.z == X * c.x
    ensures InLattice(v, Vec(c.y, -c.x, 0), Vec(X, -x, 1)) <==> Dot(v, c) == 0
  {
    hide Coprime;
    var a, b := Vec(c.y, -c.x, 0), Vec(X, -x, 1);
    BothOrthogonal(c.y, c.z, c.x, X, x);
    if InLattice(v, a, b) {
      var u: int, w: int :| v == Combination(u, a, w, b);
      DotCombination(u, a, w, b, c);
    }
    if Dot(v, c) == 0 {
      InThePlane(c, X, x, v);
    }
  }

  lemma InThePlane(c: Vec, X: int, x: int, v: Vec)
    requires c.x > 0 && Coprime(c.y, c.x) && c.y * x - c.z == X * c.x && Dot(v, c) == 0
    ensures InLattice(v, Vec(c.y, -c.x, 0), Vec(X, -x, 1))
  {
    hide Coprime, Divides;
    var wx, wy := v.x - v.z * X, v.y + v.z * x;
    PlaneArith(v.x, v.y, v.z, c.x, c.y, c.z, X, x);
    DividesBy(c.x, c.y * wy, -wx);
    Cancel(c.y, wy, c.x);
    var k := Factor(c.x, wy);
    assert (wx + k * c.y) * c.x == 0 by {
      assert (k * c.y) * c.x == c.y * (k * c.x);
      assert (wx + k * c.y) * c.x == wx * c.x + (k * c.y) * c.x;
    }
    ZeroProduct(wx + k * c.y, c.x);
    var u := -k;
    assert v == Combination(u, Vec(c.y, -c.x, 0), v.z, Vec(X, -x, 1)) by {
      assert u * c.y == -(k * c.y) && u * (-c.x) == k * c.x;
    }
  }

  lemma PlaneArith(x: int, y: int, z: int, p: int, c1: int, c2: int, X: int, b: int)
    requires x * p + y * c1 + z * c2 == 0 && c1 * b - c2 == X * p
    ensures c1 * (y + z * b) == -(x - z * X) * p
  {
    assert c1 * (y + z * b) == y * c1 + z * (c1 * b);
    assert z * (c1 * b) == z * c2 + z * (X * p);
    assert (x - z * X) * p == x * p - z * (X * p);
  }

  lemma ZeroProduct(x: int, p: int)
    requires p > 0 && x * p == 0
    ensures x == 0
  {
  }

  // ---------- Reduced vectors are short ----------

  lemma NormCombination(u: int, a: Vec, v: int, b: Vec)
    ensures Norm(Combination(u, a, v, b)) == (u * u) * Norm(a) + 2 * ((u * v) * Dot(a, b)) + (v * v) * Norm(b)
  {
    hide Dot, Combination;
    var w := Combination(u, a, v, b);
    DotCombination(u, a, v, b, w);
    DotSwap(a, w);
    DotSwap(b, w);
    DotCombination(u, a, v, b, a);
    DotCombination(u, a, v, b, b);
    DotSwap(a, b);
    FormArith(u, v, Norm(a), Dot(a, b), Norm(b));
  }

  lemma FormArith(u: int, v: int, A: int, B: int, C: int)
    ensures u * (u * A + v * B) + v * (u * B + v * C) == (u * u) * A + 2 * ((u * v) * B) + (v * v) * C
  {
    assert u * (u * A + v * B) == (u * u) * A + (u * v) * B;
    assert v * (u * B + v * C) == (u * v) * B + (v * v) * C;
  }

  lemma FormBound(u: int, v: int, A: int, B: int, C: int, m: int)
    requires m > 0 && m <= A && m <= C && 2 * Abs(B) <= m && (u != 0 || v != 0)
    ensures (u * u) * A + 2 * ((u * v) * B) + (v * v) * C >= m
  {
    var x, y := Abs(u), Abs(v);
    AbsSquare(u);
    AbsSquare(v);
    SquareNonNegative(u);
    SquareNonNegative(v);
    CrossTerm(u, v, B, m);
    Scaled(u * u, A, m);
    Scaled(v * v, C, m);
    SquaresAbove(x, y);
    FormSum(x * x, x * y, y * y, m);
  }

  lemma FormSum(p: int, q: int, r: int, m: int)
    requires p - q + r >= 1 && m > 0
    ensures p * m - q * m + r * m >= m
  {
    assert (p - q + r - 1) * m >= 0;
    assert (p - q + r - 1) * m == p * m - q * m + r * m - m;
  }

  lemma Scaled(p: int, A: int, m: int)
    requires p >= 0 && A >= m
    ensures p * A >= p * m
  {
    assert p * (A - m) >= 0;
  }

  lemma AbsSquare(u: int)
    ensures u * u == Abs(u) * Abs(u) && Abs(u) >= 0
  {
  }

  lemma SquaresAbove(x: int, y: int)
    requires x >= 0 && y >= 0 && (x > 0 || y > 0)
    ensures x * x - x * y + y * y >= 1
  {
    if x >= y {
      assert x * (x - y) >= 0 && x * x - x * y == x * (x - y);
      if y == 0 {
        assert x * x >= 1;
      } else {
        assert y * y >= 1;
      }
    } else {
      assert y * (y - x) >= 0 && y * y - x * y == y * (y - x);
      if x == 0 {
        assert y * y >= 1;
      } else {
        assert x * x >= 1;
      }
    }
  }

  lemma CrossTerm(u: int, v: int, B: int, m: int)
    requires 2 * Abs(B) <= m
    ensures 2 * ((u * v) * B) >= -((Abs(u) * Abs(v)) * m)
  {
    var n, b := Abs(u) * Abs(v), Abs(B);
    AbsTimes(u, v);
    AbsTimes(u * v, B);
    Scaled(n, m, 2 * b);
    assert n * (2 * b) == 2 * (n * b);
  }

  lemma AbsTimes(u: int, v: int)
    ensures Abs(u * v) == Abs(u) * Abs(v) && Abs(u) * Abs(v) >= 0
  {
    var x, y := Abs(u), Abs(v);
    assert x * y >= 0;
    assert u * v == x * y || u * v == -(x * y) by {
      if u == x {
        assert u * v == x * y || u * v == -(x * y) by {
          if v != y {
            assert x * (-y) == -(x * y);
          }
        }
      } else {
        assert (-x) * y == -(x * y) && (-x) * (-y) == x * y;
      }
    }
  }

  /** No vector of the lattice but 0 is shorter than both of two reduced vectors. */
  lemma ShortestVectors(a: Vec, b: Vec, w: Vec)
    requires Gram(a, b) > 0 && 2 * Abs(Dot(a, b)) <= Norm(a) && 2 * Abs(Dot(a, b)) <= Norm(b)
    requires InLattice(w, a, b) && w != Vec(0, 0, 0)
    ensures Norm(w) >= Norm(a) || Norm(w) >= Norm(b)
  {
    var u: int, v: int :| w == Combination(u, a, v, b);
    hide Dot;
    Independent(a, b);
    NormCombination(u, a, v, b);
    FormBound(u, v, Norm(a), Dot(a, b), Norm(b), if Norm(a) <= Norm(b) then Norm(a) else Norm(b));
  }

  /** c = (p, c1, c2), and a and b span the quadratics that are orthogonal to c. */
  ghost predicate SpansOrthogonal(a: Vec, b: Vec, c: Vec, N: int, p: int) {
    IsTriple(c, N, p) && forall v: Vec :: InLattice(v, a, b) <==> Dot(v, c) == 0
  }

  /** The second half of TQponctuel: reduced quadratics with the root c1/p */
  method FromRoot(N: int, p: int, c1: int) returns (a: Vec, b: Vec, c2: int)
    requires p > 1 && Cong(c1 * c1, N, p) && Coprime(c1, p)
    ensures HasRoot(a, c1, p, N) && HasRoot(b, c1, p, N) && SpansOrthogonal(a, b, Vec(p, c1, c2), N, p)
    ensures Gram(a, b) > 0 && 2 * Abs(Dot(a, b)) <= Norm(a) && 2 * Abs(Dot(a, b)) <= Norm(b)
  {
    hide Dot, Gram, HasRoot, InLattice, SameLattice, Cong, Coprime;
    c2 := c1 * c1 - N;
    c2 := c2 / p;
    CongDivides(c1 * c1, N, p);
    ExactQuotient(c1 * c1 - N, p);
    a := Vec(c1, -p, 0);
    var X := Invert(c1, p);
    ghost var inverse := X;
    X := X * c2;
    X := X % p;
    ghost var x := X;
    var b1 := -X;
    SecondVector(c1, c2, p, inverse);
    X := c1 * X;
    X := X - c2;
    X := X / p;
    ExactQuotient(c1 * x - c2, p);
    b := Vec(X, b1, 1);
    FirstGram(c1, p, X, b1);
    BothOrthogonal(c1, c2, p, X, x);
    ghost var a0, b0 := a, b;
    a, b := LLL(a, b);
    ghost var t := Vec(p, c1, c2);
    StaysOrthogonal(a0, b0, a, b, t);
    OrthogonalRoot(a, t, N, p);
    OrthogonalRoot(b, t, N, p);
    LatticeOf(a0, b0, a, b, t, X, x);
  }

  /** c1 is the number congruent to c that is nearest to z. */
  lemma Rounded(z: int, c: int, p: int)
    requires p > 0
    ensures var c1 := c + ((z + p / 2 - c) / p) * p; -(p / 2) <= z - c1 < p - p / 2 && Cong(c1, c, p)
  {
    var y := z + p / 2 - c;
    var q := y / p;
    assert y == q * p + y % p;
    CongShift(c, q, p);
  }

  /** TQponctuel: two reduced quadratics with the common root c1/p modulo N; c1 is the number nearest to z that is the root
      of N modulo p (i = 0) or its negative (i = 1). z stands for the integer square root of N. */
  method TwoQuadraticPolynomials(N: int, p: int, z: int, i: int) returns (a: Vec, b: Vec, c1: int, c2: int)
    requires Prime(p) && QuadraticResidue(N, p)
    ensures HasRoot(a, c1, p, N) && HasRoot(b, c1, p, N) && Cong(c1 * c1, N, p)
    ensures Gram(a, b) > 0 && 2 * Abs(Dot(a, b)) <= Norm(a) && 2 * Abs(Dot(a, b)) <= Norm(b)
    ensures var r := Root(N, p);
      0 <= r < p && Cong(r * r, N, p) && Cong(c1, if i == 1 then -r else r, p) && -(p / 2) <= z - c1 < p - p / 2
    ensures SpansOrthogonal(a, b, Vec(p, c1, c2), N, p)
    ensures forall v: Vec :: InLattice(v, a, b) && v != Vec(0, 0, 0) ==> Norm(v) >= Norm(a) || Norm(v) >= Norm(b)
  {
    hide Dot, Gram, HasRoot, InLattice, SpansOrthogonal, QuadraticResidue, Cong, Coprime, Root;
    PrimePositive(p);
    var r := SquareRootMod(N, p);
    c1 := r;
    if i == 1 {
      c1 := -c1;
    }
    ghost var c := c1;
    var X := z + p / 2;
    X := X - c1;
    X := X / p;
    ghost var q := X;
    X := X * p;
    c1 := c1 + X;
    Rounded(z, c, p);
    ShiftedRoot(N, p, r, c, q);
    RootCoprime(N, p, c1);
    a, b, c2 := FromRoot(N, p, c1);
    forall v: Vec | InLattice(v, a, b) && v != Vec(0, 0, 0) ensures Norm(v) >= Norm(a) || Norm(v) >= Norm(b) {
      ShortestVectors(a, b, v);
    }
  }

  lemma LatticeOf(a0: Vec, b0: Vec, a: Vec, b: Vec, c: Vec, X: int, x: int)
    requires SameLattice(a0, b0, a, b) && c.x > 0 && Coprime(c.y, c.x) && c.y * x - c.z == X * c.x
    requires a0 == Vec(c.y, -c.x, 0) && b0 == Vec(X, -x, 1)
    ensures forall v: Vec :: InLattice(v, a, b) <==> Dot(v, c) == 0
  {
    hide Dot, InLattice, Coprime;
    forall v: Vec ensures InLattice(v, a, b) <==> Dot(v, c) == 0 {
      OrthogonalLattice(c, X, x, v);
    }
  }
}
