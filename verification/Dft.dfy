/** Discrete Fourier transforms over GF(2)[x]/(x^(2N)+x^N+1), with a power of x as root of unity. */
module Dft {
  import opened Gf2
  import opened Gf2Poly
  import opened FftRing
  import opened FftSums
  import opened Arith

  function At(a: seq<Poly>, n: nat): Poly {
    if n < |a| then a[n] else {}
  }

  ghost predicate AllBelow(a: seq<Poly>, N: nat) {
    forall n :: 0 <= n < |a| ==> Below(a[n], 2 * N)
  }

  function Terms(a: seq<Poly>, u: nat, N: nat): nat -> Poly {
    (n: nat) => XPow(At(a, n), Times(n, u), N)
  }

  /** The value of the polynomial sum of a[n] y^n at y = x^u */
  function Eval(a: seq<Poly>, u: nat, N: nat): Poly {
    Sum(Terms(a, u, N), |a|)
  }

  /** The transform of a with root x^j: its values at the powers of x^j. */
  function Transform(a: seq<Poly>, j: nat, N: nat): seq<Poly> {
    seq(|a|, f requires 0 <= f < |a| => Eval(a, Times(f, j), N))
  }

  lemma EvalBelow(a: seq<Poly>, u: nat, N: nat)
    requires AllBelow(a, N)
    ensures Below(Eval(a, u, N), 2 * N)
  {
    forall n | 0 <= n < |a| ensures Below(Terms(a, u, N)(n), 2 * N) {
      XPowBelow(a[n], Times(n, u), N);
    }
    SumBelow(Terms(a, u, N), |a|, 2 * N);
  }

  /** x^u only depends on u mod 3N. */
  lemma EvalPeriod(a: seq<Poly>, u: nat, t: nat, N: nat)
    requires AllBelow(a, N) && N >= 1
    ensures Eval(a, u + Times(t, 3 * N), N) == Eval(a, u, N)
  {
    hide XPow, Sum, Times;
    forall n | 0 <= n < |a| ensures Terms(a, u + Times(t, 3 * N), N)(n) == Terms(a, u, N)(n) {
      TimesCommutes(n, u + Times(t, 3 * N));
      TimesPlus(u, Times(t, 3 * N), n);
      TimesCommutes(u, n);
      TimesCommutes(Times(t, 3 * N), n);
      TimesAssociates(n, t, 3 * N);
      XPowPeriods(a[n], Times(n, t), Times(n, u), N);
    }
    SumEq(Terms(a, u + Times(t, 3 * N), N), Terms(a, u, N), |a|);
  }

  /** Every third element, from r on. */
  function Third(a: seq<Poly>, r: nat): seq<Poly>
    requires |a| % 3 == 0 && r < 3
  {
    seq(|a| / 3, i requires 0 <= i < |a| / 3 => a[3 * i + r])
  }

  lemma TermThird(a: seq<Poly>, u: nat, N: nat, r: nat, i: nat)
    requires |a| % 3 == 0 && r < 3 && i < |a| / 3
    ensures Terms(a, u, N)(3 * i + r) == XPow(Terms(Third(a, r), 3 * u, N)(i), Times(r, u), N)
  {
    assert At(a, 3 * i + r) == At(Third(a, r), i);
    hide XPow;
    assert Times(3 * i + r, u) == Times(i, 3 * u) + Times(r, u);
    XPowXPow(At(a, 3 * i + r), Times(i, 3 * u), Times(r, u), N);
  }

  function ThirdTerms(a: seq<Poly>, u: nat, N: nat, r: nat): nat -> Poly {
    (i: nat) => Terms(a, u, N)(3 * i + r)
  }

  lemma ThirdSum(a: seq<Poly>, u: nat, N: nat, r: nat)
    requires |a| % 3 == 0 && r < 3
    ensures Sum(ThirdTerms(a, u, N, r), |a| / 3) == XPow(Eval(Third(a, r), 3 * u, N), Times(r, u), N)
  {
    hide XPow, Times, Terms;
    var g, h := ThirdTerms(a, u, N, r), Terms(Third(a, r), 3 * u, N);
    forall i | 0 <= i < |a| / 3 ensures g(i) == XPow(h(i), Times(r, u), N) {
      TermThird(a, u, N, r, i);
    }
    SumXPow(h, g, |a| / 3, Times(r, u), N);
  }

  /** The decimation step. */
  lemma EvalThirds(a: seq<Poly>, u: nat, N: nat)
    requires |a| % 3 == 0
    ensures Eval(a, u, N) == Xor(Xor(Eval(Third(a, 0), 3 * u, N), XPow(Eval(Third(a, 1), 3 * u, N), u, N)),
                                 XPow(Eval(Third(a, 2), 3 * u, N), 2 * u, N))
  {
    hide Xor, Times, Terms, XPow;
    SumThirds(Terms(a, u, N), ThirdTerms(a, u, N, 0), ThirdTerms(a, u, N, 1), ThirdTerms(a, u, N, 2), |a| / 3);
    ThirdSum(a, u, N, 0);
    ThirdSum(a, u, N, 1);
    ThirdSum(a, u, N, 2);
    TimesSmall(u);
    TimesPlus(1, 1, u);
    XPowNone(Eval(Third(a, 0), 3 * u, N), N);
  }

  lemma XPowNone(a: Poly, N: nat)
    ensures XPow(a, 0, N) == a
  {
  }

  // ---------- Orthogonality ----------

  /** x^j is a root of unity of order 3^e, with (x^j)^(3^(e-1)) = x^N. */
  ghost predicate IsRoot(j: nat, e: nat, N: nat) {
    N >= 1 && e >= 1 && 1 <= j && Times(Pow3(e - 1), j) == N
  }

  /** The exponent of the inverse root */
  function Inverse(j: nat, N: nat): nat {
    if j <= 3 * N then 3 * N - j else 0
  }

  lemma RootSmall(j: nat, e: nat, N: nat)
    requires IsRoot(j, e, N)
    ensures j <= N
  {
    assert Pow3(e - 1) * j >= j;
  }

  /** Exponent of the term of index f in the sum over f of (x^j)^(f s) (x^-j)^(f n) */
  function Phase(s: nat, n: nat, j: nat, N: nat): nat {
    Times(s, j) + Times(n, Inverse(j, N))
  }

  lemma RootPeriod(j: nat, e: nat, N: nat)
    requires IsRoot(j, e, N)
    ensures Times(Pow3(e), j) == 3 * N
  {
    TimesAssociates(3, Pow3(e - 1), j);
  }

  lemma PhaseSame(n: nat, j: nat, N: nat)
    requires j <= N
    ensures Phase(n, n, j, N) == Times(n, 3 * N)
  {
    TimesCommutes(n, j);
    TimesCommutes(n, Inverse(j, N));
    TimesPlus(j, Inverse(j, N), n);
    TimesCommutes(3 * N, n);
  }

  lemma PhaseMultiple(s: nat, n: nat, j: nat, e: nat, N: nat) returns (q: nat)
    requires IsRoot(j, e, N) && j <= N && n < Pow3(e) && s < 2 * Pow3(e) && s % Pow3(e) == n
    ensures Phase(s, n, j, N) == Times(q, 3 * N)
  {
    var K := Pow3(e);
    PhaseSame(n, j, N);
    if s < K {
      DivModUnique(s, K, 0, s);
      q := n;
    } else {
      DivModUnique(s, K, 1, s - K);
      hide Times;
      RootPeriod(j, e, N);
      TimesPlus(n, K, j);
      TimesPlus(n, 1, 3 * N);
      TimesSmall(3 * N);
      q := n + 1;
    }
  }

  lemma NotMultiple(s: nat, n: nat, K: nat)
    requires K >= 1 && n < K && s % K != n
    ensures s >= n ==> (s - n) % K != 0
    ensures s < n ==> (n - s) % K != 0
  {
    if s >= n && (s - n) % K == 0 {
      var q := (s - n) / K;
      assert s == q * K + n;
      DivModUnique(s, K, q, n);
    }
    if s < n && (n - s) % K == 0 {
      DivModUnique(n - s, K, 0, n - s);
    }
  }

  lemma PhaseCubeRoot(s: nat, n: nat, j: nat, e: nat, N: nat) returns (t: nat, q: nat, rho: nat)
    requires IsRoot(j, e, N) && j <= N && n < Pow3(e) && s % Pow3(e) != n
    ensures t < e && 1 <= rho <= 2
    ensures Times(Pow3(e - 1 - t), Phase(s, n, j, N)) == Times(q, 3 * N) + rho * N
  {
    NotMultiple(s, n, Pow3(e));
    var u;
    t, u := Valuation3(if s >= n then s - n else n - s, e);
    var B := Pow3(e - 1 - t);
    Pow3Plus(t, e - 1 - t);
    var iu: int := u;
    var su: int := if s >= n then iu else -iu;
    SignedProduct(iu, Pow3(t));
    var z := su + 3 * (n * B);
    ThirdResidue(iu, n * B);
    PhaseScaled(s, n, j, N, B, Pow3(t), s - n, su, z);
    q, rho := z / 3, z % 3;
    SplitThirds(z, N);
  }

  lemma SignedProduct(u: int, p: int)
    ensures p * u == u * p && (-u) * p == -(p * u)
  {
  }

  lemma ThirdResidue(u: int, w: int)
    requires u % 3 != 0
    ensures (u + 3 * w) % 3 != 0 && (-u + 3 * w) % 3 != 0
  {
  }

  lemma SplitThirds(z: nat, N: nat)
    ensures z * N == Times(z / 3, 3 * N) + (z % 3) * N
  {
    assert (3 * (z / 3) + z % 3) * N == (z / 3) * (3 * N) + (z % 3) * N;
  }

  lemma PhaseScaled(s: nat, n: nat, j: nat, N: nat, B: nat, P: nat, d: int, su: int, z: int)
    requires j <= N && 1 <= N && Times(Times(P, B), j) == N && d == s - n == su * P && z == su + 3 * (n * B)
    ensures B * Phase(s, n, j, N) == z * N && z >= 0
  {
    var E := Phase(s, n, j, N);
    assert E == d * j + n * (3 * N);
    assert B * (d * j) == su * (P * B * j) by {
      assert B * (su * P * j) == su * (P * B * j);
    }
    assert B * (n * (3 * N)) == 3 * (n * B) * N;
    assert B * E == su * N + 3 * (n * B) * N;
    assert z < 0 ==> z * N < 0;
  }

  /** The sum over f of c (x^j)^(f s) (x^-j)^(f n) is c if s = n mod K, and 0 otherwise. */
  lemma Orthogonality(c: Poly, s: nat, n: nat, j: nat, e: nat, N: nat)
    requires IsRoot(j, e, N) && j <= N && n < Pow3(e) && s < 2 * Pow3(e) && Below(c, 2 * N)
    ensures Sum(Geometric(c, Phase(s, n, j, N), N), Pow3(e)) == if s % Pow3(e) == n then c else {}
  {
    hide Sum, Geometric, Phase, Times, Pow3;
    var E := Phase(s, n, j, N);
    if s % Pow3(e) == n {
      var q := PhaseMultiple(s, n, j, e, N);
      GeometricConstant(c, E, q, N, Pow3(e));
    } else {
      var t, q, rho := PhaseCubeRoot(s, n, j, e, N);
      GeometricCancels(c, E, Pow3(e - 1 - t), q, rho, N, Pow3(t));
      Pow3Split(t, e);
    }
  }

  lemma Pow3Split(t: nat, e: nat)
    requires t < e
    ensures Pow3(e) == Times(Pow3(t), 3 * Pow3(e - 1 - t))
  {
    Pow3Plus(t, e - t);
  }

  // ---------- The inverse transform and products ----------

  /** The values at the powers (x^j)^f of the polynomial with coefficients c(l) in degrees off+l */
  function Values(c: nat -> Poly, off: nat, j: nat, N: nat, K: nat): nat -> Poly {
    (f: nat) => Sum((l: nat) => XPow(c(l), Times(f, Times(off + l, j)), N), K)
  }

  function Weighted(v: nat -> Poly, u: nat, N: nat): nat -> Poly {
    (f: nat) => XPow(v(f), Times(f, u), N)
  }

  function Kept(c: nat -> Poly, off: nat, n: nat, K: nat): nat -> Poly {
    (l: nat) => if K >= 1 && (off + l) % K == n then c(l) else {}
  }

  /** The term of c(l) at the power f, as weighted for the coefficient n */
  function Term(c: nat -> Poly, off: nat, n: nat, j: nat, N: nat, f: nat, l: nat): Poly {
    XPow(c(l), Times(f, Phase(off + l, n, j, N)), N)
  }

  lemma PhaseTimes(s: nat, n: nat, j: nat, N: nat, f: nat)
    ensures Times(f, Phase(s, n, j, N)) == Times(f, Times(s, j)) + Times(f, Times(n, Inverse(j, N)))
  {
    hide Times;
    TimesCommutes(f, Phase(s, n, j, N));
    TimesPlus(Times(s, j), Times(n, Inverse(j, N)), f);
    TimesCommutes(Times(s, j), f);
    TimesCommutes(Times(n, Inverse(j, N)), f);
  }

  lemma WeightedValue(c: nat -> Poly, off: nat, n: nat, j: nat, N: nat, K: nat, f: nat, row: nat -> Poly)
    requires forall l: nat :: row(l) == Term(c, off, n, j, N, f, l)
    ensures Weighted(Values(c, off, j, N, K), Times(n, Inverse(j, N)), N)(f) == Sum(row, K)
  {
    hide Sum, XPow, Times;
    var inner := (l: nat) => XPow(c(l), Times(f, Times(off + l, j)), N);
    var w := Times(f, Times(n, Inverse(j, N)));
    forall l: nat ensures row(l) == XPow(inner(l), w, N) {
      PhaseTimes(off + l, n, j, N, f);
      XPowXPow(c(l), Times(f, Times(off + l, j)), w, N);
    }
    SumXPow(inner, row, K, w, N);
  }

  lemma Column(c: nat -> Poly, off: nat, n: nat, j: nat, e: nat, N: nat, l: nat, col: nat -> Poly)
    requires IsRoot(j, e, N) && j <= N && n < Pow3(e) && off < Pow3(e) && l < Pow3(e) && Below(c(l), 2 * N)
    requires forall f: nat :: col(f) == Term(c, off, n, j, N, f, l)
    ensures Sum(col, Pow3(e)) == Kept(c, off, n, Pow3(e))(l)
  {
    hide Sum, XPow, Times, Phase;
    SumEq(col, Geometric(c(l), Phase(off + l, n, j, N), N), Pow3(e));
    Orthogonality(c(l), off + l, n, j, e, N);
  }

  /** Evaluating the values at the inverse root keeps the coefficients whose degree is n mod K. */
  lemma Filter(c: nat -> Poly, off: nat, n: nat, j: nat, e: nat, N: nat)
    requires IsRoot(j, e, N) && j <= N && n < Pow3(e) && off < Pow3(e)
    requires forall l :: 0 <= l < Pow3(e) ==> Below(c(l), 2 * N)
    ensures Sum(Weighted(Values(c, off, j, N, Pow3(e)), Times(n, Inverse(j, N)), N), Pow3(e))
         == Sum(Kept(c, off, n, Pow3(e)), Pow3(e))
  {
    hide Sum, Times, Values, Weighted, Term, Kept;
    var K := Pow3(e);
    var g := (f: nat, l: nat) => Term(c, off, n, j, N, f, l);
    var rows := (f: nat) => Sum((l: nat) => g(f, l), K);
    var cols := (l: nat) => Sum((f: nat) => g(f, l), K);
    forall f | 0 <= f < K
      ensures Weighted(Values(c, off, j, N, K), Times(n, Inverse(j, N)), N)(f) == rows(f)
    {
      WeightedValue(c, off, n, j, N, K, f, (l: nat) => g(f, l));
    }
    SumEq(Weighted(Values(c, off, j, N, K), Times(n, Inverse(j, N)), N), rows, K);
    SumSwap(g, K, K);
    forall l | 0 <= l < K ensures cols(l) == Kept(c, off, n, K)(l) {
      Column(c, off, n, j, e, N, l, (f: nat) => g(f, l));
    }
    SumEq(cols, Kept(c, off, n, K), K);
  }

  function Coefficients(a: seq<Poly>): nat -> Poly {
    (l: nat) => At(a, l)
  }

  lemma ExponentSwap(l: nat, f: nat, j: nat)
    ensures Times(l, Times(f, j)) == Times(f, Times(l, j))
  {
    hide Times;
    TimesAssociates(l, f, j);
    TimesCommutes(l, f);
    TimesAssociates(f, l, j);
  }

  lemma EvalIsValue(a: seq<Poly>, j: nat, N: nat, f: nat)
    ensures Eval(a, Times(f, j), N) == Values(Coefficients(a), 0, j, N, |a|)(f)
  {
    hide Sum, XPow, Times;
    var g := (l: nat) => XPow(Coefficients(a)(l), Times(f, Times(0 + l, j)), N);
    forall l: nat ensures Terms(a, Times(f, j), N)(l) == g(l) {
      ExponentSwap(l, f, j);
      assert 0 + l == l && Coefficients(a)(l) == At(a, l);
      assert g(l) == XPow(At(a, l), Times(f, Times(l, j)), N);
    }
    SumEq(Terms(a, Times(f, j), N), g, |a|);
  }

  lemma {:induction false} SumSingle(f: nat -> Poly, n: nat, k: nat)
    requires forall i :: 0 <= i < n && i != k ==> f(i) == {}
    ensures Sum(f, n) == if k < n then f(k) else {}
    decreases n
  {
    if n > 0 {
      SumSingle(f, n - 1, k);
    }
  }

  /** The transform with the inverse root undoes the transform, with no scaling since K is odd. */
  lemma InverseTransform(a: seq<Poly>, j: nat, e: nat, N: nat)
    requires IsRoot(j, e, N) && |a| == Pow3(e) && AllBelow(a, N)
    ensures Transform(Transform(a, j, N), Inverse(j, N), N) == a
  {
    var X := Transform(a, j, N);
    forall n | 0 <= n < |a| ensures Eval(X, Times(n, Inverse(j, N)), N) == a[n] {
      InverseCoefficient(a, j, e, N, n);
    }
  }

  lemma InverseCoefficient(a: seq<Poly>, j: nat, e: nat, N: nat, n: nat)
    requires IsRoot(j, e, N) && |a| == Pow3(e) && AllBelow(a, N) && n < |a|
    ensures Eval(Transform(a, j, N), Times(n, Inverse(j, N)), N) == a[n]
  {
    hide XPow, Times, Values;
    var X, u := Transform(a, j, N), Times(n, Inverse(j, N));
    var v := Values(Coefficients(a), 0, j, N, |a|);
    forall f | 0 <= f < |a| ensures Terms(X, u, N)(f) == Weighted(v, u, N)(f) {
      EvalIsValue(a, j, N, f);
    }
    SumEq(Terms(X, u, N), Weighted(v, u, N), |a|);
    RootSmall(j, e, N);
    Filter(Coefficients(a), 0, n, j, e, N);
    forall l | 0 <= l < |a| ensures Kept(Coefficients(a), 0, n, |a|)(l) == if l == n then a[n] else {} {
      DivModUnique(l, |a|, 0, l);
    }
    SumSingle(Kept(Coefficients(a), 0, n, |a|), |a|, n);
  }

  // ---------- Products ----------

  /** Elementwise products */
  function Pointwise(x: seq<Poly>, y: seq<Poly>, N: nat): seq<Poly>
    requires |x| == |y|
  {
    seq(|x|, f requires 0 <= f < |x| => RingMul(x[f], y[f], N))
  }

  function RowProducts(a: seq<Poly>, b: seq<Poly>, N: nat, m: nat): nat -> Poly {
    (l: nat) => RingMul(At(a, m), At(b, l), N)
  }

  /** Coefficient n of the product of the polynomials a and b in y, modulo y^K - 1:
      the sum of a[m] b[l] over m + l = n mod K */
  function CyclicCoefficient(a: seq<Poly>, b: seq<Poly>, N: nat, n: nat): Poly {
    Sum((m: nat) => Sum(Kept(RowProducts(a, b, N, m), m, n, |a|), |a|), |a|)
  }

  function CyclicProduct(a: seq<Poly>, b: seq<Poly>, N: nat): seq<Poly> {
    seq(|a|, n requires 0 <= n < |a| => CyclicCoefficient(a, b, N, n))
  }

  lemma PairProduct(a: seq<Poly>, b: seq<Poly>, j: nat, N: nat, f: nat, m: nat, l: nat)
    requires AllBelow(a, N) && AllBelow(b, N) && N >= 1 && m < |a| && l < |b|
    ensures RingMul(Terms(a, Times(f, j), N)(m), Terms(b, Times(f, j), N)(l), N)
         == XPow(RowProducts(a, b, N, m)(l), Times(f, Times(m + l, j)), N)
  {
    hide XPow, Times, RingMul;
    RingMulXPows(a[m], b[l], Times(m, Times(f, j)), Times(l, Times(f, j)), N);
    TimesPlus(m, l, Times(f, j));
    ExponentSwap(m + l, f, j);
  }

  lemma RowProduct(a: seq<Poly>, b: seq<Poly>, j: nat, N: nat, f: nat, m: nat)
    requires AllBelow(a, N) && AllBelow(b, N) && N >= 1 && m < |a|
    ensures RingMul(Terms(a, Times(f, j), N)(m), Eval(b, Times(f, j), N), N)
         == Values(RowProducts(a, b, N, m), m, j, N, |b|)(f)
  {
    hide XPow, Times, RingMul, Sum, RowProducts;
    var t := Terms(b, Times(f, j), N);
    var g := (l: nat) => XPow(RowProducts(a, b, N, m)(l), Times(f, Times(m + l, j)), N);
    forall l | 0 <= l < |b| ensures g(l) == RingMul(Terms(a, Times(f, j), N)(m), t(l), N) {
      PairProduct(a, b, j, N, f, m, l);
    }
    SumRingMul(Terms(a, Times(f, j), N)(m), t, g, |b|, N);
  }

  lemma TermBelow(a: seq<Poly>, u: nat, N: nat, m: nat)
    requires AllBelow(a, N) && m < |a|
    ensures Below(Terms(a, u, N)(m), 2 * N)
  {
    XPowBelow(a[m], Times(m, u), N);
  }

  /** A product of values is the sum of the values of the row products. */
  lemma ProductValue(a: seq<Poly>, b: seq<Poly>, j: nat, N: nat, f: nat, rows: nat -> Poly)
    requires AllBelow(a, N) && AllBelow(b, N) && N >= 1
    requires forall m :: 0 <= m < |a| ==> rows(m) == Values(RowProducts(a, b, N, m), m, j, N, |b|)(f)
    ensures RingMul(Eval(a, Times(f, j), N), Eval(b, Times(f, j), N), N) == Sum(rows, |a|)
  {
    hide XPow, Times, RingMul, Values, Terms;
    var u := Times(f, j);
    var y := Eval(b, u, N);
    EvalBelow(a, u, N);
    EvalBelow(b, u, N);
    forall m | 0 <= m < |a| ensures rows(m) == RingMul(y, Terms(a, u, N)(m), N) {
      RowProduct(a, b, j, N, f, m);
      TermBelow(a, u, N, m);
      RingMulCommutes(Terms(a, u, N)(m), y, N);
    }
    SumRingMul(y, Terms(a, u, N), rows, |a|, N);
    RingMulCommutes(Eval(a, u, N), y, N);
  }

  lemma {:induction false} SumOfWeighted(rows: (nat, nat) -> Poly, u: nat, f: nat, M: nat, N: nat, g: nat -> Poly)
    requires forall m :: 0 <= m < M ==> g(m) == XPow(rows(m, f), Times(f, u), N)
    ensures Sum(g, M) == XPow(Sum((m: nat) => rows(m, f), M), Times(f, u), N)
  {
    SumXPow((m: nat) => rows(m, f), g, M, Times(f, u), N);
  }

  lemma ProductCoefficient(a: seq<Poly>, b: seq<Poly>, j: nat, e: nat, N: nat, n: nat)
    requires IsRoot(j, e, N) && |a| == |b| == Pow3(e) && AllBelow(a, N) && AllBelow(b, N) && n < |a|
    ensures Eval(Pointwise(Transform(a, j, N), Transform(b, j, N), N), Times(n, Inverse(j, N)), N)
         == CyclicCoefficient(a, b, N, n)
  {
    hide XPow, Times, Values, RingMul, Sum, RowProducts, Kept;
    var K, u := |a|, Times(n, Inverse(j, N));
    var C := Pointwise(Transform(a, j, N), Transform(b, j, N), N);
    var rows := (m: nat, f: nat) => Values(RowProducts(a, b, N, m), m, j, N, K)(f);
    var g := (f: nat, m: nat) => XPow(rows(m, f), Times(f, u), N);
    var byF := (f: nat) => Sum((m: nat) => g(f, m), K);
    var byM := (m: nat) => Sum((f: nat) => g(f, m), K);
    forall f | 0 <= f < K ensures Terms(C, u, N)(f) == byF(f) {
      ProductValue(a, b, j, N, f, (m: nat) => rows(m, f));
      SumOfWeighted(rows, u, f, K, N, (m: nat) => g(f, m));
    }
    SumEq(Terms(C, u, N), byF, K);
    SumSwap(g, K, K);
    var coeff := (m: nat) => Sum(Kept(RowProducts(a, b, N, m), m, n, |a|), |a|);
    forall m | 0 <= m < K ensures byM(m) == coeff(m) {
      RowCoefficient(a, b, j, e, N, n, m, (f: nat) => g(f, m));
    }
    SumEq(byM, coeff, K);
  }

  lemma RowCoefficient(a: seq<Poly>, b: seq<Poly>, j: nat, e: nat, N: nat, n: nat, m: nat, col: nat -> Poly)
    requires IsRoot(j, e, N) && |a| == |b| == Pow3(e) && AllBelow(a, N) && AllBelow(b, N) && n < |a| && m < |a|
    requires forall f: nat ::
      col(f) == XPow(Values(RowProducts(a, b, N, m), m, j, N, |a|)(f), Times(f, Times(n, Inverse(j, N))), N)
    ensures Sum(col, |a|) == Sum(Kept(RowProducts(a, b, N, m), m, n, |a|), |a|)
  {
    hide XPow, Times, Values, Sum;
    var c := RowProducts(a, b, N, m);
    forall l | 0 <= l < |a| ensures Below(c(l), 2 * N) {
      RingBelow(a[m], b[l], N, 2 * N);
    }
    RootSmall(j, e, N);
    Filter(c, m, n, j, e, N);
    SumEq(col, Weighted(Values(c, m, j, N, |a|), Times(n, Inverse(j, N)), N), |a|);
  }

  /** Pointwise products of transforms are transforms of cyclic products. */
  lemma ConvolutionTheorem(a: seq<Poly>, b: seq<Poly>, j: nat, e: nat, N: nat)
    requires IsRoot(j, e, N) && |a| == |b| == Pow3(e) && AllBelow(a, N) && AllBelow(b, N)
    ensures Transform(Pointwise(Transform(a, j, N), Transform(b, j, N), N), Inverse(j, N), N) == CyclicProduct(a, b, N)
  {
    forall n | 0 <= n < |a|
      ensures Eval(Pointwise(Transform(a, j, N), Transform(b, j, N), N), Times(n, Inverse(j, N)), N)
           == CyclicCoefficient(a, b, N, n)
    {
      ProductCoefficient(a, b, j, e, N, n);
    }
  }
}
