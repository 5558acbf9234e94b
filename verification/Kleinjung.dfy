/** polyselect/polyselect2.c and polyselect.c: roots modulo p^2, and the expansion of N in m and l. */
module Kleinjung {
  import opened Congruence

  // ---------- Lifting roots ----------

  /** r = m0-shifted root: (m0 + r)^d = Nt modulo p^2 */
  ghost predicate IsLifted(r: int, Nt: int, d: nat, m0: int, p: int) {
    0 <= r < p * p && Cong(Pow(m0 + r, d), Nt, p * p)
  }

  lemma PowFactor(r: int, d: nat, p: int)
    requires d >= 1 && Coprime(Pow(r, d), p)
    ensures Coprime(r, p)
  {
    CoprimeFactor(r, Pow(r, d - 1), p);
  }

  /** r + lam inv p is a root modulo p^2. */
  lemma Hensel(r: int, Nt: int, d: nat, p: int, lam: int, inverse: int)
    requires d >= 1 && Nt - Pow(r, d) == lam * p && Cong((d * Pow(r, d - 1)) * inverse, 1, p)
    ensures Cong(Pow(r + (lam * inverse) * p, d), Nt, p * p)
  {
    hide Cong, Divides, Pow;
    var b, D := (lam * inverse) * p, d * Pow(r, d - 1);
    PowOfSum(r, b, d);
    DividesBy(p, b, lam * inverse);
    SquareDivides(p, b);
    CongCoarser(Pow(r + b, d), Pow(r, d) + D * b, p * p, b * b);
    CongScaled(D * inverse, 1, p, lam);
    assert (D * inverse) * (lam * p) == D * b by {
      HenselArith(D, inverse, lam, p);
    }
    CongSame(Pow(r, d), p * p);
    CongPlus(Pow(r, d), Pow(r, d), D * b, lam * p, p * p);
    CongTrans(Pow(r + b, d), Pow(r, d) + D * b, Nt, p * p);
  }

  lemma HenselArith(D: int, inverse: int, lam: int, p: int)
    ensures (D * inverse) * (lam * p) == D * ((lam * inverse) * p)
  {
    assert (lam * inverse) * p == inverse * (lam * p);
  }

  method LiftRoot(r: int, Nt: int, d: nat, m0: int, p: int) returns (r': int)
    requires d >= 1 && p > 1 && Cong(Pow(r, d), Nt, p) && Coprime(Nt, p) && Coprime(d, p)
    ensures IsLifted(r', Nt, d, m0, p) && Cong(m0 + r', r, p)
  {
    hide Cong, Divides, Coprime, Pow, IsLifted;
    LiftFacts(r, Nt, d, p);
    var tmp := Pow(r, d - 1);
    var lam := (Nt - tmp * r) / p;
    var inverse := Invert((tmp * d) % p, p);
    LiftCorrect(r, Nt, d, m0, p, lam, inverse);
    LiftAbove(r, m0, p, lam, inverse);
    lam := lam * (inverse * p) + r - m0;
    r' := lam % (p * p);
  }

  lemma LiftCorrect(r: int, Nt: int, d: nat, m0: int, p: int, lam: int, inverse: int)
    requires d >= 1 && p > 1 && Nt - Pow(r, d) == lam * p && Cong(((Pow(r, d - 1) * d) % p) * inverse, 1, p)
    ensures p * p > 0 && IsLifted((lam * (inverse * p) + r - m0) % (p * p), Nt, d, m0, p)
  {
    hide Cong, Divides, Pow, IsLifted;
    LiftInverse(Pow(r, d - 1) * d, p, inverse);
    assert Pow(r, d - 1) * d == d * Pow(r, d - 1);
    Hensel(r, Nt, d, p, lam, inverse);
    LiftedValue(lam, inverse, p, r);
    LiftShift(r + (lam * inverse) * p, Nt, d, m0, p);
  }

  /** The lift of r is r modulo p. */
  lemma LiftAbove(r: int, m0: int, p: int, lam: int, inverse: int)
    requires p > 1
    ensures p * p > 0 && Cong(m0 + (lam * (inverse * p) + r - m0) % (p * p), r, p)
  {
    hide Cong, Divides;
    assert p * p > 0;
    var x := lam * (inverse * p) + r - m0;
    CongMod(x, p * p);
    DividesBy(p, p * p, p);
    CongCoarser(x % (p * p), x, p, p * p);
    CongSame(m0, p);
    CongPlus(m0, m0, x % (p * p), x, p);
    LiftedValue(lam, inverse, p, r);
    DividesBy(p, (m0 + x) - r, lam * inverse);
    CongFrom(m0 + x, r, p);
    CongTrans(m0 + x % (p * p), m0 + x, r, p);
  }

  lemma LiftedValue(lam: int, inverse: int, p: int, r: int)
    ensures lam * (inverse * p) + r == r + (lam * inverse) * p
  {
  }

  lemma LiftFacts(r: int, Nt: int, d: nat, p: int)
    requires d >= 1 && p > 1 && Cong(Pow(r, d), Nt, p) && Coprime(Nt, p) && Coprime(d, p)
    ensures Coprime((Pow(r, d - 1) * d) % p, p)
    ensures Nt - Pow(r, d) == ((Nt - Pow(r, d - 1) * r) / p) * p && Pow(r, d) == Pow(r, d - 1) * r
  {
    var P := Pow(r, d - 1);
    CongSwap(Pow(r, d), Nt, p);
    CoprimeCong(Nt, Pow(r, d), p);
    PowFactor(r, d, p);
    CoprimePow(r, d - 1, p);
    CoprimeProduct(P, d, p);
    CongMod(P * d, p);
    CoprimeCong(P * d, (P * d) % p, p);
    assert P * r == Pow(r, d);
    DividesMod(p, Nt - P * r);
  }

  lemma LiftInverse(tmp: int, p: int, inverse: int)
    requires p > 1 && Cong((tmp % p) * inverse, 1, p)
    ensures Cong(tmp * inverse, 1, p)
  {
    CongMod(tmp, p);
    CongSame(inverse, p);
    CongTimes(tmp, tmp % p, inverse, inverse, p);
    CongTrans(tmp * inverse, (tmp % p) * inverse, 1, p);
  }

  lemma LiftShift(x: int, Nt: int, d: nat, m0: int, p: int)
    requires p > 1 && Cong(Pow(x, d), Nt, p * p)
    ensures p * p > 0 && IsLifted((x - m0) % (p * p), Nt, d, m0, p)
  {
    assert p * p > 0;
    var pp := p * p;
    var r := (x - m0) % pp;
    CongMod(x - m0, pp);
    CongSame(m0, pp);
    CongPlus(m0, m0, r, x - m0, pp);
    CongPow(m0 + r, x, d, pp);
    CongTrans(Pow(m0 + r, d), Pow(x, d), Nt, pp);
  }

  /** roots_lift */
  method RootsLift(r: seq<int>, Nt: int, d: nat, m0: int, p: int) returns (lifted: seq<int>)
    requires d >= 1 && p > 1 && Coprime(Nt, p) && Coprime(d, p)
    requires forall j :: 0 <= j < |r| ==> Cong(Pow(r[j], d), Nt, p)
    ensures LiftedFrom(lifted, r, Nt, d, m0, p)
  {
    hide IsLifted, Coprime, Cong, Pow;
    lifted := [];
    var j := 0;
    while j < |r|
      invariant j <= |r| && LiftedFrom(lifted, r[..j], Nt, d, m0, p)
    {
      var x := LiftRoot(r[j], Nt, d, m0, p);
      lifted := lifted + [x];
      j := j + 1;
    }
    assert r[..j] == r;
  }

  /** Each number of lifted is the lift of the root at the same place. */
  ghost predicate LiftedFrom(lifted: seq<int>, r: seq<int>, Nt: int, d: nat, m0: int, p: int) {
    |lifted| == |r| && forall j :: 0 <= j < |r| ==> IsLifted(lifted[j], Nt, d, m0, p) && Cong(m0 + lifted[j], r[j], p)
  }

  /** r lists the roots of x^d = Nt modulo p. */
  ghost predicate IsRootList(r: seq<int>, Nt: int, d: nat, p: int) {
    && (forall j :: 0 <= j < |r| ==> Cong(Pow(r[j], d), Nt, p))
    && forall x :: 0 <= x < p && Cong(Pow(x, d), Nt, p) ==> x in r
  }

  ghost predicate NoRepeats<T>(l: seq<T>) {
    forall j, k :: 0 <= j < k < |l| ==> l[j] != l[k]
  }

  /** No two numbers of r agree modulo p. */
  ghost predicate RootsApart(r: seq<int>, p: int) {
    forall j, k :: 0 <= j < k < |r| ==> !Cong(r[j], r[k], p)
  }

  lemma LiftsApart(lifted: seq<int>, r: seq<int>, Nt: int, d: nat, m0: int, p: int)
    requires LiftedFrom(lifted, r, Nt, d, m0, p) && RootsApart(r, p)
    ensures NoRepeats(lifted)
  {
    hide Cong, Pow;
    forall j, k | 0 <= j < k < |lifted| ensures lifted[j] != lifted[k] {
      if lifted[j] == lifted[k] {
        CongSwap(m0 + lifted[j], r[j], p);
        CongTrans(r[j], m0 + lifted[j], r[k], p);
      }
    }
  }

  /** A root modulo p has one lift modulo p^2 only. */
  lemma LiftUnique(x: int, y: int, Nt: int, d: nat, p: int)
    requires d >= 1 && p > 1 && Coprime(Nt, p) && Coprime(d, p) && Cong(y, x, p)
    requires Cong(Pow(x, d), Nt, p * p) && Cong(Pow(y, d), Nt, p * p)
    ensures Cong(y, x, p * p)
  {
    hide Cong, Divides, Coprime, Pow;
    var b, D := y - x, d * Pow(x, d - 1);
    CongMeans(y, x, p);
    SquareDivides(p, b);
    PowOfSum(x, b, d);
    assert x + b == y;
    CongCoarser(Pow(y, d), Pow(x, d) + D * b, p * p, b * b);
    CongSwap(Pow(y, d), Pow(x, d) + D * b, p * p);
    CongTrans(Pow(x, d) + D * b, Pow(y, d), Nt, p * p);
    CongPlus(Pow(x, d) + D * b, Nt, Pow(x, d), Nt, p * p);
    CongMeans(Pow(x, d) + D * b - Pow(x, d), Nt - Nt, p * p);
    DerivativeCoprime(x, Nt, d, p);
    CoprimeBoth(D, p, p);
    Cancel(D, b, p * p);
    CongFrom(y, x, p * p);
  }

  lemma DerivativeCoprime(x: int, Nt: int, d: nat, p: int)
    requires d >= 1 && Cong(Pow(x, d), Nt, p * p) && Coprime(Nt, p) && Coprime(d, p)
    ensures Coprime(d * Pow(x, d - 1), p)
  {
    hide Cong, Divides, Coprime;
    DividesBy(p, p * p, p);
    CongCoarser(Pow(x, d), Nt, p, p * p);
    CongSwap(Pow(x, d), Nt, p);
    CoprimeCong(Nt, Pow(x, d), p);
    PowFactor(x, d, p);
    CoprimePow(x, d - 1, p);
    CoprimeProduct(d, Pow(x, d - 1), p);
  }

  /** The lifts of all roots modulo p are all the roots modulo p^2. */
  lemma LiftsAreAll(lifted: seq<int>, r: seq<int>, Nt: int, d: nat, m0: int, p: int, y: int)
    requires d >= 1 && p > 1 && Coprime(Nt, p) && Coprime(d, p) && IsRootList(r, Nt, d, p) && LiftedFrom(lifted, r, Nt, d, m0, p)
    ensures y in lifted <==> IsLifted(y, Nt, d, m0, p)
  {
    if IsLifted(y, Nt, d, m0, p) {
      hide Cong, Divides, Coprime, Pow;
      var x, z := m0 + y, (m0 + y) % p;
      DividesBy(p, p * p, p);
      CongCoarser(Pow(x, d), Nt, p, p * p);
      CongMod(x, p);
      CongPow(z, x, d, p);
      CongTrans(Pow(z, d), Pow(x, d), Nt, p);
      var j :| 0 <= j < |r| && r[j] == z;
      CongSwap(m0 + lifted[j], z, p);
      CongTrans(x, z, m0 + lifted[j], p);
      LiftUnique(m0 + lifted[j], x, Nt, d, p);
      CongMeans(x, m0 + lifted[j], p * p);
      SmallMultiple(p * p, y - lifted[j]);
    }
  }

  // ---------- Special q ----------

  /** p^2 divides (m0 + rq + i q^2)^d - Nt. */
  ghost predicate IsHit(p: int, i: int, q: int, rq: int, m0: int, d: nat, Nt: int) {
    Cong(Pow(m0 + rq + i * (q * q), d), Nt, p * p)
  }

  /** k = (rj - rq) / q^2 modulo p^2: both k and k - p^2 are entered in the hash table. */
  method SpecialQ(rj: int, rq: int, q: int, p: int, ghost m0: int, ghost d: nat, ghost Nt: int) returns (u: int)
    requires p > 1 && 0 <= rq < p * p && Coprime(q, p) && IsLifted(rj, Nt, d, m0, p)
    ensures 0 <= u < p * p && IsHit(p, u, q, rq, m0, d, Nt) && IsHit(p, u - p * p, q, rq, m0, d, Nt)
    ensures Cong(rq + u * (q * q), rj, p * p)
  {
    hide Cong, Coprime, Pow;
    var pp, qq := p * p, q * q;
    SquaresCoprime(q, p);
    assert pp > 1;
    var k := if rj >= rq then rj - rq else (rj + p * p) - rq;
    var inverse := Invert(qq, pp);
    k := (k * inverse) % pp;
    u := k;
    HitCong(rj, rq, qq, pp, inverse, u);
    HitIs(p, u, q, rq, m0, d, Nt, rj);
    HitBefore(rq, u, qq, pp, rj);
    HitIs(p, u - pp, q, rq, m0, d, Nt, rj);
  }

  lemma SquaresCoprime(q: int, p: int)
    requires Coprime(q, p)
    ensures Coprime(q * q, p * p)
  {
    CoprimeBoth(q, p, p);
    CoprimeProduct(q, q, p * p);
  }

  lemma HitCong(rj: int, rq: int, qq: int, pp: int, inverse: int, u: int)
    requires pp > 1 && Cong(qq * inverse, 1, pp)
    requires u == ((if rj >= rq then rj - rq else (rj + pp) - rq) * inverse) % pp
    ensures Cong(rq + u * qq, rj, pp)
  {
    hide Cong;
    var k := if rj >= rq then rj - rq else (rj + pp) - rq;
    CongMod(k * inverse, pp);
    CongSame(qq, pp);
    CongTimes(u, k * inverse, qq, qq, pp);
    CongSame(k, pp);
    CongTimes(k, k, qq * inverse, 1, pp);
    assert (k * inverse) * qq == k * (qq * inverse);
    CongTrans(u * qq, k * (qq * inverse), k, pp);
    CongSame(rq, pp);
    CongPlus(rq, rq, u * qq, k, pp);
    ExtraModulus(rj, pp);
    CongTrans(rq + u * qq, rq + k, rj, pp);
  }

  lemma ExtraModulus(rj: int, pp: int)
    ensures Cong(rj + pp, rj, pp) && Cong(rj, rj, pp)
  {
    DividesBy(pp, pp, 1);
    CongSame(rj, pp);
  }

  lemma HitBefore(rq: int, u: int, qq: int, pp: int, rj: int)
    requires Cong(rq + u * qq, rj, pp)
    ensures Cong(rq + (u - pp) * qq, rj, pp)
  {
    DividesBy(pp, qq * pp, qq);
    assert (rq + (u - pp) * qq) - rj == ((rq + u * qq) - rj) - qq * pp;
    DividesPlus(pp, (rq + u * qq) - rj, qq * pp);
  }

  lemma HitIs(p: int, u: int, q: int, rq: int, m0: int, d: nat, Nt: int, rj: int)
    requires Cong(rq + u * (q * q), rj, p * p) && IsLifted(rj, Nt, d, m0, p)
    ensures IsHit(p, u, q, rq, m0, d, Nt)
  {
    var pp := p * p;
    CongSame(m0, pp);
    CongPlus(m0, m0, rq + u * (q * q), rj, pp);
    CongPow(m0 + (rq + u * (q * q)), m0 + rj, d, pp);
    assert m0 + (rq + u * (q * q)) == m0 + rq + u * (q * q);
    CongTrans(Pow(m0 + rq + u * (q * q), d), Pow(m0 + rj, d), Nt, pp);
  }

  // ---------- Divisibility by l^2 ----------

  /** d^d ad^(d-1) N, as the code computes it */
  function Ntilde(N: int, d: nat, ad: int): int
    requires d >= 1
  {
    (Pow(ad * d, d - 1) * d) * N
  }

  lemma NtildeCoprime(N: int, d: nat, ad: int, p: int)
    requires d >= 1 && Coprime(d, p) && Coprime(ad, p) && Coprime(N, p)
    ensures Coprime(Ntilde(N, d, ad), p) && Coprime(Pow(ad * d, d - 1) * d, p)
  {
    CoprimeProduct(ad, d, p);
    CoprimePow(ad * d, d - 1, p);
    CoprimeProduct(Pow(ad * d, d - 1), d, p);
    CoprimeProduct(Pow(ad * d, d - 1) * d, N, p);
  }

  /** l = p1 p2 q, and the square of each factor divides x: so does l^2. */
  lemma SquaresDivide(p1: int, p2: int, q: int, x: int)
    requires Coprime(p1, p2) && Coprime(p1, q) && Coprime(p2, q)
    requires Divides(p1 * p1, x) && Divides(p2 * p2, x) && Divides(q * q, x)
    ensures Divides((p1 * p2 * q) * (p1 * p2 * q), x)
  {
    hide Divides, Coprime;
    SquaresCoprime(p1, p2);
    ProductDivides(p1 * p1, p2 * p2, x);
    SwapFactors(p1, p2, p1, p2);
    CoprimeProduct(p1, p2, q);
    SquaresCoprime(p1 * p2, q);
    ProductDivides((p1 * p2) * (p1 * p2), q * q, x);
    SwapFactors(p1 * p2, q, p1 * p2, q);
  }

  /** With mtilde = d ad m + a l, l^2 divides N - ad m^d - a m^(d-1) l. */
  lemma ExpansionDivides(N: int, d: nat, ad: int, m: int, a: int, l: int, mtilde: int)
    requires d >= 1 && mtilde == (ad * d) * m + a * l && Cong(Pow(mtilde, d), Ntilde(N, d, ad), l * l)
    requires Coprime(Pow(ad * d, d - 1) * d, l)
    ensures Divides(l * l, N - ad * Pow(m, d) - (a * Pow(m, d - 1)) * l)
  {
    hide Divides, Coprime, Cong, Pow;
    var D, ll := ad * d, l * l;
    var A, b, E := D * m, a * l, Pow(ad * d, d - 1) * d;
    PowOfSum(A, b, d);
    DividesBy(l, b, a);
    SquareDivides(l, b);
    CongCoarser(Pow(mtilde, d), Pow(A, d) + (d * Pow(A, d - 1)) * b, ll, b * b);
    PowOfProduct(D, m, d);
    PowOfProduct(D, m, d - 1);
    PowStep(D, d);
    ExpansionArith(Pow(D, d - 1), d, ad, Pow(m, d), Pow(m, d - 1), a, l);
    CongSwap(Pow(mtilde, d), E * N, ll);
    CongTrans(E * N, Pow(mtilde, d), Pow(A, d) + (d * Pow(A, d - 1)) * b, ll);
    CoprimeBoth(E, l, l);
    CongCancel(E, N, ad * Pow(m, d) + (a * Pow(m, d - 1)) * l, ll);
    CongMeans(N, ad * Pow(m, d) + (a * Pow(m, d - 1)) * l, ll);
  }

  lemma CongMeans(a: int, b: int, m: int)
    requires Cong(a, b, m)
    ensures Divides(m, a - b)
  {
  }

  lemma PowStep(x: int, d: nat)
    requires d >= 1
    ensures Pow(x, d) == x * Pow(x, d - 1)
  {
  }

  lemma ExpansionArith(X: int, d: int, ad: int, M: int, M': int, a: int, l: int)
    ensures ((ad * d) * X) * M + (d * (X * M')) * (a * l) == (X * d) * (ad * M + (a * M') * l)
  {
    assert ((ad * d) * X) * M == (X * d) * (ad * M) by {
      assert (ad * d) * X == (X * d) * ad;
    }
    assert (d * (X * M')) * (a * l) == (X * d) * ((a * M') * l) by {
      assert d * (X * M') == (X * d) * M';
      assert ((X * d) * M') * (a * l) == (X * d) * (M' * (a * l));
      assert M' * (a * l) == (a * M') * l;
    }
  }

  // ---------- Expansions ----------

  /** The sum of f[k] m^k l^(d-k) over k >= j, where d is the degree of f */
  ghost function Upper(f: seq<int>, m: int, l: int, j: nat): int
    decreases |f| - j
  {
    if j >= |f| then 0 else Upper(f, m, l, j + 1) + (f[j] * Pow(m, j)) * Pow(l, |f| - 1 - j)
  }

  /** f is the expansion of N in m and l. */
  ghost predicate Expands(f: seq<int>, m: int, l: int, N: int) {
    Upper(f, m, l, 0) == N
  }

  lemma {:induction false} UpperUpdate(f: seq<int>, m: int, l: int, j: nat, k: nat, c: int)
    requires k < j && k < |f|
    ensures Upper(f[k := c], m, l, j) == Upper(f, m, l, j)
    decreases |f| - j
  {
    if j < |f| {
      UpperUpdate(f, m, l, j + 1, k, c);
    }
  }

  lemma UpperPut(f: seq<int>, m: int, l: int, j: nat, c: int)
    requires j < |f|
    ensures Upper(f[j := c], m, l, j) == Upper(f, m, l, j + 1) + (c * Pow(m, j)) * Pow(l, |f| - 1 - j)
  {
    UpperUpdate(f, m, l, j + 1, j, c);
  }

  /** The coefficients above j are set; t l^(d-j-1) is what is left of N. */
  ghost predicate Expanding(f: seq<int>, m: int, l: int, N: int, j: nat, t: int) {
    j + 2 <= |f| && Upper(f, m, l, j + 1) + t * Pow(l, |f| - 2 - j) == N && Divides(l, t)
  }

  lemma ExpandStep(f: seq<int>, m: int, l: int, N: int, j: nat, t: int, t': int, c: int)
    requires Expanding(f, m, l, N, j, t) && t == t' * l
    ensures Upper(f[j := c], m, l, j) + (t' - Pow(m, j) * c) * Pow(l, |f| - 1 - j) == N
  {
    UpperPut(f, m, l, j, c);
    StepArith(t', c, Pow(m, j), l, Pow(l, |f| - 2 - j));
  }

  lemma StepArith(t: int, c: int, M: int, l: int, L: int)
    ensures (c * M) * (l * L) + (t - M * c) * (l * L) == (t * l) * L
  {
    assert (c * M) * (l * L) + (t - M * c) * (l * L) == t * (l * L);
  }

  lemma ExpandNext(f: seq<int>, m: int, l: int, N: int, j: nat, t: int, t': int, c: int)
    requires j >= 1 && Expanding(f, m, l, N, j, t) && t == t' * l && Cong(c * Pow(m, j), t', l)
    ensures Expanding(f[j := c], m, l, N, j - 1, t' - Pow(m, j) * c)
  {
    hide Upper, Pow, Divides, Cong;
    ExpandStep(f, m, l, N, j, t, t', c);
    CongSwap(c * Pow(m, j), t', l);
    CongMeans(t', c * Pow(m, j), l);
    Commutes(Pow(m, j), c);
  }

  lemma Commutes(a: int, b: int)
    ensures a * b == b * a
  {
  }

  lemma ExpandLast(f: seq<int>, m: int, l: int, N: int, t: int, t': int)
    requires Expanding(f, m, l, N, 0, t) && t == t' * l
    ensures Expands(f[0 := t'], m, l, N)
  {
    ExpandStep(f, m, l, N, 0, t, t', t');
  }

  lemma Exact(t: int, l: int)
    requires l > 0 && Divides(l, t)
    ensures t == (t / l) * l
  {
    DividesMod(l, t);
  }

  // ---------- match ----------

  /** mpz_fdiv_q: the greatest integer that is at most t / x, also for a negative x */
  function FloorDiv(t: int, x: int): (q: int)
    requires x != 0
    ensures if x > 0 then q * x <= t < (q + 1) * x else (q + 1) * x < t <= q * x
  {
    if x > 0 then t / x else
      var q := (-t) / (-x);
      assert -t == q * (-x) + (-t) % (-x) && q * (-x) == -(q * x);
      q
  }

  /** c is less than half of l away from the floor of t / x, or l / 2 below it. */
  ghost predicate Close(c: int, t: int, x: int, l: int) {
    x != 0 && -l <= 2 * (c - FloorDiv(t, x)) < l
  }

  /** t is what is left of N for the coefficients up to j, once those above j are taken off: N is their part plus t l^(d-j). */
  ghost predicate Rest(f: seq<int>, m: int, l: int, N: int, j: nat, t: int) {
    j < |f| && Upper(f, m, l, j + 1) + t * Pow(l, |f| - 1 - j) == N
  }

  /** f[j] is near what is left of N, divided by m^j. */
  ghost predicate CloseAt(f: seq<int>, m: int, l: int, N: int, j: nat) {
    exists t: int :: Rest(f, m, l, N, j, t) && Close(f[j], t, Pow(m, j), l)
  }

  /** So are all coefficients from j to d - 2. */
  ghost predicate CloseFrom(f: seq<int>, m: int, l: int, N: int, j: nat) {
    forall k: nat :: j <= k < |f| - 2 ==> CloseAt(f, m, l, N, k)
  }

  lemma CloseStays(f: seq<int>, m: int, l: int, N: int, j: nat, k: nat, c: int)
    requires j < k < |f| && CloseAt(f, m, l, N, k)
    ensures CloseAt(f[j := c], m, l, N, k)
  {
    hide Close;
    var t: int :| Rest(f, m, l, N, k, t) && Close(f[k], t, Pow(m, k), l);
    UpperUpdate(f, m, l, k + 1, j, c);
    assert Rest(f[j := c], m, l, N, k, t);
  }

  lemma CloseHere(f: seq<int>, m: int, l: int, N: int, j: nat, t: int, t': int, c: int)
    requires Expanding(f, m, l, N, j, t) && t == t' * l && Close(c, t', Pow(m, j), l)
    ensures CloseAt(f[j := c], m, l, N, j)
  {
    hide Close, Pow, Upper;
    UpperUpdate(f, m, l, j + 1, j, c);
    ExpandingRest(f, m, l, N, j, t, t');
    assert Rest(f[j := c], m, l, N, j, t');
  }

  lemma ExpandingRest(f: seq<int>, m: int, l: int, N: int, j: nat, t: int, t': int)
    requires Expanding(f, m, l, N, j, t) && t == t' * l
    ensures Rest(f, m, l, N, j, t')
  {
    hide Pow, Upper;
    var L := Pow(l, |f| - 2 - j);
    PowStep(l, |f| - 1 - j);
    AssocTimes(t', l, L);
  }

  lemma AssocTimes(a: int, b: int, c: int)
    ensures (a * b) * c == a * (b * c)
  {
  }

  lemma CloseNext(f: seq<int>, m: int, l: int, N: int, j: nat, t: int, t': int, c: int)
    requires CloseFrom(f, m, l, N, j + 1) && Expanding(f, m, l, N, j, t) && t == t' * l && Close(c, t', Pow(m, j), l)
    ensures CloseFrom(f[j := c], m, l, N, j)
  {
    hide Close, CloseAt;
    var g := f[j := c];
    forall k: nat | j <= k < |g| - 2 ensures CloseAt(g, m, l, N, k) {
      if k == j {
        CloseHere(f, m, l, N, j, t, t', c);
      } else {
        CloseStays(f, m, l, N, j, k, c);
      }
    }
  }

  lemma CloseLast(f: seq<int>, m: int, l: int, N: int, c: int)
    requires CloseFrom(f, m, l, N, 1) && |f| >= 1
    ensures CloseFrom(f[0 := c], m, l, N, 1)
  {
    hide Close, CloseAt;
    var g := f[0 := c];
    forall k: nat | 1 <= k < |g| - 2 ensures CloseAt(g, m, l, N, k) {
      CloseStays(f, m, l, N, 0, k, c);
    }
  }

  /** A coefficient near t / m^j that leaves a multiple of l */
  method NextCoefficient(t: int, mj: int, l: int) returns (c: int)
    requires l > 1 && mj != 0 && Coprime(mj, l)
    ensures Cong(c * mj, t, l) && Close(c, t, mj, l)
  {
    hide Cong, Coprime;
    var q := FloorDiv(t, mj);
    var inverse := Invert(mj, l);
    var k := (inverse * t - q) % l;
    if 2 * k >= l {
      k := k - l;
    }
    c := q + k;
    CoefficientCong(t, mj, l, q, inverse, c);
  }

  lemma CoefficientCong(t: int, mj: int, l: int, q: int, inverse: int, c: int)
    requires l > 1 && Cong(mj * inverse, 1, l)
    requires var k := (inverse * t - q) % l; c == q + k || c == q + k - l
    ensures Cong(c * mj, t, l)
  {
    hide Cong;
    var x := inverse * t - q;
    CongMod(x, l);
    DividesBy(l, l, 1);
    CenteredCong(x, l, c - q);
    CongSame(q, l);
    CongPlus(q, q, c - q, x, l);
    CongSame(mj, l);
    CongTimes(c, inverse * t, mj, mj, l);
    CongSame(t, l);
    CongTimes(mj * inverse, 1, t, t, l);
    assert (inverse * t) * mj == (mj * inverse) * t;
    CongTrans(c * mj, (mj * inverse) * t, t, l);
  }

  lemma CenteredCong(x: int, l: int, k: int)
    requires l > 0 && (k == x % l || k == x % l - l)
    ensures Cong(k, x, l)
  {
    CongMod(x, l);
    DividesBy(l, l, 1);
    DividesPlus(l, x % l - x, l);
  }

  /** What newAlgo guarantees for a prime that it enters in the hash table, or for q */
  ghost predicate GoodFactor(p: int, N: int, d: nat, ad: int) {
    p >= 1 && Coprime(d, p) && Coprime(ad, p) && Coprime(N, p)
  }

  /** The numbers that match computes from a collision */
  ghost predicate Splits(m: int, a: int, l: int, d: nat, ad: int, mtilde: int) {
    mtilde == (ad * d) * m + a * l && 0 <= a < ad * d
  }

  lemma CollisionDivides(p1: int, p2: int, q: int, N: int, d: nat, ad: int, i: int, rq: int, m0: int)
    requires d >= 1 && GoodFactor(p1, N, d, ad) && GoodFactor(p2, N, d, ad) && GoodFactor(q, N, d, ad)
    requires Coprime(p1, p2) && Coprime(p1, q) && Coprime(p2, q)
    requires IsHit(p1, i, q, rq, m0, d, Ntilde(N, d, ad)) && IsHit(p2, i, q, rq, m0, d, Ntilde(N, d, ad))
    requires Cong(Pow(m0 + rq, d), Ntilde(N, d, ad), q * q)
    ensures p1 * p2 * q >= 1 && GoodFactor(p1 * p2 * q, N, d, ad)
    ensures Cong(Pow(m0 + rq + i * (q * q), d), Ntilde(N, d, ad), (p1 * p2 * q) * (p1 * p2 * q))
  {
    hide Coprime, Cong, Divides, Ntilde, Pow;
    var Nt, mt, l := Ntilde(N, d, ad), m0 + rq + i * (q * q), p1 * p2 * q;
    assert l >= 1 by {
      PositiveProduct(p1, p2);
      PositiveProduct(p1 * p2, q);
    }
    GoodProduct(p1, p2, N, d, ad);
    GoodProduct(p1 * p2, q, N, d, ad);
    HitSpecial(q, i, rq, m0, d, Nt);
    HitDivides(p1, i, q, rq, m0, d, Nt);
    HitDivides(p2, i, q, rq, m0, d, Nt);
    CongMeans(Pow(mt, d), Nt, q * q);
    SquaresDivide(p1, p2, q, Pow(mt, d) - Nt);
    CongFrom(Pow(mt, d), Nt, l * l);
  }

  lemma PositiveProduct(a: int, b: int)
    requires a >= 1 && b >= 1
    ensures a * b >= 1
  {
  }

  lemma CongFrom(a: int, b: int, m: int)
    requires Divides(m, a - b)
    ensures Cong(a, b, m)
  {
  }

  lemma GoodProduct(p: int, q: int, N: int, d: nat, ad: int)
    requires GoodFactor(p, N, d, ad) && GoodFactor(q, N, d, ad)
    ensures GoodFactor(p * q, N, d, ad)
  {
    CoprimeBoth(d, p, q);
    CoprimeBoth(ad, p, q);
    CoprimeBoth(N, p, q);
    PositiveProduct(p, q);
  }

  lemma HitDivides(p: int, i: int, q: int, rq: int, m0: int, d: nat, Nt: int)
    requires IsHit(p, i, q, rq, m0, d, Nt)
    ensures Divides(p * p, Pow(m0 + rq + i * (q * q), d) - Nt)
  {
  }

  lemma HitSpecial(q: int, i: int, rq: int, m0: int, d: nat, Nt: int)
    requires Cong(Pow(m0 + rq, d), Nt, q * q)
    ensures Cong(Pow(m0 + rq + i * (q * q), d), Nt, q * q)
  {
    DividesBy(q * q, i * (q * q), i);
    CongPow(m0 + rq + i * (q * q), m0 + rq, d, q * q);
    CongTrans(Pow(m0 + rq + i * (q * q), d), Pow(m0 + rq, d), Nt, q * q);
  }

  /** m is coprime to l, and l^2 divides what is left after two coefficients. */
  lemma SplitFacts(N: int, d: nat, ad: int, l: int, m: int, a: int, mtilde: int)
    requires d >= 1 && GoodFactor(l, N, d, ad) && Splits(m, a, l, d, ad, mtilde)
    requires Cong(Pow(mtilde, d), Ntilde(N, d, ad), l * l)
    ensures Coprime(m, l) && Divides(l * l, N - ad * Pow(m, d) - (a * Pow(m, d - 1)) * l)
  {
    hide Cong, Divides, Coprime, Pow, Ntilde;
    var Nt := Ntilde(N, d, ad);
    NtildeCoprime(N, d, ad, l);
    ExpansionDivides(N, d, ad, m, a, l, mtilde);
    DividesBy(l, l * l, l);
    CongCoarser(Pow(mtilde, d), Nt, l, l * l);
    CongSwap(Pow(mtilde, d), Nt, l);
    CoprimeCong(Nt, Pow(mtilde, d), l);
    PowFactor(mtilde, d, l);
    DividesBy(l, a * l, a);
    CongFrom(mtilde, (ad * d) * m, l);
    CoprimeCong(mtilde, (ad * d) * m, l);
    CoprimeFactor(ad * d, m, l);
  }

  /** mtilde = d ad m + a l with 0 <= a < d ad */
  method Split(mtilde: int, l: int, d: nat, ad: int) returns (m: int, adm1: int)
    requires d >= 1 && ad >= 1 && ad * d > 1 && Coprime(l, ad * d)
    ensures Splits(m, adm1, l, d, ad, mtilde)
  {
    hide Coprime, Cong, Divides;
    var D := ad * d;
    adm1 := Invert(l, D);
    ghost var inverse := adm1;
    adm1 := (adm1 * mtilde) % D;
    SplitCong(mtilde, l, D, inverse);
    m := mtilde - adm1 * l;
    ghost var x := m;
    ghost var k := Factor(D, x);
    ExactTwice(x, d, ad, k);
    m := m / d;
    m := m / ad;
  }

  lemma SplitCong(mtilde: int, l: int, D: int, inverse: int)
    requires D > 1 && Cong(l * inverse, 1, D)
    ensures Divides(D, mtilde - ((inverse * mtilde) % D) * l)
  {
    hide Cong, Divides;
    var y := inverse * mtilde;
    CongMod(y, D);
    CongSame(l, D);
    CongTimes(y % D, y, l, l, D);
    CongSame(mtilde, D);
    CongTimes(l * inverse, 1, mtilde, mtilde, D);
    assert y * l == (l * inverse) * mtilde;
    CongTrans((y % D) * l, y * l, mtilde, D);
    CongSwap((y % D) * l, mtilde, D);
    CongMeans(mtilde, (y % D) * l, D);
  }

  lemma ExactTwice(x: int, d: int, ad: int, k: int)
    requires d >= 1 && ad >= 1 && x == k * (ad * d)
    ensures (x / d) / ad == k && x == (ad * d) * k
  {
    assert x == (k * ad) * d;
    ExactOnce(k * ad, d);
    ExactOnce(k, ad);
  }

  lemma ExactOnce(k: int, d: int)
    requires d >= 1
    ensures (k * d) / d == k
  {
    var q, r := (k * d) / d, (k * d) % d;
    assert (k - q) * d == r;
    MultipleSize(k - q, d);
  }

  /** The first two coefficients, and what is left of N */
  lemma ExpandStart(N: int, d: nat, ad: int, m: int, a: int, l: int, t: int, f: seq<int>)
    requires d >= 2 && l > 0 && Divides(l * l, N - ad * Pow(m, d) - (a * Pow(m, d - 1)) * l)
    requires |f| == d + 1 && f[d] == ad && f[d - 1] == a && t == (N - Pow(m, d) * ad) / l - Pow(m, d - 1) * a
    ensures Expanding(f, m, l, N, d - 2, t)
  {
    var M, M' := Pow(m, d), Pow(m, d - 1);
    var k := Factor(l * l, N - ad * M - (a * M') * l);
    StartArith(N, ad * M, a * M', l, k);
    Commutes(M, ad);
    Commutes(M', a);
    DividesBy(l, t, k);
    UpperTwo(f, m, l);
    assert Pow(l, 1) == l * Pow(l, 0);
  }

  lemma StartArith(N: int, x: int, y: int, l: int, k: int)
    requires l > 0 && N - x - y * l == k * (l * l)
    ensures (N - x) / l - y == k * l && N == x + y * l + (k * l) * l
  {
    assert k * (l * l) == (k * l) * l;
    assert N - x == (k * l + y) * l;
    ExactOnce(k * l + y, l);
  }

  lemma UpperTwo(f: seq<int>, m: int, l: int)
    requires |f| >= 2
    ensures var d := |f| - 1; Upper(f, m, l, d - 1) == f[d] * Pow(m, d) + (f[d - 1] * Pow(m, d - 1)) * l
  {
    var d := |f| - 1;
    assert Upper(f, m, l, d + 1) == 0 && Pow(l, 0) == 1 && Pow(l, 1) == l * Pow(l, 0);
    assert Upper(f, m, l, d) == (f[d] * Pow(m, d)) * Pow(l, 0);
    assert Upper(f, m, l, d - 1) == Upper(f, m, l, d) + (f[d - 1] * Pow(m, d - 1)) * Pow(l, 1);
  }

  lemma {:induction false} PowNonZero(m: int, j: nat)
    requires m != 0
    ensures Pow(m, j) != 0
    decreases j
  {
    if j > 0 {
      PowNonZero(m, j - 1);
    }
  }

  lemma PowPositive(m: int, j: nat)
    requires m > 0
    ensures Pow(m, j) > 0
  {
  }

  // ---------- The expansion is the only one, and its coefficients are small ----------

  /** The part of the coefficients below j is a multiple of l^(d-j+1). */
  lemma {:induction false} LowerDivides(f: seq<int>, m: int, l: int, j: nat) returns (z: int)
    requires j <= |f|
    ensures Upper(f, m, l, 0) == Upper(f, m, l, j) + z * Pow(l, |f| - j)
    decreases j
  {
    if j == 0 {
      z := 0;
    } else {
      var y := LowerDivides(f, m, l, j - 1);
      z := y * l + f[j - 1] * Pow(m, j - 1);
      LowerArith(y, l, f[j - 1] * Pow(m, j - 1), Pow(l, |f| - j));
      PowStep(l, |f| - j + 1);
    }
  }

  lemma LowerArith(y: int, l: int, x: int, L: int)
    ensures y * (l * L) + x * L == (y * l + x) * L
  {
  }

  /** What is left for the coefficients up to j is f[j] m^j modulo l. */
  lemma RestCong(f: seq<int>, m: int, l: int, N: int, j: nat, t: int)
    requires l > 0 && Expands(f, m, l, N) && Rest(f, m, l, N, j, t)
    ensures Cong(f[j] * Pow(m, j), t, l)
  {
    hide Cong, Pow, Divides, Upper;
    var L, x := Pow(l, |f| - 1 - j), f[j] * Pow(m, j);
    PowPositive(l, |f| - 1 - j);
    var z := LowerDivides(f, m, l, j);
    PowStep(l, |f| - j);
    UpperHead(f, m, l, j);
    RestArith(Upper(f, m, l, j + 1), x, z, l, L, t);
    DividesBy(l, x - t, -z);
    CongFrom(x, t, l);
  }

  lemma UpperHead(f: seq<int>, m: int, l: int, j: nat)
    requires j < |f|
    ensures Upper(f, m, l, j) == Upper(f, m, l, j + 1) + (f[j] * Pow(m, j)) * Pow(l, |f| - 1 - j)
  {
  }

  lemma RestArith(U: int, x: int, z: int, l: int, L: int, t: int)
    requires L > 0 && U + t * L == U + x * L + z * (l * L)
    ensures t == x + z * l
  {
    assert z * (l * L) == (z * l) * L;
    assert t * L == (x + z * l) * L;
    SameQuotient(t, x + z * l, L);
  }

  /** Two numbers close to the same quotient that agree modulo l are equal. */
  lemma CloseUnique(c: int, c': int, t: int, M: int, l: int)
    requires l > 1 && Coprime(M, l) && Close(c, t, M, l) && Close(c', t, M, l)
    requires Cong(c * M, t, l) && Cong(c' * M, t, l)
    ensures c == c'
  {
    hide Cong, Coprime;
    CongSwap(c' * M, t, l);
    CongTrans(c * M, t, c' * M, l);
    Commutes(c, M);
    Commutes(c', M);
    CongCancel(M, c, c', l);
    CongMeans(c, c', l);
    NearMultiple(c - c', l);
  }

  lemma NearMultiple(x: int, l: int)
    requires l > 0 && Divides(l, x) && -l < x < l
    ensures x == 0
  {
    var k := Factor(l, x);
    MultipleSize(k, l);
    MultipleSize(-k, l);
  }

  /** The expansion of N in m and l with the given first two coefficients is determined. */
  lemma {:induction false} ExpansionUnique(f: seq<int>, g: seq<int>, m: int, l: int, N: int, j: nat)
    requires l > 1 && m != 0 && Coprime(m, l) && |f| == |g| >= 3 && f[|f| - 1] == g[|g| - 1] && f[|f| - 2] == g[|g| - 2]
    requires Expands(f, m, l, N) && Expands(g, m, l, N) && CloseFrom(f, m, l, N, 1) && CloseFrom(g, m, l, N, 1)
    requires j <= |f|
    ensures f[j..] == g[j..] && Upper(f, m, l, j) == Upper(g, m, l, j)
    decreases |f| - j
  {
    hide Cong, Coprime, Pow, Expands, Close;
    if j < |f| {
      ExpansionUnique(f, g, m, l, N, j + 1);
      if j < |f| - 2 {
        if j == 0 {
          ConstantUnique(f, g, m, l, N);
        } else {
          CoefficientUnique(f, g, m, l, N, j);
        }
      }
      assert f[j] == g[j];
      assert f[j..] == [f[j]] + f[j + 1..] && g[j..] == [g[j]] + g[j + 1..];
    }
  }

  lemma CoefficientUnique(f: seq<int>, g: seq<int>, m: int, l: int, N: int, j: nat)
    requires l > 1 && m != 0 && Coprime(m, l) && |f| == |g| && 1 <= j < |f| && Upper(f, m, l, j + 1) == Upper(g, m, l, j + 1)
    requires Expands(f, m, l, N) && Expands(g, m, l, N) && CloseAt(f, m, l, N, j) && CloseAt(g, m, l, N, j)
    ensures f[j] == g[j]
  {
    hide Cong, Coprime, Pow, Expands, Close, Upper;
    var t: int :| Rest(f, m, l, N, j, t) && Close(f[j], t, Pow(m, j), l);
    var u: int :| Rest(g, m, l, N, j, u) && Close(g[j], u, Pow(m, j), l);
    PowPositive(l, |f| - 1 - j);
    SameQuotient(t, u, Pow(l, |f| - 1 - j));
    RestCong(f, m, l, N, j, t);
    RestCong(g, m, l, N, j, t);
    CoprimePow(m, j, l);
    CloseUnique(f[j], g[j], t, Pow(m, j), l);
  }

  lemma ConstantUnique(f: seq<int>, g: seq<int>, m: int, l: int, N: int)
    requires l > 1 && |f| == |g| >= 1 && Upper(f, m, l, 1) == Upper(g, m, l, 1) && Expands(f, m, l, N) && Expands(g, m, l, N)
    ensures f[0] == g[0]
  {
    hide Pow;
    var L := Pow(l, |f| - 1);
    PowPositive(l, |f| - 1);
    PowNone(m, 0);
    assert Upper(f, m, l, 0) == Upper(f, m, l, 1) + (f[0] * Pow(m, 0)) * L;
    assert Upper(g, m, l, 0) == Upper(g, m, l, 1) + (g[0] * Pow(m, 0)) * L;
    SameQuotient(f[0], g[0], L);
  }

  function Abs(x: int): (a: int)
    ensures a >= 0 && (a == x || a == -x)
  {
    if x >= 0 then x else -x
  }

  /** What is left after a close coefficient is small: 2 |t - c x| is at most (l + 2) |x|. */
  lemma CloseRest(c: int, t: int, x: int, l: int)
    requires l > 0 && Close(c, t, x, l)
    ensures 2 * Abs(t - c * x) <= (l + 2) * Abs(x)
  {
    var q := FloorDiv(t, x);
    var k := c - q;
    assert t - c * x == (t - q * x) - k * x by {
      assert c * x == q * x + k * x;
    }
    assert (q + 1) * x == q * x + x;
    assert Abs(t - q * x) <= Abs(x);
    ProductHalf(k, x, l);
    assert (l + 2) * Abs(x) == l * Abs(x) + 2 * Abs(x);
  }

  lemma ProductHalf(k: int, x: int, l: int)
    requires -l <= 2 * k <= l
    ensures 2 * Abs(k * x) <= l * Abs(x)
  {
    var a := Abs(x);
    assert (l - 2 * k) * a >= 0 && (l + 2 * k) * a >= 0;
    assert (l - 2 * k) * a == l * a - 2 * (k * a) && (l + 2 * k) * a == l * a + 2 * (k * a);
    assert x == -a ==> k * x == -(k * a);
  }

  /** Then a close coefficient is small itself. */
  lemma CloseSize(c: int, t: int, x: int, l: int, y: int)
    requires l > 0 && Close(c, t, x, l) && 2 * l * Abs(t) <= (l + 2) * (Abs(x) * y) && y >= 0
    ensures 2 * l * Abs(c) <= (l + 2) * (y + l)
  {
    hide Close, Abs;
    CloseRest(c, t, x, l);
    var a, b := Abs(x), Abs(c);
    ClosePositive(c, t, x, l);
    AbsProduct(c, x);
    AbsSum(c * x, t);
    SizeArith(a, b, l, y, Abs(t));
  }

  lemma ClosePositive(c: int, t: int, x: int, l: int)
    requires Close(c, t, x, l)
    ensures Abs(x) > 0
  {
  }

  lemma AbsSum(x: int, t: int)
    ensures Abs(x) <= Abs(t) + Abs(t - x)
  {
  }

  lemma SizeArith(a: int, b: int, l: int, y: int, t: int)
    requires a > 0 && l > 0 && 2 * (b * a) <= 2 * t + (l + 2) * a && 2 * l * t <= (l + 2) * (a * y)
    ensures 2 * l * b <= (l + 2) * (y + l)
  {
    ScaleUp(2 * (b * a), 2 * t + (l + 2) * a, l);
    assert l * (2 * t) == 2 * l * t;
    CloseArith(a, b, l, y);
    CancelFactor(2 * l * b, (l + 2) * (y + l), a);
  }

  lemma AbsProduct(c: int, x: int)
    ensures Abs(c * x) == Abs(c) * Abs(x)
  {
    if c >= 0 {
      assert c * x == Abs(c) * x;
      SignProduct(c, x);
    } else {
      assert c * x == -(Abs(c) * x);
      SignProduct(-c, x);
    }
  }

  lemma SignProduct(c: int, x: int)
    requires c >= 0
    ensures Abs(c * x) == c * Abs(x)
  {
    if x >= 0 {
      assert c * x >= 0;
    } else {
      assert c * (-x) >= 0 && c * (-x) == -(c * x);
    }
  }

  lemma ScaleUp(x: int, y: int, l: int)
    requires x <= y && l > 0
    ensures l * x <= l * y
  {
    assert l * (y - x) >= 0;
  }

  lemma CloseArith(a: int, b: int, l: int, y: int)
    ensures l * (2 * (b * a)) == (2 * l * b) * a
    ensures (l + 2) * (a * y) + l * ((l + 2) * a) == ((l + 2) * (y + l)) * a
  {
    assert l * (2 * (b * a)) == (2 * l) * (b * a) == ((2 * l) * b) * a;
    assert (l + 2) * (a * y) == ((l + 2) * y) * a;
    assert l * ((l + 2) * a) == ((l + 2) * l) * a;
    assert (l + 2) * (y + l) == (l + 2) * y + (l + 2) * l;
  }

  /** The coefficients of f up to d - 3 are not much larger than (|m| + l) / 2: 2 l |f[j]| is at most (l + 2) (|m| + l). */
  ghost predicate Bounded(f: seq<int>, m: int, l: int) {
    forall j: nat :: j < |f| - 3 ==> 2 * l * Abs(f[j]) <= (l + 2) * (Abs(m) + l)
  }

  lemma {:induction false} RestStep(f: seq<int>, m: int, l: int, N: int, j: nat, t: int, u: int)
    requires l > 0 && 1 <= j < |f| && Rest(f, m, l, N, j, t) && Rest(f, m, l, N, j - 1, u)
    ensures l * u == t - f[j] * Pow(m, j)
  {
    hide Pow;
    var L, x := Pow(l, |f| - 1 - j), f[j] * Pow(m, j);
    PowPositive(l, |f| - 1 - j);
    PowStep(l, |f| - j);
    assert Upper(f, m, l, j) == Upper(f, m, l, j + 1) + x * L;
    assert u * (l * L) == (l * u) * L;
    assert (l * u) * L == (t - x) * L;
    SameQuotient(l * u, t - x, L);
  }

  lemma ExpansionSmall(f: seq<int>, m: int, l: int, N: int, j: nat)
    requires l > 1 && m != 0 && Expands(f, m, l, N) && CloseFrom(f, m, l, N, 1) && j < |f| - 3
    ensures 2 * l * Abs(f[j]) <= (l + 2) * (Abs(m) + l)
  {
    hide Pow, Upper, Close, Expands, CloseAt;
    assert CloseAt(f, m, l, N, j + 1);
    if j > 0 {
      assert CloseAt(f, m, l, N, j);
    }
    SmallAt(f, m, l, N, j);
  }

  lemma SmallAt(f: seq<int>, m: int, l: int, N: int, j: nat)
    requires l > 1 && m != 0 && Expands(f, m, l, N) && j + 1 < |f| && CloseAt(f, m, l, N, j + 1) && (j > 0 ==> CloseAt(f, m, l, N, j))
    ensures 2 * l * Abs(f[j]) <= (l + 2) * (Abs(m) + l)
  {
    hide Pow, Upper, Close, Expands;
    var t: int :| Rest(f, m, l, N, j + 1, t) && Close(f[j + 1], t, Pow(m, j + 1), l);
    CloseRest(f[j + 1], t, Pow(m, j + 1), l);
    PowStep(m, j + 1);
    AbsProduct(m, Pow(m, j));
    Commutes(Abs(m), Abs(Pow(m, j)));
    if j > 0 {
      var u: int :| Rest(f, m, l, N, j, u) && Close(f[j], u, Pow(m, j), l);
      RestStep(f, m, l, N, j + 1, t, u);
      SignProduct(l, u);
      assert 2 * l * Abs(u) == 2 * (l * Abs(u));
      CloseSize(f[j], u, Pow(m, j), l, Abs(m));
    } else {
      ConstantRest(f, m, l, N);
      RestStep(f, m, l, N, 1, t, f[0]);
      SignProduct(l, f[0]);
      assert 2 * l * Abs(f[0]) == 2 * (l * Abs(f[0]));
      PowNone(m, 0);
      assert (l + 2) * (Abs(m) + l) == (l + 2) * Abs(m) + (l + 2) * l;
    }
  }

  lemma ConstantRest(f: seq<int>, m: int, l: int, N: int)
    requires |f| >= 1 && Expands(f, m, l, N)
    ensures Rest(f, m, l, N, 0, f[0])
  {
    PowNone(m, 0);
    assert Upper(f, m, l, 0) == Upper(f, m, l, 1) + (f[0] * Pow(m, 0)) * Pow(l, |f| - 1);
  }

  lemma AllSmall(f: seq<int>, m: int, l: int, N: int)
    requires l > 1 && m != 0 && Expands(f, m, l, N) && CloseFrom(f, m, l, N, 1)
    ensures Bounded(f, m, l)
  {
    hide CloseFrom, Expands;
    forall j: nat | j < |f| - 3 ensures 2 * l * Abs(f[j]) <= (l + 2) * (Abs(m) + l) {
      ExpansionSmall(f, m, l, N, j);
    }
  }

  /** match, up to f[0]: the polynomial of a collision of the primes p1 and p2 at i. */
  method Match(p1: int, p2: int, i: int, m0: int, ad: int, d: nat, N: int, q: int, rq: int) returns (f: seq<int>, m: int, l: int)
    requires d >= 2 && ad >= 1 && p1 > 1 && p2 > 1 && q >= 1
    requires GoodFactor(p1, N, d, ad) && GoodFactor(p2, N, d, ad) && GoodFactor(q, N, d, ad)
    requires Coprime(p1, p2) && Coprime(p1, q) && Coprime(p2, q)
    requires IsHit(p1, i, q, rq, m0, d, Ntilde(N, d, ad)) && IsHit(p2, i, q, rq, m0, d, Ntilde(N, d, ad))
    requires Cong(Pow(m0 + rq, d), Ntilde(N, d, ad), q * q)
    ensures l == p1 * p2 * q && Coprime(m, l) && m != 0
    ensures |f| == d + 1 && f[d] == ad && Splits(m, f[d - 1], l, d, ad, m0 + rq + i * (q * q)) && Expands(f, m, l, N)
    ensures CloseFrom(f, m, l, N, 1) && Bounded(f, m, l)
  {
    hide CloseFrom, Bounded, Cong, Coprime, Divides, Pow, Ntilde, GoodFactor, IsHit, Expands, Expanding, Splits;
    CollisionDivides(p1, p2, q, N, d, ad, i, rq, m0);
    l := p1 * p2 * q;
    LBig(p1, p2, q);
    var mtilde := i * (q * q) + rq + m0;
    SplitReady(l, N, d, ad);
    var adm1;
    m, adm1 := Split(mtilde, l, d, ad);
    SplitFacts(N, d, ad, l, m, adm1, mtilde);
    CoprimeNonZero(m, l);
    f := seq(d + 1, _ => 0);
    f := f[d := ad];
    var t := N - Pow(m, d) * ad;
    f := f[d - 1 := adm1];
    t := t / l;
    t := t - Pow(m, d - 1) * adm1;
    ExpandStart(N, d, ad, m, adm1, l, t, f);
    f := Coefficients(f, m, l, N, d, t);
    AllSmall(f, m, l, N);
  }

  lemma LBig(p1: int, p2: int, q: int)
    requires p1 > 1 && p2 > 1 && q >= 1
    ensures p1 * p2 * q > 1
  {
    assert p1 * p2 > 1;
    assert (p1 * p2 - 1) * q >= 0;
    assert (p1 * p2) * q > 1 by {
      MultipleSize(q, p1 * p2);
    }
  }

  lemma SplitReady(l: int, N: int, d: nat, ad: int)
    requires d >= 2 && ad >= 1 && GoodFactor(l, N, d, ad)
    ensures ad * d > 1 && Coprime(l, ad * d)
  {
    MultipleSize(ad, d);
    CoprimeProduct(ad, d, l);
    CoprimeSwap(ad * d, l);
  }

  /** 0 is coprime to 1 and -1 only. */
  lemma CoprimeNonZero(m: int, l: int)
    requires l > 1 && Coprime(m, l)
    ensures m != 0
  {
    if m == 0 {
      var u, v := Bezout(m, l);
      MultipleSize(v, l);
    }
  }

  /** The loop over j: f[d-2], ..., f[1], and then f[0] */
  method Coefficients(f0: seq<int>, m: int, l: int, N: int, d: nat, t0: int) returns (f: seq<int>)
    requires d >= 2 && |f0| == d + 1 && l > 1 && m != 0 && Coprime(m, l) && Expanding(f0, m, l, N, d - 2, t0)
    ensures |f| == d + 1 && f[d] == f0[d] && f[d - 1] == f0[d - 1] && Expands(f, m, l, N) && CloseFrom(f, m, l, N, 1)
  {
    hide Close, CloseFrom, Cong, Coprime, Divides, Pow, Expands, Expanding;
    f := f0;
    var t, j := t0, d - 2;
    CloseStart(f, m, l, N);
    while j > 0
      invariant 0 <= j <= d - 2 && CloseFrom(f, m, l, N, j + 1)
      invariant |f| == d + 1 && f[d] == f0[d] && f[d - 1] == f0[d - 1] && Expanding(f, m, l, N, j, t)
    {
      LeftDivides(f, m, l, N, j, t);
      Exact(t, l);
      ghost var t1 := t;
      t := t / l;
      PowNonZero(m, j);
      CoprimePow(m, j, l);
      var mj := Pow(m, j);
      var c := NextCoefficient(t, mj, l);
      CloseNext(f, m, l, N, j, t1, t, c);
      ExpandNext(f, m, l, N, j, t1, t, c);
      f := f[j := c];
      t := t - mj * c;
      j := j - 1;
    }
    LeftDivides(f, m, l, N, 0, t);
    Exact(t, l);
    ExpandLast(f, m, l, N, t, t / l);
    CloseLast(f, m, l, N, t / l);
    f := f[0 := t / l];
  }

  lemma CloseStart(f: seq<int>, m: int, l: int, N: int)
    requires |f| >= 3
    ensures CloseFrom(f, m, l, N, |f| - 2)
  {
  }

  lemma LeftDivides(f: seq<int>, m: int, l: int, N: int, j: nat, t: int)
    requires Expanding(f, m, l, N, j, t)
    ensures Divides(l, t)
  {
  }

  // ---------- Lemma 2.1 of Kleinjung's paper ----------

  /** What the loop of Lemma21 keeps: mi = m^(i+1), what is left of N, and -1/p modulo m^(i+1) */
  ghost predicate Lemma21State(a: seq<int>, m: int, p: int, N: int, i: nat, r: int, mi: int, invp: int) {
    && i + 1 < |a| && mi == Pow(m, i + 1)
    && Upper(a, m, p, i + 2) + r * Pow(p, |a| - 2 - i) == N
    && Cong(a[i + 1] * mi, r, p)
    && (i + 2 < |a| ==> Cong(invp * p, -1, mi))
  }

  /** 2 |x| <= n */
  predicate AtMostHalf(x: int, n: int) {
    -n <= 2 * x <= n
  }

  /** a[j] is the nearest to r / m^j that leaves a multiple of p, where r is what is left of N for the coefficients up to j. */
  ghost predicate NearestAt(a: seq<int>, m: int, p: int, N: int, j: nat) {
    exists r: int :: Rest(a, m, p, N, j, r) && Nearest(a[j], r, Pow(m, j), p)
  }

  ghost predicate Nearest(c: int, r: int, M: int, p: int) {
    -(p * M) <= 2 * (c * M - r) < p * M
  }

  ghost predicate NearestFrom(a: seq<int>, m: int, p: int, N: int, j: nat) {
    forall k: nat :: j <= k < |a| - 1 ==> NearestAt(a, m, p, N, k)
  }

  lemma NearestStays(a: seq<int>, m: int, p: int, N: int, i: nat, k: nat, c: int)
    requires i < k < |a| && NearestAt(a, m, p, N, k)
    ensures NearestAt(a[i := c], m, p, N, k)
  {
    hide Nearest;
    var r: int :| Rest(a, m, p, N, k, r) && Nearest(a[k], r, Pow(m, k), p);
    UpperUpdate(a, m, p, k + 1, i, c);
    assert Rest(a[i := c], m, p, N, k, r);
  }

  lemma NearestNext(a: seq<int>, m: int, p: int, N: int, i: nat, r: int, M: int, s: int, c: int)
    requires i < |a| - 1 && NearestFrom(a, m, p, N, i + 1) && M == Pow(m, i) && p > 0 && s * p + r == c * M && -M <= 2 * s < M
    requires Upper(a, m, p, i + 1) + r * Pow(p, |a| - 1 - i) == N
    ensures NearestFrom(a[i := c], m, p, N, i)
  {
    hide NearestAt, Nearest, Pow, Upper;
    var b := a[i := c];
    forall k: nat | i <= k < |b| - 1 ensures NearestAt(b, m, p, N, k) {
      if k == i {
        NearestHere(a, m, p, N, i, r, s, c);
      } else {
        NearestStays(a, m, p, N, i, k, c);
      }
    }
  }

  lemma NearestHere(a: seq<int>, m: int, p: int, N: int, i: nat, r: int, s: int, c: int)
    requires i < |a| && p > 0 && s * p + r == c * Pow(m, i) && -Pow(m, i) <= 2 * s < Pow(m, i)
    requires Upper(a, m, p, i + 1) + r * Pow(p, |a| - 1 - i) == N
    ensures NearestAt(a[i := c], m, p, N, i)
  {
    hide Pow, Upper;
    var M := Pow(m, i);
    UpperUpdate(a, m, p, i + 1, i, c);
    HalfStrict(s, M, p);
    assert Rest(a[i := c], m, p, N, i, r);
    assert Nearest(c, r, M, p);
  }

  lemma HalfStrict(s: int, M: int, p: int)
    requires p > 0 && -M <= 2 * s < M
    ensures -(p * M) <= 2 * (s * p) < p * M
  {
    assert (M + 2 * s) * p >= 0 && (M - 2 * s - 1) * p >= 0;
    assert (M + 2 * s) * p == p * M + 2 * (s * p) && (M - 2 * s - 1) * p == p * M - 2 * (s * p) - p;
  }

  lemma NearestStart(a: seq<int>, m: int, p: int, N: int)
    requires |a| >= 1
    ensures NearestFrom(a, m, p, N, |a| - 1)
  {
  }

  /** Two nearest coefficients that agree modulo p are equal. */
  lemma NearestUnique(c: int, c': int, r: int, M: int, p: int)
    requires p > 0 && M > 0 && Coprime(M, p) && Nearest(c, r, M, p) && Nearest(c', r, M, p)
    requires Cong(c * M, r, p) && Cong(c' * M, r, p)
    ensures c == c'
  {
    hide Cong, Coprime;
    CongSwap(c' * M, r, p);
    CongTrans(c * M, r, c' * M, p);
    Commutes(c, M);
    Commutes(c', M);
    CongCancel(M, c, c', p);
    CongMeans(c, c', p);
    assert (c - c') * M == c * M - c' * M;
    StrictCancel(c - c', p, M);
    NearMultiple(c - c', p);
  }

  lemma TimesMonotone(x: int, y: int, M: int)
    requires M > 0
    ensures x <= y ==> x * M <= y * M
  {
    if x <= y {
      assert (y - x) * M >= 0;
    }
  }

  lemma StrictCancel(x: int, p: int, M: int)
    requires M > 0 && -(p * M) < x * M < p * M
    ensures -p < x < p
  {
    TimesMonotone(p, x, M);
    TimesMonotone(x, -p, M);
    Commutes(-p, M);
  }

  /** The expansion of N in m and p with a given leading coefficient is determined. */
  lemma {:induction false} NearestExpansionUnique(a: seq<int>, b: seq<int>, m: int, p: int, N: int, j: nat)
    requires p > 0 && m > 0 && Coprime(m, p) && |a| == |b| >= 2 && a[|a| - 1] == b[|b| - 1]
    requires Expands(a, m, p, N) && Expands(b, m, p, N) && NearestFrom(a, m, p, N, 0) && NearestFrom(b, m, p, N, 0)
    requires j <= |a|
    ensures a[j..] == b[j..] && Upper(a, m, p, j) == Upper(b, m, p, j)
    decreases |a| - j
  {
    hide Cong, Coprime, Pow, Expands, NearestAt;
    if j < |a| {
      NearestExpansionUnique(a, b, m, p, N, j + 1);
      if j < |a| - 1 {
        NearestCoefficient(a, b, m, p, N, j);
      }
      assert a[j] == b[j];
      assert a[j..] == [a[j]] + a[j + 1..] && b[j..] == [b[j]] + b[j + 1..];
    }
  }

  lemma NearestCoefficient(a: seq<int>, b: seq<int>, m: int, p: int, N: int, j: nat)
    requires p > 0 && m > 0 && Coprime(m, p) && |a| == |b| && j < |a| && Upper(a, m, p, j + 1) == Upper(b, m, p, j + 1)
    requires Expands(a, m, p, N) && Expands(b, m, p, N) && NearestAt(a, m, p, N, j) && NearestAt(b, m, p, N, j)
    ensures a[j] == b[j]
  {
    hide Cong, Coprime, Pow, Expands, Nearest, Upper;
    var r: int :| Rest(a, m, p, N, j, r) && Nearest(a[j], r, Pow(m, j), p);
    var s: int :| Rest(b, m, p, N, j, s) && Nearest(b[j], s, Pow(m, j), p);
    PowPositive(p, |a| - 1 - j);
    SameQuotient(r, s, Pow(p, |a| - 1 - j));
    RestCong(a, m, p, N, j, r);
    RestCong(b, m, p, N, j, r);
    CoprimePow(m, j, p);
    PowPositive(m, j);
    NearestUnique(a[j], b[j], r, Pow(m, j), p);
  }

  /** The division by p, and the inverse modulo m^i */
  lemma Lemma21Divide(a: seq<int>, m: int, p: int, N: int, i: nat, r: int, mi: int, invp: int)
    requires p > 0 && m > 0 && Lemma21State(a, m, p, N, i, r, mi, invp)
    ensures var r' := (r - a[i + 1] * mi) / p;
      r - a[i + 1] * mi == r' * p && Upper(a, m, p, i + 1) + r' * Pow(p, |a| - 1 - i) == N
    ensures mi == Pow(m, i) * m && mi / m == Pow(m, i)
    ensures i + 2 < |a| ==> Pow(m, i) > 0 && Cong((invp % Pow(m, i)) * p, -1, Pow(m, i))
  {
    hide Cong, Divides;
    var x := a[i + 1] * mi;
    CongSwap(x, r, p);
    CongMeans(r, x, p);
    Exact(r - x, p);
    var r' := (r - x) / p;
    DivideArith(r, x, r', p, Pow(p, |a| - 2 - i));
    PowPositive(m, i);
    assert mi == m * Pow(m, i);
    ExactOnce(Pow(m, i), m);
    if i + 2 < |a| {
      InverseBelow(invp, p, m, i);
    }
  }

  lemma DivideArith(r: int, x: int, r': int, p: int, P: int)
    requires r - x == r' * p
    ensures r * P == x * P + r' * (p * P)
  {
    assert (r' * p) * P == r' * (p * P);
  }

  lemma InverseBelow(invp: int, p: int, m: int, i: nat)
    requires m > 0 && Cong(invp * p, -1, Pow(m, i + 1))
    ensures Pow(m, i) > 0 && Cong((invp % Pow(m, i)) * p, -1, Pow(m, i))
  {
    hide Cong, Divides;
    var M := Pow(m, i);
    PowPositive(m, i);
    DividesBy(M, Pow(m, i + 1), m);
    CongCoarser(invp * p, -1, M, Pow(m, i + 1));
    CongMod(invp, M);
    CongSame(p, M);
    CongTimes(invp % M, invp, p, p, M);
    CongTrans((invp % M) * p, invp * p, -1, M);
  }

  /** s = -r/p modulo M, centered: r + s p is a multiple of M. */
  lemma Centered(r: int, p: int, M: int, invp: int, s: int)
    requires M > 0 && Cong(invp * p, -1, M) && (s == (invp * r) % M || s == (invp * r) % M - M)
    ensures Divides(M, s * p + r)
  {
    hide Cong, Divides;
    CenteredCong(invp * r, M, s);
    CongSame(p, M);
    CongTimes(s, invp * r, p, p, M);
    CongSame(r, M);
    CongTimes(invp * p, -1, r, r, M);
    assert (invp * r) * p == (invp * p) * r && (-1) * r == -r;
    CongTrans(s * p, (invp * p) * r, -r, M);
    CongMeans(s * p, -r, M);
  }

  /** The inverse of p, negated, modulo M; any number will do modulo 1. */
  method NegativeInverse(p: int, M: int) returns (invp: int)
    requires M > 0 && Coprime(p, M)
    ensures Cong(invp * p, -1, M)
  {
    hide Cong, Divides, Coprime;
    if M == 1 {
      invp := 1;
      DividesBy(1, p + 1, p + 1);
      CongFrom(invp * p, -1, M);
    } else {
      var x := Invert(p, M);
      invp := M - x;
      NegatedInverse(p, M, x);
    }
  }

  lemma NegatedInverse(p: int, M: int, x: int)
    requires Cong(p * x, 1, M)
    ensures Cong((M - x) * p, -1, M)
  {
    DividesBy(M, M * p, p);
    DividesPlus(M, M * p, p * x - 1);
    assert (M - x) * p - -1 == M * p - (p * x - 1);
  }

  /** The leading coefficient, if it is not given; modulo 1 it is 0, whatever the inverse is taken to be. */
  method LeadingCoefficient(N: int, p: int, md: int) returns (c: int)
    requires p >= 1 && Coprime(md, p)
    ensures 0 <= c < p && Cong(c * md, N, p)
  {
    hide Cong, Coprime;
    if p == 1 {
      c := 0;
      CongModOne(c * md, N);
    } else {
      var x := Invert(md, p);
      c := (x * N) % p;
      LeadingCong(N, p, md, x);
    }
  }

  lemma CongModOne(a: int, b: int)
    ensures Cong(a, b, 1)
  {
    DividesBy(1, a - b, a - b);
  }

  lemma LeadingCong(N: int, p: int, md: int, x: int)
    requires p > 1 && Cong(md * x, 1, p)
    ensures Cong(((x * N) % p) * md, N, p)
  {
    hide Cong;
    CongMod(x * N, p);
    CongSame(md, p);
    CongTimes((x * N) % p, x * N, md, md, p);
    CongSame(N, p);
    CongTimes(md * x, 1, N, N, p);
    assert (x * N) * md == (md * x) * N;
    CongTrans(((x * N) % p) * md, (md * x) * N, N, p);
  }

  lemma Lemma21Next(a: seq<int>, m: int, p: int, N: int, i: nat, r: int, M: int, invp: int, s: int, c: int)
    requires i >= 1 && i < |a| && M == Pow(m, i) && s * p + r == c * M && Cong(invp * p, -1, M)
    requires Upper(a, m, p, i + 1) + r * Pow(p, |a| - 1 - i) == N
    ensures Lemma21State(a[i := c], m, p, N, i - 1, r, M, invp) && r - c * M == (-s) * p
  {
    UpperUpdate(a, m, p, i + 1, i, c);
    DividesBy(p, c * M - r, s);
  }

  lemma SizeBound(s: int, p: int, r: int, c: int, M: int, m: int)
    requires M > 0 && p > 0 && m > 0 && s * p + r == c * M && AtMostHalf(s, M) && AtMostHalf(r, M * m)
    ensures AtMostHalf(c, m + p)
  {
    HalfTimes(s, M, p);
    Commutes(M, m);
    assert (m + p) * M == M * m + M * p;
    CancelFactor(2 * c, m + p, M);
    CancelFactor(-(m + p), 2 * c, M);
    assert (2 * c) * M == 2 * (c * M) && (-(m + p)) * M == -((m + p) * M);
  }

  lemma HalfTimes(s: int, M: int, p: int)
    requires p > 0 && AtMostHalf(s, M)
    ensures AtMostHalf(s * p, M * p)
  {
    assert (M - 2 * s) * p >= 0 && (M + 2 * s) * p >= 0;
    assert (M - 2 * s) * p == M * p - 2 * (s * p) && (M + 2 * s) * p == M * p + 2 * (s * p);
  }

  lemma CancelFactor(x: int, y: int, M: int)
    requires M > 0
    ensures x * M <= y * M ==> x <= y
  {
    if x > y {
      assert (x - y) * M > 0;
    }
  }

  /** One turn of the loop of Lemma21: the new r and m^i, -1/p modulo m^i, and the coefficient a[i] */
  method Lemma21Turn(a: seq<int>, m: int, p: int, ghost N: int, i: nat, r0: int, mi0: int, invp0: int)
    returns (r: int, mi: int, invp: int, c: int, ghost s: int)
    requires p >= 1 && m > 0 && Coprime(p, m) && Lemma21State(a, m, p, N, i, r0, mi0, invp0)
    ensures r0 - a[i + 1] * mi0 == r * p && mi == Pow(m, i) > 0 && mi0 == mi * m && Cong(invp * p, -1, mi)
    ensures Upper(a, m, p, i + 1) + r * Pow(p, |a| - 1 - i) == N
    ensures s * p + r == c * mi && -mi <= 2 * s < mi && (i == 0 ==> c == r)
  {
    hide Cong, Divides, Coprime, Pow, Upper;
    TurnFacts(a, m, p, N, i, r0, mi0, invp0);
    r := (r0 - a[i + 1] * mi0) / p;
    mi := mi0 / m;
    if i == |a| - 2 {
      invp := NegativeInverse(p, mi);
    } else {
      invp := invp0 % mi;
    }
    var x := (invp * r) % mi;
    if 2 * x >= mi {
      x := x - mi;
    }
    s := x;
    Centered(r, p, mi, invp, x);
    Exact(x * p + r, mi);
    PowNone(m, i);
    c := (x * p + r) / mi;
    Commutes(Pow(m, i), m);
  }

  lemma PowNone(m: int, i: nat)
    ensures i == 0 ==> Pow(m, i) == 1
  {
  }

  lemma TurnFacts(a: seq<int>, m: int, p: int, N: int, i: nat, r: int, mi: int, invp: int)
    requires p >= 1 && m > 0 && Coprime(p, m) && Lemma21State(a, m, p, N, i, r, mi, invp)
    ensures var r' := (r - a[i + 1] * mi) / p;
      r - a[i + 1] * mi == r' * p && Upper(a, m, p, i + 1) + r' * Pow(p, |a| - 1 - i) == N
    ensures mi == Pow(m, i) * m && mi / m == Pow(m, i) > 0 && Coprime(p, Pow(m, i)) && i + 2 <= |a|
    ensures i + 2 < |a| ==> Cong((invp % Pow(m, i)) * p, -1, Pow(m, i))
  {
    Lemma21Divide(a, m, p, N, i, r, mi, invp);
    PowPositive(m, i);
    CoprimeSwap(p, m);
    CoprimePow(m, i, p);
    CoprimeSwap(Pow(m, i), p);
  }

  lemma Lemma21Start(a: seq<int>, m: int, p: int, N: int)
    requires |a| >= 2 && Cong(a[|a| - 1] * Pow(m, |a| - 1), N, p)
    ensures Lemma21State(a, m, p, N, |a| - 2, N, Pow(m, |a| - 1), 0)
  {
    assert Pow(p, 0) == 1;
    assert Upper(a, m, p, |a|) == 0;
  }

  lemma Lemma21End(a: seq<int>, m: int, p: int, N: int, r: int)
    requires |a| >= 1 && Upper(a, m, p, 1) + r * Pow(p, |a| - 1) == N
    ensures Expands(a[0 := r], m, p, N)
  {
    UpperPut(a, m, p, 0, r);
    assert Pow(m, 0) == 1;
  }

  /** The coefficients from j to d - 2 are at most (m + p) / 2. */
  ghost predicate Small(a: seq<int>, m: int, p: int, j: nat) {
    forall k :: j <= k < |a| - 2 ==> AtMostHalf(a[k], m + p)
  }

  method Lemma21(ad: int, N: int, d: nat, p: int, m: int) returns (a: seq<int>)
    requires d >= 1 && p >= 1 && m > 0 && Coprime(p, m) && (ad != 0 ==> Cong(ad * Pow(m, d), N, p))
    ensures |a| == d + 1 && (if ad != 0 then a[d] == ad else 0 <= a[d] < p)
    ensures Expands(a, m, p, N) && Small(a, m, p, 0) && NearestFrom(a, m, p, N, 0)
  {
    hide Cong, Divides, Coprime, Pow, Upper, Expands, Lemma21State, AtMostHalf, NearestFrom;
    a := seq(d + 1, _ => 0)[d := ad];
    var r := N;
    var mi := Pow(m, d);
    if a[d] == 0 {
      CoprimeSwap(p, m);
      CoprimePow(m, d, p);
      var c := LeadingCoefficient(N, p, mi);
      a := a[d := c];
    }
    ghost var lead, r1 := a[d], 0;
    Lemma21Start(a, m, p, N);
    NearestStart(a, m, p, N);
    var i, invp := d - 1, 0;
    while i >= 0
      invariant -1 <= i <= d - 1 && |a| == d + 1 && a[d] == lead && Small(a, m, p, i + 1)
      invariant NearestFrom(a, m, p, N, i + 1)
      invariant if i >= 0 then Lemma21State(a, m, p, N, i, r, mi, invp) else Expands(a, m, p, N)
      invariant 0 <= i < d - 1 ==> r - a[i + 1] * mi == r1 * p && AtMostHalf(r1, mi)
    {
      ghost var mi0 := mi;
      var c;
      ghost var s;
      ghost var r0 := r;
      r, mi, invp, c, s := Lemma21Turn(a, m, p, N, i, r, mi, invp);
      NearestNext(a, m, p, N, i, r, mi, s, c);
      HalfOf(s, mi);
      if i < d - 1 {
        SameQuotient(r, r1, p);
        SizeBound(s, p, r, c, mi, m);
      }
      SmallNext(a, m, p, i, c);
      if i > 0 {
        Lemma21Next(a, m, p, N, i, r, mi, invp, s, c);
        r1 := -s;
        HalfNegated(s, mi);
      } else {
        Lemma21End(a, m, p, N, r);
      }
      a := a[i := c];
      i := i - 1;
    }
  }

  lemma SmallNext(a: seq<int>, m: int, p: int, i: nat, c: int)
    requires i < |a| && Small(a, m, p, i + 1) && (i < |a| - 2 ==> AtMostHalf(c, m + p))
    ensures Small(a[i := c], m, p, i)
  {
  }

  lemma HalfOf(s: int, n: int)
    requires -n <= 2 * s < n
    ensures AtMostHalf(s, n)
  {
  }

  lemma HalfNegated(s: int, n: int)
    requires AtMostHalf(s, n)
    ensures AtMostHalf(-s, n)
  {
  }

  lemma SameQuotient(x: int, y: int, p: int)
    requires p > 0 && x * p == y * p
    ensures x == y
  {
    CancelFactor(x, y, p);
    CancelFactor(y, x, p);
  }
}
