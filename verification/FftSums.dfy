/** Sums of polynomials over ranges of indices, for the transforms of gf2x/fft.c. */
module FftSums {
  import opened Gf2
  import opened Gf2Poly
  import opened FftRing
  import opened Arith

  function Sum(f: nat -> Poly, n: nat): Poly {
    if n == 0 then {} else Xor(Sum(f, n - 1), f(n - 1))
  }

  lemma SumNone(f: nat -> Poly)
    ensures Sum(f, 0) == {}
  {
  }

  lemma {:induction false} SumEq(f: nat -> Poly, g: nat -> Poly, n: nat)
    requires forall i :: 0 <= i < n ==> f(i) == g(i)
    ensures Sum(f, n) == Sum(g, n)
    decreases n
  {
    if n > 0 {
      SumEq(f, g, n - 1);
    }
  }

  lemma {:induction false} SumZero(f: nat -> Poly, n: nat)
    requires forall i :: 0 <= i < n ==> f(i) == {}
    ensures Sum(f, n) == {}
    decreases n
  {
    if n > 0 {
      SumZero(f, n - 1);
    }
  }

  lemma {:induction false} SumXor(f: nat -> Poly, g: nat -> Poly, h: nat -> Poly, n: nat)
    requires forall i :: 0 <= i < n ==> h(i) == Xor(f(i), g(i))
    ensures Sum(h, n) == Xor(Sum(f, n), Sum(g, n))
    decreases n
  {
    if n > 0 {
      SumXor(f, g, h, n - 1);
    }
  }

  /** Sums can be exchanged. */
  lemma {:induction false} SumSwap(f: (nat, nat) -> Poly, n: nat, m: nat)
    ensures Sum((i: nat) => Sum((k: nat) => f(i, k), m), n) == Sum((k: nat) => Sum((i: nat) => f(i, k), n), m)
    decreases n
  {
    var rows := (i: nat) => Sum((k: nat) => f(i, k), m);
    var cols := (k: nat) => Sum((i: nat) => f(i, k), n);
    if n == 0 {
      SumZero(cols, m);
    } else {
      SumSwap(f, n - 1, m);
      var cols' := (k: nat) => Sum((i: nat) => f(i, k), n - 1);
      SumXor(cols', (k: nat) => f(n - 1, k), cols, m);
    }
  }

  lemma {:induction false} SumXPow(f: nat -> Poly, g: nat -> Poly, n: nat, k: nat, N: nat)
    requires forall i :: 0 <= i < n ==> g(i) == XPow(f(i), k, N)
    ensures Sum(g, n) == XPow(Sum(f, n), k, N)
    decreases n
  {
    if n == 0 {
      XPowZero(k, N);
    } else {
      SumXPow(f, g, n - 1, k, N);
      XPowXor(Sum(f, n - 1), f(n - 1), k, N);
    }
  }

  lemma {:induction false} SumRingMul(a: Poly, f: nat -> Poly, g: nat -> Poly, n: nat, N: nat)
    requires forall i :: 0 <= i < n ==> g(i) == RingMul(a, f(i), N)
    ensures Sum(g, n) == RingMul(a, Sum(f, n), N)
    decreases n
  {
    if n == 0 {
      RingZero(a, N, 2 * N);
    } else {
      SumRingMul(a, f, g, n - 1, N);
      RingXorRight(a, Sum(f, n - 1), f(n - 1), N, 2 * N);
    }
  }

  lemma {:induction false} RingZero(a: Poly, N: nat, n: nat)
    ensures RingPartial(a, {}, N, n) == {}
    decreases n
  {
    hide XPow;
    if n > 0 {
      RingZero(a, N, n - 1);
      XPowZero(n - 1, N);
    }
  }

  lemma {:induction false} SumBelow(f: nat -> Poly, n: nat, b: nat)
    requires forall i :: 0 <= i < n ==> Below(f(i), b)
    ensures Below(Sum(f, n), b)
    decreases n
  {
    if n > 0 {
      SumBelow(f, n - 1, b);
    }
  }

  lemma Regroup(a: Poly, b: Poly, c: Poly, x: Poly, y: Poly, z: Poly)
    ensures Xor(Xor(Xor(Xor(Xor(a, b), c), x), y), z) == Xor(Xor(Xor(a, x), Xor(b, y)), Xor(c, z))
  {
  }

  lemma XorZeros()
    ensures Xor(Xor<nat>({}, {}), {}) == {}
  {
  }

  lemma SumThreeMore(f: nat -> Poly, n: nat)
    ensures Sum(f, n + 3) == Xor(Xor(Xor(Sum(f, n), f(n)), f(n + 1)), f(n + 2))
  {
    hide Xor;
    assert Sum(f, n + 1) == Xor(Sum(f, n), f(n));
    assert Sum(f, n + 2) == Xor(Sum(f, n + 1), f(n + 1));
    assert Sum(f, n + 3) == Xor(Sum(f, n + 2), f(n + 2));
  }

  /** A sum over 3n indices, by residue mod 3. */
  lemma {:induction false} SumThirds(f: nat -> Poly, f0: nat -> Poly, f1: nat -> Poly, f2: nat -> Poly, n: nat)
    requires forall i :: 0 <= i < n ==> f0(i) == f(3 * i) && f1(i) == f(3 * i + 1) && f2(i) == f(3 * i + 2)
    ensures Sum(f, 3 * n) == Xor(Xor(Sum(f0, n), Sum(f1, n)), Sum(f2, n))
    decreases n
  {
    hide Xor;
    if n == 0 {
      XorZeros();
    } else {
      SumThirds(f, f0, f1, f2, n - 1);
      ThirdsStep(f, f0, f1, f2, n - 1);
    }
  }

  lemma ThirdsStep(f: nat -> Poly, f0: nat -> Poly, f1: nat -> Poly, f2: nat -> Poly, m: nat)
    requires f0(m) == f(3 * m) && f1(m) == f(3 * m + 1) && f2(m) == f(3 * m + 2)
    requires Sum(f, 3 * m) == Xor(Xor(Sum(f0, m), Sum(f1, m)), Sum(f2, m))
    ensures Sum(f, 3 * m + 3) == Xor(Xor(Sum(f0, m + 1), Sum(f1, m + 1)), Sum(f2, m + 1))
  {
    hide Xor;
    SumThreeMore(f, 3 * m);
    Regroup(Sum(f0, m), Sum(f1, m), Sum(f2, m), f0(m), f1(m), f2(m));
  }

  /** A sum over m+n indices. */
  lemma {:induction false} SumAppend(f: nat -> Poly, g: nat -> Poly, m: nat, n: nat)
    requires forall i :: 0 <= i < n ==> g(i) == f(m + i)
    ensures Sum(f, m + n) == Xor(Sum(f, m), Sum(g, n))
    decreases n
  {
    if n > 0 {
      SumAppend(f, g, m, n - 1);
    }
  }

  /** The terms c x^(f e) of a geometric sum */
  function Geometric(c: Poly, e: nat, N: nat): nat -> Poly {
    (f: nat) => XPow(c, Times(f, e), N)
  }

  lemma GeometricLater(c: Poly, e: nat, m: nat, f: nat, N: nat)
    ensures Geometric(c, e, N)(m + f) == XPow(Geometric(c, e, N)(f), Times(m, e), N)
  {
    hide Times, XPow;
    TimesPlus(m, f, e);
    XPowXPow(c, Times(f, e), Times(m, e), N);
  }

  /** A run of n terms starting at m is the first run times x^(m e). */
  lemma GeometricAppend(c: Poly, e: nat, m: nat, n: nat, N: nat)
    ensures Sum(Geometric(c, e, N), m + n)
         == Xor(Sum(Geometric(c, e, N), m), XPow(Sum(Geometric(c, e, N), n), Times(m, e), N))
  {
    hide Xor, XPow, Sum, Geometric, Times;
    var g := Geometric(c, e, N);
    var h := (f: nat) => g(m + f);
    assert Sum(h, n) == XPow(Sum(g, n), Times(m, e), N) by {
      forall f: nat ensures h(f) == XPow(g(f), Times(m, e), N) {
        GeometricLater(c, e, m, f, N);
      }
      SumXPow(g, h, n, Times(m, e), N);
    }
    SumAppend(g, h, m, n);
  }

  lemma GeometricBelow(c: Poly, e: nat, n: nat, N: nat)
    requires Below(c, 2 * N)
    ensures Below(Sum(Geometric(c, e, N), n), 2 * N)
  {
    forall f | 0 <= f < n ensures Below(Geometric(c, e, N)(f), 2 * N) {
      XPowBelow(c, Times(f, e), N);
    }
    SumBelow(Geometric(c, e, N), n, 2 * N);
  }

  /** 1 + w + w^2 = 0 for w = x^N and for w = x^(2N) */
  lemma CubeRoots(s: Poly, k: nat, q: nat, rho: nat, N: nat)
    requires Below(s, 2 * N) && N >= 1 && 1 <= rho <= 2 && k == Times(q, 3 * N) + rho * N
    ensures Xor(Xor(s, XPow(s, k, N)), XPow(s, 2 * k, N)) == {}
  {
    hide XPow, Times;
    XPowTriple(s, N);
    XPowPeriods(s, q, rho * N, N);
    TimesPlus(q, q, 3 * N);
    if rho == 1 {
      XPowPeriods(s, q + q, 2 * N, N);
    } else {
      XPowPeriods(s, q + q, N + 3 * N, N);
      XPowXPow(s, N, 3 * N, N);
      XPowBelow(s, N, N);
      XPowPeriod(XPow(s, N, N), N);
      LastTwo(s, XPow(s, N, N), XPow(s, 2 * N, N));
    }
  }

  lemma LastTwo(a: Poly, b: Poly, c: Poly)
    ensures Xor(Xor(a, c), b) == Xor(Xor(a, b), c)
  {
  }

  /** When x^(e B) is x^N or x^(2N), a run of 3B terms cancels. */
  lemma GeometricRun(c: Poly, e: nat, B: nat, q: nat, rho: nat, N: nat)
    requires Below(c, 2 * N) && N >= 1 && 1 <= rho <= 2 && Times(B, e) == Times(q, 3 * N) + rho * N
    ensures Sum(Geometric(c, e, N), 3 * B) == {}
  {
    hide Xor, XPow, Sum, Geometric, Times;
    GeometricAppend(c, e, B, B, N);
    GeometricAppend(c, e, 2 * B, B, N);
    TimesPlus(B, B, e);
    GeometricBelow(c, e, B, N);
    CubeRoots(Sum(Geometric(c, e, N), B), Times(B, e), q, rho, N);
    assert B + B == 2 * B && 2 * B + B == 3 * B;
  }

  lemma {:induction false} GeometricCancels(c: Poly, e: nat, B: nat, q: nat, rho: nat, N: nat, t: nat)
    requires Below(c, 2 * N) && N >= 1 && 1 <= rho <= 2 && Times(B, e) == Times(q, 3 * N) + rho * N
    ensures Sum(Geometric(c, e, N), Times(t, 3 * B)) == {}
    decreases t
  {
    hide XPow, Sum, Geometric, Times;
    TimesSmall(3 * B);
    SumNone(Geometric(c, e, N));
    if t > 0 {
      var m := Times(t - 1, 3 * B);
      TimesPlus(t - 1, 1, 3 * B);
      GeometricCancels(c, e, B, q, rho, N, t - 1);
      GeometricRun(c, e, B, q, rho, N);
      GeometricAppend(c, e, m, 3 * B, N);
      XPowZero(Times(m, e), N);
    }
  }

  /** An odd number of equal terms. */
  lemma {:induction false} GeometricConstant(c: Poly, e: nat, q: nat, N: nat, n: nat)
    requires Below(c, 2 * N) && N >= 1 && e == Times(q, 3 * N)
    ensures Sum(Geometric(c, e, N), n) == if n % 2 == 1 then c else {}
    decreases n
  {
    hide XPow, Times;
    if n > 0 {
      GeometricConstant(c, e, q, N, n - 1);
      PeriodMultiple(c, n - 1, e, q, N);
    }
  }

  lemma PeriodMultiple(c: Poly, f: nat, e: nat, q: nat, N: nat)
    requires Below(c, 2 * N) && N >= 1 && e == Times(q, 3 * N)
    ensures XPow(c, Times(f, e), N) == c
  {
    assert XPow(c, 0, N) == c;
    hide XPow, Times;
    TimesAssociates(f, q, 3 * N);
    XPowPeriods(c, Times(f, q), 0, N);
  }
}
