/** gf2x/fft.c, the ring GF(2)[x]/(x^(2N)+x^N+1): residues are sets of exponents below 2N. */
module FftRing {
  import opened Gf2
  import opened Gf2Poly
  import opened Arith

  /** a * x, where x^(2N) = x^N + 1 */
  function MulX(a: Poly, N: nat): Poly {
    set i | i in Indices(2 * N) && (i >= 1 && i - 1 in a) != (2 * N - 1 in a && (i == 0 || i == N))
  }

  /** a * x^k */
  function XPow(a: Poly, k: nat, N: nat): Poly {
    if k == 0 then a else MulX(XPow(a, k - 1, N), N)
  }

  // ---------- Lshift moves blocks of bits ----------

  /** Bit i of b * x^k, for 0 < k < 3N, as the three block layouts of Lshift give it. */
  predicate ShiftedBit(b: Poly, k: nat, N: nat, i: nat) {
    if k <= N then
      // | L0:l | L1:h | L2:l | H:h |  ->  | H | L0 | L1+H | L2 |
      var h, l := k, N - k;
      if i < h then N + l + i in b
      else if i < N then i - h in b
      else if i < N + h then (l + (i - N) in b) != (N + l + (i - N) in b)
      else N + (i - N - h) in b
    else if k <= 2 * N then
      // | L:l | H0:h | H1:l | H2:h |  ->  | H0+H2 | H1 | H0 | L+H1 |
      var h, l := k - N, 2 * N - k;
      if i < h then (l + i in b) != (N + l + i in b)
      else if i < N then N + (i - h) in b
      else if i < N + h then l + (i - N) in b
      else (i - N - h in b) != (N + (i - N - h) in b)
    else
      // | L:l | H0:h | H1:l | H2:h |  ->  | H0 | L+H1 | H2 | L |
      var h, l := k - 2 * N, 3 * N - k;
      if i < h then l + i in b
      else if i < N then (i - h in b) != (N + (i - h) in b)
      else if i < N + h then N + l + (i - N) in b
      else i - N - h in b
  }

  function Moved(b: Poly, k: nat, N: nat): Poly {
    if k == 0 then b else set i | i in Indices(2 * N) && ShiftedBit(b, k, N, i)
  }

  function Lshift(b: Poly, k: nat, N: nat): Poly
    requires N >= 1
  {
    Moved(b, k % (3 * N), N)
  }

  lemma MoveFirst(b: Poly, N: nat)
    requires Below(b, 2 * N) && N >= 1
    ensures MulX(b, N) == Moved(b, 1, N)
  {
  }

  lemma MoveStep(b: Poly, k: nat, N: nat)
    requires Below(b, 2 * N) && 0 < k < 3 * N - 1
    ensures MulX(Moved(b, k, N), N) == Moved(b, k + 1, N)
  {
    hide ShiftedBit;
    forall i: nat ensures i in MulX(Moved(b, k, N), N) <==> i in Moved(b, k + 1, N) {
      if i < 2 * N {
        MoveBit(b, k, N, i);
      }
    }
  }

  /** Bit i of x times the polynomial with bits ShiftedBit(b, k, N, _) */
  predicate NextBit(b: Poly, k: nat, N: nat, i: nat)
    requires N >= 1
  {
    (i >= 1 && ShiftedBit(b, k, N, i - 1)) != (ShiftedBit(b, k, N, 2 * N - 1) && (i == 0 || i == N))
  }

  lemma MoveBit(b: Poly, k: nat, N: nat, i: nat)
    requires Below(b, 2 * N) && 0 < k < 3 * N - 1 && i < 2 * N
    ensures ShiftedBit(b, k + 1, N, i) <==> NextBit(b, k, N, i)
  {
  }

  lemma MoveLast(b: Poly, N: nat)
    requires Below(b, 2 * N) && N >= 1
    ensures MulX(Moved(b, 3 * N - 1, N), N) == b
  {
  }

  lemma {:induction false} MovedIsXPow(b: Poly, k: nat, N: nat)
    requires Below(b, 2 * N) && k < 3 * N
    ensures Moved(b, k, N) == XPow(b, k, N)
    decreases k
  {
    if k > 0 {
      MovedIsXPow(b, k - 1, N);
      if k == 1 {
        MoveFirst(b, N);
      } else {
        MoveStep(b, k - 1, N);
      }
    }
  }

  // ---------- Laws of multiplication by powers of x ----------

  lemma XPowBelow(a: Poly, k: nat, N: nat)
    requires Below(a, 2 * N)
    ensures Below(XPow(a, k, N), 2 * N)
  {
  }

  lemma {:induction false} XPowXPow(a: Poly, i: nat, j: nat, N: nat)
    ensures XPow(XPow(a, i, N), j, N) == XPow(a, i + j, N)
    decreases j
  {
    if j > 0 {
      XPowXPow(a, i, j - 1, N);
    }
  }

  /** x^(3N) = 1 */
  lemma XPowPeriod(a: Poly, N: nat)
    requires Below(a, 2 * N) && N >= 1
    ensures XPow(a, 3 * N, N) == a
  {
    MovedIsXPow(a, 3 * N - 1, N);
    MoveLast(a, N);
  }

  lemma {:induction false} XPowPeriods(a: Poly, t: nat, r: nat, N: nat)
    requires Below(a, 2 * N) && N >= 1
    ensures XPow(a, Times(t, 3 * N) + r, N) == XPow(a, r, N)
    decreases t
  {
    if t > 0 {
      XPowPeriods(a, t - 1, r, N);
      TimesPlus(t - 1, 1, 3 * N);
      TimesSmall(3 * N);
      hide Times, XPow;
      XPowXPow(a, Times(t - 1, 3 * N) + r, 3 * N, N);
      XPowBelow(a, r, N);
      XPowPeriod(XPow(a, r, N), N);
    }
  }

  lemma XPowMod(a: Poly, k: nat, N: nat)
    requires Below(a, 2 * N) && N >= 1
    ensures XPow(a, k, N) == XPow(a, k % (3 * N), N)
  {
    hide XPow, Times;
    DivTimes(k, 3 * N);
    XPowPeriods(a, k / (3 * N), k % (3 * N), N);
  }

  /** Lshift is multiplication by x^k. */
  lemma LshiftIsXPow(b: Poly, k: nat, N: nat)
    requires Below(b, 2 * N) && N >= 1
    ensures Lshift(b, k, N) == XPow(b, k, N)
  {
    XPowMod(b, k, N);
    MovedIsXPow(b, k % (3 * N), N);
  }

  lemma MulXXor(a: Poly, b: Poly, N: nat)
    ensures MulX(Xor(a, b), N) == Xor(MulX(a, N), MulX(b, N))
  {
  }

  lemma {:induction false} XPowXor(a: Poly, b: Poly, k: nat, N: nat)
    ensures XPow(Xor(a, b), k, N) == Xor(XPow(a, k, N), XPow(b, k, N))
    decreases k
  {
    if k > 0 {
      XPowXor(a, b, k - 1, N);
      MulXXor(XPow(a, k - 1, N), XPow(b, k - 1, N), N);
    }
  }

  lemma {:induction false} XPowZero(k: nat, N: nat)
    ensures XPow({}, k, N) == {}
    decreases k
  {
    if k > 0 {
      XPowZero(k - 1, N);
      assert MulX({}, N) == {};
    }
  }

  /** 1 + x^N + x^(2N) = 0 */
  lemma XPowTriple(a: Poly, N: nat)
    requires Below(a, 2 * N) && N >= 1
    ensures Xor(Xor(a, XPow(a, N, N)), XPow(a, 2 * N, N)) == {}
  {
    MovedIsXPow(a, N, N);
    MovedIsXPow(a, 2 * N, N);
  }

  // ---------- MulMod ----------

  /** b * c as a sum of multiples of c */
  function RingPartial(b: Poly, c: Poly, N: nat, n: nat): Poly {
    if n == 0 then {} else
      Xor(RingPartial(b, c, N, n - 1), if n - 1 in b then XPow(c, n - 1, N) else {})
  }

  function RingMul(b: Poly, c: Poly, N: nat): Poly {
    RingPartial(b, c, N, 2 * N)
  }

  /** t = | L0:N | L1:N | H0:N | H1:N | reduces to | L0+H0+H1 | L1+H0 |. */
  function Fold(t: Poly, N: nat): Poly {
    set i | i in Indices(2 * N) &&
      if i < N then ((i in t) != (i + 2 * N in t)) != (i + 3 * N in t) else (i in t) != (i + N in t)
  }

  /** The code's product: multiply the polynomials, then fold. */
  function MulMod(b: Poly, c: Poly, N: nat): Poly {
    Fold(Mul(b, c), N)
  }

  lemma FoldXor(s: Poly, t: Poly, N: nat)
    ensures Fold(Xor(s, t), N) == Xor(Fold(s, N), Fold(t, N))
  {
  }

  lemma FoldStep(t: Poly, N: nat)
    requires N >= 1 && Below(t, 4 * N - 1)
    ensures Fold(Shift(t, 1), N) == MulX(Fold(t, N), N)
  {
    forall i: nat ensures i in Shift(t, 1) <==> i >= 1 && i - 1 in t {
      ShiftHas(t, 1, i);
    }
  }

  lemma {:induction false} FoldShift(c: Poly, k: nat, N: nat)
    requires Below(c, 2 * N) && k <= 2 * N && N >= 1
    ensures Fold(Shift(c, k), N) == XPow(c, k, N)
    decreases k
  {
    if k == 0 {
      ShiftZero(c);
      assert Fold(c, N) == c;
    } else {
      FoldShift(c, k - 1, N);
      ShiftShift(c, k - 1, 1);
      FoldStep(Shift(c, k - 1), N);
    }
  }

  lemma {:induction false} FoldPartial(b: Poly, c: Poly, N: nat, n: nat)
    requires Below(c, 2 * N) && n <= 2 * N && N >= 1
    ensures Fold(Partial(b, c, n), N) == RingPartial(b, c, N, n)
    decreases n
  {
    if n == 0 {
      assert Fold({}, N) == {};
    } else {
      FoldPartial(b, c, N, n - 1);
      FoldShift(c, n - 1, N);
      FoldXor(Partial(b, c, n - 1), if n - 1 in b then Shift(c, n - 1) else {}, N);
      assert Fold({}, N) == {};
    }
  }

  lemma MulModIsRingMul(b: Poly, c: Poly, N: nat)
    requires Below(b, 2 * N) && Below(c, 2 * N) && N >= 1
    ensures MulMod(b, c, N) == RingMul(b, c, N)
  {
    MulPartial(b, c, 2 * N);
    FoldPartial(b, c, N, 2 * N);
  }

  // ---------- Laws of the product ----------

  lemma {:induction false} RingXorRight(a: Poly, b: Poly, c: Poly, N: nat, n: nat)
    ensures RingPartial(a, Xor(b, c), N, n) == Xor(RingPartial(a, b, N, n), RingPartial(a, c, N, n))
    decreases n
  {
    if n > 0 {
      hide XPow;
      RingXorRight(a, b, c, N, n - 1);
      if n - 1 in a {
        XPowXor(b, c, n - 1, N);
        XorSwap(RingPartial(a, b, N, n - 1), RingPartial(a, c, N, n - 1), XPow(b, n - 1, N), XPow(c, n - 1, N));
      } else {
        assert Xor<nat>({}, {}) == {};
        XorSwap(RingPartial(a, b, N, n - 1), RingPartial(a, c, N, n - 1), {}, {});
      }
    }
  }

  lemma {:induction false} RingXPowRight(a: Poly, c: Poly, k: nat, N: nat, n: nat)
    ensures RingPartial(a, XPow(c, k, N), N, n) == XPow(RingPartial(a, c, N, n), k, N)
    decreases n
  {
    if n == 0 {
      XPowZero(k, N);
    } else {
      RingXPowRight(a, c, k, N, n - 1);
      XPowXPow(c, k, n - 1, N);
      XPowXPow(c, n - 1, k, N);
      XPowXor(RingPartial(a, c, N, n - 1), if n - 1 in a then XPow(c, n - 1, N) else {}, k, N);
      XPowZero(k, N);
    }
  }

  lemma RingBelow(a: Poly, c: Poly, N: nat, n: nat)
    requires Below(c, 2 * N)
    ensures Below(RingPartial(a, c, N, n), 2 * N)
  {
    if n > 0 {
      RingBelow(a, c, N, n - 1);
      XPowBelow(c, n - 1, N);
    }
  }

  lemma RingMulCommutes(a: Poly, c: Poly, N: nat)
    requires Below(a, 2 * N) && Below(c, 2 * N) && N >= 1
    ensures RingMul(a, c, N) == RingMul(c, a, N)
  {
    MulModIsRingMul(a, c, N);
    MulModIsRingMul(c, a, N);
    MulCommutes(a, c, 2 * N);
  }

  /** (a x^i) (c x^k) = (a c) x^(i+k) */
  lemma RingMulXPows(a: Poly, c: Poly, i: nat, k: nat, N: nat)
    requires Below(a, 2 * N) && Below(c, 2 * N) && N >= 1
    ensures RingMul(XPow(a, i, N), XPow(c, k, N), N) == XPow(RingMul(a, c, N), i + k, N)
  {
    XPowBelow(a, i, N);
    RingXPowRight(XPow(a, i, N), c, k, N, 2 * N);
    RingMulCommutes(XPow(a, i, N), c, N);
    RingXPowRight(c, a, i, N, 2 * N);
    RingMulCommutes(c, a, N);
    XPowXPow(RingMul(a, c, N), i, k, N);
  }
}
