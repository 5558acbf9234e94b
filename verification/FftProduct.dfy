/** gf2x/fft.c: the product of two polynomials through the transform of their chunks. */
module FftProduct {
  import opened Gf2
  import opened Gf2Poly
  import opened Arith
  import opened FftRing
  import opened FftSums
  import opened Dft
  import opened FftMultiply
  import opened GfWords

  // ---------- Chunks of M bits ----------

  /** Bits i M to (i+1) M of a */
  function Chunk(a: Poly, M: nat, i: nat): Poly {
    set e | e in Indices(M) && Times(i, M) + e in a
  }

  function Chunks(a: Poly, M: nat, K: nat): (r: seq<Poly>)
    ensures |r| == K
  {
    seq(K, i requires 0 <= i < K => Chunk(a, M, i))
  }

  /** The terms A[i] X^(i M) */
  function Placed(A: seq<Poly>, M: nat): nat -> Poly {
    (i: nat) => Shift(Dft.At(A, i), Times(i, M))
  }

  /** The sum of A[i] X^(i M) */
  function Recomposed(A: seq<Poly>, M: nat): Poly {
    Sum(Placed(A, M), |A|)
  }

  lemma ChunkHas(a: Poly, M: nat, i: nat, x: nat)
    ensures x in Shift(Chunk(a, M, i), Times(i, M)) <==> Times(i, M) <= x < Times(i, M) + M && x in a
  {
    var o := Times(i, M);
    ShiftHas(Chunk(a, M, i), o, x);
    if x >= o {
      assert o + (x - o) == x;
    }
  }

  /** The first n chunks hold the bits below n M. */
  lemma {:induction false} ChunksHold(a: Poly, M: nat, K: nat, n: nat)
    requires n <= K
    ensures Sum(Placed(Chunks(a, M, K), M), n) == set x | x in a && x < Times(n, M)
    decreases n
  {
    hide Times, Chunk;
    var f := Placed(Chunks(a, M, K), M);
    if n == 0 {
      TimesSmall(M);
    } else {
      ChunksHold(a, M, K, n - 1);
      TimesPlus(n - 1, 1, M);
      TimesSmall(M);
      assert f(n - 1) == Shift(Chunk(a, M, n - 1), Times(n - 1, M));
      forall x: nat ensures x in Sum(f, n) <==> x in a && x < Times(n, M) {
        ChunkHas(a, M, n - 1, x);
      }
    }
  }

  lemma ChunksRecompose(a: Poly, M: nat, K: nat)
    requires Below(a, Times(K, M))
    ensures Recomposed(Chunks(a, M, K), M) == a
  {
    ChunksHold(a, M, K, K);
  }

  lemma ChunksBelow(a: Poly, M: nat, K: nat, N: nat)
    requires M <= N
    ensures AllBelow(Chunks(a, M, K), N)
  {
  }

  // ---------- The product of sums ----------

  lemma {:induction false} SumShift(f: nat -> Poly, g: nat -> Poly, n: nat, k: nat)
    requires forall i: nat :: i < n ==> g(i) == Shift(f(i), k)
    ensures Sum(g, n) == Shift(Sum(f, n), k)
    decreases n
  {
    if n == 0 {
      assert Shift({}, k) == {};
    } else {
      SumShift(f, g, n - 1, k);
      ShiftXor(Sum(f, n - 1), f(n - 1), k);
    }
  }

  lemma {:induction false} SumMulLeft(f: nat -> Poly, q: Poly, g: nat -> Poly, n: nat)
    requires forall i: nat :: i < n ==> g(i) == Mul(f(i), q)
    ensures Sum(g, n) == Mul(Sum(f, n), q)
    decreases n
  {
    hide Mul;
    if n == 0 {
      MulZero(q);
    } else {
      SumMulLeft(f, q, g, n - 1);
      MulXorLeft(Sum(f, n - 1), f(n - 1), q);
    }
  }

  lemma MulZero(q: Poly)
    ensures Mul({}, q) == {}
  {
    MulPartial({}, q, 0);
  }

  lemma {:induction false} SumMulRight(p: Poly, f: nat -> Poly, g: nat -> Poly, n: nat)
    requires forall i: nat :: i < n ==> g(i) == Mul(p, f(i))
    ensures Sum(g, n) == Mul(p, Sum(f, n))
    decreases n
  {
    hide Mul;
    if n == 0 {
      MulCommutes({}, p, 0);
      MulZero(p);
    } else {
      SumMulRight(p, f, g, n - 1);
      MulXorRight(p, Sum(f, n - 1), f(n - 1));
    }
  }

  /** The term a[m] b[l] X^((m+l) M) of the product */
  function PairTerm(a: seq<Poly>, b: seq<Poly>, M: nat, m: nat, l: nat): Poly {
    Shift(Mul(Dft.At(a, m), Dft.At(b, l)), Times(m + l, M))
  }

  function PairRow(a: seq<Poly>, b: seq<Poly>, M: nat, m: nat): nat -> Poly {
    (l: nat) => PairTerm(a, b, M, m, l)
  }

  function PairRows(a: seq<Poly>, b: seq<Poly>, M: nat): nat -> Poly {
    (m: nat) => Sum(PairRow(a, b, M, m), |b|)
  }

  lemma PairIs(a: seq<Poly>, b: seq<Poly>, M: nat, m: nat, l: nat)
    ensures Mul(Placed(a, M)(m), Placed(b, M)(l)) == PairTerm(a, b, M, m, l)
  {
    hide Mul, Times;
    var p, q := Dft.At(a, m), Dft.At(b, l);
    MulShiftLeft(p, Shift(q, Times(l, M)), Times(m, M));
    MulShiftRight(p, q, Times(l, M));
    ShiftShift(Mul(p, q), Times(l, M), Times(m, M));
    TimesPlus(m, l, M);
  }

  lemma ProductOfSums(a: seq<Poly>, b: seq<Poly>, M: nat)
    ensures Mul(Recomposed(a, M), Recomposed(b, M)) == Sum(PairRows(a, b, M), |a|)
  {
    hide Mul, PairTerm, Sum;
    var q := Recomposed(b, M);
    forall m: nat | m < |a| ensures PairRows(a, b, M)(m) == Mul(Placed(a, M)(m), q) {
      forall l: nat | l < |b| ensures PairRow(a, b, M, m)(l) == Mul(Placed(a, M)(m), Placed(b, M)(l)) {
        PairIs(a, b, M, m, l);
      }
      SumMulRight(Placed(a, M)(m), Placed(b, M), PairRow(a, b, M, m), |b|);
    }
    SumMulLeft(Placed(a, M), q, PairRows(a, b, M), |a|);
  }

  // ---------- The cyclic product ----------

  /** a[m] b[l], put where the cyclic product puts it for coefficient n */
  function CyclicTerm(a: seq<Poly>, b: seq<Poly>, N: nat, M: nat, n: nat, m: nat, l: nat): Poly {
    Shift(Kept(RowProducts(a, b, N, m), m, n, |a|)(l), Times(n, M))
  }

  lemma ShiftNothing(k: nat)
    ensures Shift({}, k) == {}
  {
  }

  /** Summed over n, the term of (m, l) appears once. */
  lemma CyclicColumn(a: seq<Poly>, b: seq<Poly>, N: nat, M: nat, m: nat, l: nat, col: nat -> Poly)
    requires m < |a| && l < |a| && forall n: nat :: col(n) == CyclicTerm(a, b, N, M, n, m, l)
    ensures Sum(col, |a|) == Shift(RowProducts(a, b, N, m)(l), Times((m + l) % |a|, M))
  {
    hide Shift, RowProducts, Sum, Times;
    var n0 := (m + l) % |a|;
    forall n: nat | n < |a| && n != n0 ensures col(n) == {} {
      ShiftNothing(Times(n, M));
    }
    SumSingle(col, |a|, n0);
  }

  function WrappedTerm(a: seq<Poly>, b: seq<Poly>, N: nat, M: nat, m: nat, l: nat): Poly {
    if |a| == 0 then {} else Shift(RowProducts(a, b, N, m)(l), Times((m + l) % |a|, M))
  }

  function WrappedRow(a: seq<Poly>, b: seq<Poly>, N: nat, M: nat, m: nat): nat -> Poly {
    (l: nat) => WrappedTerm(a, b, N, M, m, l)
  }

  function WrappedRows(a: seq<Poly>, b: seq<Poly>, N: nat, M: nat): nat -> Poly {
    (m: nat) => Sum(WrappedRow(a, b, N, M, m), |a|)
  }

  /** The terms of row m of the cyclic product at coefficient n */
  function CyclicRow(a: seq<Poly>, b: seq<Poly>, N: nat, M: nat, m: nat): nat -> Poly {
    (n: nat) => Shift(Sum(Kept(RowProducts(a, b, N, m), m, n, |a|), |a|), Times(n, M))
  }

  lemma CyclicRowSum(a: seq<Poly>, b: seq<Poly>, N: nat, M: nat, m: nat)
    requires m < |a|
    ensures Sum(CyclicRow(a, b, N, M, m), |a|) == WrappedRows(a, b, N, M)(m)
  {
    hide Shift, Sum, Kept, RowProducts, Times;
    var K := |a|;
    var g := (n: nat, l: nat) => CyclicTerm(a, b, N, M, n, m, l);
    var rows := (n: nat) => Sum((l: nat) => g(n, l), K);
    var cols := (l: nat) => Sum((n: nat) => g(n, l), K);
    forall n: nat | n < K ensures CyclicRow(a, b, N, M, m)(n) == rows(n) {
      SumShift(Kept(RowProducts(a, b, N, m), m, n, K), (l: nat) => g(n, l), K, Times(n, M));
    }
    SumEq(CyclicRow(a, b, N, M, m), rows, K);
    SumSwap(g, K, K);
    forall l: nat | l < K ensures cols(l) == WrappedRow(a, b, N, M, m)(l) {
      CyclicColumn(a, b, N, M, m, l, (n: nat) => g(n, l));
    }
    SumEq(cols, WrappedRow(a, b, N, M, m), K);
  }

  lemma CyclicRecomposed(a: seq<Poly>, b: seq<Poly>, N: nat, M: nat)
    ensures Recomposed(CyclicProduct(a, b, N), M) == Sum(WrappedRows(a, b, N, M), |a|)
  {
    hide Shift, Sum, Kept, RowProducts, Times;
    var K, C := |a|, CyclicProduct(a, b, N);
    var g := (n: nat, m: nat) => CyclicRow(a, b, N, M, m)(n);
    var rows := (n: nat) => Sum((m: nat) => g(n, m), K);
    var cols := (m: nat) => Sum((n: nat) => g(n, m), K);
    forall n: nat | n < K ensures Placed(C, M)(n) == rows(n) {
      var f := (m: nat) => Sum(Kept(RowProducts(a, b, N, m), m, n, |a|), |a|);
      var terms := (m: nat) => g(n, m);
      forall m: nat | m < K ensures terms(m) == Shift(f(m), Times(n, M)) {
        assert terms(m) == CyclicRow(a, b, N, M, m)(n);
      }
      SumShift(f, terms, K, Times(n, M));
      assert Dft.At(C, n) == CyclicCoefficient(a, b, N, n) == Sum(f, K);
    }
    SumEq(Placed(C, M), rows, K);
    SumSwap(g, K, K);
    forall m: nat | m < K ensures cols(m) == WrappedRows(a, b, N, M)(m) {
      CyclicRowSum(a, b, N, M, m);
      SumEq((n: nat) => g(n, m), CyclicRow(a, b, N, M, m), K);
    }
    SumEq(cols, WrappedRows(a, b, N, M), K);
  }

  // ---------- No product is reduced, and none wraps around ----------

  lemma FoldNothing(t: Poly, N: nat)
    requires Below(t, 2 * N)
    ensures Fold(t, N) == t
  {
  }

  lemma RingMulExact(p: Poly, q: Poly, M: nat, N: nat)
    requires Below(p, M) && Below(q, M) && 1 <= M <= N
    ensures RingMul(p, q, N) == Mul(p, q)
  {
    MulModIsRingMul(p, q, N);
    MulPartial(p, q, M);
    PartialBelow(p, q, M, M);
    FoldNothing(Mul(p, q), N);
  }

  lemma ChunkPairFits(a: Poly, b: Poly, ba: nat, bb: nat, M: nat, K: nat, m: nat, l: nat)
    requires Below(a, ba) && Below(b, bb) && ba + bb <= Times(K, M) && Chunk(a, M, m) != {} && Chunk(b, M, l) != {}
    ensures m + l < K
  {
    var e :| e in Chunk(a, M, m);
    var e' :| e' in Chunk(b, M, l);
    TimesPlus(m, l, M);
    if m + l >= K {
      TimesPlus(K, m + l - K, M);
    }
  }

  lemma TermsAgree(a: Poly, b: Poly, ba: nat, bb: nat, M: nat, K: nat, N: nat, m: nat, l: nat)
    requires Below(a, ba) && Below(b, bb) && ba + bb <= Times(K, M) && 1 <= M <= N && m < K && l < K
    ensures WrappedTerm(Chunks(a, M, K), Chunks(b, M, K), N, M, m, l) == PairTerm(Chunks(a, M, K), Chunks(b, M, K), M, m, l)
  {
    hide Chunk, Times, Mul, RingMul;
    var p, q := Chunk(a, M, m), Chunk(b, M, l);
    ChunkBelow(a, M, m);
    ChunkBelow(b, M, l);
    RingMulExact(p, q, M, N);
    if p == {} || q == {} {
      MulZero(q);
      MulCommutes(q, p, M);
      MulZero(p);
      ShiftNothing(Times((m + l) % K, M));
      ShiftNothing(Times(m + l, M));
    } else {
      ChunkPairFits(a, b, ba, bb, M, K, m, l);
      DivModUnique(m + l, K, 0, m + l);
    }
  }

  lemma ChunkBelow(a: Poly, M: nat, i: nat)
    ensures Below(Chunk(a, M, i), M)
  {
  }

  /** The cyclic product of the chunks, put together, is the product. */
  lemma ChunkProduct(a: Poly, b: Poly, ba: nat, bb: nat, M: nat, K: nat, N: nat)
    requires Below(a, ba) && Below(b, bb) && ba + bb <= Times(K, M) && 1 <= M <= N
    ensures Recomposed(CyclicProduct(Chunks(a, M, K), Chunks(b, M, K), N), M) == Mul(a, b)
  {
    hide Chunks, Sum, WrappedTerm, PairTerm, Recomposed, Mul, CyclicProduct, Below, Times, WrappedRows, PairRows;
    var A, B := Chunks(a, M, K), Chunks(b, M, K);
    BelowMore(a, ba, Times(K, M));
    BelowMore(b, bb, Times(K, M));
    ChunksRecompose(a, M, K);
    ChunksRecompose(b, M, K);
    CyclicRecomposed(A, B, N, M);
    ProductOfSums(A, B, M);
    forall m: nat | m < K ensures WrappedRows(A, B, N, M)(m) == PairRows(A, B, M)(m) {
      RowsAgree(a, b, ba, bb, M, K, N, m);
    }
    SumEq(WrappedRows(A, B, N, M), PairRows(A, B, M), K);
  }

  lemma RowsAgree(a: Poly, b: Poly, ba: nat, bb: nat, M: nat, K: nat, N: nat, m: nat)
    requires Below(a, ba) && Below(b, bb) && ba + bb <= Times(K, M) && 1 <= M <= N && m < K
    ensures var A, B := Chunks(a, M, K), Chunks(b, M, K); WrappedRows(A, B, N, M)(m) == PairRows(A, B, M)(m)
  {
    hide Chunks, Sum, WrappedTerm, PairTerm, Below, Times;
    var A, B := Chunks(a, M, K), Chunks(b, M, K);
    forall l: nat | l < K ensures WrappedRow(A, B, N, M, m)(l) == PairRow(A, B, M, m)(l) {
      TermsAgree(a, b, ba, bb, M, K, N, m, l);
    }
    SumEq(WrappedRow(A, B, N, M, m), PairRow(A, B, M, m), K);
  }

  lemma BelowMore(p: Poly, n: nat, k: nat)
    requires Below(p, n) && n <= k
    ensures Below(p, k)
  {
  }

  // ---------- The whole multiplication ----------

  /** decompose */
  method Decompose(a: Poly, M: nat, K: nat) returns (A: array<Poly>)
    ensures fresh(A) && A.Length == K && A[..] == Chunks(a, M, K)
  {
    A := new Poly[K](_ => {});
    var i := 0;
    while i < K
      invariant i <= K && forall k: nat :: k < i ==> A[k] == Chunk(a, M, k)
    {
      A[i] := Chunk(a, M, i);
      i := i + 1;
    }
  }

  /** recompose */
  method Recompose(C: array<Poly>, K: nat, M: nat) returns (c: Poly)
    requires C.Length == K
    ensures c == Recomposed(C[..], M)
  {
    c := {};
    var i := 0;
    while i < K
      invariant i <= K && c == Sum(Placed(C[..], M), i)
    {
      c := Xor(c, Shift(C[i], Times(i, M)));
      i := i + 1;
    }
  }

  /** The product of polynomials of ba and bb bits, for K chunks of M bits that have room for it */
  method MulFft(a: Poly, ba: nat, b: Poly, bb: nat, K: nat, M: nat, ghost e: nat) returns (c: Poly)
    requires K == Pow3(e) && e >= 1 && M >= 1 && Below(a, ba) && Below(b, bb) && ba + bb <= Times(K, M)
    ensures c == Mul(a, b)
  {
    hide Chunks, Recomposed, CyclicProduct, Below, AllBelow, Mul, Times;
    var A := Decompose(a, M, K);
    var B := Decompose(b, M, K);
    ghost var N := ChunkExponent(M, K) * (K / 3);
    ChunksBelow(a, M, K, N);
    ChunksBelow(b, M, K, N);
    ghost var Np := CyclicMultiply(A, B, K, M, e);
    ChunkProduct(a, b, ba, bb, M, K, N);
    c := Recompose(A, K, M);
  }
}
