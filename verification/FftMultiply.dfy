/** gf2x/fft.c: transform, pointwise products, inverse transform. */
module FftMultiply {
  import opened Gf2
  import opened Gf2Poly
  import opened FftRing
  import opened Dft
  import opened Arith
  import opened TritReversal
  import opened Fft

  /** s in base-3 digit-reversed order */
  ghost function Permuted(s: seq<Poly>, e: nat): seq<Poly> {
    seq(Pow3(e), i requires 0 <= i < Pow3(e) => At(s, Rev(i, e)))
  }

  lemma PermutedTwice(s: seq<Poly>, e: nat)
    requires |s| == Pow3(e)
    ensures Permuted(Permuted(s, e), e) == s
  {
    forall i | 0 <= i < |s| ensures Permuted(Permuted(s, e), e)[i] == s[i] {
      RevInvolution(i, e);
    }
  }

  lemma PermutedPointwise(x: seq<Poly>, y: seq<Poly>, e: nat, N: nat)
    requires |x| == |y| == Pow3(e)
    ensures Pointwise(Permuted(x, e), Permuted(y, e), N) == Permuted(Pointwise(x, y, N), e)
  {
    hide RingMul, Rev;
  }

  /** perm[i] is the reversal of i. */
  ghost predicate IsTritrev(perm: seq<nat>, e: nat) {
    |perm| == Pow3(e) && forall i: nat :: i < Pow3(e) ==> perm[i] == Rev(i, e)
  }

  method TritrevTable(K: nat, ghost e: nat) returns (perm: seq<nat>)
    requires K == Pow3(e)
    ensures IsTritrev(perm, e)
  {
    var table := new nat[K](_ => 0);
    Bitrev(0, 0, K, 1, table, e);
    perm := table[..];
    TritrevFromReversed(perm, e);
  }

  lemma TritrevFromReversed(perm: seq<nat>, e: nat)
    requires |perm| == Pow3(e) && Reversed(perm, 0, 0, 1, e)
    ensures IsTritrev(perm, e)
  {
    forall i: nat | i < Pow3(e) ensures perm[i] == Rev(i, e) {
      assert perm[0 + i] == 0 + Times(1, Rev(i, e));
      TimesSmall(Rev(i, e));
    }
  }

  lemma TritrevPerm(perm: seq<nat>, e: nat)
    requires IsTritrev(perm, e)
    ensures PermOn(perm, 1, e)
  {
  }

  lemma WholeGrid(s: seq<Poly>, K: nat)
    requires |s| == K
    ensures Fits(0, 1, K, K) && Strided(s, 0, 1, K) == s
  {
  }

  lemma CellWhole(i: nat)
    ensures Cell(0, 1, i) == i
  {
  }

  lemma FftIsTransform(s: seq<Poly>, s': seq<Poly>, e: nat, j: nat, N: nat)
    requires |s| == Pow3(e) && IsFft(s, s', 0, 1, e, j, N)
    ensures s' == Permuted(Transform(s, j, N), e)
  {
    hide Eval, Times, Rev, Strided, Cell;
    WholeGrid(s, |s|);
    forall i: nat | i < Pow3(e) ensures s'[i] == Permuted(Transform(s, j, N), e)[i] {
      CellWhole(i);
      assert s'[Cell(0, 1, i)] == Eval(s, Times(Rev(i, e), j), N);
    }
  }

  lemma RootPeriodic(j: nat, e: nat, N: nat)
    requires IsRoot(j, e, N)
    ensures 1 <= N && j < 3 * N && Periodic(e, j, N)
    ensures Inverse(j, N) == 3 * N - j < 3 * N && Periodic(e, Inverse(j, N), N)
  {
    RootSmall(j, e, N);
    RootPeriod(j, e, N);
    TimesSmall(3 * N);
    assert Times(Pow3(e), j) == Times(1, 3 * N);
    InverseMultiple(Pow3(e), j, 3 * N);
  }

  lemma InverseMultiple(K: nat, j: nat, n: nat)
    requires j <= n && K >= 1 && Times(K, j) == n
    ensures Times(K, n - j) == Times(K - 1, n)
  {
    assert K * (n - j) == K * n - K * j;
  }

  /** The transform over a whole array leaves the values at the powers of x^j in reversed order. */
  method WholeFft(A: array<Poly>, K: nat, j: nat, N: nat, perm: seq<nat>, ghost e: nat)
    requires K == Pow3(e) == A.Length && N >= 1 && j < 3 * N && Periodic(e, j, N)
    requires IsTritrev(perm, e) && AllBelow(A[..], N)
    modifies A
    ensures A[..] == Permuted(Transform(old(A[..]), j, N), e) && AllBelow(A[..], N)
  {
    hide IsTritrev, Fits, Periodic, PermOn, IsFft, ChangedOnGrid, AllBelow, Permuted, Transform, Pow3, Cell, Strided;
    TritrevPerm(perm, e);
    WholeGrid(A[..], K);
    Fft.Fft(A, 0, K, j, N, 1, perm, e);
    FftIsTransform(old(A[..]), A[..], e, j, N);
  }

  /** Elementwise products; tc, ta and tb may be the same array. */
  method Compose(tc: array<Poly>, ta: array<Poly>, tb: array<Poly>, K: nat, N: nat)
    requires N >= 1 && tc.Length == ta.Length == tb.Length == K && AllBelow(ta[..], N) && AllBelow(tb[..], N)
    modifies tc
    ensures tc[..] == Pointwise(old(ta[..]), old(tb[..]), N)
  {
    ghost var x, y := ta[..], tb[..];
    var i := 0;
    while i < K
      invariant i <= K
      invariant forall k :: i <= k < K ==> ta[k] == x[k] && tb[k] == y[k]
      invariant forall k :: 0 <= k < i ==> tc[k] == RingMul(x[k], y[k], N)
    {
      MulModIsRingMul(x[i], y[i], N);
      tc[i] := MulMod(ta[i], tb[i], N);
      i := i + 1;
    }
  }

  /** The transform at the inverse root, from reversed order to natural order. */
  method Ift(A: array<Poly>, K: nat, Mp: nat, Np: nat, perm: seq<nat>, ghost e: nat)
    requires K == Pow3(e) == A.Length && IsRoot(Mp, e, Np) && IsTritrev(perm, e) && AllBelow(A[..], Np)
    modifies A
    ensures A[..] == Transform(Permuted(old(A[..]), e), Inverse(Mp, Np), Np)
  {
    RootPeriodic(Mp, e, Np);
    hide IsRoot, Transform, AllBelow, Rev, Permuted, Pow3, IsTritrev, Periodic;
    PermutedBelow(A[..], e, Np);
    TransformSize(Permuted(A[..], e), Inverse(Mp, Np), Np);
    var Ap := Gather(A, K, perm, e);
    WholeFft(Ap, K, 3 * Np - Mp, Np, perm, e);
    Scatter(A, Ap, K, perm, Transform(Permuted(old(A[..]), e), Inverse(Mp, Np), Np), e);
  }

  /** Ap[i] is A[perm[i]]. */
  method Gather(A: array<Poly>, K: nat, perm: seq<nat>, ghost e: nat) returns (Ap: array<Poly>)
    requires K == Pow3(e) == A.Length && IsTritrev(perm, e)
    ensures fresh(Ap) && Ap.Length == K && Ap[..] == Permuted(A[..], e)
  {
    hide Rev, Pow3;
    Ap := new Poly[K](_ => {});
    var i := 0;
    while i < K
      invariant i <= K
      invariant forall k: nat :: k < i ==> Ap[k] == At(A[..], Rev(k, e))
    {
      Ap[i] := A[perm[i]];
      i := i + 1;
    }
  }

  /** A[perm[i]] takes the value that is at i in Ap. */
  method Scatter(A: array<Poly>, Ap: array<Poly>, K: nat, perm: seq<nat>, ghost t: seq<Poly>, ghost e: nat)
    requires K == Pow3(e) == A.Length == Ap.Length == |t| && IsTritrev(perm, e) && A != Ap && Ap[..] == Permuted(t, e)
    modifies A
    ensures A[..] == t
  {
    hide Rev, Pow3;
    var i := 0;
    while i < K
      invariant i <= K && Ap[..] == Permuted(t, e)
      invariant forall k: nat :: k < i ==> At(A[..], Rev(k, e)) == At(t, Rev(k, e))
    {
      assert Ap[..][i] == At(t, perm[i]);
      A[perm[i]] := Ap[i];
      i := i + 1;
    }
    forall n: nat | n < K ensures A[n] == t[n] {
      RevInvolution(n, e);
      assert At(A[..], Rev(Rev(n, e), e)) == At(t, Rev(Rev(n, e), e));
    }
  }

  lemma PermutedBelow(s: seq<Poly>, e: nat, N: nat)
    requires AllBelow(s, N)
    ensures AllBelow(Permuted(s, e), N) && |Permuted(s, e)| == Pow3(e)
  {
  }

  lemma TransformSize(s: seq<Poly>, j: nat, N: nat)
    ensures |Transform(s, j, N)| == |s|
  {
  }

  lemma PointwiseBelow(x: seq<Poly>, y: seq<Poly>, N: nat)
    requires |x| == |y| && AllBelow(y, N)
    ensures AllBelow(Pointwise(x, y, N), N)
  {
    forall f: nat | f < |x| ensures Below(Pointwise(x, y, N)[f], 2 * N) {
      RingBelow(x[f], y[f], N, 2 * N);
    }
  }

  /** The ring and the root for chunks of M bits: Np = Mp K/3 >= M. */
  function ChunkExponent(M: nat, K: nat): (Mp: nat)
    requires K >= 3
    ensures Mp * (K / 3) >= M && (M >= 1 ==> Mp >= 1)
  {
    var k := K / 3;
    (M + k - 1) / k
  }

  /** Transform, multiply pointwise, transform back: the cyclic product, with no division by K. */
  method CyclicMultiply(A: array<Poly>, B: array<Poly>, K: nat, M: nat, ghost e: nat) returns (ghost Np: nat)
    requires K == Pow3(e) == A.Length == B.Length && e >= 1 && M >= 1 && A != B
    requires var N := ChunkExponent(M, K) * (K / 3); AllBelow(A[..], N) && AllBelow(B[..], N)
    modifies A, B
    ensures Np == ChunkExponent(M, K) * (K / 3) && A[..] == CyclicProduct(old(A[..]), old(B[..]), Np)
  {
    var perm := TritrevTable(K, e);
    var Mp := ChunkExponent(M, K);
    var N := Mp * (K / 3);
    Np := N;
    ghost var a, b := A[..], B[..];
    ChunkRoot(M, K, e);
    RootPeriodic(Mp, e, N);
    hide IsTritrev, AllBelow, Permuted, CyclicProduct, Transform, Pointwise, IsRoot, ChunkExponent, Periodic;
    WholeFft(A, K, Mp, N, perm, e);
    WholeFft(B, K, Mp, N, perm, e);
    Compose(A, A, B, K, N);
    ghost var x, y := Transform(a, Mp, N), Transform(b, Mp, N);
    PointwiseBelow(Permuted(x, e), Permuted(y, e), N);
    Ift(A, K, Mp, N, perm, e);
    Undone(a, b, Mp, e, N);
  }

  lemma ChunkRoot(M: nat, K: nat, e: nat)
    requires K == Pow3(e) && e >= 1 && M >= 1
    ensures IsRoot(ChunkExponent(M, K), e, ChunkExponent(M, K) * (K / 3))
  {
    TimesCommutes(Pow3(e - 1), ChunkExponent(M, K));
  }

  lemma Undone(a: seq<Poly>, b: seq<Poly>, j: nat, e: nat, N: nat)
    requires IsRoot(j, e, N) && |a| == |b| == Pow3(e) && AllBelow(a, N) && AllBelow(b, N)
    ensures var x, y := Transform(a, j, N), Transform(b, j, N);
      && |Permuted(x, e)| == |Permuted(y, e)|
      && Transform(Permuted(Pointwise(Permuted(x, e), Permuted(y, e), N), e), Inverse(j, N), N) == CyclicProduct(a, b, N)
  {
    hide Permuted, IsRoot, AllBelow, CyclicProduct, Eval, RingMul;
    assert |Permuted(Transform(a, j, N), e)| == Pow3(e) && |Permuted(Transform(b, j, N), e)| == Pow3(e) by {
      PermutedSize(Transform(a, j, N), e);
      PermutedSize(Transform(b, j, N), e);
    }
    PermutedPointwise(Transform(a, j, N), Transform(b, j, N), e, N);
    PermutedTwice(Pointwise(Transform(a, j, N), Transform(b, j, N), N), e);
    ConvolutionTheorem(a, b, j, e, N);
  }

  lemma PermutedSize(s: seq<Poly>, e: nat)
    ensures |Permuted(s, e)| == Pow3(e)
  {
  }
}
