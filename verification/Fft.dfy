/** gf2x/fft.c: the in-place radix-3 transform, its output order, and products through it. */
module TritReversal {
  import opened Arith

  /** s * p for a base-3 digit s */
  function Scaled(s: nat, p: nat): nat {
    if s == 0 then 0 else if s == 1 then p else 2 * p
  }

  /** i with its e base-3 digits reversed */
  function Rev(i: nat, e: nat): (r: nat)
    ensures r < Pow3(e)
  {
    if e == 0 then 0 else Scaled(i % 3, Pow3(e - 1)) + Rev(i / 3, e - 1)
  }

  lemma RevLow(i: nat, r: nat, e: nat)
    requires r < 3
    ensures Rev(3 * i + r, e + 1) == Scaled(r, Pow3(e)) + Rev(i, e)
  {
    assert (3 * i + r) % 3 == r && (3 * i + r) / 3 == i;
  }

  lemma {:induction false} RevHigh(s: nat, t: nat, e: nat)
    requires s < 3 && t < Pow3(e)
    ensures Rev(Scaled(s, Pow3(e)) + t, e + 1) == s + 3 * Rev(t, e)
    decreases e
  {
    if e == 0 {
      assert Rev(s / 3, 0) == 0;
    } else {
      RevHigh(s, t / 3, e - 1);
      RevLow(Scaled(s, Pow3(e - 1)) + t / 3, t % 3, e);
    }
  }

  lemma {:induction false} RevInvolution(i: nat, e: nat)
    requires i < Pow3(e)
    ensures Rev(Rev(i, e), e) == i
    decreases e
  {
    if e > 0 {
      RevInvolution(i / 3, e - 1);
      RevHigh(i % 3, Rev(i / 3, e - 1), e - 1);
    }
  }

  /** The entries i..i+K hold j plus Z times the reversal of their offset. */
  ghost predicate Reversed(perm: seq<nat>, i: nat, j: nat, Z: nat, e: nat) {
    && i + Pow3(e) <= |perm|
    && forall t: nat :: t < Pow3(e) ==> perm[i + t] == j + Times(Z, Rev(t, e))
  }

  lemma ReversedThirds(perm: seq<nat>, i: nat, j: nat, Z: nat, e: nat)
    requires e >= 1
    requires Reversed(perm, i, j, 3 * Z, e - 1)
    requires Reversed(perm, i + Pow3(e - 1), j + Z, 3 * Z, e - 1)
    requires Reversed(perm, i + 2 * Pow3(e - 1), j + 2 * Z, 3 * Z, e - 1)
    ensures Reversed(perm, i, j, Z, e)
  {
    hide Times, Rev;
    var k := Pow3(e - 1);
    forall t: nat | t < Pow3(e) ensures perm[i + t] == j + Times(Z, Rev(t, e)) {
      var s, t' := if t < k then 0 else if t < 2 * k then 1 else 2, if t < k then t else if t < 2 * k then t - k else t - 2 * k;
      RevHigh(s, t', e - 1);
      TimesDigit(Z, s, Rev(t', e - 1));
      assert t == Scaled(s, k) + t';
      assert perm[i + Scaled(s, k) + t'] == j + Scaled(s, Z) + Times(3 * Z, Rev(t', e - 1));
    }
  }

  lemma TimesDigit(Z: nat, s: nat, r: nat)
    requires s < 3
    ensures Times(Z, s + 3 * r) == Scaled(s, Z) + Times(3 * Z, r)
  {
  }

  ghost predicate SameOutside(s: seq<nat>, s': seq<nat>, lo: nat, hi: nat) {
    lo <= hi <= |s| == |s'| && s[..lo] == s'[..lo] && s[hi..] == s'[hi..]
  }

  method Bitrev(i: nat, j: nat, K: nat, Z: nat, perm: array<nat>, ghost e: nat)
    requires K == Pow3(e) && i + K <= perm.Length
    modifies perm
    ensures Reversed(perm[..], i, j, Z, e)
    ensures SameOutside(old(perm[..]), perm[..], i, i + K)
    decreases K
  {
    hide Reversed;
    if K == 1 {
      perm[i] := j;
      ReversedOne(perm[..], i, j, Z, e);
    } else {
      var k := K / 3;
      ghost var s0 := perm[..];
      Bitrev(i, j, k, 3 * Z, perm, e - 1);
      ghost var s1 := perm[..];
      Bitrev(i + K / 3, j + Z, k, 3 * Z, perm, e - 1);
      ghost var s2 := perm[..];
      Bitrev(i + 2 * K / 3, j + 2 * Z, k, 3 * Z, perm, e - 1);
      FromThirds(s0, s1, s2, perm[..], i, j, Z, e);
    }
  }

  lemma FromThirds(s0: seq<nat>, s1: seq<nat>, s2: seq<nat>, s3: seq<nat>, i: nat, j: nat, Z: nat, e: nat)
    requires e >= 1 && i + Pow3(e) <= |s0|
    requires var k := Pow3(e - 1);
      && SameOutside(s0, s1, i, i + k) && Reversed(s1, i, j, 3 * Z, e - 1)
      && SameOutside(s1, s2, i + k, i + 2 * k) && Reversed(s2, i + k, j + Z, 3 * Z, e - 1)
      && SameOutside(s2, s3, i + 2 * k, i + 3 * k) && Reversed(s3, i + 2 * k, j + 2 * Z, 3 * Z, e - 1)
    ensures Reversed(s3, i, j, Z, e) && SameOutside(s0, s3, i, i + Pow3(e))
  {
    hide Reversed;
    var k := Pow3(e - 1);
    Unchanged(s1, s3, i, j, 3 * Z, e - 1, i + k, s2, i + 2 * k);
    Unchanged(s2, s3, i + k, j + Z, 3 * Z, e - 1, i + 2 * k, s2, i + 2 * k);
    ReversedThirds(s3, i, j, Z, e);
    Outside(s0, s1, s2, s3, i, k);
  }

  lemma ReversedOne(perm: seq<nat>, i: nat, j: nat, Z: nat, e: nat)
    requires Pow3(e) == 1 && i < |perm| && perm[i] == j
    ensures Reversed(perm, i, j, Z, e)
  {
    assert forall t: nat :: t < 1 ==> Rev(t, e) == 0;
  }

  /** Entries below n are the same in s and m, and those below n' in m and s'. */
  lemma Unchanged(s: seq<nat>, s': seq<nat>, i: nat, j: nat, Z: nat, e: nat, n: nat, m: seq<nat>, n': nat)
    requires |s| == |s'| == |m| && i + Pow3(e) <= n <= n' <= |s|
    requires Reversed(s, i, j, Z, e) && m[..n] == s[..n] && s'[..n'] == m[..n']
    ensures Reversed(s', i, j, Z, e)
  {
    forall t: nat | t < Pow3(e) ensures s'[i + t] == j + Times(Z, Rev(t, e)) {
      assert s'[i + t] == s'[..n'][i + t] == m[..n'][i + t] && m[i + t] == m[..n][i + t] == s[..n][i + t];
    }
  }

  lemma Outside(s0: seq<nat>, s1: seq<nat>, s2: seq<nat>, s3: seq<nat>, i: nat, k: nat)
    requires |s0| == |s1| == |s2| == |s3| && i + 3 * k <= |s0|
    requires s1[..i] == s0[..i] && s2[..i + k] == s1[..i + k] && s3[..i + 2 * k] == s2[..i + 2 * k]
    requires s1[i + k..] == s0[i + k..] && s2[i + 2 * k..] == s1[i + 2 * k..] && s3[i + 3 * k..] == s2[i + 3 * k..]
    ensures s3[..i] == s0[..i] && s3[i + 3 * k..] == s0[i + 3 * k..]
  {
    assert s3[..i] == s3[..i + 2 * k][..i] && s2[..i] == s2[..i + k][..i];
    assert s2[..i + 2 * k][..i] == s2[..i] && s1[..i + k][..i] == s1[..i];
    assert s2[i + 3 * k..] == s2[i + 2 * k..][k..] && s1[i + 2 * k..][k..] == s1[i + 3 * k..];
    assert s1[i + 3 * k..] == s1[i + k..][2 * k..] && s0[i + k..][2 * k..] == s0[i + 3 * k..];
  }
}

module Fft {
  import opened Gf2
  import opened Gf2Poly
  import opened FftRing
  import opened Dft
  import opened Arith
  import opened TritReversal

  // ---------- The cells A[off], A[off+stride], ... ----------

  function Cell(off: nat, stride: nat, i: nat): nat {
    off + Times(i, stride)
  }

  lemma CellThird(off: nat, stride: nat, t: nat, q: nat)
    ensures Cell(Cell(off, stride, t), 3 * stride, q) == Cell(off, stride, 3 * q + t)
  {
    TimesPlus(3 * q, t, stride);
    TimesCommutes(3, q);
    TimesAssociates(q, 3, stride);
  }

  lemma CellLess(off: nat, stride: nat, i: nat, k: nat)
    requires i < k && stride >= 1
    ensures Cell(off, stride, i) < Cell(off, stride, k)
  {
    TimesPlus(i, k - i, stride);
    assert Times(k - i, stride) >= 1;
  }

  lemma CellsDistinct(off: nat, stride: nat, i: nat, k: nat)
    requires stride >= 1 && i != k
    ensures Cell(off, stride, i) != Cell(off, stride, k)
  {
    if i < k {
      CellLess(off, stride, i, k);
    } else {
      CellLess(off, stride, k, i);
    }
  }

  /** All cells of a grid of K are inside an array of n. */
  ghost predicate Fits(off: nat, stride: nat, K: nat, n: nat) {
    forall i: nat :: i < K ==> Cell(off, stride, i) < n
  }

  ghost function Strided(s: seq<Poly>, off: nat, stride: nat, K: nat): seq<Poly> {
    seq(K, i requires 0 <= i < K => At(s, Cell(off, stride, i)))
  }

  /** Only cells of the grid differ. */
  ghost predicate ChangedOnGrid(s: seq<Poly>, s': seq<Poly>, off: nat, stride: nat, K: nat) {
    && |s| == |s'|
    && forall x: nat :: x < |s| && s'[x] != s[x] ==> exists i: nat :: i < K && x == Cell(off, stride, i)
  }

  lemma StridedThird(s: seq<Poly>, off: nat, stride: nat, k: nat, t: nat)
    requires t < 3
    ensures Strided(s, Cell(off, stride, t), 3 * stride, k) == Third(Strided(s, off, stride, 3 * k), t)
  {
    hide Cell;
    forall q | 0 <= q < k
      ensures Strided(s, Cell(off, stride, t), 3 * stride, k)[q] == Third(Strided(s, off, stride, 3 * k), t)[q]
    {
      CellThird(off, stride, t, q);
    }
  }

  /** A change on one third leaves the cells of another third alone. */
  lemma OtherThird(s: seq<Poly>, s': seq<Poly>, off: nat, stride: nat, k: nat, t: nat, t': nat, q: nat)
    requires ChangedOnGrid(s, s', Cell(off, stride, t), 3 * stride, k) && stride >= 1
    requires t < 3 && t' < 3 && t != t' && q < k && Cell(off, stride, 3 * q + t') < |s|
    ensures s'[Cell(off, stride, 3 * q + t')] == s[Cell(off, stride, 3 * q + t')]
  {
    var x := Cell(off, stride, 3 * q + t');
    if s'[x] != s[x] {
      var i: nat :| i < k && x == Cell(Cell(off, stride, t), 3 * stride, i);
      CellThird(off, stride, t, i);
      CellsDistinct(off, stride, 3 * q + t', 3 * i + t);
    }
  }

  lemma StridedUnchanged(s: seq<Poly>, s': seq<Poly>, off: nat, stride: nat, k: nat, t: nat, t': nat)
    requires ChangedOnGrid(s, s', Cell(off, stride, t), 3 * stride, k) && stride >= 1
    requires t < 3 && t' < 3 && t != t' && Fits(off, stride, 3 * k, |s|)
    ensures Strided(s', Cell(off, stride, t'), 3 * stride, k) == Strided(s, Cell(off, stride, t'), 3 * stride, k)
  {
    forall q: nat | q < k
      ensures At(s', Cell(Cell(off, stride, t'), 3 * stride, q)) == At(s, Cell(Cell(off, stride, t'), 3 * stride, q))
    {
      CellThird(off, stride, t', q);
      OtherThird(s, s', off, stride, k, t, t', q);
    }
  }

  lemma ThirdFits(off: nat, stride: nat, k: nat, t: nat, n: nat)
    requires t < 3 && Fits(off, stride, 3 * k, n)
    ensures Fits(Cell(off, stride, t), 3 * stride, k, n)
  {
    forall q: nat | q < k ensures Cell(Cell(off, stride, t), 3 * stride, q) < n {
      CellThird(off, stride, t, q);
    }
  }

  // ---------- One level of the recursion ----------

  /** The K cells of the grid hold the transform of what they held before, in reversed order. */
  ghost predicate IsFft(s: seq<Poly>, s': seq<Poly>, off: nat, stride: nat, e: nat, j: nat, N: nat) {
    && |s'| == |s| && Fits(off, stride, Pow3(e), |s|)
    && forall i: nat :: i < Pow3(e) ==>
         s'[Cell(off, stride, i)] == Eval(Strided(s, off, stride, Pow3(e)), Times(Rev(i, e), j), N)
  }

  /** p[stride*i] is the reversal of i in e digits. */
  ghost predicate PermOn(p: seq<nat>, stride: nat, e: nat) {
    forall i: nat :: i < Pow3(e) ==> Times(i, stride) < |p| && p[Times(i, stride)] == Rev(i, e)
  }

  lemma PermThird(p: seq<nat>, stride: nat, e: nat)
    requires e >= 1 && PermOn(p, stride, e)
    ensures PermOn(p, 3 * stride, e - 1)
  {
    forall i: nat | i < Pow3(e - 1)
      ensures Times(i, 3 * stride) < |p| && p[Times(i, 3 * stride)] == Rev(i, e - 1)
    {
      TimesCommutes(3, i);
      TimesAssociates(i, 3, stride);
      assert 3 * i < Pow3(e) && p[Times(3 * i, stride)] == Rev(3 * i, e);
      RevLow(i, 0, e - 1);
    }
  }

  /** omega^K = 1: K j is a multiple of 3N. */
  ghost predicate Periodic(e: nat, j: nat, N: nat) {
    exists c: nat :: Times(Pow3(e), j) == Times(c, 3 * N)
  }

  lemma CubePeriodic(e: nat, j: nat, N: nat)
    requires N >= 1 && e >= 1 && Periodic(e, j, N)
    ensures Periodic(e - 1, (3 * j) % (3 * N), N)
  {
    var c: nat :| Times(Pow3(e), j) == Times(c, 3 * N);
    var k, q, r := Pow3(e - 1), (3 * j) / (3 * N), (3 * j) % (3 * N);
    assert 3 * k * j == c * (3 * N);
    DivTimes(3 * j, 3 * N);
    CubeArith(k, j, 3 * N, c, q, r);
    assert Times(k, r) == Times(c - k * q, 3 * N);
  }

  lemma CubeArith(k: int, j: int, n: int, c: int, q: int, m: int)
    requires n >= 1 && k >= 0 && m >= 0 && 3 * k * j == c * n && 3 * j == q * n + m
    ensures k * m == (c - k * q) * n && c - k * q >= 0
  {
    assert k * (3 * j) == k * (q * n) + k * m;
    assert k * (3 * j) == 3 * k * j;
    assert k * (q * n) == (k * q) * n;
    assert (c - k * q) * n == c * n - (k * q) * n;
    assert k * m >= 0;
    NonNegFactor(c - k * q, n);
  }

  /** The three sub-transforms, one after the other. */
  ghost predicate AreThirds(s0: seq<Poly>, s1: seq<Poly>, s2: seq<Poly>, s3: seq<Poly>,
                            off: nat, stride: nat, e: nat, j: nat, N: nat)
    requires e >= 1
  {
    var k, t := Pow3(e - 1), 3 * stride;
    && IsFft(s0, s1, Cell(off, stride, 0), t, e - 1, j, N) && ChangedOnGrid(s0, s1, Cell(off, stride, 0), t, k)
    && IsFft(s1, s2, Cell(off, stride, 1), t, e - 1, j, N) && ChangedOnGrid(s1, s2, Cell(off, stride, 1), t, k)
    && IsFft(s2, s3, Cell(off, stride, 2), t, e - 1, j, N) && ChangedOnGrid(s2, s3, Cell(off, stride, 2), t, k)
  }

  lemma ThirdsValue(s0: seq<Poly>, s1: seq<Poly>, s2: seq<Poly>, s3: seq<Poly>,
                    off: nat, stride: nat, e: nat, j: nat, N: nat, t: nat, q: nat)
    requires e >= 1 && stride >= 1 && AreThirds(s0, s1, s2, s3, off, stride, e, j, N)
    requires Fits(off, stride, Pow3(e), |s0|) && t < 3 && q < Pow3(e - 1)
    ensures |s3| == |s0| && Cell(off, stride, 3 * q + t) < |s3|
    ensures s3[Cell(off, stride, 3 * q + t)]
         == Eval(Third(Strided(s0, off, stride, Pow3(e)), t), Times(Rev(q, e - 1), j), N)
  {
    hide Cell, Eval, Times, Rev;
    var k := Pow3(e - 1);
    assert Pow3(e) == 3 * k;
    CellThird(off, stride, t, q);
    StridedThird(s0, off, stride, k, t);
    if t == 0 {
      OtherThird(s1, s2, off, stride, k, 1, 0, q);
      OtherThird(s2, s3, off, stride, k, 2, 0, q);
    } else if t == 1 {
      StridedUnchanged(s0, s1, off, stride, k, 0, 1);
      OtherThird(s2, s3, off, stride, k, 2, 1, q);
    } else {
      StridedUnchanged(s0, s1, off, stride, k, 0, 2);
      StridedUnchanged(s1, s2, off, stride, k, 1, 2);
    }
  }

  lemma ThirdsChange(s0: seq<Poly>, s1: seq<Poly>, s2: seq<Poly>, s3: seq<Poly>,
                     off: nat, stride: nat, e: nat, j: nat, N: nat)
    requires e >= 1 && AreThirds(s0, s1, s2, s3, off, stride, e, j, N)
    ensures ChangedOnGrid(s0, s3, off, stride, Pow3(e))
  {
    hide IsFft, Cell;
    forall x: nat | x < |s0| && s3[x] != s0[x] ensures exists i: nat :: i < Pow3(e) && x == Cell(off, stride, i) {
      var t := if s1[x] != s0[x] then 0 else if s2[x] != s1[x] then 1 else 2;
      var q: nat :| q < Pow3(e - 1) && x == Cell(Cell(off, stride, t), 3 * stride, q);
      CellThird(off, stride, t, q);
      assert 3 * q + t < Pow3(e);
    }
  }

  // ---------- The butterflies ----------

  /** The three cells of butterfly i, combined with the powers ii, ii+K/3 and ii+2K/3 of the root. */
  function Butterfly(s: seq<Poly>, off: nat, stride: nat, i: nat, ii: nat, k: nat, j: nat, N: nat): seq<Poly>
    requires N >= 1 && Cell(off, stride, 3 * i) < |s| && Cell(off, stride, 3 * i + 1) < |s| && Cell(off, stride, 3 * i + 2) < |s|
  {
    var c0, c1, c2 := Cell(off, stride, 3 * i), Cell(off, stride, 3 * i + 1), Cell(off, stride, 3 * i + 2);
    var a, b, c := s[c0], s[c1], s[c2];
    s[c0 := Point(a, b, c, ii, j, N)][c1 := Point(a, b, c, ii + k, j, N)][c2 := Point(a, b, c, ii + 2 * k, j, N)]
  }

  /** a + w^f b + w^(2f) c for w = x^j */
  function Point(a: Poly, b: Poly, c: Poly, f: nat, j: nat, N: nat): Poly {
    Xor(Xor(a, XPow(b, Times(f, j), N)), XPow(c, 2 * Times(f, j), N))
  }

  lemma FrequencySplit(f0: nat, r: nat, e: nat, j: nat, N: nat) returns (T: nat)
    requires N >= 1 && e >= 1 && r < 3 && Periodic(e, j, N)
    ensures 3 * Times(f0 + Scaled(r, Pow3(e - 1)), j) == Times(f0, (3 * j) % (3 * N)) + Times(T, 3 * N)
  {
    var c: nat :| Times(Pow3(e), j) == Times(c, 3 * N);
    var k, q, m := Pow3(e - 1), (3 * j) / (3 * N), (3 * j) % (3 * N);
    DivTimes(3 * j, 3 * N);
    assert 3 * (k * j) == c * (3 * N);
    var d := Scaled(r, c);
    ScaledMultiple(r, k, j, c, 3 * N);
    SplitArith(f0, Scaled(r, k), j, 3 * N, q, m, d);
    T := Times(f0, q) + d;
  }

  lemma ScaledMultiple(r: nat, k: nat, j: nat, c: nat, n: nat)
    requires 3 * (k * j) == c * n
    ensures 3 * (Scaled(r, k) * j) == Scaled(r, c) * n
  {
    assert (2 * k) * j == 2 * (k * j) && (2 * c) * n == 2 * (c * n);
  }

  lemma SplitArith(f0: int, R: int, j: int, n: int, q: int, m: int, d: int)
    requires 3 * j == q * n + m && 3 * (R * j) == d * n
    ensures 3 * ((f0 + R) * j) == f0 * m + (f0 * q + d) * n
  {
    assert (f0 + R) * j == f0 * j + R * j;
    assert f0 * (3 * j) == f0 * (q * n) + f0 * m;
    assert f0 * (q * n) == (f0 * q) * n;
    assert (f0 * q + d) * n == (f0 * q) * n + d * n;
    assert 3 * (f0 * j) == f0 * (3 * j);
  }

  /** Combining the thirds of a gives the transform of a at the frequency f0 + r K/3. */
  lemma PointIsEval(a: seq<Poly>, f0: nat, r: nat, e: nat, j: nat, N: nat)
    requires N >= 1 && e >= 1 && r < 3 && Periodic(e, j, N) && |a| == Pow3(e) && AllBelow(a, N)
    ensures var u := Times(f0, (3 * j) % (3 * N));
      Point(Eval(Third(a, 0), u, N), Eval(Third(a, 1), u, N), Eval(Third(a, 2), u, N),
            f0 + Scaled(r, Pow3(e - 1)), j, N)
      == Eval(a, Times(f0 + Scaled(r, Pow3(e - 1)), j), N)
  {
    hide Times, Eval, XPow, Xor, Scaled;
    var u, v := Times(f0, (3 * j) % (3 * N)), Times(f0 + Scaled(r, Pow3(e - 1)), j);
    var T := FrequencySplit(f0, r, e, j, N);
    EvalPeriod(Third(a, 0), u, T, N);
    EvalPeriod(Third(a, 1), u, T, N);
    EvalPeriod(Third(a, 2), u, T, N);
    EvalThirds(a, v, N);
  }

  lemma PointBelow(a: Poly, b: Poly, c: Poly, f: nat, j: nat, N: nat)
    requires Below(a, 2 * N) && Below(b, 2 * N) && Below(c, 2 * N)
    ensures Below(Point(a, b, c, f, j, N), 2 * N)
  {
    XPowBelow(b, Times(f, j), N);
    XPowBelow(c, 2 * Times(f, j), N);
  }

  lemma ButterflyBelow(s: seq<Poly>, off: nat, stride: nat, i: nat, ii: nat, k: nat, j: nat, N: nat)
    requires N >= 1 && Cell(off, stride, 3 * i) < |s| && Cell(off, stride, 3 * i + 1) < |s| && Cell(off, stride, 3 * i + 2) < |s|
    requires AllBelow(s, N)
    ensures AllBelow(Butterfly(s, off, stride, i, ii, k, j, N), N)
  {
    hide Point, Cell;
    var a, b, c := s[Cell(off, stride, 3 * i)], s[Cell(off, stride, 3 * i + 1)], s[Cell(off, stride, 3 * i + 2)];
    PointBelow(a, b, c, ii, j, N);
    PointBelow(a, b, c, ii + k, j, N);
    PointBelow(a, b, c, ii + 2 * k, j, N);
  }

  /** b and c times the powers that the code writes out, summed in the code's order */
  lemma PointFromShifts(a: Poly, b: Poly, c: Poly, f: nat, j: nat, N: nat, u: nat, v: nat)
    requires N >= 1 && Below(b, 2 * N) && Below(c, 2 * N) && u == f * j && v == 2 * f * j
    ensures Point(a, b, c, f, j, N) == Xor(Xor(a, Lshift(b, u, N)), Lshift(c, v, N))
    ensures Point(a, b, c, f, j, N) == Xor(a, Xor(Lshift(b, u, N), Lshift(c, v, N)))
  {
    LshiftIsXPow(b, u, N);
    LshiftIsXPow(c, v, N);
    assert u == Times(f, j) && v == 2 * Times(f, j);
    hide XPow, Times, Lshift;
  }

  /** The body of the loop over butterflies. */
  method Combine(A: array<Poly>, off: nat, stride: nat, i: nat, ii: nat, K: nat, j: nat, N: nat)
    requires N >= 1 && stride >= 1 && K % 3 == 0 && AllBelow(A[..], N)
    requires Cell(off, stride, 3 * i) < A.Length && Cell(off, stride, 3 * i + 1) < A.Length && Cell(off, stride, 3 * i + 2) < A.Length
    modifies A
    ensures A[..] == Butterfly(old(A[..]), off, stride, i, ii, K / 3, j, N)
  {
    hide Butterfly;
    ButterflyAddresses(off, stride, i);
    Exponents(ii, K, j);
    var a, b, c := off + 3 * i * stride, off + (3 * i + 1) * stride, off + (3 * i + 2) * stride;
    var u0, u1, u2 := ii * j, (ii + K / 3) * j, (ii + 2 * K / 3) * j;
    var v0, v1, v2 := 2 * ii * j, (2 * ii + 2 * K / 3) * j, (2 * ii + 4 * K / 3) * j;
    ghost var s := A[..];
    ButterflyShifts(s, off, stride, i, ii, K, j, N);
    hide Cell, Lshift, Xor, AllBelow;
    var t1 := Lshift(A[b], u0, N);
    var t2 := Lshift(A[b], u2, N);
    var t3 := Lshift(A[b], u1, N);
    A[b] := Xor(A[a], t3);
    t3 := Lshift(A[c], v1, N);
    A[b] := Xor(A[b], t3);
    t3 := Lshift(A[c], v2, N);
    t2 := Xor(t2, t3);
    t3 := Lshift(A[c], v0, N);
    A[c] := Xor(A[a], t2);
    A[a] := Xor(A[a], t1);
    A[a] := Xor(A[a], t3);
    assert A[..] == s[a := A[a]][b := A[b]][c := A[c]];
  }

  lemma ButterflyAddresses(off: nat, stride: nat, i: nat)
    requires stride >= 1
    ensures off + 3 * i * stride == Cell(off, stride, 3 * i)
    ensures off + (3 * i + 1) * stride == Cell(off, stride, 3 * i + 1)
    ensures off + (3 * i + 2) * stride == Cell(off, stride, 3 * i + 2)
    ensures Cell(off, stride, 3 * i) < Cell(off, stride, 3 * i + 1) < Cell(off, stride, 3 * i + 2)
  {
    CellLess(off, stride, 3 * i, 3 * i + 1);
    CellLess(off, stride, 3 * i + 1, 3 * i + 2);
  }

  lemma Exponents(ii: nat, K: nat, j: nat)
    requires K % 3 == 0
    ensures ii * j >= 0 && (ii + K / 3) * j >= 0 && (ii + 2 * K / 3) * j == (ii + 2 * (K / 3)) * j >= 0
    ensures (2 * ii + 2 * K / 3) * j == 2 * (ii + K / 3) * j >= 0
    ensures (2 * ii + 4 * K / 3) * j == 2 * (ii + 2 * (K / 3)) * j >= 0
  {
    var k := K / 3;
    assert 2 * K / 3 == 2 * k && 4 * K / 3 == 4 * k;
  }

  /** A butterfly, with the exponents and the order of additions that the code uses. */
  lemma ButterflyShifts(s: seq<Poly>, off: nat, stride: nat, i: nat, ii: nat, K: nat, j: nat, N: nat)
    requires N >= 1 && stride >= 1 && K % 3 == 0 && AllBelow(s, N)
    requires Cell(off, stride, 3 * i) < |s| && Cell(off, stride, 3 * i + 1) < |s| && Cell(off, stride, 3 * i + 2) < |s|
    ensures ii * j >= 0 && (ii + K / 3) * j >= 0 && (ii + 2 * K / 3) * j >= 0
    ensures 2 * ii * j >= 0 && (2 * ii + 2 * K / 3) * j >= 0 && (2 * ii + 4 * K / 3) * j >= 0
    ensures var a, b, c := Cell(off, stride, 3 * i), Cell(off, stride, 3 * i + 1), Cell(off, stride, 3 * i + 2);
      var t2 := Xor(Lshift(s[b], (ii + 2 * K / 3) * j, N), Lshift(s[c], (2 * ii + 4 * K / 3) * j, N));
      Butterfly(s, off, stride, i, ii, K / 3, j, N)
      == s[a := Xor(Xor(s[a], Lshift(s[b], ii * j, N)), Lshift(s[c], 2 * ii * j, N))]
          [b := Xor(Xor(s[a], Lshift(s[b], (ii + K / 3) * j, N)), Lshift(s[c], (2 * ii + 2 * K / 3) * j, N))]
          [c := Xor(s[a], t2)]
  {
    hide Cell, Point, Lshift, Xor;
    var a, b, c := Cell(off, stride, 3 * i), Cell(off, stride, 3 * i + 1), Cell(off, stride, 3 * i + 2);
    Exponents(ii, K, j);
    PointFromShifts(s[a], s[b], s[c], ii, j, N, ii * j, 2 * ii * j);
    PointFromShifts(s[a], s[b], s[c], ii + K / 3, j, N, (ii + K / 3) * j, (2 * ii + 2 * K / 3) * j);
    PointFromShifts(s[a], s[b], s[c], ii + 2 * (K / 3), j, N, (ii + 2 * K / 3) * j, (2 * ii + 4 * K / 3) * j);
  }

  /** What cell 3q+r holds when the first i butterflies are done, from the cells s before them. */
  ghost function Mixed(s: seq<Poly>, off: nat, stride: nat, e: nat, j: nat, N: nat, i: nat, q: nat, r: nat): Poly
    requires r < 3
  {
    if q < i then
      Point(At(s, Cell(off, stride, 3 * q)), At(s, Cell(off, stride, 3 * q + 1)), At(s, Cell(off, stride, 3 * q + 2)),
            Rev(q, e) + Scaled(r, Pow3(e)), j, N)
    else
      At(s, Cell(off, stride, 3 * q + r))
  }

  /** The first i of the 3^e butterflies are done, the other cells are as in s. */
  ghost predicate Combined(s: seq<Poly>, s': seq<Poly>, off: nat, stride: nat, e: nat, j: nat, N: nat, i: nat) {
    && ChangedOnGrid(s, s', off, stride, 3 * Pow3(e))
    && forall q: nat, r: nat :: q < Pow3(e) && r < 3 ==> IsMixed(s, s', off, stride, e, j, N, i, q, r)
  }

  ghost predicate IsMixed(s: seq<Poly>, s': seq<Poly>, off: nat, stride: nat, e: nat, j: nat, N: nat, i: nat, q: nat, r: nat)
    requires r < 3
  {
    At(s', Cell(off, stride, 3 * q + r)) == Mixed(s, off, stride, e, j, N, i, q, r)
  }

  lemma CombinedNone(s: seq<Poly>, off: nat, stride: nat, e: nat, j: nat, N: nat)
    ensures Combined(s, s, off, stride, e, j, N, 0)
  {
  }

  lemma ButterflyCells(s: seq<Poly>, off: nat, stride: nat, i: nat, ii: nat, k: nat, j: nat, N: nat, q: nat, r: nat)
    requires N >= 1 && stride >= 1 && r < 3
    requires Cell(off, stride, 3 * i) < |s| && Cell(off, stride, 3 * i + 1) < |s| && Cell(off, stride, 3 * i + 2) < |s|
    ensures At(Butterfly(s, off, stride, i, ii, k, j, N), Cell(off, stride, 3 * q + r))
         == if q == i then
              Point(s[Cell(off, stride, 3 * i)], s[Cell(off, stride, 3 * i + 1)], s[Cell(off, stride, 3 * i + 2)], ii + Scaled(r, k), j, N)
            else At(s, Cell(off, stride, 3 * q + r))
  {
    hide Cell, Point;
    CellsDistinct(off, stride, 3 * i, 3 * i + 1);
    CellsDistinct(off, stride, 3 * i, 3 * i + 2);
    CellsDistinct(off, stride, 3 * i + 1, 3 * i + 2);
    if q != i {
      CellsDistinct(off, stride, 3 * q + r, 3 * i);
      CellsDistinct(off, stride, 3 * q + r, 3 * i + 1);
      CellsDistinct(off, stride, 3 * q + r, 3 * i + 2);
    }
  }

  lemma CombinedStep(s: seq<Poly>, s': seq<Poly>, off: nat, stride: nat, e: nat, j: nat, N: nat, i: nat)
    requires N >= 1 && stride >= 1 && i < Pow3(e) && Combined(s, s', off, stride, e, j, N, i)
    requires Fits(off, stride, 3 * Pow3(e), |s|)
    ensures Cell(off, stride, 3 * i) < |s'| && Cell(off, stride, 3 * i + 1) < |s'| && Cell(off, stride, 3 * i + 2) < |s'|
    ensures Combined(s, Butterfly(s', off, stride, i, Rev(i, e), Pow3(e), j, N), off, stride, e, j, N, i + 1)
  {
    hide Cell, Point, Rev, Scaled, Pow3;
    var t := Butterfly(s', off, stride, i, Rev(i, e), Pow3(e), j, N);
    assert IsMixed(s, s', off, stride, e, j, N, i, i, 0);
    assert IsMixed(s, s', off, stride, e, j, N, i, i, 1);
    assert IsMixed(s, s', off, stride, e, j, N, i, i, 2);
    var n := i + 1;
    forall q: nat, r: nat | q < Pow3(e) && r < 3 ensures IsMixed(s, t, off, stride, e, j, N, n, q, r) {
      ButterflyCells(s', off, stride, i, Rev(i, e), Pow3(e), j, N, q, r);
      assert IsMixed(s, s', off, stride, e, j, N, i, q, r);
    }
    ButterflyOnGrid(s', off, stride, i, Rev(i, e), Pow3(e), j, N);
  }

  lemma ButterflyOnGrid(s: seq<Poly>, off: nat, stride: nat, i: nat, ii: nat, k: nat, j: nat, N: nat)
    requires N >= 1 && i < k
    requires Cell(off, stride, 3 * i) < |s| && Cell(off, stride, 3 * i + 1) < |s| && Cell(off, stride, 3 * i + 2) < |s|
    ensures ChangedOnGrid(s, Butterfly(s, off, stride, i, ii, k, j, N), off, stride, 3 * k)
  {
    hide Cell, Point;
  }

  /** The sub-transforms followed by all butterflies are the transform. */
  lemma CombinedAll(s0: seq<Poly>, s1: seq<Poly>, s2: seq<Poly>, s3: seq<Poly>, s: seq<Poly>,
                    off: nat, stride: nat, e: nat, j: nat, N: nat)
    requires N >= 1 && stride >= 1 && e >= 1 && Fits(off, stride, Pow3(e), |s0|)
    requires AllBelow(s0, N) && Periodic(e, j, N)
    requires AreThirds(s0, s1, s2, s3, off, stride, e, (3 * j) % (3 * N), N)
    requires Combined(s3, s, off, stride, e - 1, j, N, Pow3(e - 1))
    ensures IsFft(s0, s, off, stride, e, j, N) && ChangedOnGrid(s0, s, off, stride, Pow3(e))
  {
    hide Cell, Eval, Times, Rev, AllBelow, AreThirds, Periodic, IsMixed, Strided;
    ThirdsChange(s0, s1, s2, s3, off, stride, e, (3 * j) % (3 * N), N);
    ChangedTwice(s0, s3, s, off, stride, Pow3(e));
    forall i: nat | i < Pow3(e)
      ensures s[Cell(off, stride, i)] == Eval(Strided(s0, off, stride, Pow3(e)), Times(Rev(i, e), j), N)
    {
      CombinedCell(s0, s1, s2, s3, s, off, stride, e, j, N, i / 3, i % 3);
    }
  }

  lemma ChangedTwice(s: seq<Poly>, s': seq<Poly>, s'': seq<Poly>, off: nat, stride: nat, K: nat)
    requires ChangedOnGrid(s, s', off, stride, K) && ChangedOnGrid(s', s'', off, stride, K)
    ensures ChangedOnGrid(s, s'', off, stride, K)
  {
    hide Cell;
  }

  lemma CombinedCell(s0: seq<Poly>, s1: seq<Poly>, s2: seq<Poly>, s3: seq<Poly>, s: seq<Poly>,
                     off: nat, stride: nat, e: nat, j: nat, N: nat, q: nat, r: nat)
    requires N >= 1 && stride >= 1 && e >= 1 && Fits(off, stride, Pow3(e), |s0|) && q < Pow3(e - 1) && r < 3
    requires AllBelow(s0, N) && Periodic(e, j, N)
    requires AreThirds(s0, s1, s2, s3, off, stride, e, (3 * j) % (3 * N), N)
    requires Combined(s3, s, off, stride, e - 1, j, N, Pow3(e - 1))
    ensures At(s, Cell(off, stride, 3 * q + r)) == Eval(Strided(s0, off, stride, Pow3(e)), Times(Rev(3 * q + r, e), j), N)
  {
    hide Cell, Point, Eval, Times, Rev, Scaled, AreThirds, Periodic, AllBelow, Strided, ChangedOnGrid, Fits, Pow3;
    var j' := (3 * j) % (3 * N);
    ThirdsValue(s0, s1, s2, s3, off, stride, e, j', N, 0, q);
    ThirdsValue(s0, s1, s2, s3, off, stride, e, j', N, 1, q);
    ThirdsValue(s0, s1, s2, s3, off, stride, e, j', N, 2, q);
    StridedBelow(s0, off, stride, Pow3(e), N);
    PointIsEval(Strided(s0, off, stride, Pow3(e)), Rev(q, e - 1), r, e, j, N);
    RevLow(q, r, e - 1);
    assert IsMixed(s3, s, off, stride, e - 1, j, N, Pow3(e - 1), q, r);
  }

  lemma StridedBelow(s: seq<Poly>, off: nat, stride: nat, K: nat, N: nat)
    requires AllBelow(s, N)
    ensures AllBelow(Strided(s, off, stride, K), N) && |Strided(s, off, stride, K)| == K
  {
  }

  method Fft(A: array<Poly>, off: nat, K: nat, j: nat, N: nat, stride: nat, p: seq<nat>, ghost e: nat)
    requires N >= 1 && stride >= 1 && K == Pow3(e) && j < 3 * N
    requires Fits(off, stride, K, A.Length) && PermOn(p, stride, e) && Periodic(e, j, N) && AllBelow(A[..], N)
    modifies A
    ensures IsFft(old(A[..]), A[..], off, stride, e, j, N)
    ensures ChangedOnGrid(old(A[..]), A[..], off, stride, K)
    ensures AllBelow(A[..], N)
    decreases e
  {
    hide Fits, PermOn, Periodic, AllBelow, IsFft, ChangedOnGrid, Combined, Cell, Butterfly;
    ghost var s0 := A[..];
    if K == 1 {
      FftOne(s0, off, stride, e, j, N);
      assert A[..] == s0;
      return;
    }
    ghost var j' := (3 * j) % (3 * N);
    var k := K / 3;
    PermThird(p, stride, e);
    CubePeriodic(e, j, N);
    ThirdFits(off, stride, k, 0, A.Length);
    ThirdFits(off, stride, k, 1, A.Length);
    ThirdFits(off, stride, k, 2, A.Length);
    CellFirst(off, stride);
    Fft(A, off, k, (3 * j) % (3 * N), N, 3 * stride, p, e - 1);
    ghost var s1 := A[..];
    Fft(A, off + stride, k, (3 * j) % (3 * N), N, 3 * stride, p, e - 1);
    ghost var s2 := A[..];
    Fft(A, off + 2 * stride, k, (3 * j) % (3 * N), N, 3 * stride, p, e - 1);
    ghost var s3 := A[..];
    CombinedNone(s3, off, stride, e - 1, j, N);
    var i := 0;
    while i < k
      invariant i <= k && |s3| == A.Length
      invariant AllBelow(A[..], N)
      invariant Combined(s3, A[..], off, stride, e - 1, j, N, i)
    {
      CombinedStep(s3, A[..], off, stride, e - 1, j, N, i);
      ButterflyBelow(A[..], off, stride, i, Rev(i, e - 1), k, j, N);
      PermAt(p, stride, e, i);
      var ii := p[3 * stride * i];
      Combine(A, off, stride, i, ii, K, j, N);
      i := i + 1;
    }
    CombinedAll(s0, s1, s2, s3, A[..], off, stride, e, j, N);
  }

  lemma CellFirst(off: nat, stride: nat)
    ensures Cell(off, stride, 0) == off && Cell(off, stride, 1) == off + stride && Cell(off, stride, 2) == off + 2 * stride
  {
  }

  lemma PermAt(p: seq<nat>, stride: nat, e: nat, i: nat)
    requires e >= 1 && PermOn(p, stride, e) && i < Pow3(e - 1)
    ensures 0 <= 3 * stride * i < |p| && p[3 * stride * i] == Rev(i, e - 1)
  {
    PermThird(p, stride, e);
    assert Times(i, 3 * stride) == 3 * stride * i;
  }

  lemma FftOne(s: seq<Poly>, off: nat, stride: nat, e: nat, j: nat, N: nat)
    requires Pow3(e) == 1 && Fits(off, stride, 1, |s|)
    ensures IsFft(s, s, off, stride, e, j, N) && ChangedOnGrid(s, s, off, stride, 1)
  {
    assert Rev(0, e) == 0;
    var a := Strided(s, off, stride, 1);
    assert Terms(a, 0, N)(0) == a[0];
    assert Eval(a, 0, N) == a[0];
  }
}
