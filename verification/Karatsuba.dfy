/** gf2x/toom.c: scratch space and in-place Karatsuba multiplication. */
module ToomSpace {
  /** Words of scratch that the recursion of Karatsuba uses, with T its threshold */
  function KaraSpace(n: nat, T: nat): nat
    requires T >= 5
  {
    if n < T then 0 else 3 * ((n + 1) / 2) + KaraSpace((n + 1) / 2, T)
  }

  function LoopSpace(n: nat): nat {
    if n < 8 then 0 else 8 * (n / 3 + 2 + 1) + LoopSpace(n / 3 + 2)
  }

  /** low is the smaller one of the Karatsuba and Toom-Cook thresholds. */
  function Space(n: nat, low: nat): nat {
    if n < low then 0 else 19 + LoopSpace(n)
  }

  method ComputeSpace(n0: nat, kara: nat, toomw: nat) returns (sp: nat)
    requires kara >= 5 && toomw >= 8
    ensures sp == Space(n0, if kara < toomw then kara else toomw)
  {
    var n: nat := n0;
    var low := if kara < toomw then kara else toomw;
    if n < low {
      return 0;
    }
    sp := 19;
    while n >= 8
      invariant sp + LoopSpace(n) == 19 + LoopSpace(n0)
    {
      n := n / 3 + 2;
      sp := sp + 8 * (n + 1);
    }
  }

  lemma {:induction false} KaraSpaceAtMost(n: nat, T: nat)
    requires 5 <= T <= n
    ensures KaraSpace(n, T) <= 4 * n - 9
    decreases n
  {
    var n2 := (n + 1) / 2;
    if n2 >= T {
      KaraSpaceAtMost(n2, T);
    }
  }

  lemma {:induction false} KaraSpaceMonotone(m: nat, n: nat, T: nat)
    requires m <= n && 5 <= T
    ensures KaraSpace(m, T) <= KaraSpace(n, T)
    decreases n
  {
    if m >= T {
      KaraSpaceMonotone((m + 1) / 2, (n + 1) / 2, T);
    }
  }

  lemma {:induction false} LoopSpaceAtLeast(n: nat)
    ensures LoopSpace(n) >= 4 * n - 28
    decreases n
  {
    if n >= 8 {
      LoopSpaceAtLeast(n / 3 + 2);
    }
  }

  /** What the recursion needs fits in the space that callers reserve. */
  lemma SpaceEnough(n: nat, kara: nat, toomw: nat)
    requires kara >= 5 && toomw >= 8
    ensures KaraSpace(n, kara) <= Space(n, if kara < toomw then kara else toomw)
  {
    if n >= kara {
      KaraSpaceAtMost(n, kara);
      LoopSpaceAtLeast(n);
    }
  }

  lemma {:induction false} LoopSpaceMonotone(m: nat, n: nat)
    requires m <= n
    ensures LoopSpace(m) <= LoopSpace(n)
    decreases n
  {
    if m >= 8 {
      LoopSpaceMonotone(m / 3 + 2, n / 3 + 2);
    }
  }

  lemma SpaceMonotone(m: nat, n: nat, low: nat)
    requires m <= n
    ensures Space(m, low) <= Space(n, low)
  {
    LoopSpaceMonotone(m, n);
  }

  lemma {:induction false} LoopSpaceAtMost(n: nat)
    ensures LoopSpace(n) <= 5 * n + 24 && (n >= 90 ==> LoopSpace(n) <= 5 * n - 2)
    decreases n
  {
    if n >= 90 {
      LoopSpaceAtMost(n / 3 + 2);
    } else {
      LoopSpaceSmall(n);
    }
  }

  /** The first values */
  lemma LoopSpaceTiny(k: nat)
    requires k < 18
    ensures LoopSpace(k) == if k < 8 then 0 else 8 * (k / 3 + 3)
  {
  }

  lemma LoopSpaceNext(k: nat)
    requires 18 <= k < 32
    ensures LoopSpace(k) == if k < 21 then 112 else if k < 24 then 128 else if k < 27 then 136 else if k < 30 then 144 else 160
  {
    LoopSpaceTiny(k / 3 + 2);
  }

  lemma LoopSpaceSmall(n: nat)
    requires n < 90
    ensures LoopSpace(n) <= 5 * n + 24 && (LoopSpace(n) > 5 * n - 2 <==> n == 0 || AboveComment(n))
  {
    if n < 18 {
      LoopSpaceTiny(n);
    } else {
      var k := n / 3 + 2;
      assert LoopSpace(n) == 8 * (k + 1) + LoopSpace(k);
      if k < 18 {
        LoopSpaceTiny(k);
      } else {
        LoopSpaceNext(k);
      }
    }
  }

  /** The sizes for which the comment on gf2x_mul_toom promises too little */
  predicate AboveComment(n: nat) {
    n == 8 || n == 9 || 18 <= n <= 33 || 48 <= n <= 64 || n == 66 || n == 67 || n == 69
  }

  /** The comment bounds the space by 5 n + 17. It is wrong for 38 sizes, and right for all others. */
  lemma CommentedBound(n: nat, low: nat)
    requires low >= 5
    ensures Space(n, low) > 5 * n + 17 <==> n >= low && AboveComment(n)
    ensures Space(8, 8) == 59
  {
    assert LoopSpace(8) == 8 * (8 / 3 + 3) + LoopSpace(8 / 3 + 2) && LoopSpace(8 / 3 + 2) == 0;
    if n < 90 {
      LoopSpaceSmall(n);
    } else {
      LoopSpaceAtMost(n);
    }
  }
}

module Basecase {
  import opened Gf2
  import opened Gf2Poly
  import opened GfWords

  /** One word more of a row product: the carry moves up by one word. */
  lemma RowStep(d: Poly, d': Poly, v: Poly, v': Poly, x: Poly, y: Poly, w: Poly, carry: Poly, lo: Poly, hi: Poly, k: nat)
    requires Xor(v', Shift(carry, k)) == Xor(v, Mul(x, w))
    requires Mul(y, w) == Xor(lo, Shift(hi, 64)) && d' == Xor(Xor(d, lo), carry)
    ensures Xor(Xor(v', Shift(d', k)), Shift(hi, k + 64))
         == Xor(Xor(v, Shift(d, k)), Mul(Xor(x, Shift(y, k)), w))
  {
    MulXorLeft(x, Shift(y, k), w);
    MulShiftLeft(y, w, k);
    ShiftXor(lo, Shift(hi, 64), k);
    ShiftShift(hi, 64, k);
    ShiftXor(Xor(d, lo), carry, k);
    ShiftXor(d, lo, k);
    hide Mul, Shift;
    RowAlgebra(v, v', Mul(x, w), Shift(d, k), Shift(lo, k), Shift(carry, k), Shift(hi, k + 64));
  }

  lemma RowAlgebra(v: Poly, v': Poly, xw: Poly, d: Poly, lo: Poly, c: Poly, hi: Poly)
    requires Xor(v', c) == Xor(v, xw)
    ensures Xor(Xor(v', Xor(Xor(d, lo), c)), hi) == Xor(Xor(v, d), Xor(xw, Xor(lo, hi)))
  {
    assert Xor(Xor(v', Xor(Xor(d, lo), c)), hi) == Xor(Xor(v', c), Xor(Xor(d, lo), hi));
  }

  /** What the row starts from: zero, or what the destination holds */
  ghost function Start(s: seq<Poly>, dst: nat, n: nat, clear: bool): Poly {
    if clear then {} else GfWords.At(s, dst, n)
  }

  /** n words of b times the word w have been added at dst. */
  ghost predicate RowDone(s: seq<Poly>, s': seq<Poly>, dst: nat, b: nat, n: nat, w: Poly, clear: bool, carry: Poly) {
    && Outside(s, s', dst, n, 0, 0) && AllWords(s') && Below(carry, 64)
    && Xor(GfWords.At(s', dst, n), Shift(carry, 64 * n)) == Xor(Start(s, dst, n, clear), Mul(GfWords.At(s, b, n), w))
  }

  lemma RowNone(s: seq<Poly>, dst: nat, b: nat, w: Poly, clear: bool)
    requires AllWords(s)
    ensures RowDone(s, s, dst, b, 0, w, clear, {})
  {
    assert Shift({}, 0) == {};
    MulPartial({}, w, 0);
  }

  lemma RowNext(s: seq<Poly>, s': seq<Poly>, dst: nat, b: nat, n: nat, w: Poly, clear: bool, carry: Poly)
    requires RowDone(s, s', dst, b, n, w, clear, carry) && AllWords(s) && Below(w, 64)
    requires dst + n < |s| && b + n < |s| && Apart(dst, n + 1, b, n + 1)
    ensures |s'| == |s| && s'[b + n] == s[b + n]
    ensures var p := Mul(s[b + n], w);
      RowDone(s, s'[dst + n := Xor(Xor(if clear then {} else s'[dst + n], Low(p)), carry)], dst, b, n + 1, w, clear, High(p))
  {
    var p := Mul(s[b + n], w);
    var d: Poly := if clear then {} else s'[dst + n];
    assert Below(d, 64) && Below(s[b + n], 64) && Below(carry, 64);
    hide Mul, Shift, Low, High, GfWords.At, Xor, Below;
    ProductWords(s[b + n], w);
    XorBelow(d, Low(p), 64);
    XorBelow(Xor(d, Low(p)), carry, 64);
    RowNextValue(s, s', dst, b, n, w, clear, carry);
  }

  lemma RowNextValue(s: seq<Poly>, s': seq<Poly>, dst: nat, b: nat, n: nat, w: Poly, clear: bool, carry: Poly)
    requires Xor(GfWords.At(s', dst, n), Shift(carry, 64 * n)) == Xor(Start(s, dst, n, clear), Mul(GfWords.At(s, b, n), w))
    requires dst + n < |s| == |s'| && b + n < |s| && s'[dst + n] == s[dst + n]
    ensures var p := Mul(s[b + n], w);
      var t := s'[dst + n := Xor(Xor(if clear then {} else s'[dst + n], Low(p)), carry)];
      Xor(GfWords.At(t, dst, n + 1), Shift(High(p), 64 * (n + 1))) == Xor(Start(s, dst, n + 1, clear), Mul(GfWords.At(s, b, n + 1), w))
  {
    hide Mul, Shift, Low, High, GfWords.At, Xor;
    var p := Mul(s[b + n], w);
    var d: Poly := if clear then {} else s'[dst + n];
    var d' := Xor(Xor(d, Low(p)), carry);
    var t := s'[dst + n := d'];
    LowHigh(p);
    AtSnoc(t, dst, n);
    AtSnoc(s, dst, n);
    AtSnoc(s, b, n);
    AtPrefix(s', dst, n, d');
    XorEmptyShift(64 * n);
    RowStep(d, d', Start(s, dst, n, clear), GfWords.At(s', dst, n), GfWords.At(s, b, n), s[b + n], w, carry, Low(p), High(p), 64 * n);
  }

  lemma AtPrefix(s: seq<Poly>, off: nat, n: nat, w: Poly)
    requires off + n < |s|
    ensures GfWords.At(s[off + n := w], off, n) == GfWords.At(s, off, n)
  {
    assert Words(s[off + n := w], off, n) == Words(s, off, n);
  }

  lemma XorEmptyShift(k: nat)
    ensures Xor({}, Shift({}, k)) == {}
  {
  }

  lemma XorBelow(p: Poly, q: Poly, n: nat)
    requires Below(p, n) && Below(q, n)
    ensures Below(Xor(p, q), n)
  {
  }

  /** gf2x_addmul_1_n in place, or gf2x_mul_1_n if clear: the low words of the result, and its top word. */
  method AddMulRow(m: array<Poly>, dst: nat, b: nat, nb: nat, w: Poly, clear: bool) returns (carry: Poly)
    requires dst + nb <= m.Length && b + nb <= m.Length && Apart(dst, nb, b, nb)
    requires AllWords(m[..]) && Below(w, 64)
    modifies m
    ensures RowDone(old(m[..]), m[..], dst, b, nb, w, clear, carry)
  {
    hide RowDone, AllWords, Mul, High, Low, Xor;
    ghost var s := m[..];
    carry := {};
    RowNone(s, dst, b, w, clear);
    var i := 0;
    while i < nb
      invariant i <= nb && RowDone(s, m[..], dst, b, i, w, clear, carry)
    {
      RowNext(s, m[..], dst, b, i, w, clear, carry);
      var p := Mul(m[b + i], w);
      m[dst + i] := Xor(Xor(if clear then {} else m[dst + i], Low(p)), carry);
      carry := High(p);
      i := i + 1;
    }
  }

  /** c holds the product of the first i words of a with b. */
  ghost predicate RowsDone(s: seq<Poly>, s': seq<Poly>, c: nat, a: nat, i: nat, b: nat, nb: nat) {
    && Outside(s, s', c, nb + i, 0, 0) && AllWords(s')
    && GfWords.At(s', c, nb + i) == Mul(GfWords.At(s, a, i), GfWords.At(s, b, nb))
  }

  lemma RowValue(c0: Poly, v: Poly, v': Poly, carry: Poly, x: Poly, w: Poly, y: Poly, i: nat, nb: nat)
    requires Xor(v', Shift(carry, 64 * nb)) == Xor(v, Mul(y, w))
    requires Xor(c0, Shift(v, 64 * i)) == Mul(x, y)
    ensures Xor(Xor(c0, Shift(v', 64 * i)), Shift(carry, 64 * (nb + i))) == Mul(Xor(x, Shift(w, 64 * i)), y)
  {
    ShiftXor(v', Shift(carry, 64 * nb), 64 * i);
    ShiftShift(carry, 64 * nb, 64 * i);
    ShiftXor(v, Mul(y, w), 64 * i);
    MulXorLeft(x, Shift(w, 64 * i), y);
    MulShiftLeft(w, y, 64 * i);
    MulCommutes(w, y, Bound(w));
  }

  lemma RowsNext(s: seq<Poly>, s1: seq<Poly>, s2: seq<Poly>, c: nat, a: nat, i: nat, b: nat, nb: nat, carry: Poly)
    requires c + nb + i < |s| && a + i < |s| && b + nb <= |s| && Apart(c, nb + i + 1, b, nb) && Apart(c, nb + i + 1, a, i + 1)
    requires RowsDone(s, s1, c, a, i, b, nb)
    requires RowDone(s1, s2, c + i, b, nb, s[a + i], false, carry)
    ensures |s2| == |s| && RowsDone(s, s2[c + nb + i := carry], c, a, i + 1, b, nb)
  {
    hide Mul, Shift, Xor, Val, Below, Words;
    WordsOutside(s, s1, c, nb + i, 0, 0, b, nb);
    WordsOutside(s1, s2, c + i, nb, 0, 0, c, i);
    RowsNextValue(s, s1, s2, c, a, i, b, nb, carry);
  }

  lemma RowsNextValue(s: seq<Poly>, s1: seq<Poly>, s2: seq<Poly>, c: nat, a: nat, i: nat, b: nat, nb: nat, carry: Poly)
    requires c + nb + i < |s| == |s1| == |s2| && a + i < |s| && b + nb <= |s|
    requires GfWords.At(s2, c, i) == GfWords.At(s1, c, i) && GfWords.At(s1, b, nb) == GfWords.At(s, b, nb)
    requires GfWords.At(s1, c, nb + i) == Mul(GfWords.At(s, a, i), GfWords.At(s, b, nb))
    requires Xor(GfWords.At(s2, c + i, nb), Shift(carry, 64 * nb)) == Xor(GfWords.At(s1, c + i, nb), Mul(GfWords.At(s1, b, nb), s[a + i]))
    ensures GfWords.At(s2[c + nb + i := carry], c, nb + i + 1) == Mul(GfWords.At(s, a, i + 1), GfWords.At(s, b, nb))
  {
    hide Mul, Shift, Xor, GfWords.At, Words;
    AtConcat(s1, c, i, nb);
    AtConcat(s2, c, i, nb);
    assert i + nb == nb + i;
    AtSnoc(s2[c + nb + i := carry], c, nb + i);
    assert c + (nb + i) == c + nb + i;
    AtPrefix(s2, c, nb + i, carry);
    AtSnoc(s, a, i);
    RowValue(GfWords.At(s1, c, i), GfWords.At(s1, c + i, nb), GfWords.At(s2, c + i, nb), carry,
             GfWords.At(s, a, i), s[a + i], GfWords.At(s, b, nb), i, nb);
  }

  lemma RowsFirst(s: seq<Poly>, s1: seq<Poly>, c: nat, a: nat, b: nat, nb: nat, carry: Poly)
    requires c + nb < |s| && a < |s| && b + nb <= |s| && RowDone(s, s1, c, b, nb, s[a], true, carry)
    ensures RowsDone(s, s1[c + nb := carry], c, a, 1, b, nb)
  {
    var t := s1[c + nb := carry];
    AtSnoc(t, c, nb);
    AtSnoc(s, a, 0);
    ShiftZero(s[a]);
    assert Words(t, c, nb) == Words(s1, c, nb);
    MulCommutes(s[a], GfWords.At(s, b, nb), Bound(s[a]));
    hide Mul, Shift, Below;
    assert GfWords.At(s, a, 1) == s[a];
  }

  /** c has the na + nb words of the product of a and b. */
  ghost predicate IsProduct(s: seq<Poly>, s': seq<Poly>, c: nat, a: nat, na: nat, b: nat, nb: nat, stk: nat, space: nat) {
    && Outside(s, s', c, na + nb, stk, space) && AllWords(s')
    && GfWords.At(s', c, na + nb) == Mul(GfWords.At(s, a, na), GfWords.At(s, b, nb))
  }

  /** Operands of size 0 are read as one word: the case 0 of the source runs into case 1. */
  function Size(n: nat): nat {
    if n == 0 then 1 else n
  }

  lemma RowsReady(s: seq<Poly>, s1: seq<Poly>, c: nat, a: nat, i: nat, b: nat, nb: nat)
    requires RowsDone(s, s1, c, a, i, b, nb) && AllWords(s) && a + i < |s| && Apart(c, nb + i, a, i + 1)
    ensures |s1| == |s| && s1[a + i] == s[a + i] && Below(s[a + i], 64) && AllWords(s1)
  {
  }

  lemma ProductSwap(s: seq<Poly>, s': seq<Poly>, c: nat, a: nat, na: nat, b: nat, nb: nat)
    requires IsProduct(s, s', c, b, nb, a, na, 0, 0)
    ensures IsProduct(s, s', c, a, na, b, nb, 0, 0)
  {
    var p := GfWords.At(s, b, nb);
    MulCommutes(p, GfWords.At(s, a, na), Bound(p));
    assert na + nb == nb + na;
  }

  lemma WordBelow(s: seq<Poly>, i: nat)
    requires AllWords(s) && i < |s|
    ensures Below(s[i], 64)
  {
  }

  /** Row i of the product, at c + i */
  method AddRow(m: array<Poly>, c: nat, a: nat, i: nat, b: nat, nb: nat, ghost s: seq<Poly>)
    requires |s| == m.Length && AllWords(s) && RowsDone(s, m[..], c, a, i, b, nb)
    requires c + nb + i < m.Length && a + i < m.Length && b + nb <= m.Length
    requires Apart(c, nb + i + 1, b, nb) && Apart(c, nb + i + 1, a, i + 1)
    modifies m
    ensures RowsDone(s, m[..], c, a, i + 1, b, nb)
  {
    hide RowDone, RowsDone, AllWords, Below;
    ghost var s1 := m[..];
    RowsReady(s, s1, c, a, i, b, nb);
    var w := AddMulRow(m, c + i, b, nb, m[a + i], false);
    ghost var s2 := m[..];
    RowsNext(s, s1, s2, c, a, i, b, nb, w);
    m[c + nb + i] := w;
    assert m[..] == s2[c + nb + i := w];
  }

  method FirstRow(m: array<Poly>, c: nat, a: nat, b: nat, nb: nat)
    requires AllWords(m[..]) && c + nb < m.Length && a < m.Length && b + nb <= m.Length && Apart(c, nb, b, nb)
    modifies m
    ensures RowsDone(old(m[..]), m[..], c, a, 1, b, nb)
  {
    hide RowDone, RowsDone, AllWords, Below;
    ghost var s := m[..];
    WordBelow(s, a);
    var w := AddMulRow(m, c, b, nb, m[a], true);
    ghost var s1 := m[..];
    RowsFirst(s, s1, c, a, b, nb, w);
    m[c + nb] := w;
    assert m[..] == s1[c + nb := w];
  }

  method MulBasecase(m: array<Poly>, c: nat, a: nat, na: nat, b: nat, nb: nat)
    requires if na == nb then na < 10 else na >= 1 && nb >= 1
    requires a + Size(na) <= m.Length && b + Size(nb) <= m.Length && c + Size(na) + Size(nb) <= m.Length
    requires Apart(c, Size(na) + Size(nb), a, Size(na)) && Apart(c, Size(na) + Size(nb), b, Size(nb))
    requires AllWords(m[..])
    modifies m
    ensures IsProduct(old(m[..]), m[..], c, a, Size(na), b, Size(nb), 0, 0)
    decreases na > nb
  {
    hide RowsDone, AllWords, IsProduct;
    ghost var s := m[..];
    if na > nb {
      MulBasecase(m, c, b, nb, a, na);
      ProductSwap(s, m[..], c, a, na, b, nb);
      return;
    }
    var k, n := Size(na), Size(nb);
    FirstRow(m, c, a, b, n);
    var i := 1;
    while i < k
      invariant 1 <= i <= k && RowsDone(s, m[..], c, a, i, b, n)
    {
      AddRow(m, c, a, i, b, n, s);
      i := i + 1;
    }
    RowsProduct(s, m[..], c, a, k, b, n);
  }

  lemma RowsProduct(s: seq<Poly>, s': seq<Poly>, c: nat, a: nat, na: nat, b: nat, nb: nat)
    requires RowsDone(s, s', c, a, na, b, nb)
    ensures IsProduct(s, s', c, a, na, b, nb, 0, 0)
  {
    assert nb + na == na + nb;
  }
}

module Karatsuba {
  import opened Gf2
  import opened Gf2Poly
  import opened GfWords
  import opened ToomSpace
  import opened Basecase

  // ---------- The identity ----------

  /** L + X^k (M + L + H) + X^2k H, with each product split in two halves: cc = L1 + H0 enters two quarters. */
  lemma QuartersAlgebra(L0: Poly, L1: Poly, H0: Poly, H1: Poly, M0: Poly, M1: Poly, k: nat)
    ensures var cc := Xor(L1, H0);
      var mid := Xor(Xor(Xor(M0, Shift(M1, k)), Xor(L0, Shift(L1, k))), Xor(H0, Shift(H1, k)));
      Xor(Xor(Xor(L0, Shift(Xor(M0, Xor(cc, L0)), k)), Shift(Xor(M1, Xor(cc, H1)), k + k)), Shift(H1, k + k + k))
      == Xor(Xor(Xor(L0, Shift(L1, k)), Shift(mid, k)), Shift(Xor(H0, Shift(H1, k)), k + k))
  {
    hide Shift, Xor;
    ShiftXor3(M0, L1, H0, L0, k);
    ShiftXor3(M1, L1, H0, H1, k + k);
    ShiftXor(Xor(Xor(M0, Shift(M1, k)), Xor(L0, Shift(L1, k))), Xor(H0, Shift(H1, k)), k);
    ShiftXor(Xor(M0, Shift(M1, k)), Xor(L0, Shift(L1, k)), k);
    ShiftPair(M0, M1, k, k);
    ShiftPair(L0, L1, k, k);
    ShiftPair(H0, H1, k, k);
    ShiftPair(H0, H1, k, k + k);
    TenTerms(L0, Shift(L1, k), Shift(M0, k), Shift(H0, k), Shift(L0, k), Shift(M1, k + k), Shift(L1, k + k),
             Shift(H0, k + k), Shift(H1, k + k), Shift(H1, k + k + k));
  }

  lemma ShiftXor3(a: Poly, b: Poly, c: Poly, d: Poly, k: nat)
    ensures Shift(Xor(a, Xor(Xor(b, c), d)), k) == Xor(Shift(a, k), Xor(Xor(Shift(b, k), Shift(c, k)), Shift(d, k)))
  {
    ShiftXor(a, Xor(Xor(b, c), d), k);
    ShiftXor(Xor(b, c), d, k);
    ShiftXor(b, c, k);
  }

  lemma ShiftPair(p: Poly, q: Poly, k: nat, j: nat)
    ensures Shift(Xor(p, Shift(q, k)), j) == Xor(Shift(p, j), Shift(q, k + j))
  {
    ShiftXor(p, Shift(q, k), j);
    ShiftShift(q, k, j);
  }

  lemma TenTerms(l0: Poly, l1: Poly, m0: Poly, h0: Poly, l0': Poly, m1: Poly, l1': Poly, h0': Poly, h1': Poly, h1'': Poly)
    ensures Xor(Xor(Xor(l0, Xor(m0, Xor(Xor(l1, h0), l0'))), Xor(m1, Xor(Xor(l1', h0'), h1'))), h1'')
         == Xor(Xor(Xor(l0, l1), Xor(Xor(Xor(m0, m1), Xor(l0', l1')), Xor(h0, h1'))), Xor(h0', h1''))
  {
  }

  /** The product of a0 + X^k a1 and b0 + X^k b1 from three products. */
  lemma ThreeProducts(a0: Poly, a1: Poly, b0: Poly, b1: Poly, k: nat)
    ensures var L, H, M := Mul(a0, b0), Mul(a1, b1), Mul(Xor(a0, a1), Xor(b0, b1));
      Mul(Xor(a0, Shift(a1, k)), Xor(b0, Shift(b1, k))) == Xor(Xor(L, Shift(Xor(Xor(M, L), H), k)), Shift(H, k + k))
  {
    hide Mul, Shift;
    FourProducts(a0, a1, b0, b1);
    FourProducts(a0, Shift(a1, k), b0, Shift(b1, k));
    MulShiftLeft(a1, b0, k);
    MulShiftRight(a0, b1, k);
    MulShiftLeft(a1, Shift(b1, k), k);
    MulShiftRight(a1, b1, k);
    ShiftShift(Mul(a1, b1), k, k);
    ShiftXor(Mul(a0, b1), Mul(a1, b0), k);
    MiddleTerm(Mul(a0, b0), Mul(a0, b1), Mul(a1, b0), Mul(a1, b1));
  }

  lemma FourProducts(a0: Poly, a1: Poly, b0: Poly, b1: Poly)
    ensures Mul(Xor(a0, a1), Xor(b0, b1)) == Xor(Xor(Mul(a0, b0), Xor(Mul(a0, b1), Mul(a1, b0))), Mul(a1, b1))
  {
    hide Mul;
    MulXorLeft(a0, a1, Xor(b0, b1));
    MulXorRight(a0, b0, b1);
    MulXorRight(a1, b0, b1);
  }

  lemma MiddleTerm(p: Poly, q: Poly, r: Poly, t: Poly)
    ensures Xor(Xor(Xor(Xor(p, Xor(q, r)), t), p), t) == Xor(q, r)
  {
  }

  lemma Identity(a0: Poly, a1: Poly, b0: Poly, b1: Poly, L0: Poly, L1: Poly, H0: Poly, H1: Poly, M0: Poly, M1: Poly, k: nat)
    requires Mul(a0, b0) == Xor(L0, Shift(L1, k)) && Mul(a1, b1) == Xor(H0, Shift(H1, k))
    requires Mul(Xor(a0, a1), Xor(b0, b1)) == Xor(M0, Shift(M1, k))
    ensures var cc := Xor(L1, H0);
      Xor(Xor(Xor(L0, Shift(Xor(M0, Xor(cc, L0)), k)), Shift(Xor(M1, Xor(cc, H1)), k + k)), Shift(H1, k + k + k))
      == Mul(Xor(a0, Shift(a1, k)), Xor(b0, Shift(b1, k)))
  {
    hide Mul, Shift, Xor;
    QuartersAlgebra(L0, L1, H0, H1, M0, M1, k);
    ThreeProducts(a0, a1, b0, b1, k);
  }

  // ---------- The memory at each stage ----------

  /** Where the operands, the result and the scratch words are. */
  datatype Layout = Layout(c: nat, a: nat, b: nat, n: nat, stk: nat) {
    function Half(): nat {
      (n + 1) / 2
    }

    /** Size of the high halves */
    function Rest(): nat {
      n / 2
    }

    /** Size of the top quarter of the result */
    function Top(): nat {
      if n >= 2 then 2 * n - 3 * Half() else 0
    }

    ghost predicate Fits(space: nat, len: nat) {
      && c + 2 * n <= len && a + n <= len && b + n <= len && stk + space <= len
      && Apart(c, 2 * n, a, n) && Apart(c, 2 * n, b, n) && Apart(c, 2 * n, stk, space)
      && Apart(stk, space, a, n) && Apart(stk, space, b, n)
    }

    function Low(): Layout {
      Layout(c, a, b, Half(), stk + 3 * Half())
    }

    function High(): Layout {
      Layout(c + 2 * Half(), a + Half(), b + Half(), Rest(), stk + 3 * Half())
    }

    function Middle(): Layout {
      Layout(c + Half(), stk, stk + Half(), Half(), stk + 3 * Half())
    }

    /** aa, bb and cc hold the sums of the halves. */
    ghost predicate Summed(s: seq<Poly>, s': seq<Poly>) {
      && Words(s', stk, Half()) == XorWords(Words(s, a, Half()), Words(s, a + Half(), Rest()))
      && Words(s', stk + Half(), Half()) == XorWords(Words(s, b, Half()), Words(s, b + Half(), Rest()))
      && Words(s', stk + 2 * Half(), Half()) == XorWords(Words(s, c + Half(), Half()), Words(s, c + 2 * Half(), Half()))
    }

    /** The second and third quarter of the result are corrected by cc and the outer quarters. */
    ghost predicate Corrected(s: seq<Poly>, s': seq<Poly>) {
      && Words(s', c, Half()) == Words(s, c, Half())
      && Words(s', c + Half(), Half())
         == XorWords(Words(s, c + Half(), Half()), XorWords(Words(s, stk + 2 * Half(), Half()), Words(s, c, Half())))
      && Words(s', c + 2 * Half(), Half())
         == XorWords(Words(s, c + 2 * Half(), Half()), XorWords(Words(s, stk + 2 * Half(), Half()), Words(s, c + 3 * Half(), Top())))
      && Words(s', c + 3 * Half(), Top()) == Words(s, c + 3 * Half(), Top())
    }

    ghost predicate Product(s: seq<Poly>, s': seq<Poly>) {
      GfWords.At(s', c, 2 * n) == Mul(GfWords.At(s, a, n), GfWords.At(s, b, n))
    }

    /** Nothing but the result and the scratch changes. */
    ghost predicate Frame(s: seq<Poly>, s': seq<Poly>, space: nat) {
      Outside(s, s', c, 2 * n, stk, space) && AllWords(s')
    }

    lemma Sizes()
      requires n >= 5
      ensures Half() + Rest() == n && Half() - 1 <= Rest() <= Half() && Half() >= 3
      ensures Top() == 2 * Rest() - Half() && 2 * n == 3 * Half() + Top() && Half() - 2 <= Top() <= Half()
    {
    }

    lemma Bounds(space: nat, len: nat)
      requires Fits(space, len)
      ensures c + 2 * n <= len && a + n <= len && b + n <= len && stk + space <= len
    {
    }

    lemma SubFits(space: nat, len: nat)
      requires n >= 5 && Fits(3 * Half() + space, len)
      ensures Low().Fits(space, len) && High().Fits(space, len) && Middle().Fits(space, len)
    {
    }

    /** s: before; t: after the outer products; u: after the sums; v: after the middle product; w: at the end. */
    lemma Correct(s: seq<Poly>, t: seq<Poly>, u: seq<Poly>, v: seq<Poly>, w: seq<Poly>)
      requires n >= 5 && |s| == |t| == |u| == |v| == |w| && c + 2 * n <= |s| && a + n <= |s| && b + n <= |s|
      requires stk + 3 * Half() <= |s|
      requires Low().Product(s, t) && High().Product(s, t)
      requires Words(t, a, n) == Words(s, a, n) && Words(t, b, n) == Words(s, b, n)
      requires Summed(t, u) && Middle().Product(u, v)
      requires Words(v, c, Half()) == Words(t, c, Half()) && Words(v, c + 3 * Half(), Top()) == Words(t, c + 3 * Half(), Top())
      requires Words(v, stk + 2 * Half(), Half()) == Words(u, stk + 2 * Half(), Half())
      requires Corrected(v, w)
      ensures Product(s, w)
    {
      hide Mul, Xor, Shift, Val, Words, XorWords;
      var h, r := Half(), Rest();
      SummedValues(s, t, u);
      CorrectedValues(t, u, v, w);
      Sizes();
      Splits(s, t, v);
      Identity(GfWords.At(s, a, h), GfWords.At(s, a + h, r), GfWords.At(s, b, h), GfWords.At(s, b + h, r),
               GfWords.At(t, c, h), GfWords.At(t, c + h, h), GfWords.At(t, c + 2 * h, h), GfWords.At(t, c + 3 * h, Top()),
               GfWords.At(v, c + h, h), GfWords.At(v, c + 2 * h, h), 64 * h);
    }

    lemma Splits(s: seq<Poly>, t: seq<Poly>, v: seq<Poly>)
      requires n >= 5 && |s| == |t| == |v| && c + 2 * n <= |s| && a + n <= |s| && b + n <= |s|
      ensures var h, r := Half(), Rest();
        && GfWords.At(s, a, n) == Xor(GfWords.At(s, a, h), Shift(GfWords.At(s, a + h, r), 64 * h))
        && GfWords.At(s, b, n) == Xor(GfWords.At(s, b, h), Shift(GfWords.At(s, b + h, r), 64 * h))
        && GfWords.At(t, c, 2 * h) == Xor(GfWords.At(t, c, h), Shift(GfWords.At(t, c + h, h), 64 * h))
        && GfWords.At(t, c + 2 * h, 2 * r) == Xor(GfWords.At(t, c + 2 * h, h), Shift(GfWords.At(t, c + 3 * h, Top()), 64 * h))
        && GfWords.At(v, c + h, 2 * h) == Xor(GfWords.At(v, c + h, h), Shift(GfWords.At(v, c + 2 * h, h), 64 * h))
    {
      hide Xor, Shift, GfWords.At;
      Sizes();
      var h, r := Half(), Rest();
      AtConcat(s, a, h, r);
      AtConcat(s, b, h, r);
      AtConcat(t, c, h, h);
      AtConcat(t, c + 2 * h, h, Top());
      AtConcat(v, c + h, h, h);
      assert c + h + h == c + 2 * h && c + 2 * h + h == c + 3 * h && h + Top() == 2 * r;
    }

    lemma SummedValues(s: seq<Poly>, t: seq<Poly>, u: seq<Poly>)
      requires n >= 5 && |s| == |t| == |u| && a + n <= |s| && b + n <= |s| && c + 2 * n <= |s|
      requires Words(t, a, n) == Words(s, a, n) && Words(t, b, n) == Words(s, b, n) && Summed(t, u)
      ensures var h, r := Half(), Rest();
        && GfWords.At(u, stk, h) == Xor(GfWords.At(s, a, h), GfWords.At(s, a + h, r))
        && GfWords.At(u, stk + h, h) == Xor(GfWords.At(s, b, h), GfWords.At(s, b + h, r))
        && GfWords.At(u, stk + 2 * h, h) == Xor(GfWords.At(t, c + h, h), GfWords.At(t, c + 2 * h, h))
    {
      hide Xor, Val, Words, XorWords;
      Sizes();
      var h, r := Half(), Rest();
      SubWords(s, t, a, n, 0, h);
      SubWords(s, t, a, n, h, r);
      SubWords(s, t, b, n, 0, h);
      SubWords(s, t, b, n, h, r);
      WordsSizes(t, h, r);
      ValXor(Words(t, a, h), Words(t, a + h, r));
      ValXor(Words(t, b, h), Words(t, b + h, r));
      ValXor(Words(t, c + h, h), Words(t, c + 2 * h, h));
    }

    lemma WordsSizes(t: seq<Poly>, h: nat, r: nat)
      requires a + h + r <= |t| && b + h + r <= |t| && c + 3 * h <= |t|
      ensures |Words(t, a, h)| == |Words(t, b, h)| == |Words(t, c + h, h)| == |Words(t, c + 2 * h, h)| == h
      ensures |Words(t, a + h, r)| == |Words(t, b + h, r)| == r
    {
    }

    lemma CorrectedValues(t: seq<Poly>, u: seq<Poly>, v: seq<Poly>, w: seq<Poly>)
      requires n >= 5 && |t| == |v| == |w| == |u| && c + 2 * n <= |t| && stk + 3 * Half() <= |t|
      requires Words(v, c, Half()) == Words(t, c, Half()) && Words(v, c + 3 * Half(), Top()) == Words(t, c + 3 * Half(), Top())
      requires Words(v, stk + 2 * Half(), Half()) == Words(u, stk + 2 * Half(), Half())
      requires Corrected(v, w)
      ensures var h, cc := Half(), GfWords.At(u, stk + 2 * Half(), Half());
        GfWords.At(w, c, 2 * n)
        == Xor(Xor(Xor(GfWords.At(t, c, h), Shift(Xor(GfWords.At(v, c + h, h), Xor(cc, GfWords.At(t, c, h))), 64 * h)),
                   Shift(Xor(GfWords.At(v, c + 2 * h, h), Xor(cc, GfWords.At(t, c + 3 * h, Top()))), 64 * h + 64 * h)),
               Shift(GfWords.At(t, c + 3 * h, Top()), 64 * h + 64 * h + 64 * h))
    {
      hide Xor, Val, Words, XorWords, Shift;
      Sizes();
      var h, q := Half(), Top();
      QuarterSizes(v, h, q);
      XorThree(Words(v, c + h, h), Words(v, stk + 2 * h, h), Words(v, c, h));
      XorThree(Words(v, c + 2 * h, h), Words(v, stk + 2 * h, h), Words(v, c + 3 * h, q));
      AtConcat(w, c, h + h + h, q);
      AtConcat(w, c, h + h, h);
      AtConcat(w, c, h, h);
      assert c + (h + h) == c + 2 * h && c + (h + h + h) == c + 3 * h && h + h + h + q == 2 * n;
    }

    // ---------- The loops ----------

    function SumA(s: seq<Poly>): seq<Poly> {
      XorWords(Words(s, a, Half()), Words(s, a + Half(), Rest()))
    }

    function SumB(s: seq<Poly>): seq<Poly> {
      XorWords(Words(s, b, Half()), Words(s, b + Half(), Rest()))
    }

    function SumC(s: seq<Poly>): seq<Poly> {
      XorWords(Words(s, c + Half(), Half()), Words(s, c + 2 * Half(), Half()))
    }

    ghost predicate SumsUpTo(s: seq<Poly>, s': seq<Poly>, i: nat) {
      && Outside(s, s', stk, 3 * Half(), 0, 0) && AllWords(s')
      && Filled(s', stk, i, SumA(s)) && Filled(s', stk + Half(), i, SumB(s)) && Filled(s', stk + 2 * Half(), i, SumC(s))
    }

    lemma SumsNone(s: seq<Poly>)
      requires n >= 5 && Fits(3 * Half(), |s|) && AllWords(s)
      ensures SumsUpTo(s, s, 0)
    {
    }

    /** The words that the loop over j reads and writes */
    lemma SumsStep(s: seq<Poly>, s': seq<Poly>, i: nat, x: Poly, y: Poly, z: Poly)
      requires n >= 5 && i < Half() && Fits(3 * Half(), |s|) && AllWords(s) && SumsUpTo(s, s', i) && |s'| == |s|
      requires x == if i < Rest() then Xor(s'[a + i], s'[a + Half() + i]) else s'[a + i]
      requires y == if i < Rest() then Xor(s'[b + i], s'[b + Half() + i]) else s'[b + i]
      requires z == Xor(s'[c + Half() + i], s'[c + 2 * Half() + i])
      ensures SumsUpTo(s, s'[stk + i := x][stk + Half() + i := y][stk + 2 * Half() + i := z], i + 1)
    {
      hide Xor, Below, Filled, AllWords, Words, XorWords;
      Sizes();
      SumsReads(s, s', i);
      SumsWrites(s, s', i, SumA(s), SumB(s), SumC(s));
    }

    lemma SumsReads(s: seq<Poly>, s': seq<Poly>, i: nat)
      requires n >= 5 && i < Half() && Fits(3 * Half(), |s|) && AllWords(s) && Outside(s, s', stk, 3 * Half(), 0, 0)
      ensures |SumA(s)| == |SumB(s)| == |SumC(s)| == Half()
      ensures SumA(s)[i] == if i < Rest() then Xor(s'[a + i], s'[a + Half() + i]) else s'[a + i]
      ensures SumB(s)[i] == if i < Rest() then Xor(s'[b + i], s'[b + Half() + i]) else s'[b + i]
      ensures SumC(s)[i] == Xor(s'[c + Half() + i], s'[c + 2 * Half() + i])
      ensures Below(SumA(s)[i], 64) && Below(SumB(s)[i], 64) && Below(SumC(s)[i], 64)
    {
      hide Xor, Words, XorWords, Below, AllWords;
      Sizes();
      XorWordsAt(s, a, Half(), a + Half(), Rest(), i);
      XorWordsAt(s, b, Half(), b + Half(), Rest(), i);
      XorWordsAt(s, c + Half(), Half(), c + 2 * Half(), Half(), i);
    }

    lemma SumsWrites(s: seq<Poly>, s': seq<Poly>, i: nat, x: seq<Poly>, y: seq<Poly>, z: seq<Poly>)
      requires i < Half() && stk + 3 * Half() <= |s| == |s'| && |x| == |y| == |z| == Half()
      requires Outside(s, s', stk, 3 * Half(), 0, 0) && AllWords(s')
      requires Filled(s', stk, i, x) && Filled(s', stk + Half(), i, y) && Filled(s', stk + 2 * Half(), i, z)
      requires Below(x[i], 64) && Below(y[i], 64) && Below(z[i], 64)
      ensures var t := s'[stk + i := x[i]][stk + Half() + i := y[i]][stk + 2 * Half() + i := z[i]];
        && Filled(t, stk, i + 1, x) && Filled(t, stk + Half(), i + 1, y) && Filled(t, stk + 2 * Half(), i + 1, z)
        && Outside(s, t, stk, 3 * Half(), 0, 0) && AllWords(t)
    {
      hide Filled, AllWords, Below, Outside;
      var h := Half();
      var t1 := s'[stk + i := x[i]];
      var t2 := t1[stk + h + i := y[i]];
      FillNext(s', stk, i, x);
      FillOther(s', stk + h, i, y, stk + i, x[i]);
      FillOther(s', stk + 2 * h, i, z, stk + i, x[i]);
      FillNext(t1, stk + h, i, y);
      FillOther(t1, stk, i + 1, x, stk + h + i, y[i]);
      FillOther(t1, stk + 2 * h, i, z, stk + h + i, y[i]);
      FillNext(t2, stk + 2 * h, i, z);
      FillOther(t2, stk, i + 1, x, stk + 2 * h + i, z[i]);
      FillOther(t2, stk + h, i + 1, y, stk + 2 * h + i, z[i]);
      OutsideWrite(s, s', stk, 3 * h, 0, 0, stk + i, x[i], 3 * h, 0);
      OutsideWrite(s, t1, stk, 3 * h, 0, 0, stk + h + i, y[i], 3 * h, 0);
      OutsideWrite(s, t2, stk, 3 * h, 0, 0, stk + 2 * h + i, z[i], 3 * h, 0);
      AllWordsWrite(s', stk + i, x[i]);
      AllWordsWrite(t1, stk + h + i, y[i]);
      AllWordsWrite(t2, stk + 2 * h + i, z[i]);
    }

    lemma SumsAll(s: seq<Poly>, s': seq<Poly>)
      requires n >= 5 && Fits(3 * Half(), |s|) && AllWords(s) && SumsUpTo(s, s', Half())
      ensures Summed(s, s')
    {
      hide Xor, AllWords, Words, XorWords, Filled, Below;
      Sizes();
      SumsReads(s, s', 0);
      FilledAll(s', stk, SumA(s));
      FilledAll(s', stk + Half(), SumB(s));
      FilledAll(s', stk + 2 * Half(), SumC(s));
    }

    function FixLow(s: seq<Poly>): seq<Poly> {
      XorWords(Words(s, c + Half(), Half()), XorWords(Words(s, stk + 2 * Half(), Half()), Words(s, c, Half())))
    }

    function FixHigh(s: seq<Poly>): seq<Poly> {
      XorWords(Words(s, c + 2 * Half(), Half()), XorWords(Words(s, stk + 2 * Half(), Half()), Words(s, c + 3 * Half(), Top())))
    }

    ghost predicate FixedUpTo(s: seq<Poly>, s': seq<Poly>, i: nat) {
      && Outside(s, s', c + Half(), i, c + 2 * Half(), i) && AllWords(s')
      && Filled(s', c + Half(), i, FixLow(s)) && Filled(s', c + 2 * Half(), i, FixHigh(s))
    }

    lemma FixedNone(s: seq<Poly>)
      requires n >= 5 && Fits(3 * Half(), |s|) && AllWords(s)
      ensures FixedUpTo(s, s, 0)
    {
    }

    lemma FixedReads(s: seq<Poly>, s': seq<Poly>, i: nat)
      requires n >= 5 && i < Half() && Fits(3 * Half(), |s|) && AllWords(s) && Outside(s, s', c + Half(), i, c + 2 * Half(), i)
      ensures |FixLow(s)| == |FixHigh(s)| == Half()
      ensures FixLow(s)[i] == Xor(s'[c + Half() + i], Xor(s'[stk + 2 * Half() + i], s'[c + i]))
      ensures Top() <= Half() && FixHigh(s)[i]
        == Xor(s'[c + 2 * Half() + i], if i < Top() then Xor(s'[stk + 2 * Half() + i], s'[c + 3 * Half() + i]) else s'[stk + 2 * Half() + i])
      ensures Below(FixLow(s)[i], 64) && Below(FixHigh(s)[i], 64)
    {
      hide Xor, Words, XorWords, Below, AllWords;
      Sizes();
      XorWords3At(s, c + Half(), stk + 2 * Half(), Half(), c, Half(), i);
      XorWords3At(s, c + 2 * Half(), stk + 2 * Half(), Half(), c + 3 * Half(), Top(), i);
    }

    lemma FixedStep(s: seq<Poly>, s': seq<Poly>, i: nat, x: Poly, y: Poly)
      requires n >= 5 && i < Half() && Fits(3 * Half(), |s|) && AllWords(s) && FixedUpTo(s, s', i) && |s'| == |s|
      requires x == Xor(s'[c + Half() + i], Xor(s'[stk + 2 * Half() + i], s'[c + i]))
      requires y == Xor(s'[c + 2 * Half() + i],
                        if i < Top() then Xor(s'[stk + 2 * Half() + i], s'[c + 3 * Half() + i]) else s'[stk + 2 * Half() + i])
      ensures FixedUpTo(s, s'[c + Half() + i := x][c + 2 * Half() + i := y], i + 1)
    {
      hide Xor, Below, Filled, AllWords, Words, XorWords, Outside;
      var h, t := Half(), s'[c + Half() + i := x];
      Sizes();
      FixedReads(s, s', i);
      FillNext(s', c + h, i, FixLow(s));
      FillOther(s', c + 2 * h, i, FixHigh(s), c + h + i, x);
      FillNext(t, c + 2 * h, i, FixHigh(s));
      FillOther(t, c + h, i + 1, FixLow(s), c + 2 * h + i, y);
      OutsideWrite(s, s', c + h, i, c + 2 * h, i, c + h + i, x, i + 1, i);
      OutsideWrite(s, t, c + h, i + 1, c + 2 * h, i, c + 2 * h + i, y, i + 1, i + 1);
      AllWordsWrite(s', c + h + i, x);
      AllWordsWrite(t, c + 2 * h + i, y);
    }

    lemma FixedAll(s: seq<Poly>, s': seq<Poly>)
      requires n >= 5 && Fits(3 * Half(), |s|) && AllWords(s) && FixedUpTo(s, s', Half())
      ensures Corrected(s, s')
    {
      hide Xor, AllWords, Words, XorWords, Filled, Below;
      Sizes();
      FixedReads(s, s, 0);
      FilledAll(s', c + Half(), FixLow(s));
      FilledAll(s', c + 2 * Half(), FixHigh(s));
      WordsOutside(s, s', c + Half(), Half(), c + 2 * Half(), Half(), c, Half());
      WordsOutside(s, s', c + Half(), Half(), c + 2 * Half(), Half(), c + 3 * Half(), Top());
    }

    lemma QuarterSizes(v: seq<Poly>, h: nat, q: nat)
      requires c + 3 * h + q <= |v| && stk + 3 * h <= |v|
      ensures |Words(v, c, h)| == |Words(v, c + h, h)| == |Words(v, c + 2 * h, h)| == |Words(v, stk + 2 * h, h)| == h
      ensures |Words(v, c + 3 * h, q)| == q
    {
    }
  }

  lemma XorThree(x: seq<Poly>, y: seq<Poly>, z: seq<Poly>)
    requires |x| == |y| >= |z|
    ensures Val(XorWords(x, XorWords(y, z))) == Xor(Val(x), Xor(Val(y), Val(z)))
  {
    ValXor(y, z);
    ValXor(x, XorWords(y, z));
  }

  lemma SubWords(s: seq<Poly>, t: seq<Poly>, p: nat, n: nat, i: nat, k: nat)
    requires |s| == |t| && p + n <= |s| && i + k <= n && Words(t, p, n) == Words(s, p, n)
    ensures Words(t, p + i, k) == Words(s, p + i, k)
  {
    forall y: nat | p + i <= y < p + i + k ensures t[y] == s[y] {
      assert Words(t, p, n)[y - p] == Words(s, p, n)[y - p];
    }
  }

  method WriteThree(m: array<Poly>, p: nat, x: Poly, q: nat, y: Poly, r: nat, z: Poly)
    requires p < m.Length && q < m.Length && r < m.Length
    modifies m
    ensures m[..] == old(m[..])[p := x][q := y][r := z]
  {
    m[p] := x;
    m[q] := y;
    m[r] := z;
  }

  /** aa, bb and cc: the last words have no partner when n is odd. */
  method SumHalves(m: array<Poly>, ghost l: Layout, a: nat, b: nat, c: nat, n2: nat, d: nat, stk: nat)
    requires l.n >= 5 && l.Fits(3 * l.Half(), m.Length) && AllWords(m[..])
    requires l.a == a && l.b == b && l.c == c && l.stk == stk && n2 == l.Half() && d == n2 - l.Rest()
    modifies m
    ensures l.SumsUpTo(old(m[..]), m[..], n2)
  {
    hide AllWords, Xor, l.SumsUpTo, l.Fits, l.Half, l.Rest, l.Top;
    ghost var s := m[..];
    l.Sizes();
    l.Bounds(3 * l.Half(), m.Length);
    l.SumsNone(s);
    var j := 0;
    while j < n2 - d
      invariant j <= n2 - d && l.SumsUpTo(s, m[..], j)
    {
      var x, y, z := Xor(m[a + j], m[a + n2 + j]), Xor(m[b + j], m[b + n2 + j]), Xor(m[c + n2 + j], m[c + 2 * n2 + j]);
      l.SumsStep(s, m[..], j, x, y, z);
      WriteThree(m, stk + j, x, stk + n2 + j, y, stk + 2 * n2 + j, z);
      j := j + 1;
    }
    SumTail(m, l, a, b, c, n2, d, stk, s);
  }

  method SumTail(m: array<Poly>, ghost l: Layout, a: nat, b: nat, c: nat, n2: nat, d: nat, stk: nat, ghost s: seq<Poly>)
    requires l.n >= 5 && |s| == m.Length && l.Fits(3 * l.Half(), m.Length) && AllWords(s)
    requires l.a == a && l.b == b && l.c == c && l.stk == stk && n2 == l.Half() && d == n2 - l.Rest()
    requires l.SumsUpTo(s, m[..], n2 - d)
    modifies m
    ensures l.SumsUpTo(s, m[..], n2)
  {
    hide AllWords, Xor, l.SumsUpTo, l.Fits, l.Half, l.Rest, l.Top;
    l.Sizes();
    l.Bounds(3 * l.Half(), m.Length);
    var j := n2 - d;
    while j < n2
      invariant n2 - d <= j <= n2 && l.SumsUpTo(s, m[..], j)
    {
      var x, y, z := m[a + j], m[b + j], Xor(m[c + n2 + j], m[c + 2 * n2 + j]);
      l.SumsStep(s, m[..], j, x, y, z);
      WriteThree(m, stk + j, x, stk + n2 + j, y, stk + 2 * n2 + j, z);
      j := j + 1;
    }
  }

  method FixQuarters(m: array<Poly>, ghost l: Layout, c: nat, n2: nat, d: nat, stk: nat)
    requires l.n >= 5 && l.Fits(3 * l.Half(), m.Length) && AllWords(m[..])
    requires l.c == c && l.stk == stk && n2 == l.Half() && d == n2 - l.Rest()
    modifies m
    ensures l.FixedUpTo(old(m[..]), m[..], n2)
  {
    hide AllWords, Xor, l.FixedUpTo, l.Fits, l.Half, l.Rest, l.Top;
    ghost var s := m[..];
    l.Sizes();
    l.Bounds(3 * l.Half(), m.Length);
    l.FixedNone(s);
    var j := 0;
    while j < n2 - 2 * d
      invariant j <= n2 - 2 * d && l.FixedUpTo(s, m[..], j)
    {
      ghost var s' := m[..];
      var t := m[stk + 2 * n2 + j];
      var x, y := Xor(m[c + n2 + j], Xor(t, m[c + j])), Xor(m[c + 2 * n2 + j], Xor(t, m[c + 3 * n2 + j]));
      l.FixedStep(s, s', j, x, y);
      m[c + n2 + j] := x;
      m[c + 2 * n2 + j] := y;
      assert m[..] == s'[c + n2 + j := x][c + 2 * n2 + j := y];
      j := j + 1;
    }
    while j < n2
      invariant n2 - 2 * d <= j <= n2 && l.FixedUpTo(s, m[..], j)
    {
      ghost var s' := m[..];
      var x, y := Xor(m[c + n2 + j], Xor(m[stk + 2 * n2 + j], m[c + j])), Xor(m[c + 2 * n2 + j], m[stk + 2 * n2 + j]);
      l.FixedStep(s, s', j, x, y);
      m[c + n2 + j] := x;
      m[c + 2 * n2 + j] := y;
      assert m[..] == s'[c + n2 + j := x][c + 2 * n2 + j := y];
      j := j + 1;
    }
  }

  lemma BaseFits(l: Layout, len: nat)
    requires l.Fits(0, len)
    ensures Apart(l.c, l.n + l.n, l.a, l.n) && Apart(l.c, l.n + l.n, l.b, l.n)
  {
  }

  lemma BaseDone(l: Layout, s: seq<Poly>, s': seq<Poly>)
    requires IsProduct(s, s', l.c, l.a, l.n, l.b, l.n, 0, 0)
    ensures l.Frame(s, s', 0) && l.Product(s, s')
  {
    assert l.n + l.n == 2 * l.n;
    OutsideWider(s, s', l.c, 2 * l.n, 0, 0, l.c, 2 * l.n, l.stk, 0);
  }

  /** The sizes and addresses that the code computes */
  lemma Halves(l: Layout, n2: nat, d: nat)
    requires l.n >= 5 && n2 == (l.n + 1) / 2 && d == l.n % 2
    ensures n2 == l.Half() && n2 - d == l.Rest() && 2 <= n2 - d && n2 < l.n
    ensures l.Low() == Layout(l.c, l.a, l.b, n2, l.stk + 3 * n2)
    ensures l.High() == Layout(l.c + 2 * n2, l.a + n2, l.b + n2, n2 - d, l.stk + 3 * n2)
    ensures l.Middle() == Layout(l.c + n2, l.stk, l.stk + n2, n2, l.stk + 3 * n2)
  {
  }

  lemma KaraSplits(l: Layout, T: nat, len: nat)
    requires 5 <= T <= l.n && l.Fits(KaraSpace(l.n, T), len)
    ensures l.Low().Fits(KaraSpace(l.Half(), T), len) && l.High().Fits(KaraSpace(l.Rest(), T), len)
    ensures l.Middle().Fits(KaraSpace(l.Half(), T), len) && l.Fits(3 * l.Half(), len)
  {
    l.SubFits(KaraSpace(l.Half(), T), len);
    KaraSpaceMonotone(l.Rest(), l.Half(), T);
    LessSpace(l.High(), KaraSpace(l.Half(), T), KaraSpace(l.Rest(), T), len);
    LessSpace(l, KaraSpace(l.n, T), 3 * l.Half(), len);
  }

  lemma LessSpace(l: Layout, space: nat, space': nat, len: nat)
    requires l.Fits(space, len) && space' <= space
    ensures l.Fits(space', len)
  {
  }

  /** The stages of the method, one after the other */
  ghost predicate Stages(l: Layout, s: seq<Poly>, s1: seq<Poly>, t: seq<Poly>, u: seq<Poly>, v: seq<Poly>, w: seq<Poly>, T: nat)
    requires T >= 5
  {
    && l.Low().Frame(s, s1, KaraSpace(l.Half(), T)) && l.Low().Product(s, s1)
    && l.High().Frame(s1, t, KaraSpace(l.Rest(), T)) && l.High().Product(s1, t)
    && l.SumsUpTo(t, u, l.Half())
    && l.Middle().Frame(u, v, KaraSpace(l.Half(), T)) && l.Middle().Product(u, v)
    && l.FixedUpTo(v, w, l.Half())
  }

  lemma Assembled(l: Layout, s: seq<Poly>, s1: seq<Poly>, t: seq<Poly>, u: seq<Poly>, v: seq<Poly>, w: seq<Poly>, T: nat)
    requires 5 <= T <= l.n && l.Fits(KaraSpace(l.n, T), |s|) && AllWords(s) && Stages(l, s, s1, t, u, v, w, T)
    ensures l.Frame(s, w, KaraSpace(l.n, T)) && l.Product(s, w)
  {
    StagesFrame(l, s, s1, t, u, v, w, T);
    StagesProduct(l, s, s1, t, u, v, w, T);
  }

  lemma FrameTwice(l: Layout, s: seq<Poly>, s': seq<Poly>, s'': seq<Poly>, space: nat)
    requires l.Frame(s, s', space) && l.Frame(s', s'', space)
    ensures l.Frame(s, s'', space)
  {
    OutsideTwice(s, s', s'', l.c, 2 * l.n, l.stk, space);
  }

  lemma LowFrame(l: Layout, s: seq<Poly>, s': seq<Poly>, T: nat)
    requires 5 <= T <= l.n && l.Low().Frame(s, s', KaraSpace(l.Half(), T))
    ensures l.Frame(s, s', KaraSpace(l.n, T))
  {
    hide Outside, AllWords;
    OutsideWider(s, s', l.c, 2 * l.Half(), l.stk + 3 * l.Half(), KaraSpace(l.Half(), T), l.c, 2 * l.n, l.stk, KaraSpace(l.n, T));
  }

  lemma HighFrame(l: Layout, s: seq<Poly>, s': seq<Poly>, T: nat)
    requires 5 <= T <= l.n && l.High().Frame(s, s', KaraSpace(l.Rest(), T))
    ensures l.Frame(s, s', KaraSpace(l.n, T))
  {
    hide Outside, AllWords;
    KaraSpaceMonotone(l.Rest(), l.Half(), T);
    OutsideWider(s, s', l.c + 2 * l.Half(), 2 * l.Rest(), l.stk + 3 * l.Half(), KaraSpace(l.Rest(), T), l.c, 2 * l.n, l.stk, KaraSpace(l.n, T));
  }

  lemma MiddleFrame(l: Layout, s: seq<Poly>, s': seq<Poly>, T: nat)
    requires 5 <= T <= l.n && l.Middle().Frame(s, s', KaraSpace(l.Half(), T))
    ensures l.Frame(s, s', KaraSpace(l.n, T))
  {
    hide Outside, AllWords;
    OutsideWider(s, s', l.c + l.Half(), 2 * l.Half(), l.stk + 3 * l.Half(), KaraSpace(l.Half(), T), l.c, 2 * l.n, l.stk, KaraSpace(l.n, T));
  }

  lemma LoopFrames(l: Layout, t: seq<Poly>, u: seq<Poly>, v: seq<Poly>, w: seq<Poly>, T: nat)
    requires 5 <= T <= l.n && l.SumsUpTo(t, u, l.Half()) && l.FixedUpTo(v, w, l.Half())
    ensures l.Frame(t, u, KaraSpace(l.n, T)) && l.Frame(v, w, KaraSpace(l.n, T))
  {
    hide Outside, AllWords, Filled;
    OutsideWider(t, u, l.stk, 3 * l.Half(), 0, 0, l.c, 2 * l.n, l.stk, KaraSpace(l.n, T));
    OutsideWider(v, w, l.c + l.Half(), l.Half(), l.c + 2 * l.Half(), l.Half(), l.c, 2 * l.n, l.stk, KaraSpace(l.n, T));
  }

  lemma StagesFrame(l: Layout, s: seq<Poly>, s1: seq<Poly>, t: seq<Poly>, u: seq<Poly>, v: seq<Poly>, w: seq<Poly>, T: nat)
    requires 5 <= T <= l.n && Stages(l, s, s1, t, u, v, w, T)
    ensures l.Frame(s, w, KaraSpace(l.n, T)) && |s1| == |t| == |u| == |v| == |w| == |s|
    ensures AllWords(t) && AllWords(v)
  {
    hide l.Frame, l.Product, l.SumsUpTo, l.FixedUpTo, l.Half, l.Rest, KaraSpace;
    LowFrame(l, s, s1, T);
    HighFrame(l, s1, t, T);
    LoopFrames(l, t, u, v, w, T);
    MiddleFrame(l, u, v, T);
    var sp := KaraSpace(l.n, T);
    FrameTwice(l, s, s1, t, sp);
    FrameTwice(l, s, t, u, sp);
    FrameTwice(l, s, u, v, sp);
    FrameTwice(l, s, v, w, sp);
    FrameWords(l, s, s1, sp);
    FrameWords(l, s, t, sp);
    FrameWords(l, s, u, sp);
    FrameWords(l, s, v, sp);
    FrameWords(l, s, w, sp);
  }

  lemma FrameWords(l: Layout, s: seq<Poly>, s': seq<Poly>, space: nat)
    requires l.Frame(s, s', space)
    ensures |s'| == |s| && AllWords(s')
  {
  }

  lemma LoopWords(l: Layout, s: seq<Poly>, s': seq<Poly>, i: nat)
    requires l.SumsUpTo(s, s', i)
    ensures |s'| == |s| && AllWords(s')
  {
  }

  lemma LowKeeps(l: Layout, s: seq<Poly>, s': seq<Poly>, T: nat)
    requires 5 <= T <= l.n && l.Fits(KaraSpace(l.n, T), |s|) && l.Low().Frame(s, s', KaraSpace(l.Half(), T))
    ensures Words(s', l.a + l.Half(), l.Rest()) == Words(s, l.a + l.Half(), l.Rest())
    ensures Words(s', l.b + l.Half(), l.Rest()) == Words(s, l.b + l.Half(), l.Rest())
    ensures Words(s', l.a, l.n) == Words(s, l.a, l.n) && Words(s', l.b, l.n) == Words(s, l.b, l.n)
  {
    hide Outside, AllWords, Words;
    var k', sp := l.stk + 3 * l.Half(), KaraSpace(l.Half(), T);
    WordsOutside(s, s', l.c, 2 * l.Half(), k', sp, l.a + l.Half(), l.Rest());
    WordsOutside(s, s', l.c, 2 * l.Half(), k', sp, l.b + l.Half(), l.Rest());
    WordsOutside(s, s', l.c, 2 * l.Half(), k', sp, l.a, l.n);
    WordsOutside(s, s', l.c, 2 * l.Half(), k', sp, l.b, l.n);
  }

  lemma HighKeeps(l: Layout, s: seq<Poly>, s': seq<Poly>, T: nat)
    requires 5 <= T <= l.n && l.Fits(KaraSpace(l.n, T), |s|) && l.High().Frame(s, s', KaraSpace(l.Rest(), T))
    ensures Words(s', l.c, 2 * l.Half()) == Words(s, l.c, 2 * l.Half())
    ensures Words(s', l.a, l.n) == Words(s, l.a, l.n) && Words(s', l.b, l.n) == Words(s, l.b, l.n)
  {
    hide Outside, AllWords, Words;
    KaraSpaceMonotone(l.Rest(), l.Half(), T);
    var k', sp := l.stk + 3 * l.Half(), KaraSpace(l.Rest(), T);
    WordsOutside(s, s', l.c + 2 * l.Half(), 2 * l.Rest(), k', sp, l.c, 2 * l.Half());
    WordsOutside(s, s', l.c + 2 * l.Half(), 2 * l.Rest(), k', sp, l.a, l.n);
    WordsOutside(s, s', l.c + 2 * l.Half(), 2 * l.Rest(), k', sp, l.b, l.n);
  }

  lemma SumsKeep(l: Layout, s: seq<Poly>, s': seq<Poly>, i: nat)
    requires l.n >= 5 && l.Fits(3 * l.Half(), |s|) && l.SumsUpTo(s, s', i)
    ensures Words(s', l.c, l.Half()) == Words(s, l.c, l.Half())
    ensures Words(s', l.c + 3 * l.Half(), l.Top()) == Words(s, l.c + 3 * l.Half(), l.Top())
  {
    hide Outside, AllWords, Words, Filled;
    WordsOutside(s, s', l.stk, 3 * l.Half(), 0, 0, l.c, l.Half());
    WordsOutside(s, s', l.stk, 3 * l.Half(), 0, 0, l.c + 3 * l.Half(), l.Top());
  }

  lemma MiddleKeeps(l: Layout, s: seq<Poly>, s': seq<Poly>, T: nat)
    requires 5 <= T <= l.n && l.Fits(KaraSpace(l.n, T), |s|) && l.Middle().Frame(s, s', KaraSpace(l.Half(), T))
    ensures Words(s', l.c, l.Half()) == Words(s, l.c, l.Half())
    ensures Words(s', l.c + 3 * l.Half(), l.Top()) == Words(s, l.c + 3 * l.Half(), l.Top())
    ensures Words(s', l.stk + 2 * l.Half(), l.Half()) == Words(s, l.stk + 2 * l.Half(), l.Half())
  {
    hide Outside, AllWords, Words;
    var k', sp := l.stk + 3 * l.Half(), KaraSpace(l.Half(), T);
    WordsOutside(s, s', l.c + l.Half(), 2 * l.Half(), k', sp, l.c, l.Half());
    WordsOutside(s, s', l.c + l.Half(), 2 * l.Half(), k', sp, l.c + 3 * l.Half(), l.Top());
    WordsOutside(s, s', l.c + l.Half(), 2 * l.Half(), k', sp, l.stk + 2 * l.Half(), l.Half());
  }

  /** Neither stage changes what the products before it depend on. */
  lemma ProductsKept(l: Layout, s: seq<Poly>, s1: seq<Poly>, t: seq<Poly>)
    requires l.Low().Product(s, s1) && l.High().Product(s1, t)
    requires Words(s1, l.a + l.Half(), l.Rest()) == Words(s, l.a + l.Half(), l.Rest())
    requires Words(s1, l.b + l.Half(), l.Rest()) == Words(s, l.b + l.Half(), l.Rest())
    requires Words(t, l.c, 2 * l.Half()) == Words(s1, l.c, 2 * l.Half())
    ensures l.Low().Product(s, t) && l.High().Product(s, t)
  {
    hide Words, Mul, Val;
  }

  lemma StagesProduct(l: Layout, s: seq<Poly>, s1: seq<Poly>, t: seq<Poly>, u: seq<Poly>, v: seq<Poly>, w: seq<Poly>, T: nat)
    requires 5 <= T <= l.n && l.Fits(KaraSpace(l.n, T), |s|) && Stages(l, s, s1, t, u, v, w, T)
    requires |s1| == |t| == |u| == |v| == |w| == |s| && AllWords(t) && AllWords(v)
    ensures l.Product(s, w)
  {
    hide l.Product, l.Frame, l.SumsUpTo, l.FixedUpTo, AllWords, Words, l.Summed, l.Corrected, l.Fits, l.Half, l.Rest, l.Top, KaraSpace, l.Low, l.High, l.Middle;
    KaraSplits(l, T, |s|);
    l.Bounds(3 * l.Half(), |s|);
    l.SumsAll(t, u);
    l.FixedAll(v, w);
    LowKeeps(l, s, s1, T);
    HighKeeps(l, s1, t, T);
    ProductsKept(l, s, s1, t);
    SumsKeep(l, t, u, l.Half());
    MiddleKeeps(l, u, v, T);
    l.Correct(s, t, u, v, w);
  }

  /** In place: the middle product overwrites half of the low and half of the high product. */
  method MulKara(m: array<Poly>, c: nat, a: nat, b: nat, n: nat, stk: nat, T: nat)
    requires 5 <= T <= 10 && Layout(c, a, b, Size(n), stk).Fits(KaraSpace(n, T), m.Length) && AllWords(m[..])
    modifies m
    ensures Layout(c, a, b, Size(n), stk).Frame(old(m[..]), m[..], KaraSpace(n, T))
    ensures Layout(c, a, b, Size(n), stk).Product(old(m[..]), m[..])
    decreases n
  {
    ghost var l := Layout(c, a, b, Size(n), stk);
    hide AllWords, l.Fits, l.Product, l.Frame, l.SumsUpTo, l.FixedUpTo, l.Half, l.Rest, l.Top, l.Low, l.High, l.Middle, Outside;
    ghost var s := m[..];
    if n < T {
      l.Bounds(0, m.Length);
      BaseFits(l, m.Length);
      MulBasecase(m, c, a, n, b, n);
      BaseDone(l, s, m[..]);
      return;
    }
    l.Sizes();
    ghost var sp := KaraSpace(l.Half(), T);
    var n2 := (n + 1) / 2;
    var d := n % 2;
    Halves(l, n2, d);
    KaraSplits(l, T, m.Length);
    MulKara(m, c, a, b, n2, stk + 3 * n2, T);
    ghost var s1 := m[..];
    FrameWords(l.Low(), s, s1, KaraSpace(n2, T));
    MulKara(m, c + 2 * n2, a + n2, b + n2, n2 - d, stk + 3 * n2, T);
    ghost var t := m[..];
    FrameWords(l.High(), s1, t, KaraSpace(n2 - d, T));
    SumHalves(m, l, a, b, c, n2, d, stk);
    ghost var u := m[..];
    LoopWords(l, t, u, n2);
    MulKara(m, c + n2, stk, stk + n2, n2, stk + 3 * n2, T);
    ghost var v := m[..];
    FrameWords(l.Middle(), u, v, KaraSpace(n2, T));
    FixQuarters(m, l, c, n2, d, stk);
    Assembled(l, s, s1, t, u, v, m[..], T);
  }
}
