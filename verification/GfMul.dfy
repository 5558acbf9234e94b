/** gf2x/toom.c and gf2x/gf2x.c: multiplication of operands of any sizes. */
module GfMul {
  import opened Gf2
  import opened Gf2Poly
  import opened GfWords
  import opened ToomSpace
  import opened Basecase
  import opened Karatsuba

  // ---------- Equal sizes: leading zero words ----------

  ghost predicate ZeroAt(s: seq<Poly>, off: nat, n: nat) {
    off + n <= |s| && forall y: nat :: off <= y < off + n ==> s[y] == {}
  }

  /** The words from n on are zero in both operands and in the result. */
  ghost predicate Stripped(s: seq<Poly>, s': seq<Poly>, l: Layout, n: nat) {
    && n <= l.n && Outside(s, s', l.c + 2 * n, 2 * (l.n - n), 0, 0) && AllWords(s')
    && ZeroAt(s', l.c + 2 * n, 2 * (l.n - n))
    && ZeroAt(s, l.a + n, l.n - n) && ZeroAt(s, l.b + n, l.n - n)
  }

  lemma StripStep(s: seq<Poly>, s': seq<Poly>, l: Layout, n: nat, space: nat)
    requires 1 <= n && l.Fits(space, |s|) && Stripped(s, s', l, n) && |s'| == |s|
    requires s'[l.a + n - 1] == {} && s'[l.b + n - 1] == {}
    ensures Stripped(s, s'[l.c + 2 * n - 1 := {}][l.c + 2 * n - 2 := {}], l, n - 1)
  {
    hide l.Fits;
    StripRead(s, s', l, n, space);
  }

  lemma StripRead(s: seq<Poly>, s': seq<Poly>, l: Layout, n: nat, space: nat)
    requires 1 <= n && l.Fits(space, |s|) && Stripped(s, s', l, n) && |s'| == |s|
    ensures s'[l.a + n - 1] == s[l.a + n - 1] && s'[l.b + n - 1] == s[l.b + n - 1]
  {
  }

  lemma AtZeroTail(s: seq<Poly>, off: nat, k: nat, n: nat)
    requires k <= n && off + n <= |s| && ZeroAt(s, off + k, n - k)
    ensures GfWords.At(s, off, n) == GfWords.At(s, off, k)
  {
    assert Words(s, off, n) == Words(s, off, k) + Words(s, off + k, n - k);
    ValZeroTail(Words(s, off, k), Words(s, off + k, n - k));
  }

  /** At least one word is multiplied, even if all are zero. */
  lemma StripSize(s: seq<Poly>, s': seq<Poly>, l: Layout, n: nat)
    requires 1 <= l.n && Stripped(s, s', l, n) && l.c + 2 * l.n <= |s| && l.a + l.n <= |s| && l.b + l.n <= |s| == |s'|
    ensures Outside(s, s', l.c, 2 * l.n, 0, 0)
    ensures var k := Size(n);
      && k <= l.n && ZeroAt(s', l.c + 2 * k, 2 * (l.n - k))
      && ZeroAt(s, l.a + k, l.n - k) && ZeroAt(s, l.b + k, l.n - k)
  {
    OutsideWider(s, s', l.c + 2 * n, 2 * (l.n - n), 0, 0, l.c, 2 * l.n, 0, 0);
  }

  lemma StripProduct(s: seq<Poly>, s': seq<Poly>, s'': seq<Poly>, l: Layout, k: nat, space: nat, sp: nat)
    requires l.Fits(space, |s|) && k <= l.n && Outside(s, s', l.c, 2 * l.n, 0, 0) && sp <= space
    requires ZeroAt(s', l.c + 2 * k, 2 * (l.n - k))
    requires ZeroAt(s, l.a + k, l.n - k) && ZeroAt(s, l.b + k, l.n - k)
    requires l.(n := k).Frame(s', s'', sp) && l.(n := k).Product(s', s'')
    ensures l.Frame(s, s'', space) && l.Product(s, s'')
  {
    hide Mul, Val, Outside, AllWords, ZeroAt;
    OutsideSize(s, s', l.c, 2 * l.n, 0, 0);
    OutsideSize(s', s'', l.c, 2 * k, l.stk, sp);
    OutsideWider(s, s', l.c, 2 * l.n, 0, 0, l.c, 2 * l.n, l.stk, space);
    OutsideWider(s', s'', l.c, 2 * k, l.stk, sp, l.c, 2 * l.n, l.stk, space);
    OutsideTwice(s, s', s'', l.c, 2 * l.n, l.stk, space);
    StripValues(s, s', s'', l, k, space, sp);
  }

  lemma ZeroOutside(s: seq<Poly>, s': seq<Poly>, off: nat, n: nat, t: nat, k: nat, p: nat, l: nat)
    requires Outside(s, s', off, n, t, k) && Apart(p, l, off, n) && Apart(p, l, t, k) && ZeroAt(s, p, l)
    ensures ZeroAt(s', p, l)
  {
  }

  lemma StripValues(s: seq<Poly>, s': seq<Poly>, s'': seq<Poly>, l: Layout, k: nat, space: nat, sp: nat)
    requires l.Fits(space, |s|) && k <= l.n && Outside(s, s', l.c, 2 * l.n, 0, 0) && sp <= space && |s'| == |s''| == |s|
    requires ZeroAt(s', l.c + 2 * k, 2 * (l.n - k))
    requires ZeroAt(s, l.a + k, l.n - k) && ZeroAt(s, l.b + k, l.n - k)
    requires Outside(s', s'', l.c, 2 * k, l.stk, sp) && l.(n := k).Product(s', s'')
    ensures l.Product(s, s'')
  {
    hide Mul, Val, Outside, AllWords, ZeroAt, Words;
    WordsOutside(s, s', l.c, 2 * l.n, 0, 0, l.a, k);
    WordsOutside(s, s', l.c, 2 * l.n, 0, 0, l.b, k);
    ZeroOutside(s', s'', l.c, 2 * k, l.stk, sp, l.c + 2 * k, 2 * (l.n - k));
    assert 2 * l.n - 2 * k == 2 * (l.n - k);
    AtZeroTail(s'', l.c, 2 * k, 2 * l.n);
    AtZeroTail(s, l.a, k, l.n);
    AtZeroTail(s, l.b, k, l.n);
  }

  method MulToom(m: array<Poly>, c: nat, a: nat, b: nat, n0: nat, stk: nat, T: nat, ghost space: nat)
    requires 5 <= T <= 10 && 1 <= n0 && KaraSpace(n0, T) <= space
    requires Layout(c, a, b, n0, stk).Fits(space, m.Length) && AllWords(m[..])
    modifies m
    ensures Layout(c, a, b, n0, stk).Frame(old(m[..]), m[..], space)
    ensures Layout(c, a, b, n0, stk).Product(old(m[..]), m[..])
  {
    ghost var l := Layout(c, a, b, n0, stk);
    hide AllWords, Stripped, KaraSpace, l.Frame, l.Product, ZeroAt, Words, Outside, l.Fits;
    l.Bounds(space, m.Length);
    ghost var s := m[..];
    StripNone(s, l);
    var n := n0;
    while n > 0 && m[a + n - 1] == {} && m[b + n - 1] == {}
      invariant n <= n0 && Stripped(s, m[..], l, n)
    {
      ghost var s' := m[..];
      StripStep(s, s', l, n, space);
      m[c + 2 * n - 1] := {};
      m[c + 2 * n - 2] := {};
      assert m[..] == s'[l.c + 2 * n - 1 := {}][l.c + 2 * n - 2 := {}];
      n := n - 1;
    }
    ghost var s' := m[..];
    StripSize(s, s', l, n);
    StripWords(s, s', l, n);
    KaraSpaceMonotone(n, n0, T);
    FewerWords(l, Size(n), space, KaraSpace(n, T), m.Length);
    MulKara(m, c, a, b, n, stk, T);
    StripProduct(s, s', m[..], l, Size(n), space, KaraSpace(n, T));
  }

  lemma StripWords(s: seq<Poly>, s': seq<Poly>, l: Layout, n: nat)
    requires Stripped(s, s', l, n)
    ensures AllWords(s')
  {
  }

  lemma StripNone(s: seq<Poly>, l: Layout)
    requires AllWords(s) && l.c + 2 * l.n <= |s| && l.a + l.n <= |s| && l.b + l.n <= |s|
    ensures Stripped(s, s, l, l.n)
  {
  }

  lemma FewerWords(l: Layout, k: nat, space: nat, sp: nat, len: nat)
    requires l.Fits(space, len) && k <= l.n && sp <= space
    ensures l.(n := k).Fits(sp, len)
  {
  }

  // ---------- Unequal sizes ----------

  /** ptr[i..i+n] ^= v */
  method XorInto(m: array<Poly>, dst: nat, src: nat, n: nat)
    requires dst + n <= m.Length && src + n <= m.Length && Apart(dst, n, src, n) && AllWords(m[..])
    modifies m
    ensures Outside(old(m[..]), m[..], dst, n, 0, 0) && AllWords(m[..])
    ensures GfWords.At(m[..], dst, n) == Xor(GfWords.At(old(m[..]), dst, n), GfWords.At(old(m[..]), src, n))
  {
    hide AllWords, Filled, Words, XorWords, Val, Below, Xor, Outside;
    ghost var s := m[..];
    ghost var x := XorWords(Words(s, dst, n), Words(s, src, n));
    XorSizes(s, dst, src, n);
    XorNone(s, dst, x);
    var j := 0;
    while j < n
      invariant j <= n && XorDone(s, m[..], dst, j, x)
    {
      ghost var s' := m[..];
      XorStep(s, s', dst, src, n, j, x);
      m[dst + j] := Xor(m[dst + j], m[src + j]);
      assert m[..] == s'[dst + j := m[dst + j]];
      j := j + 1;
    }
    FilledAll(m[..], dst, x);
  }

  ghost predicate XorDone(s: seq<Poly>, s': seq<Poly>, dst: nat, j: nat, x: seq<Poly>) {
    Outside(s, s', dst, j, 0, 0) && AllWords(s') && Filled(s', dst, j, x) && |s'| == |s|
  }

  lemma XorNone(s: seq<Poly>, dst: nat, x: seq<Poly>)
    requires AllWords(s) && dst <= |s|
    ensures XorDone(s, s, dst, 0, x)
  {
  }

  lemma XorSizes(s: seq<Poly>, dst: nat, src: nat, n: nat)
    requires dst + n <= |s| && src + n <= |s|
    ensures var x := XorWords(Words(s, dst, n), Words(s, src, n));
      |x| == n && Val(x) == Xor(GfWords.At(s, dst, n), GfWords.At(s, src, n))
  {
    ValXor(Words(s, dst, n), Words(s, src, n));
  }

  lemma XorStep(s: seq<Poly>, s': seq<Poly>, dst: nat, src: nat, n: nat, j: nat, x: seq<Poly>)
    requires dst + n <= |s| && src + n <= |s| && Apart(dst, n, src, n) && j < n && AllWords(s)
    requires x == XorWords(Words(s, dst, n), Words(s, src, n)) && XorDone(s, s', dst, j, x)
    ensures XorDone(s, s'[dst + j := Xor(s'[dst + j], s'[src + j])], dst, j + 1, x)
  {
    hide AllWords, Filled, Words, XorWords, Below, Xor;
    XorWordsAt(s, dst, n, src, n, j);
    FillNext(s', dst, j, x);
    OutsideWrite(s, s', dst, j, 0, 0, dst + j, x[j], j + 1, 0);
    AllWordsWrite(s', dst + j, x[j]);
  }

  /** Adding x to the n words at p adds x times a power of X to the region around them. */
  lemma AddAt(s: seq<Poly>, s': seq<Poly>, dst: nat, sc: nat, p: nat, n: nat, x: Poly)
    requires dst <= p && p + n <= dst + sc <= |s| && Outside(s, s', p, n, 0, 0)
    requires GfWords.At(s', p, n) == Xor(GfWords.At(s, p, n), x)
    ensures GfWords.At(s', dst, sc) == Xor(GfWords.At(s, dst, sc), Shift(x, 64 * (p - dst)))
  {
    hide Xor, Shift, GfWords.At, Outside;
    var k := dst + sc - p - n;
    OutsideSize(s, s', p, n, 0, 0);
    AddAtSplit(s, dst, sc, p, n, k);
    AddAtSplit(s', dst, sc, p, n, k);
    AtOutside(s, s', p, n, dst, p - dst);
    AtOutside(s, s', p, n, p + n, k);
    AddAtAlgebra(GfWords.At(s, dst, p - dst), GfWords.At(s, p, n), GfWords.At(s, p + n, k), x, 64 * (p - dst), 64 * n);
  }

  lemma AtOutside(s: seq<Poly>, s': seq<Poly>, p: nat, n: nat, q: nat, k: nat)
    requires Outside(s, s', p, n, 0, 0) && Apart(q, k, p, n)
    ensures GfWords.At(s', q, k) == GfWords.At(s, q, k)
  {
    WordsOutside(s, s', p, n, 0, 0, q, k);
  }

  lemma AddAtSplit(s: seq<Poly>, dst: nat, sc: nat, p: nat, n: nat, k: nat)
    requires dst <= p && p + n + k == dst + sc <= |s|
    ensures GfWords.At(s, dst, sc)
         == Xor(GfWords.At(s, dst, p - dst), Shift(Xor(GfWords.At(s, p, n), Shift(GfWords.At(s, p + n, k), 64 * n)), 64 * (p - dst)))
  {
    hide Xor, Shift, GfWords.At;
    AtConcat(s, dst, p - dst, n + k);
    AtConcat(s, p, n, k);
  }

  lemma AddAtAlgebra(u: Poly, v: Poly, w: Poly, x: Poly, j: nat, k: nat)
    ensures Xor(u, Shift(Xor(Xor(v, x), Shift(w, k)), j)) == Xor(Xor(u, Shift(Xor(v, Shift(w, k)), j)), Shift(x, j))
  {
    assert Xor(Xor(v, x), Shift(w, k)) == Xor(Xor(v, Shift(w, k)), x);
    ShiftXor(Xor(v, Shift(w, k)), x, j);
  }

  /** Where a multiplication works: sc words at dst for the result, space words at stk for scratch. */
  datatype Place = Place(dst: nat, sc: nat, stk: nat, space: nat) {
    ghost predicate Sound(len: nat) {
      dst + sc <= len && stk + space <= len && Apart(dst, sc, stk, space)
    }

    /** An operand that is not overwritten */
    ghost predicate Free(p: nat, n: nat, len: nat) {
      p + n <= len && Apart(p, n, dst, sc) && Apart(p, n, stk, space)
    }

    ghost predicate Kept(s: seq<Poly>, s': seq<Poly>) {
      Outside(s, s', dst, sc, stk, space) && AllWords(s')
    }

    /** What is in the result, plus the product still to be added at ptr, is P. */
    ghost predicate Remains(s: seq<Poly>, s': seq<Poly>, ptr: nat, x: Poly, y: Poly, P: Poly) {
      && Kept(s, s') && dst <= ptr
      && Xor(GfWords.At(s', dst, sc), Shift(Mul(x, y), 64 * (ptr - dst))) == P
    }

    lemma FreeSame(s: seq<Poly>, s': seq<Poly>, p: nat, n: nat)
      requires Kept(s, s') && Free(p, n, |s|)
      ensures GfWords.At(s', p, n) == GfWords.At(s, p, n)
    {
      WordsOutside(s, s', dst, sc, stk, space, p, n);
    }

    lemma FreePart(p: nat, n: nat, len: nat, i: nat, k: nat)
      requires Free(p, n, len) && i + k <= n
      ensures Free(p + i, k, len)
    {
    }

    lemma KeptTwice(s: seq<Poly>, s': seq<Poly>, s'': seq<Poly>)
      requires Kept(s, s') && Kept(s', s'')
      ensures Kept(s, s'')
    {
      OutsideTwice(s, s', s'', dst, sc, stk, space);
    }
  }

  /** The result grows by x times X^(64 k). */
  ghost predicate Added(pl: Place, s: seq<Poly>, s': seq<Poly>, x: Poly, k: nat) {
    pl.Kept(s, s') && GfWords.At(s', pl.dst, pl.sc) == Xor(GfWords.At(s, pl.dst, pl.sc), Shift(x, 64 * k))
  }

  lemma ProductAdded(pl: Place, s: seq<Poly>, s1: seq<Poly>, s2: seq<Poly>, l: Layout, p: nat, sp: nat)
    requires pl.Sound(|s|) && pl.dst <= p && p + 2 * l.n <= pl.dst + pl.sc
    requires l.stk == pl.stk && l.c == pl.stk + sp && sp + 2 * l.n <= pl.space
    requires l.Frame(s, s1, sp) && l.Product(s, s1)
    requires Outside(s1, s2, p, 2 * l.n, 0, 0) && AllWords(s2)
    requires GfWords.At(s2, p, 2 * l.n) == Xor(GfWords.At(s1, p, 2 * l.n), GfWords.At(s1, l.c, 2 * l.n))
    ensures Added(pl, s, s2, Mul(GfWords.At(s, l.a, l.n), GfWords.At(s, l.b, l.n)), p - pl.dst)
  {
    hide Outside, AllWords, Mul, GfWords.At, Shift, Xor;
    OutsideSize(s, s1, l.c, 2 * l.n, l.stk, sp);
    OutsideWider(s, s1, l.c, 2 * l.n, l.stk, sp, pl.dst, pl.sc, pl.stk, pl.space);
    OutsideWider(s1, s2, p, 2 * l.n, 0, 0, pl.dst, pl.sc, pl.stk, pl.space);
    OutsideTwice(s, s1, s2, pl.dst, pl.sc, pl.stk, pl.space);
    AtOutside2(s, s1, l.c, 2 * l.n, l.stk, sp, pl.dst, pl.sc);
    AddAt(s1, s2, pl.dst, pl.sc, p, 2 * l.n, GfWords.At(s1, l.c, 2 * l.n));
  }

  lemma AtOutside2(s: seq<Poly>, s': seq<Poly>, p: nat, n: nat, t: nat, l: nat, q: nat, k: nat)
    requires Outside(s, s', p, n, t, l) && Apart(q, k, p, n) && Apart(q, k, t, l)
    ensures GfWords.At(s', q, k) == GfWords.At(s, q, k)
  {
    WordsOutside(s, s', p, n, t, l, q, k);
  }

  /** v = a * b, then the destination at p is XORed with v. */
  method AddProduct(m: array<Poly>, p: nat, a: nat, b: nat, n: nat, v: nat, stk: nat, T: nat, ghost pl: Place)
    requires 5 <= T <= 10 && 1 <= n && pl.Sound(m.Length) && pl.Free(a, n, m.Length) && pl.Free(b, n, m.Length)
    requires pl.dst <= p && p + 2 * n <= pl.dst + pl.sc
    requires stk == pl.stk <= v && v + 2 * n <= stk + pl.space && KaraSpace(n, T) <= v - stk && AllWords(m[..])
    modifies m
    ensures Added(pl, old(m[..]), m[..], Mul(GfWords.At(old(m[..]), a, n), GfWords.At(old(m[..]), b, n)), p - pl.dst)
  {
    hide AllWords, Outside, KaraSpace, Mul, GfWords.At, Shift, Xor, Added;
    ghost var l := Layout(v, a, b, n, stk);
    ghost var s := m[..];
    MulToom(m, v, a, b, n, stk, T, v - stk);
    ghost var s1 := m[..];
    XorInto(m, p, v, 2 * n);
    ProductAdded(pl, s, s1, m[..], l, p, v - stk);
  }

  lemma AddedTwice(pl: Place, s: seq<Poly>, s': seq<Poly>, s'': seq<Poly>, x: Poly, k: nat, y: Poly, i: nat)
    requires Added(pl, s, s', x, k) && Added(pl, s', s'', y, k + i)
    ensures Added(pl, s, s'', Xor(x, Shift(y, 64 * i)), k)
  {
    pl.KeptTwice(s, s', s'');
    ShiftXor(x, Shift(y, 64 * i), 64 * k);
    ShiftShift(y, 64 * i, 64 * k);
    assert 64 * i + 64 * k == 64 * (k + i);
    hide Shift, GfWords.At;
  }

  lemma BlockStep(s: seq<Poly>, x: Poly, b: nat, i: nat, n: nat)
    requires b + i + n <= |s|
    ensures Mul(x, GfWords.At(s, b, i + n)) == Xor(Mul(x, GfWords.At(s, b, i)), Shift(Mul(x, GfWords.At(s, b + i, n)), 64 * i))
  {
    AtConcat(s, b, i, n);
    hide Mul, Shift, GfWords.At, Xor;
    MulXorRight(x, GfWords.At(s, b, i), Shift(GfWords.At(s, b + i, n), 64 * i));
    MulShiftRight(x, GfWords.At(s, b + i, n), 64 * i);
  }

  lemma AddedNone(pl: Place, s: seq<Poly>, x: Poly, b: nat, k: nat)
    requires AllWords(s)
    ensures Added(pl, s, s, Mul(x, GfWords.At(s, b, 0)), k)
  {
    assert GfWords.At(s, b, 0) == {};
    PartialZero(x, Bound(x));
    assert Shift({}, 64 * k) == {};
  }

  lemma BlockAdded(pl: Place, s: seq<Poly>, s': seq<Poly>, s'': seq<Poly>, a: nat, sa: nat, b: nat, sb: nat, i: nat, k: nat)
    requires pl.Free(a, sa, |s|) && pl.Free(b, sb, |s|) && i + sa <= sb
    requires Added(pl, s, s', Mul(GfWords.At(s, a, sa), GfWords.At(s, b, i)), k)
    requires Added(pl, s', s'', Mul(GfWords.At(s', a, sa), GfWords.At(s', b + i, sa)), k + i)
    ensures Added(pl, s, s'', Mul(GfWords.At(s, a, sa), GfWords.At(s, b, i + sa)), k)
  {
    hide Mul, GfWords.At, Shift, Xor, pl.Free, pl.Kept;
    pl.FreePart(b, sb, |s|, i, sa);
    pl.FreeSame(s, s', a, sa);
    pl.FreeSame(s, s', b + i, sa);
    var x := GfWords.At(s, a, sa);
    AddedTwice(pl, s, s', s'', Mul(x, GfWords.At(s, b, i)), k, Mul(x, GfWords.At(s, b + i, sa)), i);
    FreeBound(pl, b, sb, |s|);
    BlockStep(s, x, b, i, sa);
  }

  lemma FreeBound(pl: Place, p: nat, n: nat, len: nat)
    requires pl.Free(p, n, len)
    ensures p + n <= len
  {
  }

  lemma AddedWords(pl: Place, s: seq<Poly>, s': seq<Poly>, x: Poly, k: nat)
    requires Added(pl, s, s', x, k)
    ensures |s'| == |s| && AllWords(s')
  {
  }

  /** All whole blocks of sa words of b, times a; i words of b are done at the end. */
  method AddBlocks(m: array<Poly>, ptr: nat, a: nat, sa: nat, b: nat, sb: nat, v: nat, stk: nat, T: nat, ghost pl: Place) returns (i: nat)
    requires 5 <= T <= 10 && 1 <= sa && pl.Sound(m.Length) && pl.Free(a, sa, m.Length) && pl.Free(b, sb, m.Length)
    requires pl.dst <= ptr && ptr + sa + sb == pl.dst + pl.sc
    requires stk == pl.stk <= v && v + 2 * sa <= stk + pl.space && KaraSpace(sa, T) <= v - stk && AllWords(m[..])
    modifies m
    ensures i <= sb < i + sa && (sa <= sb ==> i >= sa)
    ensures Added(pl, old(m[..]), m[..], Mul(GfWords.At(old(m[..]), a, sa), GfWords.At(old(m[..]), b, i)), ptr - pl.dst)
  {
    hide AllWords, Outside, KaraSpace, Mul, GfWords.At, Added, pl.Free, pl.Sound;
    ghost var s := m[..];
    AddedNone(pl, s, GfWords.At(s, a, sa), b, ptr - pl.dst);
    i := 0;
    while i + sa <= sb
      invariant i <= sb && (i == 0 || i >= sa)
      invariant Added(pl, s, m[..], Mul(GfWords.At(s, a, sa), GfWords.At(s, b, i)), ptr - pl.dst)
    {
      ghost var s' := m[..];
      AddedWords(pl, s, s', Mul(GfWords.At(s, a, sa), GfWords.At(s, b, i)), ptr - pl.dst);
      pl.FreePart(b, sb, m.Length, i, sa);
      AddProduct(m, ptr + i, a, b + i, sa, v, stk, T, pl);
      BlockAdded(pl, s, s', m[..], a, sa, b, sb, i, ptr - pl.dst);
      i := i + sa;
    }
  }

  lemma RemainsStep(pl: Place, s: seq<Poly>, s': seq<Poly>, s'': seq<Poly>, ptr: nat, a: nat, sa: nat, b: nat, sb: nat, i: nat, P: Poly)
    requires pl.Free(a, sa, |s|) && pl.Free(b, sb, |s|) && i <= sb
    requires pl.Remains(s, s', ptr, GfWords.At(s, a, sa), GfWords.At(s, b, sb), P)
    requires Added(pl, s', s'', Mul(GfWords.At(s', a, sa), GfWords.At(s', b, i)), ptr - pl.dst)
    ensures pl.Remains(s, s'', ptr + i, GfWords.At(s, b + i, sb - i), GfWords.At(s, a, sa), P)
  {
    hide Mul, GfWords.At, Shift, Xor, pl.Free, pl.Kept;
    var x, y, k := GfWords.At(s, a, sa), GfWords.At(s, b + i, sb - i), ptr - pl.dst;
    pl.FreePart(b, sb, |s|, 0, i);
    pl.FreeSame(s, s', a, sa);
    pl.FreeSame(s, s', b, i);
    pl.KeptTwice(s, s', s'');
    FreeBound(pl, b, sb, |s|);
    BlockStep(s, x, b, i, sb - i);
    MulCommutes(x, y, Bound(x));
    ShiftXor(Mul(x, GfWords.At(s, b, i)), Shift(Mul(x, y), 64 * i), 64 * k);
    ShiftShift(Mul(x, y), 64 * i, 64 * k);
    assert 64 * i + 64 * k == 64 * (ptr + i - pl.dst);
    XorMoves(GfWords.At(s', pl.dst, pl.sc), Shift(Mul(x, GfWords.At(s, b, i)), 64 * k), Shift(Mul(x, y), 64 * (ptr + i - pl.dst)));
  }

  lemma XorMoves(p: Poly, q: Poly, r: Poly)
    ensures Xor(p, Xor(q, r)) == Xor(Xor(p, q), r)
  {
  }

  lemma RemainsNothing(pl: Place, s: seq<Poly>, s': seq<Poly>, ptr: nat, a: nat, y: Poly, P: Poly)
    requires pl.Remains(s, s', ptr, GfWords.At(s, a, 0), y, P)
    ensures GfWords.At(s', pl.dst, pl.sc) == P
  {
    assert GfWords.At(s, a, 0) == {};
    MulPartial({}, y, 0);
    assert Shift({}, 64 * (ptr - pl.dst)) == {};
  }

  /** A last operand of one word */
  lemma RowAdded(pl: Place, s: seq<Poly>, s': seq<Poly>, ptr: nat, b: nat, sb: nat, w: Poly, carry: Poly)
    requires pl.Sound(|s|) && pl.dst <= ptr && ptr + sb + 1 <= pl.dst + pl.sc
    requires RowDone(s, s', ptr, b, sb, w, false, carry) && |s'| == |s|
    ensures Added(pl, s, s'[ptr + sb := Xor(s'[ptr + sb], carry)], Mul(GfWords.At(s, b, sb), w), ptr - pl.dst)
  {
    hide Mul, GfWords.At, Shift, Xor, Below, AllWords;
    RowWords(s, s', ptr, b, sb, w, carry, pl.dst + pl.sc);
    var t := s'[ptr + sb := Xor(s'[ptr + sb], carry)];
    RowTop(s, s', ptr, b, sb, w, carry);
    AddAt(s, t, pl.dst, pl.sc, ptr, sb + 1, Mul(GfWords.At(s, b, sb), w));
    OutsideWider(s, t, ptr, sb + 1, 0, 0, pl.dst, pl.sc, pl.stk, pl.space);
  }

  lemma RowWords(s: seq<Poly>, s': seq<Poly>, ptr: nat, b: nat, sb: nat, w: Poly, carry: Poly, end: nat)
    requires ptr + sb + 1 <= end <= |s| && RowDone(s, s', ptr, b, sb, w, false, carry) && |s'| == |s|
    ensures AllWords(s'[ptr + sb := Xor(s'[ptr + sb], carry)])
    ensures Outside(s, s'[ptr + sb := Xor(s'[ptr + sb], carry)], ptr, sb + 1, 0, 0)
  {
    XorBelow(s'[ptr + sb], carry, 64);
  }

  lemma RowTop(s: seq<Poly>, s': seq<Poly>, ptr: nat, b: nat, sb: nat, w: Poly, carry: Poly)
    requires ptr + sb < |s| && RowDone(s, s', ptr, b, sb, w, false, carry) && |s'| == |s|
    ensures GfWords.At(s'[ptr + sb := Xor(s'[ptr + sb], carry)], ptr, sb + 1) == Xor(GfWords.At(s, ptr, sb + 1), Mul(GfWords.At(s, b, sb), w))
  {
    hide Mul, GfWords.At, Shift, Xor, Below, AllWords;
    var e := Xor(s'[ptr + sb], carry);
    AtSnoc(s'[ptr + sb := e], ptr, sb);
    AtSnoc(s, ptr, sb);
    AtPrefix(s', ptr, sb, e);
    ShiftXor(s'[ptr + sb], carry, 64 * sb);
    RowTopAlgebra(GfWords.At(s', ptr, sb), Shift(s[ptr + sb], 64 * sb), Shift(carry, 64 * sb),
                  GfWords.At(s, ptr, sb), Mul(GfWords.At(s, b, sb), w));
  }

  lemma RowTopAlgebra(v': Poly, t: Poly, c: Poly, v: Poly, x: Poly)
    requires Xor(v', c) == Xor(v, x)
    ensures Xor(v', Xor(t, c)) == Xor(Xor(v, t), x)
  {
    assert Xor(v', Xor(t, c)) == Xor(Xor(v', c), t);
  }

  lemma RemainsRow(pl: Place, s: seq<Poly>, s': seq<Poly>, s'': seq<Poly>, ptr: nat, a: nat, b: nat, sb: nat, P: Poly)
    requires pl.Free(a, 1, |s|) && pl.Free(b, sb, |s|) && |s'| == |s|
    requires pl.Remains(s, s', ptr, GfWords.At(s, a, 1), GfWords.At(s, b, sb), P)
    requires Added(pl, s', s'', Mul(GfWords.At(s', b, sb), s'[a]), ptr - pl.dst)
    ensures pl.Kept(s, s'') && GfWords.At(s'', pl.dst, pl.sc) == P
  {
    hide Mul, GfWords.At, Shift, Xor, pl.Free, pl.Kept;
    pl.FreeSame(s, s', b, sb);
    pl.FreeSame(s, s', a, 1);
    pl.KeptTwice(s, s', s'');
    FreeBound(pl, a, 1, |s|);
    OneWord(s', a);
    MulCommutes(GfWords.At(s, a, 1), GfWords.At(s, b, sb), Bound(GfWords.At(s, a, 1)));
  }

  lemma OneWord(s: seq<Poly>, a: nat)
    requires a < |s|
    ensures GfWords.At(s, a, 1) == s[a]
  {
    AtSnoc(s, a, 0);
    ShiftZero(s[a]);
  }

  lemma RemainsWords(pl: Place, s: seq<Poly>, s': seq<Poly>, ptr: nat, x: Poly, y: Poly, P: Poly)
    requires pl.Remains(s, s', ptr, x, y, P)
    ensures |s'| == |s| && AllWords(s') && pl.Kept(s, s')
  {
  }

  lemma RowPlace(pl: Place, ptr: nat, a: nat, b: nat, sb: nat, len: nat)
    requires pl.Sound(len) && pl.Free(a, 1, len) && pl.Free(b, sb, len) && pl.dst <= ptr && ptr + sb + 1 <= pl.dst + pl.sc
    ensures a < len && b + sb <= len && ptr + sb < len && Apart(ptr, sb, b, sb)
  {
  }

  method AddLastRow(m: array<Poly>, ptr: nat, a: nat, b: nat, sb: nat, ghost pl: Place)
    requires pl.Sound(m.Length) && pl.Free(a, 1, m.Length) && pl.Free(b, sb, m.Length) && AllWords(m[..])
    requires pl.dst <= ptr && ptr + sb + 1 <= pl.dst + pl.sc
    modifies m
    ensures a < |old(m[..])| && Added(pl, old(m[..]), m[..], Mul(GfWords.At(old(m[..]), b, sb), old(m[..])[a]), ptr - pl.dst)
  {
    hide AllWords, Outside, Mul, GfWords.At, Added, pl.Free, pl.Sound, RowDone, Below;
    ghost var s := m[..];
    RowPlace(pl, ptr, a, b, sb, m.Length);
    WordBelow(s, a);
    var w := AddMulRow(m, ptr, b, sb, m[a], false);
    ghost var s' := m[..];
    RowAdded(pl, s, s', ptr, b, sb, s[a], w);
    m[ptr + sb] := Xor(m[ptr + sb], w);
    assert m[..] == s'[ptr + sb := Xor(s'[ptr + sb], w)];
  }

  method Clear(m: array<Poly>, dst: nat, n: nat)
    requires dst + n <= m.Length && AllWords(m[..])
    modifies m
    ensures Outside(old(m[..]), m[..], dst, n, 0, 0) && AllWords(m[..]) && GfWords.At(m[..], dst, n) == {}
  {
    hide AllWords, Outside, Val;
    ghost var s := m[..];
    Untouched(s, dst, 0, 0, 0);
    var i := 0;
    while i < n
      invariant i <= n && Outside(s, m[..], dst, i, 0, 0) && AllWords(m[..]) && IsZero(Words(m[..], dst, i))
    {
      ghost var s' := m[..];
      ClearStep(s, s', dst, i);
      m[dst + i] := {};
      assert m[..] == s'[dst + i := {}];
      i := i + 1;
    }
    ValZero(Words(m[..], dst, n));
  }

  lemma ClearStep(s: seq<Poly>, s': seq<Poly>, dst: nat, i: nat)
    requires dst + i < |s| == |s'| && AllWords(s') && Outside(s, s', dst, i, 0, 0) && IsZero(Words(s', dst, i))
    ensures var t := s'[dst + i := {}]; Outside(s, t, dst, i + 1, 0, 0) && AllWords(t) && IsZero(Words(t, dst, i + 1))
  {
    assert Words(s'[dst + i := {}], dst, i + 1) == Words(s', dst, i) + [{}];
  }

  lemma Untouched(s: seq<Poly>, off: nat, n: nat, t: nat, k: nat)
    ensures Outside(s, s, off, n, t, k)
  {
  }

  lemma RemainsAll(pl: Place, s: seq<Poly>, s': seq<Poly>, a: nat, sa: nat, b: nat, sb: nat)
    requires Outside(s, s', pl.dst, pl.sc, 0, 0) && AllWords(s') && GfWords.At(s', pl.dst, pl.sc) == {}
    ensures pl.Remains(s, s', pl.dst, GfWords.At(s, a, sa), GfWords.At(s, b, sb), Mul(GfWords.At(s, a, sa), GfWords.At(s, b, sb)))
  {
    hide Mul, GfWords.At, Outside, Shift;
    OutsideWider(s, s', pl.dst, pl.sc, 0, 0, pl.dst, pl.sc, pl.stk, pl.space);
    ShiftZero(Mul(GfWords.At(s, a, sa), GfWords.At(s, b, sb)));
  }

  /** Euclid-like rounds: the whole blocks of the longer operand, then its rest against the shorter one.
      The product of each block goes through v, above the scratch space of every round. */
  method MulUnbalanced(m: array<Poly>, dst: nat, a0: nat, sa0: nat, b0: nat, sb0: nat, stk: nat, T: nat, toomw: nat)
    requires 5 <= T <= 10 && toomw >= 8 && 1 <= sa0
    requires var pl := Room(dst, sa0, sb0, stk, T, toomw);
      pl.Sound(m.Length) && pl.Free(a0, sa0, m.Length) && pl.Free(b0, sb0, m.Length) && AllWords(m[..])
    modifies m
    ensures Room(dst, sa0, sb0, stk, T, toomw).Kept(old(m[..]), m[..])
    ensures GfWords.At(m[..], dst, sa0 + sb0) == Mul(GfWords.At(old(m[..]), a0, sa0), GfWords.At(old(m[..]), b0, sb0))
  {
    ghost var pl := Room(dst, sa0, sb0, stk, T, toomw);
    hide AllWords, Outside, KaraSpace, Mul, GfWords.At, pl.Free, pl.Sound, Added, pl.Remains, pl.Kept, Space;
    ghost var s := m[..];
    ghost var P := Mul(GfWords.At(s, a0, sa0), GfWords.At(s, b0, sb0));
    var space := ComputeSpace(sa0, T, toomw);
    var v := stk + space;
    SoundBound(pl, m.Length);
    Clear(m, dst, sa0 + sb0);
    RemainsAll(pl, s, m[..], a0, sa0, b0, sb0);
    var ptr: nat, a: nat, sa: nat, b: nat, sb: nat := dst, a0, sa0, b0, sb0;
    while true
      invariant pl.Free(a, sa, m.Length) && pl.Free(b, sb, m.Length) && sa <= sa0 && dst <= ptr && ptr + sa + sb == dst + sa0 + sb0
      invariant pl.Remains(s, m[..], ptr, GfWords.At(s, a, sa), GfWords.At(s, b, sb), P)
      decreases sa
    {
      ghost var s' := m[..];
      RemainsWords(pl, s, s', ptr, GfWords.At(s, a, sa), GfWords.At(s, b, sb), P);
      if sa == 0 {
        RemainsNothing(pl, s, s', ptr, a, GfWords.At(s, b, sb), P);
        return;
      }
      if sa == 1 {
        AddLastRow(m, ptr, a, b, sb, pl);
        RemainsRow(pl, s, s', m[..], ptr, a, b, sb, P);
        return;
      }
      RoundSpace(sa, sa0, T, toomw);
      var i := AddBlocks(m, ptr, a, sa, b, sb, v, stk, T, pl);
      RemainsStep(pl, s, s', m[..], ptr, a, sa, b, sb, i, P);
      pl.FreePart(b, sb, m.Length, i, sb - i);
      a, sa, b, sb := b + i, sb - i, a, sa;
      ptr := ptr + i;
    }
  }

  /** The pool holds gf2x_toomspace(sa) words of scratch and 2 sa words for v. */
  function Room(dst: nat, sa: nat, sb: nat, stk: nat, T: nat, toomw: nat): Place {
    Place(dst, sa + sb, stk, Space(sa, if T < toomw then T else toomw) + 2 * sa)
  }

  lemma SoundBound(pl: Place, len: nat)
    requires pl.Sound(len)
    ensures pl.dst + pl.sc <= len
  {
  }

  /** v is never overwritten by the scratch words of a smaller round. */
  lemma RoundSpace(sa: nat, sa0: nat, T: nat, toomw: nat)
    requires sa <= sa0 && T >= 5 && toomw >= 8
    ensures KaraSpace(sa, T) <= Space(sa0, if T < toomw then T else toomw)
  {
    SpaceEnough(sa, T, toomw);
    SpaceMonotone(sa, sa0, if T < toomw then T else toomw);
  }

  method Copy(m: array<Poly>, c: nat, src: nat, n: nat)
    requires c + n <= m.Length && src + n <= m.Length && Apart(c, n, src, n) && AllWords(m[..])
    modifies m
    ensures Outside(old(m[..]), m[..], c, n, 0, 0) && AllWords(m[..])
    ensures GfWords.At(m[..], c, n) == GfWords.At(old(m[..]), src, n)
  {
    ghost var s := m[..];
    var i := 0;
    while i < n
      invariant i <= n && Outside(s, m[..], c, i, 0, 0) && AllWords(m[..])
      invariant forall y: nat :: c <= y < c + i ==> m[y] == s[y - c + src]
    {
      m[c + i] := m[src + i];
      i := i + 1;
    }
    assert Words(m[..], c, n) == Words(s, src, n);
  }

  // ---------- The entry point ----------

  /** Where the caller's words are: c may be a or b itself, tmp is a buffer for that case and stk the pool. */
  datatype Call = Call(c: nat, a: nat, sa: nat, b: nat, sb: nat, tmp: nat, stk: nat, space: nat) {
    function Swapped(): Call {
      this.(a := b, sa := sb, b := a, sb := sa)
    }

    predicate Aliased() {
      c == a || c == b
    }

    function Dst(): nat {
      if Aliased() then tmp else c
    }

    ghost predicate Sound(len: nat) {
      && sa >= 1 && sb >= 1 && c + sa + sb <= len && a + sa <= len && b + sb <= len && tmp + sa + sb <= len && stk + space <= len
      && (c == a || c == b || (Apart(c, sa + sb, a, sa) && Apart(c, sa + sb, b, sb)))
      && Apart(tmp, sa + sb, a, sa) && Apart(tmp, sa + sb, b, sb) && Apart(tmp, sa + sb, c, sa + sb) && Apart(tmp, sa + sb, stk, space)
      && Apart(stk, space, a, sa) && Apart(stk, space, b, sb) && Apart(stk, space, c, sa + sb)
    }

    function Target(): Place {
      Place(Dst(), sa + sb, stk, space)
    }

    ghost predicate Multiplied(s: seq<Poly>, s': seq<Poly>) {
      && Target().Kept(s, s')
      && GfWords.At(s', Dst(), sa + sb) == Mul(GfWords.At(s, a, sa), GfWords.At(s, b, sb))
    }

    /** The product is at c, and only c, the buffer and the pool have changed. */
    ghost predicate Done(s: seq<Poly>, s': seq<Poly>) {
      && |s'| == |s| && AllWords(s')
      && (forall x: nat :: x < |s| && !(c <= x < c + sa + sb) && !(tmp <= x < tmp + sa + sb) && !(stk <= x < stk + space) ==> s'[x] == s[x])
      && GfWords.At(s', c, sa + sb) == Mul(GfWords.At(s, a, sa), GfWords.At(s, b, sb))
    }

    lemma Symmetric(len: nat)
      requires Sound(len)
      ensures Swapped().Sound(len)
      ensures c + sa + sb <= len && tmp + sa + sb <= len && Apart(c, sa + sb, tmp, sa + sb)
    {
      assert sb + sa == sa + sb;
    }

    lemma TargetSound(len: nat)
      requires Sound(len)
      ensures Target().Sound(len) && Target().Free(a, sa, len) && Target().Free(b, sb, len)
    {
    }

    lemma TargetFits(len: nat)
      requires Sound(len)
      ensures Apart(Dst(), sa + sb, a, sa) && Apart(Dst(), sa + sb, b, sb) && Dst() + sa + sb <= len && a + sa <= len && b + sb <= len
      ensures sa == sb ==> Layout(Dst(), a, b, sa, stk).Fits(space, len)
    {
    }

    lemma DoneInPlace(s: seq<Poly>, s': seq<Poly>)
      requires Sound(|s|) && !Aliased() && Multiplied(s, s')
      ensures Done(s, s')
    {
      hide Mul, GfWords.At;
    }

    lemma DoneByCopy(s: seq<Poly>, s': seq<Poly>, s'': seq<Poly>)
      requires Sound(|s|) && Aliased() && Multiplied(s, s')
      requires Outside(s', s'', c, sa + sb, 0, 0) && AllWords(s'')
      requires GfWords.At(s'', c, sa + sb) == GfWords.At(s', tmp, sa + sb)
      ensures Done(s, s'')
    {
      hide Mul, GfWords.At;
    }

    lemma SwappedDone(s: seq<Poly>, s': seq<Poly>)
      requires Swapped().Done(s, s')
      ensures Done(s, s')
    {
      assert sb + sa == sa + sb;
      var x := GfWords.At(s, b, sb);
      MulCommutes(x, GfWords.At(s, a, sa), Bound(x));
      hide Mul, GfWords.At;
    }

    lemma FromBase(s: seq<Poly>, s': seq<Poly>)
      requires IsProduct(s, s', Dst(), a, sa, b, sb, 0, 0)
      ensures Multiplied(s, s')
    {
      hide Mul, GfWords.At, AllWords, Outside;
      OutsideWider(s, s', Dst(), sa + sb, 0, 0, Dst(), sa + sb, stk, space);
    }

    lemma FromToom(s: seq<Poly>, s': seq<Poly>)
      requires sa == sb && Layout(Dst(), a, b, sa, stk).Frame(s, s', space) && Layout(Dst(), a, b, sa, stk).Product(s, s')
      ensures Multiplied(s, s')
    {
      assert 2 * sa == sa + sb;
      hide Mul, GfWords.At, AllWords, Outside;
    }
  }

  /** The scratch words that a call needs in the pool; none for small operands */
  function PoolSize(sa: nat, sb: nat, T: nat, toomw: nat): nat {
    var k := if sa <= sb then sa else sb;
    Space(k, if T < toomw then T else toomw) + 2 * k
  }

  method MulR(m: array<Poly>, c: nat, a: nat, sa: nat, b: nat, sb: nat, tmp: nat, stk: nat, T: nat, toomw: nat)
    requires 5 <= T <= 10 && toomw >= 8 && AllWords(m[..])
    requires Call(c, a, sa, b, sb, tmp, stk, PoolSize(sa, sb, T, toomw)).Sound(m.Length)
    modifies m
    ensures Call(c, a, sa, b, sb, tmp, stk, PoolSize(sa, sb, T, toomw)).Done(old(m[..]), m[..])
    decreases sa > sb
  {
    hide AllWords, PoolSize, Apart, Call.Done, Call.Sound;
    ghost var call := Call(c, a, sa, b, sb, tmp, stk, PoolSize(sa, sb, T, toomw));
    if sa > sb {
      call.Symmetric(m.Length);
      PoolSymmetric(sa, sb, T, toomw);
      MulR(m, c, b, sb, a, sa, tmp, stk, T, toomw);
      call.SwappedDone(old(m[..]), m[..]);
    } else {
      MulSorted(m, c, a, sa, b, sb, tmp, stk, T, toomw, call);
    }
  }

  lemma PoolSymmetric(sa: nat, sb: nat, T: nat, toomw: nat)
    requires sa > sb
    ensures PoolSize(sb, sa, T, toomw) == PoolSize(sa, sb, T, toomw)
  {
  }

  method MulSorted(m: array<Poly>, c: nat, a: nat, sa: nat, b: nat, sb: nat, tmp: nat, stk: nat, T: nat, toomw: nat, ghost call: Call)
    requires 5 <= T <= 10 && toomw >= 8 && AllWords(m[..]) && sa <= sb
    requires call == Call(c, a, sa, b, sb, tmp, stk, PoolSize(sa, sb, T, toomw)) && call.Sound(m.Length)
    modifies m
    ensures call.Done(old(m[..]), m[..])
  {
    hide AllWords, Outside, Mul, GfWords.At, PoolSize, call.Done, call.Multiplied, call.Sound, Apart;
    ghost var s := m[..];
    call.Symmetric(m.Length);
    if c == a || c == b {
      MulInto(m, tmp, a, sa, b, sb, stk, T, toomw, call);
      ghost var s' := m[..];
      MultipliedWords(call, s, s');
      Copy(m, c, tmp, sa + sb);
      call.DoneByCopy(s, s', m[..]);
    } else {
      MulInto(m, c, a, sa, b, sb, stk, T, toomw, call);
      call.DoneInPlace(s, m[..]);
    }
  }

  lemma MultipliedWords(call: Call, s: seq<Poly>, s': seq<Poly>)
    requires call.Multiplied(s, s')
    ensures AllWords(s')
  {
  }

  method MulInto(m: array<Poly>, dst: nat, a: nat, sa: nat, b: nat, sb: nat, stk: nat, T: nat, toomw: nat, ghost call: Call)
    requires 5 <= T <= 10 && toomw >= 8 && AllWords(m[..]) && sa <= sb
    requires call.a == a && call.b == b && call.sa == sa && call.sb == sb && call.stk == stk && call.Dst() == dst
    requires call.space == PoolSize(sa, sb, T, toomw) && call.Sound(m.Length)
    modifies m
    ensures call.Multiplied(old(m[..]), m[..])
  {
    hide AllWords, Outside, KaraSpace, Mul, GfWords.At, Space, call.Sound, IsProduct;
    ghost var s := m[..];
    call.TargetSound(m.Length);
    call.TargetFits(m.Length);
    SoundSizes(call, m.Length);
    if sa < T {
      MulBasecase(m, dst, a, sa, b, sb);
      call.FromBase(s, m[..]);
    } else if sa == sb {
      RoundSpace(sa, sa, T, toomw);
      MulToom(m, dst, a, b, sa, stk, T, call.space);
      call.FromToom(s, m[..]);
    } else {
      MulUnbalanced(m, dst, a, sa, b, sb, stk, T, toomw);
    }
  }

  lemma SoundSizes(call: Call, len: nat)
    requires call.Sound(len)
    ensures call.sa >= 1 && call.sb >= 1
  {
  }
}
