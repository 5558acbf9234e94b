/** Polynomials over GF(2) stored in words of 64 bits, least significant word first. */
module GfWords {
  import opened Gf2
  import opened Gf2Poly

  /** The polynomial in a sequence of words */
  function Val(s: seq<Poly>): Poly {
    if s == [] then {} else Xor(s[0], Shift(Val(s[1..]), 64))
  }

  ghost predicate AllWords(s: seq<Poly>) {
    forall i :: 0 <= i < |s| ==> Below(s[i], 64)
  }

  /** Wordwise sum; t may be shorter. */
  function XorWords(s: seq<Poly>, t: seq<Poly>): seq<Poly> {
    seq(|s|, i requires 0 <= i < |s| => if i < |t| then Xor(s[i], t[i]) else s[i])
  }

  lemma {:induction false} ValConcat(s: seq<Poly>, t: seq<Poly>)
    ensures Val(s + t) == Xor(Val(s), Shift(Val(t), 64 * |s|))
    decreases |s|
  {
    if s == [] {
      assert s + t == t;
      ShiftZero(Val(t));
    } else {
      assert (s + t)[1..] == s[1..] + t;
      ValConcat(s[1..], t);
      ShiftXor(Val(s[1..]), Shift(Val(t), 64 * (|s| - 1)), 64);
      ShiftShift(Val(t), 64 * (|s| - 1), 64);
    }
  }

  lemma ValSnoc(s: seq<Poly>, w: Poly)
    ensures Val(s + [w]) == Xor(Val(s), Shift(w, 64 * |s|))
  {
    ValConcat(s, [w]);
    assert Val([]) == {} && Shift({}, 64) == {};
    assert Val([w]) == w;
  }

  lemma {:induction false} ValXor(s: seq<Poly>, t: seq<Poly>)
    requires |t| <= |s|
    ensures Val(XorWords(s, t)) == Xor(Val(s), Val(t))
    decreases |s|
  {
    var x := XorWords(s, t);
    if t == [] {
      assert x == s;
    } else {
      assert x[1..] == XorWords(s[1..], t[1..]);
      ValXor(s[1..], t[1..]);
      ShiftXor(Val(s[1..]), Val(t[1..]), 64);
      XorSwap(s[0], Shift(Val(s[1..]), 64), t[0], Shift(Val(t[1..]), 64));
    }
  }

  ghost predicate IsZero(s: seq<Poly>) {
    forall i :: 0 <= i < |s| ==> s[i] == {}
  }

  lemma {:induction false} ValZero(s: seq<Poly>)
    requires IsZero(s)
    ensures Val(s) == {}
    decreases |s|
  {
    if s != [] {
      ValZero(s[1..]);
      assert Shift({}, 64) == {};
    }
  }

  lemma ValZeroTail(s: seq<Poly>, z: seq<Poly>)
    requires IsZero(z)
    ensures Val(s + z) == Val(s)
  {
    ValConcat(s, z);
    ValZero(z);
    assert Shift({}, 64 * |s|) == {};
  }

  /** The two words of a product of two words */
  function Low(p: Poly): Poly {
    set i | i in p && i < 64
  }

  function High(p: Poly): Poly {
    set i | i in p && i >= 64 :: i - 64
  }

  lemma LowHigh(p: Poly)
    ensures p == Xor(Low(p), Shift(High(p), 64)) && Below(Low(p), 64)
  {
    forall i: nat ensures i in p <==> i in Xor(Low(p), Shift(High(p), 64)) {
      ShiftHas(High(p), 64, i);
      if i >= 64 && i in p {
        assert i - 64 in High(p);
      }
    }
  }

  lemma {:induction false} PartialBelow(p: Poly, q: Poly, n: nat, k: nat)
    requires Below(q, k)
    ensures Below(Partial(p, q, n), n + k)
    decreases n
  {
    if n > 0 {
      PartialBelow(p, q, n - 1, k);
    }
  }

  lemma ProductWords(p: Poly, q: Poly)
    requires Below(p, 64) && Below(q, 64)
    ensures Below(Low(Mul(p, q)), 64) && Below(High(Mul(p, q)), 64)
  {
    MulPartial(p, q, 64);
    PartialBelow(p, q, 64, 64);
  }

  // ---------- Regions of a memory of words ----------

  function Words(s: seq<Poly>, off: nat, n: nat): seq<Poly> {
    if off + n <= |s| then s[off..off + n] else []
  }

  /** The polynomial in the n words at off */
  function At(s: seq<Poly>, off: nat, n: nat): Poly {
    Val(Words(s, off, n))
  }

  predicate Apart(p: nat, n: nat, q: nat, k: nat) {
    p + n <= q || q + k <= p
  }

  predicate Inside(p: nat, n: nat, q: nat, k: nat) {
    q <= p && p + n <= q + k
  }

  /** Only the n words at off and the k words at t may differ. */
  ghost predicate Outside(s: seq<Poly>, s': seq<Poly>, off: nat, n: nat, t: nat, k: nat) {
    && |s'| == |s|
    && forall x: nat :: x < |s| && !(off <= x < off + n) && !(t <= x < t + k) ==> s'[x] == s[x]
  }

  lemma WordsOutside(s: seq<Poly>, s': seq<Poly>, off: nat, n: nat, t: nat, k: nat, p: nat, l: nat)
    requires Outside(s, s', off, n, t, k) && Apart(p, l, off, n) && Apart(p, l, t, k)
    ensures Words(s', p, l) == Words(s, p, l)
  {
  }

  lemma OutsideWider(s: seq<Poly>, s': seq<Poly>, off: nat, n: nat, t: nat, k: nat,
                     off': nat, n': nat, t': nat, k': nat)
    requires Outside(s, s', off, n, t, k)
    requires n == 0 || Inside(off, n, off', n') || Inside(off, n, t', k')
    requires k == 0 || Inside(t, k, off', n') || Inside(t, k, t', k')
    ensures Outside(s, s', off', n', t', k')
  {
  }

  lemma OutsideSize(s: seq<Poly>, s': seq<Poly>, off: nat, n: nat, t: nat, k: nat)
    requires Outside(s, s', off, n, t, k)
    ensures |s'| == |s|
  {
  }

  lemma OutsideTwice(s: seq<Poly>, s': seq<Poly>, s'': seq<Poly>, off: nat, n: nat, t: nat, k: nat)
    requires Outside(s, s', off, n, t, k) && Outside(s', s'', off, n, t, k)
    ensures Outside(s, s'', off, n, t, k)
  {
  }

  lemma AtConcat(s: seq<Poly>, off: nat, n: nat, k: nat)
    requires off + n + k <= |s|
    ensures At(s, off, n + k) == Xor(At(s, off, n), Shift(At(s, off + n, k), 64 * n))
  {
    assert Words(s, off, n + k) == Words(s, off, n) + Words(s, off + n, k);
    ValConcat(Words(s, off, n), Words(s, off + n, k));
  }

  lemma AtSnoc(s: seq<Poly>, off: nat, n: nat)
    requires off + n < |s|
    ensures At(s, off, n + 1) == Xor(At(s, off, n), Shift(s[off + n], 64 * n))
  {
    assert Words(s, off, n + 1) == Words(s, off, n) + [s[off + n]];
    ValSnoc(Words(s, off, n), s[off + n]);
  }

  /** The first i words at off are those of x. */
  ghost predicate Filled(s: seq<Poly>, off: nat, i: nat, x: seq<Poly>) {
    i <= |x| && Words(s, off, i) == x[..i] && off + i <= |s|
  }

  lemma FillNext(s: seq<Poly>, off: nat, i: nat, x: seq<Poly>)
    requires Filled(s, off, i, x) && i < |x| && off + i < |s|
    ensures Filled(s[off + i := x[i]], off, i + 1, x)
  {
    assert Words(s[off + i := x[i]], off, i + 1) == Words(s, off, i) + [x[i]];
  }

  lemma FillOther(s: seq<Poly>, off: nat, i: nat, x: seq<Poly>, p: nat, w: Poly)
    requires Filled(s, off, i, x) && p < |s| && !(off <= p < off + i)
    ensures Filled(s[p := w], off, i, x)
  {
    assert Words(s[p := w], off, i) == Words(s, off, i);
  }

  lemma OutsideWrite(s: seq<Poly>, s': seq<Poly>, off: nat, n: nat, t: nat, k: nat, p: nat, w: Poly, n': nat, k': nat)
    requires Outside(s, s', off, n, t, k) && p < |s| && n <= n' && k <= k' && (off <= p < off + n' || t <= p < t + k')
    ensures Outside(s, s'[p := w], off, n', t, k')
  {
  }

  lemma AllWordsWrite(s: seq<Poly>, p: nat, w: Poly)
    requires AllWords(s) && p < |s| && Below(w, 64)
    ensures AllWords(s[p := w])
  {
  }

  lemma XorWordsAt(s: seq<Poly>, p: nat, n: nat, q: nat, k: nat, i: nat)
    requires p + n <= |s| && q + k <= |s| && i < n && AllWords(s)
    ensures |XorWords(Words(s, p, n), Words(s, q, k))| == n
    ensures XorWords(Words(s, p, n), Words(s, q, k))[i] == if i < k then Xor(s[p + i], s[q + i]) else s[p + i]
    ensures Below(XorWords(Words(s, p, n), Words(s, q, k))[i], 64)
  {
  }

  lemma XorWords3At(s: seq<Poly>, o: nat, p: nat, n: nat, q: nat, k: nat, i: nat)
    requires o + n <= |s| && p + n <= |s| && q + k <= |s| && i < n && AllWords(s)
    ensures |XorWords(Words(s, o, n), XorWords(Words(s, p, n), Words(s, q, k)))| == n
    ensures XorWords(Words(s, o, n), XorWords(Words(s, p, n), Words(s, q, k)))[i]
         == Xor(s[o + i], if i < k then Xor(s[p + i], s[q + i]) else s[p + i])
    ensures Below(XorWords(Words(s, o, n), XorWords(Words(s, p, n), Words(s, q, k)))[i], 64)
  {
  }

  lemma FilledAll(s: seq<Poly>, off: nat, x: seq<Poly>)
    requires Filled(s, off, |x|, x)
    ensures Words(s, off, |x|) == x
  {
    assert x[..|x|] == x;
  }
}
