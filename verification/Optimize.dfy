/** polyselect/auxiliary.c: translations and rotations that look for a smaller norm. */
module Optimize {
  import opened Congruence
  import opened IntPoly

  // ---------- Translation ----------

  /** f[j] + k f[j+1] for every j but the last */
  function AddShifted(f: seq<int>, k: int): (r: seq<int>)
    ensures |r| == |f|
  {
    if |f| <= 1 then f else [f[0] + k * f[1]] + AddShifted(f[1..], k)
  }

  lemma {:induction false} AddShiftedEval(f: seq<int>, k: int, x: int)
    requires f != []
    ensures Eval(AddShifted(f, k), x) == Eval(f, x) + k * Eval(f[1..], x)
    decreases |f|
  {
    if |f| == 1 {
      assert Eval(f[1..], x) == 0;
    } else {
      var g := f[1..];
      AddShiftedEval(g, k, x);
      EvalSplit(f[0] + k * f[1], AddShifted(g, k), x);
      EvalSplit(f[0], g, x);
      EvalSplit(f[1], g[1..], x);
      assert f == [f[0]] + g && g == [f[1]] + g[1..];
      ShiftArith(f[0], f[1], k, x, Eval(g, x), Eval(g[1..], x));
    }
  }

  lemma ShiftArith(a: int, b: int, k: int, x: int, g: int, h: int)
    requires g == b + x * h
    ensures (a + k * b) + x * (g + k * h) == (a + x * g) + k * g
  {
    assert x * (k * h) == k * (x * h);
  }

  /** The coefficients from i on are those of the tail of f0 at x + k; the others are as in f0. */
  ghost predicate TailShifted(f0: seq<int>, f: seq<int>, i: nat, k: int) {
    && |f| == |f0| && i < |f0| && f[..i] == f0[..i]
    && forall x: int :: Eval(f[i..], x) == Eval(f0[i..], x + k)
  }

  lemma TailStart(f: seq<int>, k: int)
    requires f != []
    ensures TailShifted(f, f, |f| - 1, k)
  {
    var c := f[|f| - 1..];
    forall x: int ensures Eval(c, x) == Eval(c, x + k) {
      ShortEval(c, x);
      ShortEval(c, x + k);
    }
  }

  /** One turn of the outer loop */
  lemma TailNext(f0: seq<int>, f: seq<int>, i: nat, k: int, f': seq<int>)
    requires i >= 1 && TailShifted(f0, f, i, k) && |f'| == |f| && f'[..i - 1] == f[..i - 1]
    requires f'[i - 1..] == AddShifted(f[i - 1..], k)
    ensures TailShifted(f0, f', i - 1, k)
  {
    assert f[i - 1] == f0[i - 1] by {
      assert f[..i][i - 1] == f0[..i][i - 1];
    }
    assert f[..i - 1] == f[..i][..i - 1] && f0[..i - 1] == f0[..i][..i - 1];
    var tail, tail0 := f'[i - 1..], f0[i - 1..];
    forall x: int ensures Eval(tail, x) == Eval(tail0, x + k) {
      AddShiftedEval(f[i - 1..], k, x);
      assert f[i - 1..] == [f[i - 1]] + f[i..] && f[i - 1..][1..] == f[i..];
      assert f0[i - 1..] == [f0[i - 1]] + f0[i..];
      EvalSplit(f[i - 1], f[i..], x);
      EvalSplit(f0[i - 1], f0[i..], x + k);
      assert (x + k) * Eval(f[i..], x) == x * Eval(f[i..], x) + k * Eval(f[i..], x);
    }
  }

  /** h is f at x + k. */
  ghost predicate IsTranslate(f: seq<int>, h: seq<int>, k: int) {
    |h| == |f| && forall x: int :: Eval(h, x) == Eval(f, x + k)
  }

  /** The inner loop: f[j] += k f[j+1] for i <= j < d */
  method AddShiftedFrom(f: array<int>, i: nat, k: int)
    requires i < f.Length
    modifies f
    ensures f[..i] == old(f[..i]) && f[i..] == AddShifted(old(f[i..]), k)
  {
    var d := f.Length - 1;
    ghost var s := f[..];
    var j := i;
    while j < d
      invariant i <= j <= d
      invariant forall x :: i <= x < j ==> f[x] == s[x] + k * s[x + 1]
      invariant forall x :: 0 <= x < i || j <= x <= d ==> f[x] == s[x]
    {
      f[j] := f[j] + f[j + 1] * k;
      j := j + 1;
    }
    forall x: nat | x < f.Length - i ensures f[i..][x] == AddShifted(s[i..], k)[x] {
      AddShiftedAt(s[i..], k, x);
    }
  }

  lemma {:induction false} AddShiftedAt(f: seq<int>, k: int, x: nat)
    requires x < |f|
    ensures AddShifted(f, k)[x] == if x < |f| - 1 then f[x] + k * f[x + 1] else f[x]
    decreases |f|
  {
    if |f| > 1 && x > 0 {
      AddShiftedAt(f[1..], k, x - 1);
    }
  }

  /** do_translate_z: f(x+k) and g(x+k), in place */
  method Translate(f: array<int>, g: array<int>, k: int)
    requires f.Length >= 1 && g.Length == 2 && f != g
    modifies f, g
    ensures IsTranslate(old(f[..]), f[..], k) && IsTranslate(old(g[..]), g[..], k)
  {
    ghost var s, t := f[..], g[..];
    TailStart(s, k);
    var i := f.Length - 2;
    while i >= 0
      invariant -1 <= i <= f.Length - 2 && TailShifted(s, f[..], i + 1, k) && g[..] == t
    {
      ghost var h := f[..];
      AddShiftedFrom(f, i, k);
      assert f[..][..i] == f[..i] && h[..i] == f[..i] && f[..][i..] == f[i..];
      TailNext(s, h, i + 1, k, f[..]);
      i := i - 1;
    }
    assert s[0..] == s && f[..][0..] == f[..];
    g[0] := g[0] + g[1] * k;
    LinearTranslate(t, g[..], k);
  }

  lemma LinearEval(g: seq<int>, x: int)
    requires |g| == 2
    ensures Eval(g, x) == g[0] + x * g[1]
  {
    ShortEval(g[1..], x);
  }

  lemma LinearTranslate(g: seq<int>, h: seq<int>, k: int)
    requires |g| == |h| == 2 && h[0] == g[0] + g[1] * k && h[1] == g[1]
    ensures IsTranslate(g, h, k)
  {
    forall x: int ensures Eval(h, x) == Eval(g, x + k) {
      LinearEval(g, x + k);
      LinearEval(h, x);
      assert (x + k) * g[1] == x * g[1] + g[1] * k;
    }
  }

  lemma TranslateTwice(f: seq<int>, g: seq<int>, h: seq<int>, j: int, k: int)
    requires IsTranslate(f, g, j) && IsTranslate(g, h, k)
    ensures IsTranslate(f, h, j + k)
  {
    forall x: int ensures Eval(h, x) == Eval(f, x + (j + k)) {
      assert Eval(h, x) == Eval(g, x + k);
      assert Eval(g, x + k) == Eval(f, x + k + j);
      assert x + k + j == x + (j + k);
    }
  }

  /** A translation by 0 gives the same coefficients. */
  lemma TranslateNone(f: seq<int>, h: seq<int>)
    requires IsTranslate(f, h, 0)
    ensures h == f
  {
    forall x: int | x != 0 ensures Eval(h, x) == Eval(f, x) {
      assert Eval(h, x) == Eval(f, x + 0);
    }
    SamePolynomial(h, f);
  }

  /** f + k x^t g */
  function Rotated(f: seq<int>, g: seq<int>, k: int, t: nat): seq<int>
    requires |g| == 2 && t + 1 < |f|
  {
    f[t + 1 := f[t + 1] + g[1] * k][t := f[t] + g[0] * k]
  }

  lemma {:induction false} AddTerm(f: seq<int>, t: nat, c: int, x: int)
    requires t < |f|
    ensures Eval(f[t := f[t] + c], x) == Eval(f, x) + c * Pow(x, t)
    decreases t
  {
    var h := f[t := f[t] + c];
    assert f == [f[0]] + f[1..] && h == [h[0]] + h[1..];
    EvalSplit(f[0], f[1..], x);
    EvalSplit(h[0], h[1..], x);
    if t == 0 {
      assert h[1..] == f[1..];
    } else {
      AddTerm(f[1..], t - 1, c, x);
      assert h[1..] == f[1..][t - 1 := f[1..][t - 1] + c];
      TermArith(x, Eval(f[1..], x), c, Pow(x, t - 1));
    }
  }

  lemma TermArith(x: int, e: int, c: int, p: int)
    ensures x * (e + c * p) == x * e + c * (x * p)
  {
  }

  lemma RotatedEval(f: seq<int>, g: seq<int>, k: int, t: nat, x: int)
    requires |g| == 2 && t + 1 < |f|
    ensures Eval(Rotated(f, g, k, t), x) == Eval(f, x) + (k * Pow(x, t)) * Eval(g, x)
  {
    hide Eval, Pow;
    var h := f[t + 1 := f[t + 1] + g[1] * k];
    AddTerm(f, t + 1, g[1] * k, x);
    AddTerm(h, t, g[0] * k, x);
    assert Rotated(f, g, k, t) == h[t := h[t] + g[0] * k];
    LinearEval(g, x);
    PowNext(x, t);
    RotateArith(g[0], g[1], k, x, Pow(x, t));
  }

  lemma PowNext(x: int, t: nat)
    ensures Pow(x, t + 1) == x * Pow(x, t)
  {
  }

  lemma RotateArith(g0: int, g1: int, k: int, x: int, p: int)
    ensures (g1 * k) * (x * p) + (g0 * k) * p == (k * p) * (g0 + x * g1)
  {
    assert (g1 * k) * (x * p) == (k * p) * (x * g1) by {
      assert (g1 * k) * (x * p) == g1 * (k * (x * p)) == (k * p) * (g1 * x);
    }
  }

  lemma RotatedTwice(f: seq<int>, g: seq<int>, j: int, k: int, t: nat)
    requires |g| == 2 && t + 1 < |f|
    ensures Rotated(Rotated(f, g, j, t), g, k, t) == Rotated(f, g, j + k, t)
  {
    assert g[1] * j + g[1] * k == g[1] * (j + k) && g[0] * j + g[0] * k == g[0] * (j + k);
  }

  lemma RotatedNone(f: seq<int>, g: seq<int>, t: nat)
    requires |g| == 2 && t + 1 < |f|
    ensures Rotated(f, g, 0, t) == f
  {
  }

  // ---------- Running totals ----------

  /** The translation k and the multiplier khi x^2 + lam x + mu of g so far */
  datatype Totals = Totals(k: int, khi: int, lam: int, mu: int) {
    function Multiplier(y: int): int {
      khi * (y * y) + lam * y + mu
    }

    function Translated(j: int): Totals {
      this.(k := k + j)
    }

    /** What a rotation by j x^t g does to the totals, as the code updates them */
    function Rotated(j: int, t: nat): Totals {
      if t == 2 then var tmp := k * j; this.(lam := lam - 2 * tmp, mu := mu + tmp * k, khi := khi + j)
      else if t == 1 then this.(mu := mu - k * j, lam := lam + j)
      else this.(mu := mu + j)
    }

    lemma RotatedTwice(i: int, j: int, t: nat)
      ensures Rotated(i, t).Rotated(j, t) == Rotated(i + j, t)
    {
      assert k * i + k * j == k * (i + j);
      assert (k * i) * k + (k * j) * k == (k * (i + j)) * k;
    }

    lemma RotatedNone(t: nat)
      ensures Rotated(0, t) == this
    {
      assert k * 0 == 0 && (k * 0) * k == 0;
    }

    lemma RotatedMultiplier(j: int, t: nat, x: int)
      requires t <= 2
      ensures Rotated(j, t).Multiplier(x + k) == Multiplier(x + k) + j * Pow(x, t)
    {
      var y := x + k;
      assert Pow(x, 0) == 1 && Pow(x, 1) == x * Pow(x, 0) && Pow(x, 2) == x * Pow(x, 1);
      if t == 2 {
        SquareTerm(khi, lam, mu, k, j, x);
      } else if t == 1 {
        assert (lam + j) * y + (mu - k * j) == lam * y + mu + j * x by {
          assert j * (x + k) == j * x + k * j;
        }
      }
    }
  }

  lemma SquareTerm(khi: int, lam: int, mu: int, k: int, j: int, x: int)
    ensures var y, tmp := x + k, k * j;
      (khi + j) * (y * y) + (lam - 2 * tmp) * y + (mu + tmp * k) == (khi * (y * y) + lam * y + mu) + j * (x * x)
  {
    var y, tmp := x + k, k * j;
    assert (khi + j) * (y * y) == khi * (y * y) + j * (y * y);
    assert (lam - 2 * tmp) * y == lam * y - 2 * (tmp * y);
    assert y * y == x * x + 2 * (k * x) + k * k;
    assert j * (y * y) == j * (x * x) + 2 * (j * (k * x)) + j * (k * k);
    assert tmp * y == j * (k * x) + j * (k * k) && tmp * k == j * (k * k);
  }

  /** f = [f0 + (khi x^2 + lam x + mu) g0](x + k) and g = g0(x + k) */
  ghost predicate Carried(f0: seq<int>, g0: seq<int>, f: seq<int>, g: seq<int>, tot: Totals) {
    && |f| == |f0| && |g| == |g0| == 2
    && (forall x: int :: Eval(g, x) == Eval(g0, x + tot.k))
    && (forall x: int :: Eval(f, x) == Eval(f0, x + tot.k) + tot.Multiplier(x + tot.k) * Eval(g0, x + tot.k))
  }

  lemma CarriedStart(f: seq<int>, g: seq<int>)
    requires |g| == 2
    ensures Carried(f, g, f, g, Totals(0, 0, 0, 0))
  {
    forall x: int ensures Totals(0, 0, 0, 0).Multiplier(x) == 0 {
    }
  }

  lemma CarriedTranslate(f0: seq<int>, g0: seq<int>, f: seq<int>, g: seq<int>, f': seq<int>, g': seq<int>, tot: Totals, j: int)
    requires Carried(f0, g0, f, g, tot) && IsTranslate(f, f', j) && IsTranslate(g, g', j)
    ensures Carried(f0, g0, f', g', tot.Translated(j))
  {
    var tot' := tot.Translated(j);
    forall x: int
      ensures Eval(g', x) == Eval(g0, x + tot'.k)
      ensures Eval(f', x) == Eval(f0, x + tot'.k) + tot'.Multiplier(x + tot'.k) * Eval(g0, x + tot'.k)
    {
      assert Eval(f', x) == Eval(f, x + j) && Eval(g', x) == Eval(g, x + j);
      assert x + j + tot.k == x + tot'.k;
      assert tot'.Multiplier(x + tot'.k) == tot.Multiplier(x + tot'.k);
    }
  }

  lemma CarriedRotate(f0: seq<int>, g0: seq<int>, f: seq<int>, g: seq<int>, tot: Totals, j: int, t: nat)
    requires Carried(f0, g0, f, g, tot) && t <= 2 && t + 1 < |f|
    ensures Carried(f0, g0, Rotated(f, g, j, t), g, tot.Rotated(j, t))
  {
    var f', tot' := Rotated(f, g, j, t), tot.Rotated(j, t);
    assert tot'.k == tot.k;
    forall x: int ensures Eval(f', x) == Eval(f0, x + tot.k) + tot'.Multiplier(x + tot.k) * Eval(g0, x + tot.k)
    {
      RotatedEval(f, g, j, t, x);
      tot.RotatedMultiplier(j, t, x);
      Distribute(tot.Multiplier(x + tot.k), j * Pow(x, t), Eval(g0, x + tot.k));
    }
  }

  lemma Distribute(a: int, b: int, c: int)
    ensures (a + b) * c == a * c + b * c
  {
  }

  /** A common root r of f0 and g0 modulo N becomes the common root r - k. */
  lemma RootCarried(f0: seq<int>, g0: seq<int>, f: seq<int>, g: seq<int>, tot: Totals, r: int, N: int)
    requires Carried(f0, g0, f, g, tot) && Divides(N, Eval(f0, r)) && Divides(N, Eval(g0, r))
    ensures Divides(N, Eval(f, r - tot.k)) && Divides(N, Eval(g, r - tot.k))
  {
    var x := r - tot.k;
    assert x + tot.k == r;
    DividesTimes(N, Eval(g0, r), tot.Multiplier(r));
    DividesPlus(N, Eval(f0, r), tot.Multiplier(r) * Eval(g0, r));
    assert Eval(g, x) == Eval(g0, x + tot.k);
  }

  // ---------- The search ----------

  /** The translation that is left of a try */
  function TriedTranslation(tot: Totals, k: int, better1: bool, better2: bool): Totals {
    if better1 then tot.Translated(k) else if better2 then tot.Translated(-k) else tot
  }

  /** The rotation that is left of a try */
  function TriedRotation(tot: Totals, k: int, t: nat, better1: bool, better2: bool): Totals {
    if better1 then tot.Rotated(k, t) else if better2 then tot.Rotated(-k, t) else tot
  }

  /** Translation by k, then by -k, then back, as the two comparisons of norms decide */
  method TryTranslation(f: array<int>, g: array<int>, k: int, tot0: Totals, better1: bool, better2: bool, ghost f0: seq<int>, ghost g0: seq<int>)
    returns (changed: bool, tot: Totals)
    requires f.Length >= 1 && g.Length == 2 && f != g && Carried(f0, g0, f[..], g[..], tot0)
    modifies f, g
    ensures Carried(f0, g0, f[..], g[..], tot) && (changed <==> better1 || better2)
    ensures tot == TriedTranslation(tot0, k, better1, better2)
    ensures !changed ==> f[..] == old(f[..]) && g[..] == old(g[..])
  {
    hide Carried, IsTranslate;
    ghost var s0, t0 := f[..], g[..];
    NotTranslated(s0);
    NotTranslated(t0);
    tot := TranslateStep(f, g, k, tot0, f0, g0, s0, t0, 0);
    if better1 {
      return true, tot;
    }
    tot := TranslateStep(f, g, -2 * k, tot, f0, g0, s0, t0, k);
    if better2 {
      return true, tot;
    }
    tot := TranslateStep(f, g, k, tot, f0, g0, s0, t0, -k);
    TranslateNone(s0, f[..]);
    TranslateNone(t0, g[..]);
    return false, tot;
  }

  lemma NotTranslated(f: seq<int>)
    ensures IsTranslate(f, f, 0)
  {
  }

  /** f and g are s and t at x + j; they get translated by k more. */
  method TranslateStep(f: array<int>, g: array<int>, k: int, tot0: Totals, ghost f0: seq<int>, ghost g0: seq<int>,
                       ghost s: seq<int>, ghost t: seq<int>, ghost j: int) returns (tot: Totals)
    requires f.Length >= 1 && g.Length == 2 && f != g && Carried(f0, g0, f[..], g[..], tot0)
    requires IsTranslate(s, f[..], j) && IsTranslate(t, g[..], j)
    modifies f, g
    ensures tot == tot0.Translated(k) && Carried(f0, g0, f[..], g[..], tot)
    ensures IsTranslate(s, f[..], j + k) && IsTranslate(t, g[..], j + k)
  {
    hide Carried, IsTranslate;
    ghost var s1, t1 := f[..], g[..];
    Translate(f, g, k);
    CarriedTranslate(f0, g0, s1, t1, f[..], g[..], tot0, k);
    TranslateTwice(s, s1, f[..], j, k);
    TranslateTwice(t, t1, g[..], j, k);
    tot := tot0.Translated(k);
  }

  /** rotate_auxg_z */
  method Rotate(f: array<int>, g: array<int>, k: int, t: nat)
    requires t + 1 < f.Length && g.Length == 2 && f != g
    modifies f
    ensures f[..] == Rotated(old(f[..]), g[..], k, t)
  {
    f[t + 1] := f[t + 1] + g[1] * k;
    f[t] := f[t] + g[0] * k;
  }

  /** Rotation by k x^t g, then by -k x^t g, then back */
  method TryRotation(f: array<int>, g: array<int>, k: int, t: nat, tot0: Totals, better1: bool, better2: bool, ghost f0: seq<int>, ghost g0: seq<int>)
    returns (changed: bool, tot: Totals)
    requires t <= 2 && t + 1 < f.Length && g.Length == 2 && f != g && Carried(f0, g0, f[..], g[..], tot0)
    modifies f
    ensures Carried(f0, g0, f[..], g[..], tot) && (changed <==> better1 || better2)
    ensures tot == TriedRotation(tot0, k, t, better1, better2)
    ensures !changed ==> f[..] == old(f[..])
  {
    hide Carried, Rotated, Totals.Rotated;
    ghost var s, h := f[..], g[..];
    tot := tot0;
    CarriedRotate(f0, g0, f[..], h, tot, k, t);
    Rotate(f, g, k, t);
    tot := tot.Rotated(k, t);
    if better1 {
      return true, tot;
    }
    CarriedRotate(f0, g0, f[..], h, tot, -2 * k, t);
    Rotate(f, g, -2 * k, t);
    tot0.RotatedTwice(k, -2 * k, t);
    RotatedTwice(s, h, k, -2 * k, t);
    tot := tot.Rotated(-2 * k, t);
    if better2 {
      return true, tot;
    }
    CarriedRotate(f0, g0, f[..], h, tot, k, t);
    Rotate(f, g, k, t);
    tot0.RotatedTwice(-k, k, t);
    RotatedTwice(s, h, -k, k, t);
    RotatedNone(s, h, t);
    tot0.RotatedNone(t);
    tot := tot.Rotated(k, t);
    return false, tot;
  }

  /** The next step size: doubled after a success, halved else */
  function NextStep(changed: bool, k: nat): nat {
    if changed then 2 * k else if k > 1 then k / 2 else k
  }

  /** The totals and the four step sizes */
  datatype Search = Search(tot: Totals, kt: nat, k2: nat, k1: nat, k: nat)

  /** Comparisons i and i + 1 of round n: whether a try succeeds */
  predicate Succeeds(better: (nat, nat) -> bool, n: nat, i: nat) {
    better(n, i) || better(n, i + 1)
  }

  /** The same for a try that is only made if allowed */
  predicate Rotates(better: (nat, nat) -> bool, n: nat, i: nat, allowed: bool) {
    allowed && Succeeds(better, n, i)
  }

  /** Round n of the search for degree d, in terms of the answers to its comparisons */
  function Round(s: Search, n: nat, d: nat, useRotation: bool, better: (nat, nat) -> bool): Search {
    var t0 := TriedTranslation(s.tot, s.kt, better(n, 0), better(n, 1));
    var t1 := if d >= 6 && useRotation then TriedRotation(t0, s.k2, 2, better(n, 2), better(n, 3)) else t0;
    var t2 := if useRotation then TriedRotation(t1, s.k1, 1, better(n, 4), better(n, 5)) else t1;
    var t3 := if useRotation then TriedRotation(t2, s.k, 0, better(n, 6), better(n, 7)) else t2;
    Search(t3, NextStep(Succeeds(better, n, 0), s.kt), NextStep(Rotates(better, n, 2, d >= 6 && useRotation), s.k2),
           NextStep(Rotates(better, n, 4, useRotation), s.k1), NextStep(Rotates(better, n, 6, useRotation), s.k))
  }

  function After(n: nat, d: nat, useRotation: bool, better: (nat, nat) -> bool): Search {
    if n == 0 then Search(Totals(0, 0, 0, 0), 1, 1, 1, 1) else Round(After(n - 1, d, useRotation, better), n - 1, d, useRotation, better)
  }

  /** Round n finds nothing, and the steps after it are all 1. */
  predicate Quiet(n: nat, d: nat, useRotation: bool, better: (nat, nat) -> bool) {
    var s := After(n + 1, d, useRotation, better);
    && !Succeeds(better, n, 0) && !Rotates(better, n, 2, d >= 6 && useRotation)
    && !Rotates(better, n, 4, useRotation) && !Rotates(better, n, 6, useRotation)
    && s.kt == 1 && s.k2 == 1 && s.k1 == 1 && s.k == 1
  }

  ghost predicate NoneQuiet(m: nat, d: nat, useRotation: bool, better: (nat, nat) -> bool) {
    forall n: nat :: n < m ==> !Quiet(n, d, useRotation, better)
  }

  // ---------- Laws of the search ----------

  /** The step sizes for translations and for rotations by x^2 g, x g and g */
  function Size(s: Search, c: nat): nat {
    if c == 0 then s.kt else if c == 1 then s.k2 else if c == 2 then s.k1 else s.k
  }

  /** Whether try c is made: translations always, rotations if they are allowed, by x^2 g only from degree 6 on */
  predicate Made(c: nat, d: nat, useRotation: bool) {
    c == 0 || (useRotation && (c == 1 ==> d >= 6))
  }

  /** Try c of round n succeeds: it is made, and one of its two comparisons says so. */
  predicate Succeeded(c: nat, n: nat, d: nat, useRotation: bool, better: (nat, nat) -> bool) {
    Made(c, d, useRotation) && (better(n, 2 * c) || better(n, 2 * c + 1))
  }

  /** A success doubles the step size; a failure halves it, unless it is 1. */
  lemma SizeStep(c: nat, n: nat, d: nat, useRotation: bool, better: (nat, nat) -> bool, e: nat)
    requires c < 4 && Size(After(n, d, useRotation, better), c) == Pow(2, e)
    ensures var e' := if Succeeded(c, n, d, useRotation, better) then e + 1 else if e == 0 then 0 else e - 1;
      Size(After(n + 1, d, useRotation, better), c) == Pow(2, e')
  {
    hide After;
    AfterNext(n, d, useRotation, better);
    PowTwo(e);
  }

  lemma AfterNext(n: nat, d: nat, useRotation: bool, better: (nat, nat) -> bool)
    ensures After(n + 1, d, useRotation, better) == Round(After(n, d, useRotation, better), n, d, useRotation, better)
  {
  }

  lemma PowTwo(e: nat)
    ensures Pow(2, e + 1) == 2 * Pow(2, e) && Pow(2, e) >= 1 && (Pow(2, e) == 1 <==> e == 0)
    ensures e > 0 ==> Pow(2, e) == 2 * Pow(2, e - 1) && Pow(2, e) / 2 == Pow(2, e - 1)
  {
    TwoPositive(e);
    if e > 0 {
      TwoPositive(e - 1);
    }
  }

  lemma {:induction false} TwoPositive(e: nat)
    ensures Pow(2, e) >= 1
    decreases e
  {
    if e > 0 {
      TwoPositive(e - 1);
    }
  }

  /** Every step size is a power of two, at most 2^n after n rounds. */
  lemma {:induction false} PowersOfTwo(c: nat, n: nat, d: nat, useRotation: bool, better: (nat, nat) -> bool) returns (e: nat)
    requires c < 4
    ensures e <= n && Size(After(n, d, useRotation, better), c) == Pow(2, e)
    decreases n
  {
    if n == 0 {
      e := 0;
    } else {
      var e0 := PowersOfTwo(c, n - 1, d, useRotation, better);
      SizeStep(c, n - 1, d, useRotation, better, e0);
      e := if Succeeded(c, n - 1, d, useRotation, better) then e0 + 1 else if e0 == 0 then 0 else e0 - 1;
    }
  }

  /** After n successes in a row the step size is 2^n times as large. */
  lemma {:induction false} Growth(c: nat, m: nat, n: nat, d: nat, useRotation: bool, better: (nat, nat) -> bool, e: nat)
    requires c < 4 && Size(After(m, d, useRotation, better), c) == Pow(2, e)
    requires forall i: nat :: m <= i < m + n ==> Succeeded(c, i, d, useRotation, better)
    ensures Size(After(m + n, d, useRotation, better), c) == Pow(2, e + n)
    decreases n
  {
    hide After, Pow, Succeeded;
    if n > 0 {
      Growth(c, m, n - 1, d, useRotation, better, e);
      SizeStep(c, m + n - 1, d, useRotation, better, e + n - 1);
    }
  }

  /** After n failures in a row a step size of 2^e is 2^(e-n), or 1 if n is larger than e. */
  lemma {:induction false} Decay(c: nat, m: nat, n: nat, d: nat, useRotation: bool, better: (nat, nat) -> bool, e: nat)
    requires c < 4 && Size(After(m, d, useRotation, better), c) == Pow(2, e)
    requires forall i: nat :: m <= i < m + n ==> !Succeeded(c, i, d, useRotation, better)
    ensures Size(After(m + n, d, useRotation, better), c) == Pow(2, if e > n then e - n else 0)
    decreases n
  {
    hide After, Pow, Succeeded;
    if n > 0 {
      Decay(c, m, n - 1, d, useRotation, better, e);
      SizeStep(c, m + n - 1, d, useRotation, better, if e > n - 1 then e - (n - 1) else 0);
    }
  }

  /** The total that try c changes: of translations, and of rotations by x^2 g, x g and g */
  function Part(t: Totals, c: nat): int {
    if c == 0 then t.k else if c == 1 then t.khi else if c == 2 then t.lam else t.mu
  }

  /** The first comparison of try c says better, or the first one does not and the second one does. */
  predicate Chosen(c: nat, n: nat, first: bool, better: (nat, nat) -> bool) {
    if first then better(n, 2 * c) else !better(n, 2 * c) && better(n, 2 * c + 1)
  }

  /** No rotation by a higher power of x succeeds in round n. */
  predicate NoneHigher(c: nat, n: nat, d: nat, useRotation: bool, better: (nat, nat) -> bool) {
    forall b: nat :: 1 <= b < c ==> !Succeeded(b, n, d, useRotation, better)
  }

  lemma PartStep(c: nat, n: nat, d: nat, useRotation: bool, better: (nat, nat) -> bool, first: bool)
    requires c < 4 && Made(c, d, useRotation) && Chosen(c, n, first, better) && NoneHigher(c, n, d, useRotation, better)
    ensures var s, s' := After(n, d, useRotation, better), After(n + 1, d, useRotation, better);
      if first then Part(s'.tot, c) == Part(s.tot, c) + Size(s, c) else Part(s'.tot, c) == Part(s.tot, c) - Size(s, c)
  {
    hide After;
    AfterNext(n, d, useRotation, better);
    if c >= 2 {
      assert !Succeeded(1, n, d, useRotation, better);
    }
    if c >= 3 {
      assert !Succeeded(2, n, d, useRotation, better);
    }
  }

  /** n first comparisons accepted in a row add 2^e (2^n - 1) to the total; n second ones subtract it. */
  lemma {:induction false} Progress(c: nat, m: nat, n: nat, d: nat, useRotation: bool, better: (nat, nat) -> bool, e: nat, first: bool)
    requires c < 4 && Made(c, d, useRotation) && Size(After(m, d, useRotation, better), c) == Pow(2, e)
    requires forall i: nat :: m <= i < m + n ==> Chosen(c, i, first, better) && NoneHigher(c, i, d, useRotation, better)
    ensures var s, s' := After(m, d, useRotation, better), After(m + n, d, useRotation, better);
      && Size(s', c) == Pow(2, e + n)
      && Part(s'.tot, c) == Part(s.tot, c) + if first then Pow(2, e + n) - Pow(2, e) else Pow(2, e) - Pow(2, e + n)
    decreases n
  {
    hide After, Pow, NoneHigher, Chosen;
    if n > 0 {
      Progress(c, m, n - 1, d, useRotation, better, e, first);
      PartStep(c, m + n - 1, d, useRotation, better, first);
      ChosenSucceeds(c, m + n - 1, d, useRotation, better, first);
      SizeStep(c, m + n - 1, d, useRotation, better, e + n - 1);
      PowTwo(e + n - 1);
    }
  }

  lemma ChosenSucceeds(c: nat, n: nat, d: nat, useRotation: bool, better: (nat, nat) -> bool, first: bool)
    requires Made(c, d, useRotation) && Chosen(c, n, first, better)
    ensures Succeeded(c, n, d, useRotation, better)
  {
  }

  /** From the start, n first comparisons accepted in a row bring the total to 2^n - 1. */
  lemma FromTheStart(c: nat, n: nat, d: nat, useRotation: bool, better: (nat, nat) -> bool)
    requires c < 4 && Made(c, d, useRotation)
    requires forall i: nat :: i < n ==> Chosen(c, i, true, better) && NoneHigher(c, i, d, useRotation, better)
    ensures var s := After(n, d, useRotation, better); Part(s.tot, c) == Pow(2, n) - 1 && Size(s, c) == Pow(2, n)
  {
    hide NoneHigher, Chosen;
    assert Pow(2, 0) == 1;
    Progress(c, 0, n, d, useRotation, better, 0, true);
  }

  /** A try that fails leaves its total as it was. */
  lemma PartStays(c: nat, n: nat, d: nat, useRotation: bool, better: (nat, nat) -> bool)
    requires c < 4 && !Succeeded(c, n, d, useRotation, better) && NoneHigher(c, n, d, useRotation, better)
    ensures Part(After(n + 1, d, useRotation, better).tot, c) == Part(After(n, d, useRotation, better).tot, c)
  {
    hide After;
    AfterNext(n, d, useRotation, better);
    if c >= 2 {
      assert !Succeeded(1, n, d, useRotation, better);
    }
    if c >= 3 {
      assert !Succeeded(2, n, d, useRotation, better);
    }
  }

  /** The search goes on as long as a try succeeds. */
  lemma NotQuiet(c: nat, n: nat, d: nat, useRotation: bool, better: (nat, nat) -> bool)
    requires c < 4 && Succeeded(c, n, d, useRotation, better)
    ensures !Quiet(n, d, useRotation, better)
  {
  }

  /** optimize_aux. better(n, i) answers comparison i of norms in round n; whatever it says, the totals describe
      the current polynomials. The search ends after the first quiet round, or after 10002 rounds. */
  method OptimizeAux(f: array<int>, g: array<int>, useRotation: bool, better: (nat, nat) -> bool) returns (tot: Totals, ghost rounds: nat)
    requires f.Length >= 1 && (useRotation ==> f.Length >= 3) && g.Length == 2 && f != g
    modifies f, g
    ensures Carried(old(f[..]), old(g[..]), f[..], g[..], tot)
    ensures 1 <= rounds <= 10002 && tot == After(rounds, f.Length - 1, useRotation, better).tot
    ensures rounds == 10002 || Quiet(rounds - 1, f.Length - 1, useRotation, better)
    ensures NoneQuiet(rounds - 1, f.Length - 1, useRotation, better)
  {
    hide Carried, TriedTranslation, TriedRotation;
    ghost var f0, g0 := f[..], g[..];
    var d := f.Length - 1;
    tot := Totals(0, 0, 0, 0);
    CarriedStart(f0, g0);
    var kt, k2, k1, k := 1, 1, 1, 1;
    var count := 0;
    while true
      invariant Carried(f0, g0, f[..], g[..], tot) && 0 <= count <= 10001
      invariant After(count, d, useRotation, better) == Search(tot, kt, k2, k1, k)
      invariant NoneQuiet(count, d, useRotation, better)
      decreases 10002 - count
    {
      var changedt, changed2, changed1, changed := false, false, false, false;
      changedt, tot := TryTranslation(f, g, kt, tot, better(count, 0), better(count, 1), f0, g0);
      if d >= 6 && useRotation {
        changed2, tot := TryRotation(f, g, k2, 2, tot, better(count, 2), better(count, 3), f0, g0);
      }
      if useRotation {
        changed1, tot := TryRotation(f, g, k1, 1, tot, better(count, 4), better(count, 5), f0, g0);
        changed, tot := TryRotation(f, g, k, 0, tot, better(count, 6), better(count, 7), f0, g0);
      }
      kt, k, k2, k1 := NextStep(changedt, kt), NextStep(changed, k), NextStep(changed2, k2), NextStep(changed1, k1);
      rounds := count + 1;
      if !changedt && !changed && !changed2 && !changed1 && kt == 1 && k == 1 && k2 == 1 && k1 == 1 {
        break;
      }
      count := count + 1;
      if count - 1 > 10000 {
        break;
      }
    }
  }
}
