/** Polynomials with integer coefficients, lowest degree first. */
module IntPoly {
  import opened Congruence

  function Eval(f: seq<int>, x: int): int {
    if f == [] then 0 else f[0] + x * Eval(f[1..], x)
  }

  lemma ShortEval(f: seq<int>, x: int)
    requires |f| <= 1
    ensures Eval(f, x) == if f == [] then 0 else f[0]
  {
    if f != [] {
      assert Eval(f[1..], x) == 0;
    }
  }

  lemma EvalSplit(c: int, g: seq<int>, x: int)
    ensures Eval([c] + g, x) == c + x * Eval(g, x)
  {
    assert ([c] + g)[1..] == g;
  }

  /** Polynomials of the same length that agree at every x other than 0 are equal. */
  lemma {:induction false} SamePolynomial(f: seq<int>, h: seq<int>)
    requires |f| == |h| && forall x: int :: x != 0 ==> Eval(f, x) == Eval(h, x)
    ensures f == h
    decreases |f|
  {
    if f != [] {
      var c := f[0] - h[0];
      var y := (if c < 0 then -c else c) + 1;
      assert Eval(f, y) == Eval(h, y);
      NoMultiple(c, y, Eval(h[1..], y) - Eval(f[1..], y));
      forall x: int | x != 0 ensures Eval(f[1..], x) == Eval(h[1..], x) {
        assert Eval(f, x) == Eval(h, x);
        CancelNonZero(x, Eval(f[1..], x), Eval(h[1..], x));
      }
      SamePolynomial(f[1..], h[1..]);
      assert f == [f[0]] + f[1..] && h == [h[0]] + h[1..];
    }
  }

  lemma NoMultiple(c: int, y: int, k: int)
    requires c == y * k && -y < c < y
    ensures c == 0
  {
    DividesBy(y, c, k);
    SmallMultiple(y, c);
  }

  lemma CancelNonZero(x: int, a: int, b: int)
    requires x != 0 && x * a == x * b
    ensures a == b
  {
    assert x * (a - b) == 0;
  }
}
