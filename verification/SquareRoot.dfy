/** Powers modulo a prime: Fermat, roots of polynomials, and the existence of non-residues. */
module Residues {
  import opened Congruence
  import opened IntPoly

  // ---------- Fermat ----------

  ghost function Product(s: set<nat>): int {
    if s == {} then 1 else
      var x :| x in s;
      x * Product(s - {x})
  }

  lemma {:induction false} ProductRemove(s: set<nat>, x: nat)
    requires x in s
    ensures Product(s) == x * Product(s - {x})
    decreases |s|
  {
    var y :| y in s && Product(s) == y * Product(s - {y});
    if y != x {
      ProductRemove(s - {y}, x);
      ProductRemove(s - {x}, y);
      assert s - {y} - {x} == s - {x} - {y};
      var r := Product(s - {x} - {y});
      assert y * (x * r) == x * (y * r);
    }
  }

  ghost function Units(p: int): (r: set<nat>)
    ensures forall x: nat :: x in r <==> 1 <= x < p
    decreases if p > 1 then p else 0
  {
    if p <= 1 then {} else Units(p - 1) + {p - 1}
  }

  lemma {:induction false} UnitsCount(p: int)
    requires p >= 1
    ensures |Units(p)| == p - 1
    decreases p
  {
    if p > 1 {
      UnitsCount(p - 1);
    }
  }

  function Residue(z: int, x: int, p: int): nat
    requires p > 0
  {
    (z * x) % p
  }

  /** The residues of z x for the x in s */
  ghost function Multiples(z: int, p: int, s: set<nat>): set<nat>
    requires p > 0
  {
    set x | x in s :: Residue(z, x, p)
  }

  lemma MultipleInjective(z: int, p: int, x: nat, y: nat)
    requires Coprime(z, p) && x in Units(p) && y in Units(p) && (z * x) % p == (z * y) % p
    ensures x == y
  {
    CongMod(z * x, p);
    CongMod(z * y, p);
    CongTrans(z * x, (z * x) % p, z * y, p);
    CongCancel(z, x, y, p);
    CongResidues(x, y, p);
  }

  lemma {:induction false} MultiplesProduct(z: int, p: int, s: set<nat>)
    requires p > 0 && Coprime(z, p) && s <= Units(p)
    ensures Cong(Product(Multiples(z, p, s)), Pow(z, |s|) * Product(s), p) && |Multiples(z, p, s)| == |s|
    decreases |s|
  {
    if s == {} {
      assert Multiples(z, p, s) == {};
      CongSame(1, p);
    } else {
      var x :| x in s;
      MultiplesProduct(z, p, s - {x});
      NextMultiple(z, p, s, x);
    }
  }

  lemma NextMultiple(z: int, p: int, s: set<nat>, x: nat)
    requires p > 0 && Coprime(z, p) && s <= Units(p) && x in s
    requires Cong(Product(Multiples(z, p, s - {x})), Pow(z, |s| - 1) * Product(s - {x}), p)
    requires |Multiples(z, p, s - {x})| == |s| - 1
    ensures Cong(Product(Multiples(z, p, s)), Pow(z, |s|) * Product(s), p) && |Multiples(z, p, s)| == |s|
  {
    hide Cong, Coprime;
    var m, m', y := Multiples(z, p, s), Multiples(z, p, s - {x}), Residue(z, x, p);
    MultiplesSplit(z, p, s, x);
    ProductRemove(m, y);
    ProductRemove(s, x);
    CongMod(z * x, p);
    var a, b := Pow(z, |s| - 1), Product(s - {x});
    CongTimes(y, z * x, Product(m'), a * b, p);
    SwapFactors(z, x, a, b);
  }

  lemma MultiplesSplit(z: int, p: int, s: set<nat>, x: nat)
    requires p > 0 && Coprime(z, p) && s <= Units(p) && x in s
    ensures var m, m', y := Multiples(z, p, s), Multiples(z, p, s - {x}), Residue(z, x, p);
      y in m && y !in m' && m - {y} == m' && |m| == |m'| + 1
  {
    hide Coprime;
    var m, m', y := Multiples(z, p, s), Multiples(z, p, s - {x}), Residue(z, x, p);
    if y in m' {
      var x' :| x' in s - {x} && Residue(z, x', p) == y;
      MultipleInjective(z, p, x, x');
    }
    assert s == s - {x} + {x};
    assert m == m' + {y};
  }

  lemma MultipleUnit(z: int, p: int, x: nat)
    requires p > 1 && Coprime(z, p) && x in Units(p)
    ensures Residue(z, x, p) in Units(p)
  {
    if (z * x) % p == 0 {
      DividesMod(p, z * x);
      Cancel(z, x, p);
      SmallMultiple(p, x);
    }
  }

  lemma SameSize(s: set<nat>, t: set<nat>)
    requires s <= t && |s| == |t|
    ensures s == t
  {
    assert t == s + (t - s);
  }

  lemma {:induction false} UnitsProduct(p: int, s: set<nat>)
    requires Prime(p) && s <= Units(p)
    ensures Coprime(Product(s), p)
    decreases |s|
  {
    if s == {} {
      CoprimeOne(p);
    } else {
      var x :| x in s;
      UnitsProduct(p, s - {x});
      UnitCoprime(p, x);
      CoprimeProduct(x, Product(s - {x}), p);
      ProductRemove(s, x);
    }
  }

  lemma UnitCoprime(p: int, x: nat)
    requires Prime(p) && x in Units(p)
    ensures Coprime(x, p)
  {
    if Divides(p, x) {
      SmallMultiple(p, x);
    } else {
      PrimeCoprime(p, x);
    }
  }

  /** z^(p-1) = 1 modulo a prime p that does not divide z. */
  lemma Fermat(z: int, p: int)
    requires Prime(p) && Coprime(z, p)
    ensures Cong(Pow(z, p - 1), 1, p)
  {
    hide Cong, Coprime, Units, Multiples, Pow, Product;
    var s := Units(p);
    UnitsCount(p);
    MultiplesProduct(z, p, s);
    MultiplesOfUnits(z, p);
    SameSize(Multiples(z, p, s), s);
    UnitsProduct(p, s);
    CancelProduct(Product(s), Pow(z, p - 1), p);
  }

  lemma CancelProduct(P: int, w: int, p: int)
    requires Coprime(P, p) && Cong(P, w * P, p)
    ensures Cong(w, 1, p)
  {
    hide Cong, Coprime;
    assert w * P == P * w && P == P * 1;
    CongSwap(P, w * P, p);
    CongCancel(P, w, 1, p);
  }

  lemma MultiplesOfUnits(z: int, p: int)
    requires p > 1 && Coprime(z, p)
    ensures Multiples(z, p, Units(p)) <= Units(p)
  {
    hide Coprime;
    forall x | x in Units(p) ensures Residue(z, x, p) in Units(p) {
      MultipleUnit(z, p, x);
    }
  }

  // ---------- A polynomial has no more roots than its degree ----------

  /** (f(x) - f(r)) / (x - r) */
  function Quotient(f: seq<int>, r: int): (g: seq<int>)
    ensures |g| == if |f| <= 1 then 0 else |f| - 1
  {
    if |f| <= 1 then [] else [Eval(f[1..], r)] + Quotient(f[1..], r)
  }

  lemma {:induction false} QuotientEval(f: seq<int>, r: int, x: int)
    ensures Eval(f, x) - Eval(f, r) == (x - r) * Eval(Quotient(f, r), x)
    decreases |f|
  {
    hide Eval;
    if |f| <= 1 {
      ShortEval(f, x);
      ShortEval(f, r);
      ShortEval([], x);
    } else {
      var g := f[1..];
      QuotientEval(g, r, x);
      EvalSplit(f[0], g, x);
      EvalSplit(f[0], g, r);
      EvalSplit(Eval(g, r), Quotient(g, r), x);
      assert f == [f[0]] + g;
      QuotientArith(x, r, Eval(g, x), Eval(g, r), Eval(Quotient(g, r), x));
    }
  }

  lemma QuotientArith(x: int, r: int, fx: int, fr: int, g: int)
    requires fx - fr == (x - r) * g
    ensures x * fx - r * fr == (x - r) * (fr + x * g)
  {
    assert x * (fx - fr) == x * ((x - r) * g) == (x - r) * (x * g);
  }

  lemma {:induction false} QuotientLeads(f: seq<int>, r: int)
    requires |f| >= 2
    ensures Quotient(f, r)[|f| - 2] == f[|f| - 1]
    decreases |f|
  {
    if |f| > 2 {
      QuotientLeads(f[1..], r);
    } else {
      assert Eval(f[1..][1..], r) == 0;
    }
  }

  lemma {:induction false} RootBound(f: seq<int>, p: int, roots: set<nat>)
    requires Prime(p) && |f| >= 1 && !Divides(p, f[|f| - 1]) && roots <= Units(p)
    requires forall r :: r in roots ==> Divides(p, Eval(f, r))
    ensures |roots| <= |f| - 1
    decreases |f|
  {
    if roots != {} {
      var r :| r in roots;
      ConstantEval(f, r);
      if |f| > 1 {
        var g := Quotient(f, r);
        QuotientLeads(f, r);
        forall x | x in roots - {r} ensures Divides(p, Eval(g, x)) {
          OtherRoot(f, p, r, x);
        }
        RootBound(g, p, roots - {r});
      }
    }
  }

  lemma ConstantEval(f: seq<int>, x: int)
    requires |f| >= 1
    ensures |f| == 1 ==> Eval(f, x) == f[|f| - 1]
  {
    if |f| == 1 {
      assert Eval(f[1..], x) == 0;
    }
  }

  lemma OtherRoot(f: seq<int>, p: int, r: nat, x: nat)
    requires Prime(p) && r in Units(p) && x in Units(p) && r != x && Divides(p, Eval(f, r)) && Divides(p, Eval(f, x))
    ensures Divides(p, Eval(Quotient(f, r), x))
  {
    QuotientEval(f, r, x);
    DividesPlus(p, Eval(f, x), Eval(f, r));
    PrimeDivides(p, x - r, Eval(Quotient(f, r), x));
    if Divides(p, x - r) {
      SmallMultiple(p, x - r);
    }
  }

  function Monomial(n: nat): seq<int> {
    if n == 0 then [1] else [0] + Monomial(n - 1)
  }

  lemma {:induction false} MonomialEval(n: nat, x: int)
    ensures |Monomial(n)| == n + 1 && Monomial(n)[n] == 1 && Eval(Monomial(n), x) == Pow(x, n)
    decreases n
  {
    if n > 0 {
      MonomialEval(n - 1, x);
      assert Monomial(n)[1..] == Monomial(n - 1);
    } else {
      assert Eval(Monomial(0)[1..], x) == 0;
    }
  }

  /** x^h - 1, for h > 0 */
  function PowerMinusOne(h: nat): seq<int>
    requires h > 0
  {
    [-1] + Monomial(h - 1)
  }

  lemma PowerMinusOneEval(h: nat, x: int)
    requires h > 0
    ensures |PowerMinusOne(h)| == h + 1 && PowerMinusOne(h)[h] == 1 && Eval(PowerMinusOne(h), x) == Pow(x, h) - 1
  {
    MonomialEval(h - 1, x);
    assert PowerMinusOne(h)[1..] == Monomial(h - 1);
  }

  // ---------- Euler's criterion ----------

  lemma Half(p: int)
    requires p > 2 && Prime(p)
    ensures p % 2 == 1 && (p - 1) / 2 * 2 == p - 1
  {
  }

  /** x^2 = 1 only for 1 and -1. */
  lemma RootsOfOne(y: int, p: int)
    requires Prime(p) && Cong(y * y, 1, p)
    ensures Cong(y, 1, p) || Cong(y, -1, p)
  {
    assert y * y - 1 == (y - 1) * (y + 1);
    PrimeDivides(p, y - 1, y + 1);
  }

  lemma PowDouble(x: int, n: nat)
    ensures Pow(x, 2 * n) == Pow(x, n) * Pow(x, n)
  {
    PowPlus(x, n, n);
  }

  lemma EulerSign(x: int, p: int)
    requires Prime(p) && p > 2 && Coprime(x, p)
    ensures Cong(Pow(x, (p - 1) / 2), 1, p) || Cong(Pow(x, (p - 1) / 2), -1, p)
  {
    Half(p);
    Fermat(x, p);
    PowDouble(x, (p - 1) / 2);
    RootsOfOne(Pow(x, (p - 1) / 2), p);
  }

  /** N is a square modulo p, and not 0. */
  ghost predicate QuadraticResidue(N: int, p: int) {
    Coprime(N, p) && exists x: int :: Cong(Scale(x, x), N, p)
  }

  lemma EulerResidue(N: int, p: int)
    requires Prime(p) && p > 2 && QuadraticResidue(N, p)
    ensures Cong(Pow(N, (p - 1) / 2), 1, p)
  {
    var x: int :| Cong(Scale(x, x), N, p);
    var h := (p - 1) / 2;
    Half(p);
    CongSwap(x * x, N, p);
    CoprimeCong(N, x * x, p);
    SquareCoprime(x, p);
    Fermat(x, p);
    PowOfProduct(x, x, h);
    PowDouble(x, h);
    CongPow(N, x * x, h, p);
    CongTrans(Pow(N, h), Pow(x * x, h), 1, p);
  }

  lemma SquareCoprime(x: int, p: int)
    requires Coprime(x * x, p)
    ensures Coprime(x, p)
  {
    var u, v := Bezout(x * x, p);
    assert u * (x * x) == (u * x) * x;
    CoprimeBy(x, p, u * x, v);
  }

  /** Some number below p is not a square modulo p. */
  lemma NonResidueExists(p: int) returns (z: nat)
    requires Prime(p) && p > 2
    ensures 1 <= z < p && Cong(Pow(z, (p - 1) / 2), -1, p)
  {
    NotAllOne(p);
    z :| z in Units(p) && !Cong(Pow(z, (p - 1) / 2), 1, p);
    UnitCoprime(p, z);
    EulerSign(z, p);
  }

  lemma NotAllOne(p: int)
    requires Prime(p) && p > 2
    ensures exists x: nat :: x in Units(p) && !Cong(Pow(x, (p - 1) / 2), 1, p)
  {
    var h := (p - 1) / 2;
    UnitsCount(p);
    PowerMinusOneEval(h, 0);
    OneNotDivided(p);
    if forall x: nat :: x in Units(p) ==> Cong(Pow(x, h), 1, p) {
      forall x: nat | x in Units(p) ensures Divides(p, Eval(PowerMinusOne(h), x)) {
        PowerMinusOneEval(h, x);
      }
      RootBound(PowerMinusOne(h), p, Units(p));
    }
  }

  lemma OneNotDivided(p: int)
    requires p > 1
    ensures !Divides(p, 1)
  {
    DividesMod(p, 1);
  }
}

/** polyselect/twoquadratics.c, modular_square_root: the algorithm of Tonelli and Shanks. */
module ModularSquareRoot {
  import opened Congruence
  import opened Residues

  /** x squared k times */
  function Squared(x: int, k: nat): int {
    if k == 0 then x else Squared(x, k - 1) * Squared(x, k - 1)
  }

  /** q doubled k times */
  function Doubled(q: nat, k: nat): nat {
    if k == 0 then q else 2 * Doubled(q, k - 1)
  }

  lemma {:induction false} SquaredPow(z: int, q: nat, k: nat)
    ensures Squared(Pow(z, q), k) == Pow(z, Doubled(q, k))
    decreases k
  {
    if k > 0 {
      SquaredPow(z, q, k - 1);
      PowDouble(z, Doubled(q, k - 1));
    }
  }

  lemma {:induction false} SquaredSquared(x: int, j: nat, k: nat)
    ensures Squared(Squared(x, j), k) == Squared(x, j + k)
    decreases k
  {
    if k > 0 {
      SquaredSquared(x, j, k - 1);
    }
  }

  lemma {:induction false} SquaredProduct(x: int, y: int, k: nat)
    ensures Squared(x * y, k) == Squared(x, k) * Squared(y, k)
    decreases k
  {
    if k > 0 {
      SquaredProduct(x, y, k - 1);
      SwapFactors(Squared(x, k - 1), Squared(y, k - 1), Squared(x, k - 1), Squared(y, k - 1));
    }
  }

  lemma {:induction false} CongSquared(x: int, y: int, k: nat, p: int)
    requires Cong(x, y, p)
    ensures Cong(Squared(x, k), Squared(y, k), p)
    decreases k
  {
    if k > 0 {
      CongSquared(x, y, k - 1, p);
      CongTimes(Squared(x, k - 1), Squared(y, k - 1), Squared(x, k - 1), Squared(y, k - 1), p);
    }
  }

  /** R^2 = n t, t^(2^(M-1)) = 1 and c^(2^(M-1)) = -1 */
  ghost predicate State(n: int, R: int, t: int, c: int, M: nat, p: int) {
    && M >= 1 && 0 <= R < p && 0 <= t < p
    && Cong(R * R, n * t, p) && Cong(Squared(t, M - 1), 1, p) && Cong(Squared(c, M - 1), -1, p)
  }

  lemma ResidueIsOne(t: int, p: int)
    requires p > 1 && 0 <= t < p && Cong(t, 1, p)
    ensures t == 1
  {
    CongResidues(t, 1, p);
  }

  lemma SquareNext(t: int, t0: int, i: nat, p: int)
    requires p > 0 && Cong(t, Squared(t0, i), p)
    ensures Cong((t * t) % p, Squared(t0, i + 1), p) && 0 <= (t * t) % p < p
  {
    hide Cong;
    CongTimes(t, Squared(t0, i), t, Squared(t0, i), p);
    CongMod(t * t, p);
    CongTrans((t * t) % p, t * t, Squared(t0, i + 1), p);
  }

  /** t^(2^i) = 1, and no smaller power of this kind is 1. */
  ghost predicate IsOrder(t: int, i: nat, p: int) {
    i >= 1 && Cong(Squared(t, i), 1, p) && !Cong(Squared(t, i - 1), 1, p)
  }

  lemma {:induction false} StaysOne(t: int, i: nat, j: nat, p: int)
    requires Cong(Squared(t, i), 1, p) && i <= j
    ensures Cong(Squared(t, j), 1, p)
    decreases j
  {
    if i < j {
      StaysOne(t, i, j - 1, p);
      CongTimes(Squared(t, j - 1), 1, Squared(t, j - 1), 1, p);
    }
  }

  lemma OrderUnique(t: int, i: nat, j: nat, p: int)
    requires IsOrder(t, i, p) && IsOrder(t, j, p)
    ensures i == j
  {
    hide Cong;
    if i < j {
      StaysOne(t, i, j - 1, p);
    } else if j < i {
      StaysOne(t, j, i - 1, p);
    }
  }

  /** The least i with t^(2^i) = 1; it is below M. */
  method OrderExponent(t0: int, M: nat, p: int) returns (i: nat)
    requires p > 1 && M >= 1 && 0 <= t0 < p && t0 != 1 && Cong(Squared(t0, M - 1), 1, p)
    ensures i < M && IsOrder(t0, i, p)
  {
    hide Cong, Squared;
    var t := t0;
    i := 0;
    NoSquares(t0, p);
    while t != 1
      invariant i <= M - 1 && 0 <= t < p && Cong(t, Squared(t0, i), p)
      invariant i > 0 ==> !Cong(Squared(t0, i - 1), 1, p)
      invariant i == 0 ==> t == t0
      decreases M - i
    {
      NotYetOne(t, t0, i, M, p);
      SquareNext(t, t0, i, p);
      t := t * t;
      t := t % p;
      i := i + 1;
    }
    CongSwap(1, Squared(t0, i), p);
  }

  lemma NoSquares(t0: int, p: int)
    ensures Cong(t0, Squared(t0, 0), p)
  {
    CongSame(t0, p);
  }

  lemma NotYetOne(t: int, t0: int, i: nat, M: nat, p: int)
    requires p > 1 && i <= M - 1 && 0 <= t < p && t != 1 && Cong(t, Squared(t0, i), p) && Cong(Squared(t0, M - 1), 1, p)
    ensures i < M - 1 && !Cong(Squared(t0, i), 1, p)
  {
    hide Cong, Squared;
    if Cong(Squared(t0, i), 1, p) {
      CongTrans(t, Squared(t0, i), 1, p);
      ResidueIsOne(t, p);
    }
  }

  method RepeatedSquare(c: int, k: nat, p: int) returns (b: int)
    requires p > 0 && 0 <= c < p
    ensures Cong(b, Squared(c, k), p) && b == Squared(c, k) % p
  {
    hide Cong, Squared;
    b := c;
    NoSquares(c, p);
    var j := 0;
    while j < k
      invariant j <= k && Cong(b, Squared(c, j), p) && 0 <= b < p
    {
      SquareNext(b, c, j, p);
      b := b * b;
      b := b % p;
      j := j + 1;
    }
    CongMod(Squared(c, k), p);
    CongTrans(b, Squared(c, k), Squared(c, k) % p, p);
    CongResidues(b, Squared(c, k) % p, p);
  }

  /** One round: the order of t goes down. */
  lemma Round(n: int, R: int, t: int, c: int, M: nat, p: int, i: nat, b: int)
    requires Prime(p) && State(n, R, t, c, M, p) && 1 <= i < M && Cong(b, Squared(c, M - i - 1), p)
    requires Cong(Squared(t, i), 1, p) && !Cong(Squared(t, i - 1), 1, p)
    ensures State(n, (R * b) % p, (t * ((b * b) % p)) % p, (b * b) % p, i, p)
  {
    hide Cong, Squared, Prime;
    var c' := (b * b) % p;
    var t', R' := (t * c') % p, (R * b) % p;
    NewC(c, M, p, i, b);
    NewT(t, c', i, p);
    NewR(n, R, t, b, p);
  }

  lemma NewC(c: int, M: nat, p: int, i: nat, b: int)
    requires p > 0 && 1 <= i < M && Cong(b, Squared(c, M - i - 1), p) && Cong(Squared(c, M - 1), -1, p)
    ensures Cong(Squared((b * b) % p, i - 1), -1, p)
  {
    hide Cong;
    SquareNext(b, c, M - i - 1, p);
    var c' := (b * b) % p;
    CongSquared(c', Squared(c, M - i), i - 1, p);
    SquaredSquared(c, M - i, i - 1);
    CongTrans(Squared(c', i - 1), Squared(c, M - 1), -1, p);
  }

  lemma NewT(t: int, c': int, i: nat, p: int)
    requires Prime(p) && i >= 1 && Cong(Squared(t, i), 1, p) && !Cong(Squared(t, i - 1), 1, p) && Cong(Squared(c', i - 1), -1, p)
    ensures Cong(Squared((t * c') % p, i - 1), 1, p)
  {
    hide Cong, Prime;
    PrimePositive(p);
    RootsOfOne(Squared(t, i - 1), p);
    CongTimes(Squared(t, i - 1), -1, Squared(c', i - 1), -1, p);
    SquaredProduct(t, c', i - 1);
    CongMod(t * c', p);
    CongSquared((t * c') % p, t * c', i - 1, p);
    CongTrans(Squared((t * c') % p, i - 1), Squared(t * c', i - 1), 1, p);
  }

  lemma PrimePositive(p: int)
    requires Prime(p)
    ensures p > 1
  {
  }

  lemma NewR(n: int, R: int, t: int, b: int, p: int)
    requires p > 0 && Cong(R * R, n * t, p)
    ensures var R', t' := (R * b) % p, (t * ((b * b) % p)) % p; Cong(R' * R', n * t', p)
  {
    hide Cong;
    var c' := (b * b) % p;
    var R', t' := (R * b) % p, (t * c') % p;
    CongMod(R * b, p);
    CongTimes(R', R * b, R', R * b, p);
    CongMod(b * b, p);
    CongTimes(R * R, n * t, b * b, c', p);
    SwapFactors(R, b, R, b);
    CongTrans(R' * R', (R * R) * (b * b), (n * t) * c', p);
    CongMod(t * c', p);
    CongSame(n, p);
    CongTimes(n, n, t * c', t', p);
    assert (n * t) * c' == n * (t * c');
    CongTrans(R' * R', n * (t * c'), n * t', p);
  }

  /** mpz_legendre, by Euler's criterion */
  function Legendre(z: int, p: int): int
    requires p > 2
  {
    var e := Pow(z, (p - 1) / 2) % p;
    if e == 1 then 1 else if e == p - 1 then -1 else 0
  }

  lemma LegendreMinus(z: int, p: int)
    requires p > 2
    ensures Legendre(z, p) == -1 <==> Cong(Pow(z, (p - 1) / 2), -1, p)
  {
    var w := Pow(z, (p - 1) / 2);
    CongMod(w, p);
    DividesBy(p, p - 1 - -1, 1);
    if w % p == p - 1 {
      CongTrans(w, p - 1, -1, p);
    }
    if Cong(w, -1, p) {
      CongTrans(w % p, w, -1, p);
      CongSwap(p - 1, -1, p);
      CongTrans(w % p, -1, p - 1, p);
      CongResidues(w % p, p - 1, p);
    }
  }

  /** No number from 2 to z - 1 is a non-residue, but z is. */
  ghost predicate IsLeastNonResidue(z: nat, p: int)
    requires p > 2
  {
    z >= 2 && Legendre(z, p) == -1 && forall y: nat :: 2 <= y < z ==> Legendre(y, p) != -1
  }

  /** The first z >= 2 that is not a square modulo p */
  method FindNonResidue(p: int) returns (z: nat)
    requires Prime(p) && p > 2
    ensures Cong(Pow(z, (p - 1) / 2), -1, p) && IsLeastNonResidue(z, p)
  {
    ghost var w := NonResidueExists(p);
    OneIsSquare(p);
    z := 2;
    LegendreMinus(w, p);
    while Legendre(z, p) != -1
      invariant 2 <= z <= w && forall y: nat :: 2 <= y < z ==> Legendre(y, p) != -1
      decreases w - z
    {
      z := z + 1;
    }
    LegendreMinus(z, p);
  }

  lemma OneIsSquare(p: int)
    requires p > 2
    ensures !Cong(Pow(1, (p - 1) / 2), -1, p)
  {
    PowOne((p - 1) / 2);
    if Cong(1, -1, p) {
      SmallMultiple(p, 2);
    }
  }

  /** n = OddPart(n) 2^Twos(n) */
  function OddPart(n: nat): nat {
    if n == 0 || n % 2 == 1 then n else OddPart(n / 2)
  }

  function Twos(n: nat): nat {
    if n == 0 || n % 2 == 1 then 0 else 1 + Twos(n / 2)
  }

  /** One factor 2 moves from q to the power. */
  lemma PartsStep(q: nat, k: nat)
    requires q >= 1 && q % 2 == 0
    ensures OddPart(q / 2) == OddPart(q) && Twos(q) == 1 + Twos(q / 2) && Doubled(q / 2, k + 1) == Doubled(q, k)
  {
    hide Doubled;
    DoubledHalf(q, k);
  }

  lemma PartsEnd(q: nat)
    requires q % 2 == 1
    ensures OddPart(q) == q && Twos(q) == 0
  {
  }

  lemma NoneDoubled(q: nat)
    ensures Doubled(q, 0) == q
  {
  }

  /** p - 1 = Q 2^S with Q odd */
  method SplitPower(p: int) returns (Q: nat, S: nat)
    requires p > 2 && p % 2 == 1
    ensures Q % 2 == 1 && S >= 1 && Doubled(Q, S) == p - 1 && Q == OddPart(p - 1) && S == Twos(p - 1)
  {
    hide OddPart, Twos, Doubled;
    Q, S := p - 1, 0;
    NoneDoubled(Q);
    while Q % 2 == 0
      invariant Q >= 1 && Doubled(Q, S) == p - 1 && (S == 0 ==> Q == p - 1)
      invariant OddPart(Q) == OddPart(p - 1) && S + Twos(Q) == Twos(p - 1)
      decreases Q
    {
      PartsStep(Q, S);
      S := S + 1;
      Q := Q / 2;
    }
    PartsEnd(Q);
  }

  lemma {:induction false} DoubledHalf(q: nat, k: nat)
    requires q % 2 == 0
    ensures Doubled(q / 2, k + 1) == Doubled(q, k)
    decreases k
  {
    if k > 0 {
      DoubledHalf(q, k - 1);
    }
  }

  lemma Start(n: int, z: int, Q: nat, S: nat, p: int)
    requires p > 2 && Q % 2 == 1 && S >= 1 && Doubled(Q, S) == p - 1
    requires Cong(Pow(n, (p - 1) / 2), 1, p) && Cong(Pow(z, (p - 1) / 2), -1, p)
    ensures State(n, Pow(n, (Q + 1) / 2) % p, Pow(n, Q) % p, Pow(z, Q) % p, S, p)
  {
    hide Cong;
    var c, R, t := Pow(z, Q) % p, Pow(n, (Q + 1) / 2) % p, Pow(n, Q) % p;
    StartPower(n, Q, S, p, 1);
    StartPower(z, Q, S, p, -1);
    var r := Pow(n, (Q + 1) / 2);
    CongMod(r, p);
    CongTimes(R, r, R, r, p);
    PowDouble(n, (Q + 1) / 2);
    assert r * r == n * Pow(n, Q);
    CongMod(Pow(n, Q), p);
    CongSame(n, p);
    CongTimes(n, n, Pow(n, Q), t, p);
    CongTrans(R * R, n * Pow(n, Q), n * t, p);
  }

  lemma DoubledLast(Q: nat, S: nat, p: int)
    requires S >= 1 && Doubled(Q, S) == p - 1
    ensures Doubled(Q, S - 1) == (p - 1) / 2
  {
  }

  lemma StartPower(z: int, Q: nat, S: nat, p: int, e: int)
    requires p > 2 && S >= 1 && Doubled(Q, S) == p - 1 && Cong(Pow(z, (p - 1) / 2), e, p)
    ensures Cong(Squared(Pow(z, Q) % p, S - 1), e, p)
  {
    hide Cong, Pow, Squared, Doubled;
    DoubledLast(Q, S, p);
    CongMod(Pow(z, Q), p);
    CongSquared(Pow(z, Q) % p, Pow(z, Q), S - 1, p);
    SquaredPow(z, Q, S - 1);
    CongTrans(Squared(Pow(z, Q) % p, S - 1), Pow(z, (p - 1) / 2), e, p);
  }

  // ---------- Which of the two roots it is ----------

  ghost function LeastNonResidue(p: int): nat
    requires p > 2
  {
    if z: nat :| IsLeastNonResidue(z, p) then z else 0
  }

  lemma LeastIs(z: nat, p: int)
    requires p > 2 && IsLeastNonResidue(z, p)
    ensures LeastNonResidue(p) == z
  {
    hide Legendre;
    var y := LeastNonResidue(p);
    assert IsLeastNonResidue(y, p);
  }

  /** What the loop makes of R, t, c and M */
  ghost function Loop(R: int, t: int, c: int, M: nat, p: int): int
    decreases M
  {
    if t == 1 || p <= 0 then R
    else if i: nat :| i < M && IsOrder(t, i, p) then
      var b := Squared(c, M - i - 1) % p;
      Loop((R * b) % p, (t * ((b * b) % p)) % p, (b * b) % p, i, p)
    else R
  }

  lemma LoopStep(R: int, t: int, c: int, M: nat, p: int, i: nat)
    requires t != 1 && p > 0 && i < M && IsOrder(t, i, p)
    ensures var b := Squared(c, M - i - 1) % p;
      Loop(R, t, c, M, p) == Loop((R * b) % p, (t * ((b * b) % p)) % p, (b * b) % p, i, p)
  {
    hide Squared, IsOrder;
    forall j: nat | j < M && IsOrder(t, j, p) ensures j == i {
      OrderUnique(t, i, j, p);
    }
  }

  lemma LoopEnd(R: int, c: int, M: nat, p: int)
    ensures Loop(R, 1, c, M, p) == R
  {
  }

  lemma OrderFacts(t: int, i: nat, p: int)
    requires IsOrder(t, i, p)
    ensures i >= 1 && Cong(Squared(t, i), 1, p) && !Cong(Squared(t, i - 1), 1, p)
  {
  }

  /** The root that is computed depends on N and p only. */
  ghost function Root(N: int, p: int): int {
    if p <= 2 then if p == 2 then N % 2 else 0
    else
      var n, Q, S, z := N % p, OddPart(p - 1), Twos(p - 1), LeastNonResidue(p);
      Loop(Pow(n, (Q + 1) / 2) % p, Pow(n, Q) % p, Pow(z, Q) % p, S, p)
  }

  /** A square root of N modulo the prime p */
  method SquareRootMod(N: int, p: int) returns (r: int)
    requires Prime(p) && QuadraticResidue(N, p)
    ensures 0 <= r < p && Cong(r * r, N, p) && r == Root(N, p)
  {
    hide Cong, QuadraticResidue, Squared, Pow, Loop, IsOrder, IsLeastNonResidue, LeastNonResidue, OddPart, Twos;
    var n := N % p;
    CongMod(N, p);
    if p == 2 {
      OwnSquare(n, p);
      CongTrans(n * n, n, N, p);
      return n;
    }
    Half(p);
    EulerResidue(N, p);
    CongPow(n, N, (p - 1) / 2, p);
    CongTrans(Pow(n, (p - 1) / 2), Pow(N, (p - 1) / 2), 1, p);
    var Q, S := SplitPower(p);
    var M := S;
    var z := FindNonResidue(p);
    LeastIs(z, p);
    Start(n, z, Q, S, p);
    hide State;
    var c, R, t := Pow(z, Q) % p, Pow(n, (Q + 1) / 2) % p, Pow(n, Q) % p;
    while true
      invariant State(n, R, t, c, M, p) && 0 <= c < p && Loop(R, t, c, M, p) == Root(N, p)
      decreases M
    {
      Bounds(n, R, t, c, M, p);
      if t == 1 {
        CongTrans(R * R, n, N, p);
        LoopEnd(R, c, M, p);
        return R;
      }
      var i := OrderExponent(t, M, p);
      OrderFacts(t, i, p);
      var b := RepeatedSquare(c, M - i - 1, p);
      LoopStep(R, t, c, M, p, i);
      Round(n, R, t, c, M, p, i, b);
      R := (R * b) % p;
      c := (b * b) % p;
      t := (t * c) % p;
      M := i;
    }
  }

  lemma OwnSquare(n: int, p: int)
    requires p == 2 && 0 <= n < 2
    ensures Cong(n * n, n, p)
  {
    assert n * n == n;
    CongSame(n, p);
  }

  lemma Bounds(n: int, R: int, t: int, c: int, M: nat, p: int)
    requires State(n, R, t, c, M, p)
    ensures M >= 1 && 0 <= R < p && 0 <= t < p && Cong(Squared(t, M - 1), 1, p) && (t == 1 ==> Cong(R * R, n, p))
  {
  }
}
