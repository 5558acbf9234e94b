/** Polynomials over GF(2), as the sets of their exponents; addition is Xor. */
module Gf2Poly {
  import opened Gf2

  type Poly = set<nat>

  /** p * x^k */
  function Shift(p: Poly, k: nat): Poly {
    set i | i in p :: i + k
  }

  ghost predicate Below(p: Poly, n: nat) {
    forall i :: i in p ==> i < n
  }

  function Bound(p: Poly): (n: nat)
    ensures Below(p, n)
    decreases |p|
  {
    if p == {} then 0 else
      MaxExists(p);
      var i: nat :| i in p && forall j :: j in p ==> j <= i;
      i + 1
  }

  lemma {:induction false} MaxExists(p: Poly)
    requires p != {}
    ensures exists i :: i in p && forall j :: j in p ==> j <= i
    decreases |p|
  {
    var x :| x in p;
    if p != {x} {
      MaxExists(p - {x});
      var i :| i in p - {x} && forall j :: j in p - {x} ==> j <= i;
      var m := if x > i then x else i;
      forall j | j in p ensures j <= m {
        assert j == x || j in p - {x};
      }
      assert m in p;
    } else {
      assert forall j :: j in p ==> j <= x;
    }
  }

  /** The sum of q * x^i for the i < n in p. */
  function Partial(p: Poly, q: Poly, n: nat): Poly {
    if n == 0 then {} else
      Xor(Partial(p, q, n - 1), if n - 1 in p then Shift(q, n - 1) else {})
  }

  function Mul(p: Poly, q: Poly): Poly {
    Partial(p, q, Bound(p))
  }

  // ---------- Shifts ----------

  lemma ShiftXor(p: Poly, q: Poly, k: nat)
    ensures Shift(Xor(p, q), k) == Xor(Shift(p, k), Shift(q, k))
  {
    forall i: nat ensures i in Shift(Xor(p, q), k) <==> i in Xor(Shift(p, k), Shift(q, k)) {
      ShiftHas(p, k, i);
      ShiftHas(q, k, i);
      ShiftHas(Xor(p, q), k, i);
    }
  }

  lemma ShiftHas(p: Poly, k: nat, i: nat)
    ensures i in Shift(p, k) <==> i >= k && i - k in p
  {
    if i >= k && i - k in p {
      assert i == (i - k) + k;
    }
  }

  lemma ShiftShift(p: Poly, j: nat, k: nat)
    ensures Shift(Shift(p, j), k) == Shift(p, j + k)
  {
    forall i: nat ensures i in Shift(Shift(p, j), k) <==> i in Shift(p, j + k) {
      ShiftHas(p, j + k, i);
      ShiftHas(Shift(p, j), k, i);
      if i >= k {
        ShiftHas(p, j, i - k);
      }
    }
  }

  lemma ShiftZero(p: Poly)
    ensures Shift(p, 0) == p
  {
    forall i: nat ensures i in Shift(p, 0) <==> i in p {
      ShiftHas(p, 0, i);
    }
  }

  // ---------- Products ----------

  lemma {:induction false} PartialStable(p: Poly, q: Poly, m: nat, n: nat)
    requires Below(p, m) && m <= n
    ensures Partial(p, q, n) == Partial(p, q, m)
    decreases n
  {
    if m < n {
      PartialStable(p, q, m, n - 1);
    }
  }

  lemma MulPartial(p: Poly, q: Poly, n: nat)
    requires Below(p, n)
    ensures Mul(p, q) == Partial(p, q, n)
  {
    var b := Bound(p);
    if b <= n {
      PartialStable(p, q, b, n);
    } else {
      PartialStable(p, q, n, b);
    }
  }

  lemma {:induction false} PartialXorLeft(p: Poly, p': Poly, q: Poly, n: nat)
    ensures Partial(Xor(p, p'), q, n) == Xor(Partial(p, q, n), Partial(p', q, n))
    decreases n
  {
    if n > 0 {
      PartialXorLeft(p, p', q, n - 1);
    }
  }

  lemma {:induction false} PartialXorRight(p: Poly, q: Poly, q': Poly, n: nat)
    ensures Partial(p, Xor(q, q'), n) == Xor(Partial(p, q, n), Partial(p, q', n))
    decreases n
  {
    if n > 0 {
      PartialXorRight(p, q, q', n - 1);
      ShiftXor(q, q', n - 1);
    }
  }

  lemma {:induction false} PartialShiftRight(p: Poly, q: Poly, k: nat, n: nat)
    ensures Partial(p, Shift(q, k), n) == Shift(Partial(p, q, n), k)
    decreases n
  {
    if n > 0 {
      PartialShiftRight(p, q, k, n - 1);
      ShiftShift(q, k, n - 1);
      ShiftShift(q, n - 1, k);
      ShiftXor(Partial(p, q, n - 1), if n - 1 in p then Shift(q, n - 1) else {}, k);
    }
  }

  lemma {:induction false} PartialShiftLeft(p: Poly, q: Poly, k: nat, n: nat)
    ensures Partial(Shift(p, k), q, n + k) == Shift(Partial(p, q, n), k)
    decreases n
  {
    if n == 0 {
      PartialNone(Shift(p, k), q, k);
    } else {
      PartialShiftLeft(p, q, k, n - 1);
      ShiftHas(p, k, n - 1 + k);
      ShiftShift(q, n - 1, k);
      ShiftXor(Partial(p, q, n - 1), if n - 1 in p then Shift(q, n - 1) else {}, k);
    }
  }

  lemma {:induction false} PartialNone(p: Poly, q: Poly, n: nat)
    requires forall i :: i in p ==> i >= n
    ensures Partial(p, q, n) == {}
    decreases n
  {
    if n > 0 {
      PartialNone(p, q, n - 1);
    }
  }

  lemma MulXorLeft(p: Poly, p': Poly, q: Poly)
    ensures Mul(Xor(p, p'), q) == Xor(Mul(p, q), Mul(p', q))
  {
    var n := Bound(p) + Bound(p');
    MulPartial(p, q, n);
    MulPartial(p', q, n);
    MulPartial(Xor(p, p'), q, n);
    PartialXorLeft(p, p', q, n);
  }

  lemma MulXorRight(p: Poly, q: Poly, q': Poly)
    ensures Mul(p, Xor(q, q')) == Xor(Mul(p, q), Mul(p, q'))
  {
    PartialXorRight(p, q, q', Bound(p));
  }

  lemma MulShiftLeft(p: Poly, q: Poly, k: nat)
    ensures Mul(Shift(p, k), q) == Shift(Mul(p, q), k)
  {
    var n := Bound(p);
    assert Below(Shift(p, k), n + k);
    MulPartial(Shift(p, k), q, n + k);
    PartialShiftLeft(p, q, k, n);
  }

  lemma MulShiftRight(p: Poly, q: Poly, k: nat)
    ensures Mul(p, Shift(q, k)) == Shift(Mul(p, q), k)
  {
    PartialShiftRight(p, q, k, Bound(p));
  }

  lemma {:induction false} PartialUnitRight(q: Poly, i: nat, n: nat)
    requires Below(q, n)
    ensures Partial(q, {i}, n) == Shift(q, i)
    decreases n
  {
    if n > 0 {
      var last: Poly := if n - 1 in q then {n - 1} else {};
      PartialUnitRight(q - {n - 1}, i, n - 1);
      PartialAgree(q, q - {n - 1}, {i}, n - 1);
      assert q == Xor(q - {n - 1}, last);
      ShiftXor(q - {n - 1}, last, i);
      ShiftUnit(i, n - 1);
      ShiftUnit(n - 1, i);
    }
  }

  lemma ShiftUnit(i: nat, k: nat)
    ensures Shift({i}, k) == {i + k}
  {
  }

  lemma {:induction false} PartialAgree(p: Poly, p': Poly, q: Poly, n: nat)
    requires forall i :: 0 <= i < n ==> (i in p <==> i in p')
    ensures Partial(p, q, n) == Partial(p', q, n)
    decreases n
  {
    if n > 0 {
      PartialAgree(p, p', q, n - 1);
    }
  }

  lemma {:induction false} PartialZero(p: Poly, n: nat)
    ensures Partial(p, {}, n) == {}
    decreases n
  {
    if n > 0 {
      PartialZero(p, n - 1);
      assert Shift({}, n - 1) == {};
    }
  }

  lemma {:induction false} MulCommutes(p: Poly, q: Poly, n: nat)
    requires Below(p, n)
    ensures Mul(p, q) == Mul(q, p)
    decreases n
  {
    MulPartial(p, q, n);
    if n == 0 {
      assert p == {};
      PartialZero(q, Bound(q));
    } else {
      var rest := p - {n - 1};
      var last: Poly := if n - 1 in p then {n - 1} else {};
      assert p == Xor(rest, last);
      MulCommutes(rest, q, n - 1);
      MulPartial(rest, q, n - 1);
      PartialAgree(p, rest, q, n - 1);
      MulXorRight(q, rest, last);
      if n - 1 in p {
        PartialUnitRight(q, n - 1, Bound(q));
      } else {
        PartialZero(q, Bound(q));
      }
    }
  }
}
