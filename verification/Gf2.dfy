/** Vectors over GF(2) as the sets of their non-zero coordinates. */
module Gf2 {

  /** Addition over GF(2). */
  function Xor<T(==)>(a: set<T>, b: set<T>): set<T> {
    (a - b) + (b - a)
  }

  lemma XorEmpty<T>(a: set<T>, b: set<T>)
    requires Xor(a, b) == {}
    ensures a == b
  {
    assert a - b == {} && b - a == {};
  }

  lemma XorSwap<T>(a: set<T>, b: set<T>, c: set<T>, d: set<T>)
    ensures Xor(Xor(a, b), Xor(c, d)) == Xor(Xor(a, c), Xor(b, d))
  {
  }

  /** The sum of the rows m[i] for i in v. */
  function Comb<T(==)>(m: seq<set<T>>, v: set<nat>): set<T> {
    if m == [] then {} else
      var k := |m| - 1;
      Xor(Comb(m[..k], v), if k in v then m[k] else {})
  }

  lemma {:induction false} CombXor<T>(m: seq<set<T>>, v: set<nat>, w: set<nat>)
    ensures Comb(m, Xor(v, w)) == Xor(Comb(m, v), Comb(m, w))
    decreases |m|
  {
    if m != [] {
      CombXor(m[..|m| - 1], v, w);
    }
  }

  /** Only the coordinates of v that index a row matter. */
  lemma {:induction false} CombAgree<T>(m: seq<set<T>>, v: set<nat>, w: set<nat>)
    requires forall i :: 0 <= i < |m| ==> (i in v <==> i in w)
    ensures Comb(m, v) == Comb(m, w)
    decreases |m|
  {
    if m != [] {
      CombAgree(m[..|m| - 1], v, w);
    }
  }

  lemma {:induction false} CombEmpty<T>(m: seq<set<T>>)
    ensures Comb(m, {}) == {}
    decreases |m|
  {
    if m != [] {
      CombEmpty(m[..|m| - 1]);
    }
  }

  lemma {:induction false} CombUnit<T>(m: seq<set<T>>, i: nat)
    requires i < |m|
    ensures Comb(m, {i}) == m[i]
    decreases |m|
  {
    var k := |m| - 1;
    if i == k {
      CombAgree(m[..k], {i}, {});
      CombEmpty(m[..k]);
    } else {
      CombUnit(m[..k], i);
    }
  }

  /** Combining combinations of rows is combining rows. */
  lemma {:induction false} CombComb<T>(m: seq<set<T>>, l: seq<set<nat>>, p: seq<set<T>>, v: set<nat>)
    requires |l| == |p| && forall i :: 0 <= i < |l| ==> p[i] == Comb(m, l[i])
    ensures Comb(m, Comb(l, v)) == Comb(p, v)
    decreases |l|
  {
    if l == [] {
      CombEmpty(m);
    } else {
      var k := |l| - 1;
      CombComb(m, l[..k], p[..k], v);
      CombXor(m, Comb(l[..k], v), if k in v then l[k] else {});
      CombEmpty(m);
    }
  }

  lemma {:induction false} CombWithin<T>(m: seq<set<T>>, v: set<nat>, bound: set<T>)
    requires forall i :: 0 <= i < |m| && i in v ==> m[i] <= bound
    ensures Comb(m, v) <= bound
    decreases |m|
  {
    if m != [] {
      CombWithin(m[..|m| - 1], v, bound);
    }
  }

  /** A coordinate that only row i has is in a combination exactly when row i is. */
  lemma {:induction false} CombPrivate<T>(m: seq<set<T>>, v: set<nat>, i: nat, x: T)
    requires i < |m| && x in m[i] && forall j :: 0 <= j < |m| && j in v && j != i ==> x !in m[j]
    ensures x in Comb(m, v) <==> i in v
    decreases |m|
  {
    var k := |m| - 1;
    if i == k {
      CombMisses(m[..k], v, x);
    } else {
      CombPrivate(m[..k], v, i, x);
    }
  }

  lemma {:induction false} CombMisses<T>(m: seq<set<T>>, v: set<nat>, x: T)
    requires forall j :: 0 <= j < |m| && j in v ==> x !in m[j]
    ensures x !in Comb(m, v)
    decreases |m|
  {
    if m != [] {
      CombMisses(m[..|m| - 1], v, x);
    }
  }

  /** The rows selected by b are linearly independent. */
  ghost predicate Independent<T>(m: seq<set<T>>, b: set<nat>) {
    forall w: set<nat> :: w <= b && Comb(m, w) == {} ==> w == {}
  }

  /** x is a sum of rows selected by b. */
  ghost predicate InSpan<T>(x: set<T>, m: seq<set<T>>, b: set<nat>) {
    exists w: set<nat> :: w <= b && Comb(m, w) == x
  }

  ghost predicate IsBasis<T>(m: seq<set<T>>, b: set<nat>) {
    && (forall i :: i in b ==> i < |m|)
    && Independent(m, b)
    && forall i :: 0 <= i < |m| ==> InSpan(m[i], m, b)
  }

  ghost predicate HasRank<T>(m: seq<set<T>>, r: nat) {
    exists b :: IsBasis(m, b) && |b| == r
  }

  function Indices(n: nat): (r: set<nat>)
    ensures |r| == n && forall i: nat :: i in r <==> i < n
  {
    if n == 0 then {} else Indices(n - 1) + {n - 1}
  }

  lemma SpanEmpty<T>(m: seq<set<T>>, b: set<nat>)
    ensures InSpan({}, m, b)
  {
    CombEmpty(m);
    assert {} <= b;
  }

  lemma SpanRow<T>(m: seq<set<T>>, b: set<nat>, i: nat)
    requires i < |m| && i in b
    ensures InSpan(m[i], m, b)
  {
    CombUnit(m, i);
    assert {i} <= b;
  }

  lemma SpanXor<T>(m: seq<set<T>>, b: set<nat>, x: set<T>, y: set<T>)
    requires InSpan(x, m, b) && InSpan(y, m, b)
    ensures InSpan(Xor(x, y), m, b)
  {
    var v: set<nat> :| v <= b && Comb(m, v) == x;
    var w: set<nat> :| w <= b && Comb(m, w) == y;
    CombXor(m, v, w);
    assert Xor(v, w) <= b;
  }

  /** A set whose elements are all, as unit vectors, in the span. */
  lemma {:induction false} SpanUnits(m: seq<set<nat>>, b: set<nat>, x: set<nat>)
    requires forall i :: i in x ==> InSpan({i}, m, b)
    ensures InSpan(x, m, b)
    decreases |x|
  {
    hide InSpan;
    if x == {} {
      SpanEmpty(m, b);
    } else {
      var i :| i in x;
      SpanUnits(m, b, x - {i});
      SpanXor(m, b, x - {i}, {i});
      assert Xor(x - {i}, {i}) == x;
    }
  }

  // ---------- All bases of a row space have the same size ----------

  lemma {:induction false} SpanOfSpan<T>(m: seq<set<T>>, b: set<nat>, v: set<nat>, k: nat)
    requires k <= |m| && forall i :: 0 <= i < |m| ==> InSpan(m[i], m, b)
    ensures InSpan(Comb(m[..k], v), m, b)
    decreases k
  {
    if k == 0 {
      CombEmpty(m);
      assert {} <= b && Comb(m, {}) == {};
    } else {
      SpanOfSpan(m, b, v, k - 1);
      assert m[..k][..k - 1] == m[..k - 1];
      var x: set<nat> :| x <= b && Comb(m, x) == Comb(m[..k - 1], v);
      if k - 1 in v {
        var y: set<nat> :| y <= b && Comb(m, y) == m[k - 1];
        CombXor(m, x, y);
        assert Xor(x, y) <= b;
      }
    }
  }

  ghost function Subsets(b: set<nat>): set<set<nat>> {
    set w: set<nat> | w <= b
  }

  ghost function Pow2(n: nat): nat {
    if n == 0 then 1 else 2 * Pow2(n - 1)
  }

  ghost function Adding(s: set<set<nat>>, x: nat): set<set<nat>> {
    set w | w in s :: w + {x}
  }

  lemma {:induction false} AddingCount(s: set<set<nat>>, x: nat)
    requires forall w :: w in s ==> x !in w
    ensures |Adding(s, x)| == |s|
    decreases |s|
  {
    if s != {} {
      var y :| y in s;
      AddingCount(s - {y}, x);
      assert Adding(s, x) == Adding(s - {y}, x) + {y + {x}};
      assert y + {x} !in Adding(s - {y}, x) by {
        forall w | w in s - {y} ensures w + {x} != y + {x} {
          assert w == (w + {x}) - {x} && y == (y + {x}) - {x};
        }
      }
    }
  }

  lemma SubsetsSplit(b: set<nat>, x: nat)
    requires x in b
    ensures Subsets(b) == Subsets(b - {x}) + Adding(Subsets(b - {x}), x)
    ensures Subsets(b - {x}) !! Adding(Subsets(b - {x}), x)
  {
    forall w | w in Subsets(b) ensures w in Subsets(b - {x}) + Adding(Subsets(b - {x}), x) {
      if x in w {
        assert w - {x} in Subsets(b - {x}) && w == (w - {x}) + {x};
      }
    }
  }

  lemma UnionCount<T>(s: set<T>, t: set<T>)
    requires s !! t
    ensures |s + t| == |s| + |t|
  {
  }

  lemma OnlySubset()
    ensures |Subsets({})| == 1
  {
    var empty: set<nat> := {};
    forall w ensures w in Subsets({}) <==> w in {empty} {
      assert w <= {} <==> w == {};
    }
    assert Subsets({}) == {empty};
  }

  lemma SubsetsStep(b: set<nat>, x: nat)
    requires x in b
    ensures |Subsets(b)| == 2 * |Subsets(b - {x})| && |b| == |b - {x}| + 1
  {
    AddingCount(Subsets(b - {x}), x);
    SubsetsSplit(b, x);
    UnionCount(Subsets(b - {x}), Adding(Subsets(b - {x}), x));
  }

  lemma {:induction false} SubsetsCount(b: set<nat>)
    ensures |Subsets(b)| == Pow2(|b|)
    decreases |b|
  {
    hide Subsets;
    if b == {} {
      OnlySubset();
    } else {
      var x :| x in b;
      SubsetsStep(b, x);
      SubsetsCount(b - {x});
    }
  }

  /** f sends s injectively into t. */
  lemma {:induction false} InjectionCount(s: set<set<nat>>, t: set<set<nat>>, f: map<set<nat>, set<nat>>)
    requires forall w :: w in s ==> w in f && f[w] in t
    requires forall w, z :: w in s && z in s && f[w] == f[z] ==> w == z
    ensures |s| <= |t|
    decreases |s|
  {
    if s != {} {
      var y :| y in s;
      InjectionCount(s - {y}, t - {f[y]}, f);
    }
  }

  lemma {:induction false} Pow2Monotone(a: nat, b: nat)
    requires Pow2(a) <= Pow2(b)
    ensures a <= b
    decreases b
  {
    if b < a {
      Pow2Less(b, a);
    }
  }

  lemma {:induction false} Pow2Less(b: nat, a: nat)
    requires b < a
    ensures 0 < Pow2(b) < Pow2(a)
    decreases a
  {
    if b < a - 1 {
      Pow2Less(b, a - 1);
    } else if b > 0 {
      Pow2Less(b - 1, b);
    }
  }

  lemma IndependentAtMostSpanning<T>(m: seq<set<T>>, a: set<nat>, b: set<nat>)
    requires Independent(m, a)
    requires forall i :: 0 <= i < |m| ==> InSpan(m[i], m, b)
    ensures |a| <= |b|
  {
    forall w: set<nat> ensures InSpan(Comb(m, w), m, b) {
      SpanOfSpan(m, b, w, |m|);
      assert m[..|m|] == m;
    }
    var f := map w: set<nat> | w in Subsets(a) :: Expansion(m, b, w);
    forall w, z | w in Subsets(a) && z in Subsets(a) && f[w] == f[z] ensures w == z {
      CombXor(m, w, z);
      assert Xor(w, z) == {};
    }
    InjectionCount(Subsets(a), Subsets(b), f);
    SubsetsCount(a);
    SubsetsCount(b);
    Pow2Monotone(|a|, |b|);
  }

  ghost function Expansion<T>(m: seq<set<T>>, b: set<nat>, w: set<nat>): (x: set<nat>)
    requires InSpan(Comb(m, w), m, b)
    ensures x <= b && Comb(m, x) == Comb(m, w)
  {
    var x: set<nat> :| x <= b && Comb(m, x) == Comb(m, w);
    x
  }

  /** The rank is well defined: every basis taken among the rows has the same size. */
  lemma RankUnique<T>(m: seq<set<T>>, a: set<nat>, b: set<nat>)
    requires IsBasis(m, a) && IsBasis(m, b)
    ensures |a| == |b|
  {
    IndependentAtMostSpanning(m, a, b);
    IndependentAtMostSpanning(m, b, a);
  }
}
