/** Spanning trees of the complete graph on 0..m-1, and the exchange argument
    behind Prim's algorithm. Nothing here knows about heaps or fathers. */
module SpanningTree {

  /** An undirected edge, smaller end first. */
  type Link = (nat, nat)

  /** a[u][v] is the cost of the edge (u,v). */
  type CostMatrix = seq<seq<int>>

  function Norm(u: nat, v: nat): Link {
    if u < v then (u, v) else (v, u)
  }

  /** The cost of the edge (u,v), 0 outside the matrix. */
  function At(a: CostMatrix, u: int, v: int): int {
    if 0 <= u < |a| && 0 <= v < |a[u]| then a[u][v] else 0
  }

  ghost predicate IsCostMatrix(a: CostMatrix, m: nat) {
    && |a| == m
    && (forall u :: 0 <= u < m ==> |a[u]| == m)
    && (forall u, v :: At(a, u, v) == At(a, v, u))
  }

  ghost function Vertices(m: nat): (r: set<nat>)
    ensures |r| == m && forall v: nat :: v in r <==> v < m
  {
    if m == 0 then {} else Vertices(m - 1) + {m - 1}
  }

  ghost predicate AreLinks(f: set<Link>, m: nat) {
    forall l :: l in f ==> l.0 < l.1 < m
  }

  predicate Crosses(l: Link, cut: set<nat>) {
    (l.0 in cut) != (l.1 in cut)
  }

  ghost predicate Crossed(f: set<Link>, cut: set<nat>) {
    exists l :: l in f && Crosses(l, cut)
  }

  /** Once the vertices of s are identified with each other, f connects the graph. */
  ghost predicate Connects(f: set<Link>, s: set<nat>, m: nat) {
    forall cut: set<nat> :: s <= cut && cut < Vertices(m) ==> Crossed(f, cut)
  }

  /** A spanning tree: m-1 edges, and no way to split the vertices in two
      non-empty parts without cutting one of them. */
  ghost predicate IsSpanningTree(f: set<Link>, m: nat) {
    && AreLinks(f, m)
    && |f| == m - 1
    && forall cut: set<nat> :: cut != {} && cut < Vertices(m) ==> Crossed(f, cut)
  }

  ghost function Cost(a: CostMatrix, f: set<Link>): int {
    if f == {} then 0 else
      var l :| l in f;
      At(a, l.0, l.1) + Cost(a, f - {l})
  }

  lemma {:induction false} CostRemove(a: CostMatrix, f: set<Link>, l: Link)
    requires l in f
    ensures Cost(a, f) == At(a, l.0, l.1) + Cost(a, f - {l})
    decreases |f|
  {
    var k :| k in f && Cost(a, f) == At(a, k.0, k.1) + Cost(a, f - {k});
    if k != l {
      CostRemove(a, f - {k}, l);
      CostRemove(a, f - {l}, k);
      assert f - {k} - {l} == f - {l} - {k};
    }
  }

  lemma CostAdd(a: CostMatrix, f: set<Link>, l: Link)
    requires l !in f
    ensures Cost(a, f + {l}) == At(a, l.0, l.1) + Cost(a, f)
  {
    CostRemove(a, f + {l}, l);
    assert f + {l} - {l} == f;
  }

  // ---------- The exchange argument ----------

  /** No edge of f leads out of r, except into s. */
  ghost predicate Island(f: set<Link>, r: set<nat>, s: set<nat>) {
    forall l :: l in f ==> (l.0 in r ==> l.1 in r + s) && (l.1 in r ==> l.0 in r + s)
  }

  /** If f connects the graph modulo s, then for every t outside s some edge of f
      leaves s, and without that edge f still connects the graph modulo s+{t}. */
  lemma {:induction false} Exchange(f: set<Link>, s: set<nat>, m: nat, t: nat, r: set<nat>) returns (e: Link)
    requires AreLinks(f, m) && Connects(f, s, m) && s <= Vertices(m) && t < m && t !in s
    requires t in r && r <= Vertices(m) - s && Island(f, r, s)
    ensures e in f && Crosses(e, s) && Connects(f - {e}, s + {t}, m)
    decreases |r|
  {
    if r' :| t in r' && r' < r && Island(f, r', s) {
      SubsetSize(r', r);
      e := Exchange(f, s, m, t, r');
    } else {
      assert Crossed(f, Vertices(m) - r);
      e :| e in f && Crosses(e, Vertices(m) - r);
      forall cut: set<nat> | s + {t} <= cut && cut < Vertices(m)
        ensures Crossed(f - {e}, cut)
      {
        if !Crossed(f - {e}, cut) {
          assert Crossed(f, cut);
          forall l | l in f && l != e ensures !Crosses(l, cut) {
            assert l in f - {e};
          }
          assert Island(f, r * cut, s);
          assert false;
        }
      }
    }
  }

  lemma SubsetSize(a: set<nat>, b: set<nat>)
    requires a < b
    ensures |a| < |b|
  {
    assert b == a + (b - a);
  }

  // ---------- The lower bound that Prim's loop maintains ----------

  /** g is what is left of the tree f once the vertices of s have been paid for with w. */
  ghost predicate Remainder(a: CostMatrix, m: nat, s: set<nat>, w: int, f: set<Link>, g: set<Link>) {
    && g <= f
    && |g| == m - |s|
    && Connects(g, s, m)
    && w + Cost(a, g) <= Cost(a, f)
  }

  /** Every spanning tree costs at least w plus what it takes to reach the vertices outside s. */
  ghost predicate LowerBound(a: CostMatrix, m: nat, s: set<nat>, w: int) {
    forall f | IsSpanningTree(f, m) :: exists g :: Remainder(a, m, s, w, f, g)
  }

  lemma LowerBoundInit(a: CostMatrix, m: nat)
    requires 1 <= m
    ensures LowerBound(a, m, {0}, 0)
  {
    forall f | IsSpanningTree(f, m) ensures exists g :: Remainder(a, m, {0}, 0, f, g) {
      assert Remainder(a, m, {0}, 0, f, f);
    }
  }

  /** (u,t) is a cheapest edge leaving s. */
  ghost predicate Cheapest(a: CostMatrix, m: nat, s: set<nat>, u: nat, t: nat) {
    && u in s && u < m && t < m && t !in s
    && forall x, y :: x in s && x < m && 0 <= y < m && y !in s ==> At(a, u, t) <= At(a, x, y)
  }

  lemma RemainderStep(a: CostMatrix, m: nat, s: set<nat>, w: int, u: nat, t: nat,
                      s': set<nat>, w': int, f: set<Link>, g: set<Link>)
    requires IsCostMatrix(a, m) && s <= Vertices(m) && Cheapest(a, m, s, u, t)
    requires s' == s + {t} && w' == w + At(a, u, t)
    requires AreLinks(f, m) && Remainder(a, m, s, w, f, g)
    ensures exists g' :: Remainder(a, m, s', w', f, g')
  {
    var e := Exchange(g, s, m, t, Vertices(m) - s);
    CostRemove(a, g, e);
    assert At(a, u, t) <= At(a, e.0, e.1) by {
      assert At(a, e.0, e.1) == At(a, e.1, e.0);
    }
    assert Remainder(a, m, s', w', f, g - {e});
  }

  lemma LowerBoundStep(a: CostMatrix, m: nat, s: set<nat>, w: int, u: nat, t: nat)
    requires IsCostMatrix(a, m) && s <= Vertices(m) && Cheapest(a, m, s, u, t)
    requires LowerBound(a, m, s, w)
    ensures LowerBound(a, m, s + {t}, w + At(a, u, t))
  {
    var s', w' := s + {t}, w + At(a, u, t);
    forall f | IsSpanningTree(f, m) ensures exists g :: Remainder(a, m, s', w', f, g) {
      var g :| Remainder(a, m, s, w, f, g);
      RemainderStep(a, m, s, w, u, t, s', w', f, g);
    }
  }

  lemma LowerBoundFinal(a: CostMatrix, m: nat, w: int)
    requires LowerBound(a, m, Vertices(m), w)
    ensures forall f | IsSpanningTree(f, m) :: w <= Cost(a, f)
  {
    forall f | IsSpanningTree(f, m) ensures w <= Cost(a, f) {
      var g :| Remainder(a, m, Vertices(m), w, f, g);
      assert g == {};
    }
  }
}
