/** When the cheapest spanning tree is a star: all vertices are sons of vertex 0. */
module StarTree {
  import opened SpanningTree
  import opened Mst

  /** What the edges from the vertices below k to their fathers cost */
  ghost function FatherCost(a: CostMatrix, tree: Tree, k: nat): int
    requires k <= |tree.father|
  {
    if k <= 1 then 0 else FatherCost(a, tree, k - 1) + At(a, tree.father[k - 1], k - 1)
  }

  lemma {:induction false} FatherLinks(a: CostMatrix, tree: Tree, m: nat, k: nat)
    requires IsCostMatrix(a, m) && IsRooted(tree, m, Vertices(m)) && 1 <= k <= m
    ensures |tree.father| == m && |Links(tree, Vertices(k))| == k - 1 && Cost(a, Links(tree, Vertices(k))) == FatherCost(a, tree, k)
    decreases k
  {
    hide IsCostMatrix, IsRooted, Links, Cost, At, Vertices;
    FatherCount(tree, m);
    if k == 1 {
      NoLinks(a, tree);
    } else {
      FatherLinks(a, tree, m, k - 1);
      FatherAt(tree, m, k - 1);
      LinkNew(tree, m, k - 1);
      NextLink(tree, k - 1);
      var f, l := Links(tree, Vertices(k - 1)), Norm(tree.father[k - 1], k - 1);
      CostAdd(a, f, l);
      NormCost(a, m, tree.father[k - 1], k - 1);
    }
  }

  lemma FatherCount(tree: Tree, m: nat)
    requires IsRooted(tree, m, Vertices(m))
    ensures |tree.father| == |tree.height| == m
  {
  }

  lemma NoLinks(a: CostMatrix, tree: Tree)
    ensures Links(tree, Vertices(1)) == {} && Cost(a, {}) == 0
  {
  }

  lemma NormCost(a: CostMatrix, m: nat, u: nat, v: nat)
    requires IsCostMatrix(a, m)
    ensures At(a, Norm(u, v).0, Norm(u, v).1) == At(a, u, v)
  {
  }

  lemma FatherAt(tree: Tree, m: nat, v: nat)
    requires IsRooted(tree, m, Vertices(m)) && 0 < v < m
    ensures |tree.father| == |tree.height| == m && 0 <= tree.father[v] < m && tree.height[tree.father[v]] < tree.height[v]
  {
    assert v in Vertices(m);
  }

  lemma LinkNew(tree: Tree, m: nat, k: nat)
    requires IsRooted(tree, m, Vertices(m)) && 1 <= k < m
    ensures k < |tree.father| && 0 <= tree.father[k] && Norm(tree.father[k], k) !in Links(tree, Vertices(k))
  {
    hide IsRooted;
    FatherAt(tree, m, k);
    var l := Norm(tree.father[k], k);
    if l in Links(tree, Vertices(k)) {
      var v: nat :| v in Vertices(k) && 0 < v < m && 0 <= tree.father[v] && l == Norm(tree.father[v], v);
      FatherAt(tree, m, v);
      assert false;
    }
  }

  lemma NextLink(tree: Tree, k: nat)
    requires 1 <= k < |tree.father| && 0 <= tree.father[k]
    ensures Links(tree, Vertices(k + 1)) == Links(tree, Vertices(k)) + {Norm(tree.father[k], k)}
  {
    hide Norm;
    var l := Norm(tree.father[k], k);
    assert Vertices(k + 1) == Vertices(k) + {k};
    forall e | e in Links(tree, Vertices(k)) + {l} ensures e in Links(tree, Vertices(k + 1)) {
      if e == l {
        assert k in Vertices(k + 1);
      } else {
        var v :| v in Vertices(k) && 0 < v < |tree.father| && 0 <= tree.father[v] && e == Norm(tree.father[v], v);
        assert v in Vertices(k + 1);
      }
    }
  }

  function Star(m: nat): Tree {
    Tree(seq(m, _ => 0), seq(m, v => if v == 0 then 0 else 1), seq(m, _ => []))
  }

  /** The edges from vertex 0 are the cheapest ones at every other vertex. */
  ghost predicate Centred(a: CostMatrix, m: nat) {
    forall u: nat, v: nat {:trigger At(a, u, v)} :: 0 < u < m && 0 < v < m && u != v ==> At(a, 0, v) < At(a, u, v)
  }

  lemma {:induction false} StarIsCheaper(a: CostMatrix, tree: Tree, m: nat, k: nat)
    requires IsRooted(tree, m, Vertices(m)) && Centred(a, m) && k <= m
    ensures |tree.father| == m && FatherCost(a, Star(m), k) <= FatherCost(a, tree, k)
    ensures FatherCost(a, Star(m), k) == FatherCost(a, tree, k) ==> forall v: nat :: v < k ==> tree.father[v] == 0
    decreases k
  {
    hide IsRooted;
    FatherCount(tree, m);
    if k > 1 {
      StarIsCheaper(a, tree, m, k - 1);
      FatherAt(tree, m, k - 1);
    } else if k == 1 {
      RootAt(tree, m);
    }
  }

  lemma RootAt(tree: Tree, m: nat)
    requires IsRooted(tree, m, Vertices(m)) && m >= 1
    ensures |tree.father| == m && tree.father[0] == 0
  {
  }

  lemma StarSpans(a: CostMatrix, m: nat)
    requires IsCostMatrix(a, m) && m >= 1
    ensures IsRooted(Star(m), m, Vertices(m)) && IsSpanningTree(Links(Star(m), Vertices(m)), m)
    ensures Cost(a, Links(Star(m), Vertices(m))) == FatherCost(a, Star(m), m)
  {
    hide IsRooted, IsCostMatrix, Links, Cost, IsSpanningTree, Star;
    StarRooted(m);
    FatherLinks(a, Star(m), m, m);
    StarCount(m);
    TreeSpans(Star(m), m);
  }

  lemma StarRooted(m: nat)
    requires m >= 1
    ensures IsRooted(Star(m), m, Vertices(m))
  {
  }

  lemma StarCount(m: nat)
    requires m >= 1 && |Links(Star(m), Vertices(m))| == m - 1
    ensures LinksCount(Links(Star(m), Vertices(m)), m, Vertices(m))
  {
  }

  lemma StarIsMinimal(a: CostMatrix, m: nat, tree: Tree, w: int)
    requires IsCostMatrix(a, m) && m >= 1 && Centred(a, m) && IsMinimalTree(a, m, tree, w)
    ensures forall v: nat :: v < m ==> tree.father[v] == 0
  {
    hide IsSpanningTree, SonsMatch, Links, Cost;
    StarSpans(a, m);
    FatherLinks(a, tree, m, m);
    StarIsCheaper(a, tree, m, m);
  }
}
