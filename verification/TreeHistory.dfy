/** filter/merge_mono.c, addFatherToSonsRec and MSTWithA: merging along a tree, and the order of its history lines. */
module TreeHistory {
  import opened Gf2
  import opened MergeIndex
  import opened History
  import opened SpanningTree
  import opened Mst

  // ---------- Subtrees ----------

  /** A tree on m vertices, none deeper than hmax, whose vertex v stands for row ind[v]. */
  datatype Plan = Plan(tree: Tree, m: nat, ind: seq<nat>, hmax: nat) {

    ghost predicate Sound() {
      && IsRooted(tree, m, Vertices(m)) && SonsMatch(tree.sons, tree.father, m, Vertices(m))
      && (forall v: nat :: v < m ==> tree.height[v] <= hmax)
      && |ind| == m && forall v, w :: 0 <= v < w < m ==> ind[v] != ind[w]
    }

    lemma Shape()
      requires Sound()
      ensures |tree.sons| == |tree.father| == |tree.height| == |ind| == m && m >= 1
    {
    }

    /** v is u or a descendant of u. */
    ghost predicate Under(u: nat, v: nat)
      requires Sound()
      decreases if v < m then tree.height[v] else 0
    {
      v < m && (v == u || (v != 0 && Under(u, tree.father[v])))
    }

    ghost function Sub(u: nat): set<nat>
      requires Sound()
    {
      set v | v in Vertices(m) && Under(u, v)
    }

    lemma SonFacts(u: nat, s: nat)
      requires Sound() && u < m
      ensures s in tree.sons[u] <==> s < m && s != 0 && tree.father[s] == u
      ensures s in tree.sons[u] ==> tree.height[s] == tree.height[u] + 1 <= hmax
    {
      assert ListsSons(tree.sons[u], u, tree.father, Vertices(m));
      if s < m && s != 0 {
        assert s in Vertices(m);
      }
    }

    lemma {:induction false} UnderHeight(u: nat, v: nat)
      requires Sound() && u < m && Under(u, v)
      ensures v != u ==> tree.height[u] < tree.height[v]
      decreases tree.height[v]
    {
      if v != u {
        assert v in Vertices(m);
        UnderHeight(u, tree.father[v]);
      }
    }

    lemma {:induction false} UnderUnique(s: nat, t: nat, v: nat)
      requires Sound() && s < m && t < m && Under(s, v) && Under(t, v) && tree.height[s] == tree.height[t]
      ensures s == t
      decreases tree.height[v]
    {
      if v == s {
        UnderHeight(t, v);
      } else if v == t {
        UnderHeight(s, v);
      } else {
        assert v in Vertices(m);
        UnderUnique(s, t, tree.father[v]);
      }
    }

    lemma {:induction false} UnderSon(u: nat, v: nat) returns (s: nat)
      requires Sound() && u < m && Under(u, v) && v != u
      ensures s in tree.sons[u] && Under(s, v)
      decreases tree.height[v]
    {
      assert v in Vertices(m);
      if tree.father[v] == u {
        SonFacts(u, v);
        s := v;
      } else {
        s := UnderSon(u, tree.father[v]);
      }
    }

    lemma {:induction false} SonUnder(u: nat, s: nat, v: nat)
      requires Sound() && u < m && s in tree.sons[u] && Under(s, v)
      ensures Under(u, v) && v != u
      decreases if v < m then tree.height[v] else 0
    {
      SonFacts(u, s);
      UnderHeight(s, v);
      if v != s {
        assert v in Vertices(m);
        SonUnder(u, s, tree.father[v]);
      } else {
        assert Under(u, u);
      }
    }

    lemma {:induction false} AllUnderRoot(v: nat)
      requires Sound() && v < m
      ensures Under(0, v)
      decreases tree.height[v]
    {
      if v != 0 {
        assert v in Vertices(m);
        AllUnderRoot(tree.father[v]);
      }
    }

    /** The subtrees of the first k sons of u */
    ghost function SubUpTo(u: nat, k: nat): set<nat>
      requires Sound() && u < m && k <= |tree.sons[u]|
    {
      if k == 0 then {} else SubUpTo(u, k - 1) + Sub(tree.sons[u][k - 1])
    }

    lemma {:induction false} SubUpToWithin(u: nat, k: nat)
      requires Sound() && u < m && k <= |tree.sons[u]|
      ensures SubUpTo(u, k) <= Sub(u) - {u}
      decreases k
    {
      hide Plan.Sub, Plan.Sound;
      Shape();
      if k > 0 {
        SubUpToWithin(u, k - 1);
        SonWithin(u, tree.sons[u][k - 1]);
      }
    }

    lemma SonWithin(u: nat, s: nat)
      requires Sound() && u < m && s in tree.sons[u]
      ensures s < m && Sub(s) <= Sub(u) - {u} && s in Sub(s)
    {
      SonFacts(u, s);
      forall v | v in Sub(s) ensures v in Sub(u) - {u} {
        SonUnder(u, s, v);
      }
      assert s in Vertices(m);
    }

    lemma {:induction false} SubUpToHas(u: nat, k: nat, i: nat)
      requires Sound() && u < m && i < k <= |tree.sons[u]|
      ensures Sub(tree.sons[u][i]) <= SubUpTo(u, k)
      decreases k
    {
      hide Plan.Sub, Plan.Sound;
      if i < k - 1 {
        SubUpToHas(u, k - 1, i);
      }
    }

    lemma SubAll(u: nat)
      requires Sound() && u < m
      ensures SubUpTo(u, |tree.sons[u]|) == Sub(u) - {u} && u in Sub(u)
    {
      hide SonsMatch;
      var k := |tree.sons[u]|;
      SubUpToWithin(u, k);
      forall v | v in Sub(u) - {u} ensures v in SubUpTo(u, k) {
        var s := UnderSon(u, v);
        var i :| 0 <= i < k && tree.sons[u][i] == s;
        SubUpToHas(u, k, i);
      }
      assert u in Vertices(m);
    }

    lemma SonsApart(u: nat, i: nat, k: nat)
      requires Sound() && u < m && i < k < |tree.sons[u]|
      ensures Sub(tree.sons[u][i]) !! Sub(tree.sons[u][k])
    {
      var s, t := tree.sons[u][i], tree.sons[u][k];
      SonFacts(u, s);
      SonFacts(u, t);
      assert ListsSons(tree.sons[u], u, tree.father, Vertices(m)) && s != t;
      forall v | v in Sub(s) ensures v !in Sub(t) {
        if v in Sub(t) {
          UnderUnique(s, t, v);
        }
      }
    }

    lemma {:induction false} SonApart(u: nat, k: nat, l: nat)
      requires Sound() && u < m && k <= l < |tree.sons[u]|
      ensures Sub(tree.sons[u][l]) !! SubUpTo(u, k)
      decreases k
    {
      hide Plan.Sub, Plan.Sound;
      Shape();
      if k > 0 {
        SonApart(u, k - 1, l);
        SonsApart(u, k - 1, l);
      }
    }

    /** Son k is not in the subtree of an earlier son, and its own subtree avoids u and the earlier ones. */
    lemma NextSon(u: nat, k: nat)
      requires Sound() && u < m && k < |tree.sons[u]|
      ensures var s := tree.sons[u][k];
        s < m && s in Sub(s) && u !in Sub(s) && Sub(s) <= Sub(u) && Sub(s) !! SubUpTo(u, k) && u !in SubUpTo(u, k)
    {
      SonWithin(u, tree.sons[u][k]);
      SubUpToWithin(u, k);
      SonApart(u, k, k);
    }

    // ---------- What the merge computes ----------

    function Row(v: nat): nat {
      if v < |ind| then ind[v] else 0
    }

    function Father(v: nat): nat {
      if v < |tree.father| && tree.father[v] >= 0 then tree.father[v] else 0
    }

    lemma RootFather(u: nat)
      requires Sound() && u < m
      ensures Father(u) == u <==> u == 0
    {
      assert u in Vertices(m);
    }

    /** The rows of the vertices are live. */
    ghost predicate LiveRows(V: Rowset) {
      forall v: nat :: v < m ==> Row(v) < |V| && V[Row(v)].Some?
    }

    ghost function SumWithFather(V: Rowset, v: nat): Option<set<nat>>
      requires LiveRows(V)
    {
      if v < m && Father(v) < m then Some(Xor(V[Row(v)].value, V[Row(Father(v))].value)) else None
    }

    /** The vertices of D have had their fathers, as they were in V, added to them. */
    ghost predicate TreeAdded(V: Rowset, V': Rowset, D: set<nat>)
      requires LiveRows(V)
    {
      && |V'| == |V|
      && (forall v :: v in D && v < m ==> V'[Row(v)] == SumWithFather(V, v))
      && (forall v: nat :: v < m && v !in D ==> V'[Row(v)] == V[Row(v)])
      && (forall i: nat :: i < |V| && (forall v: nat :: v < m ==> Row(v) != i) ==> V'[i] == V[i])
    }

    lemma RowsDiffer(u: nat, v: nat)
      requires Sound() && u < m && v < m && u != v
      ensures Row(u) != Row(v)
    {
    }

    lemma SonFather(u: nat, s: nat)
      requires Sound() && u < m && s in tree.sons[u]
      ensures s < m && s != u && Father(s) == u
    {
      SonFacts(u, s);
    }

    /** One addition: the father u to its son s, both untouched so far. */
    lemma AddSon(V: Rowset, V': Rowset, D: set<nat>, u: nat, s: nat)
      requires Sound() && LiveRows(V) && TreeAdded(V, V', D) && u < m && s in tree.sons[u] && s !in D && u !in D
      ensures s < m && Row(s) < |V'| && Row(u) < |V'| && V'[Row(s)] == V[Row(s)] && V'[Row(u)] == V[Row(u)] && Row(s) != Row(u)
      ensures TreeAdded(V, Added(V', Row(s), Row(u)), D + {s})
    {
      hide Plan.Sound, Plan.Row, Plan.Father, Xor;
      SonFather(u, s);
      RowsDiffer(u, s);
      var W := Added(V', Row(s), Row(u));
      forall v | v in D + {s} && v < m ensures W[Row(v)] == SumWithFather(V, v) {
        if v != s {
          RowsDiffer(v, s);
          assert V'[Row(v)] == SumWithFather(V, v);
        }
      }
      forall v: nat | v < m && v !in D + {s} ensures W[Row(v)] == V[Row(v)] {
        RowsDiffer(v, s);
      }
    }

    // ---------- The history of a merge ----------

    function Targets(u: nat): seq<int>
      requires u < |tree.sons|
    {
      seq(|tree.sons[u]|, k requires 0 <= k < |tree.sons[u]| => Row(tree.sons[u][k]))
    }

    /** u is added to its sons; only the root is destroyed. */
    function Line(u: nat): seq<int>
      requires u < |tree.sons|
    {
      [if u == 0 then Row(u) else -(Row(u) + 1)] + Targets(u)
    }

    /** One line per vertex with sons, in the order in which addFatherToSonsRec numbers them. */
    ghost function Lines(u: nat): seq<seq<int>>
      requires Sound() && u < m
      decreases hmax - tree.height[u], |tree.sons[u]| + 1
    {
      if tree.sons[u] == [] then [] else [Line(u)] + LinesUpTo(u, |tree.sons[u]|)
    }

    ghost function LinesUpTo(u: nat, k: nat): seq<seq<int>>
      requires Sound() && u < m && k <= |tree.sons[u]|
      decreases hmax - tree.height[u], k
    {
      if k == 0 then [] else
        SonFacts(u, tree.sons[u][k - 1]);
        LinesUpTo(u, k - 1) + Lines(tree.sons[u][k - 1])
    }

    /** The subtrees of the first k sons of u, without the sons */
    ghost function Inner(u: nat, k: nat): set<nat>
      requires Sound() && u < m && k <= |tree.sons[u]|
    {
      if k == 0 then {} else Inner(u, k - 1) + (Sub(tree.sons[u][k - 1]) - {tree.sons[u][k - 1]})
    }

    function SonSet(u: nat, k: nat): set<nat>
      requires u < |tree.sons| && k <= |tree.sons[u]|
    {
      set s | s in tree.sons[u][..k]
    }

    lemma {:induction false} InnerAndSons(u: nat, k: nat)
      requires Sound() && u < m && k <= |tree.sons[u]|
      ensures Inner(u, k) + SonSet(u, k) == SubUpTo(u, k) && Inner(u, k) !! SonSet(u, k)
      decreases k
    {
      hide Plan.Sub, Plan.Sound;
      Shape();
      if k > 0 {
        InnerAndSons(u, k - 1);
        NextSon(u, k - 1);
        SonSetStep(u, k - 1);
        SubUpToStep(u, k - 1);
        SplitSets(Inner(u, k - 1), SonSet(u, k - 1), SubUpTo(u, k - 1), Sub(tree.sons[u][k - 1]), tree.sons[u][k - 1]);
      }
    }

    lemma SplitSets(a: set<nat>, b: set<nat>, c: set<nat>, x: set<nat>, e: nat)
      requires a + b == c && a !! b && x !! c && e in x
      ensures (a + (x - {e})) + (b + {e}) == c + x && (a + (x - {e})) !! (b + {e})
    {
    }

    lemma SonSetStep(u: nat, k: nat)
      requires u < |tree.sons| && k < |tree.sons[u]|
      ensures SonSet(u, k + 1) == SonSet(u, k) + {tree.sons[u][k]}
    {
      assert tree.sons[u][..k + 1] == tree.sons[u][..k] + [tree.sons[u][k]];
    }

    lemma SubUpToStep(u: nat, k: nat)
      requires Sound() && u < m && k < |tree.sons[u]|
      ensures SubUpTo(u, k + 1) == SubUpTo(u, k) + Sub(tree.sons[u][k])
    {
    }

    // ---------- Replaying it, last line first ----------

    lemma {:induction false} AddSons(V: Rowset, W: Rowset, D: set<nat>, u: nat, k: nat)
      requires Sound() && LiveRows(V) && TreeAdded(V, W, D) && u < m && k <= |tree.sons[u]|
      requires u !in D && SonSet(u, |tree.sons[u]|) !! D
      ensures TreeAdded(V, AddAll(W, Row(u), Targets(u)[..k]), D + SonSet(u, k)) && u !in SonSet(u, k)
      decreases k
    {
      hide Plan.Sound, Plan.TreeAdded, Plan.LiveRows, Added;
      Shape();
      if k == 0 {
        assert D + SonSet(u, 0) == D;
      } else {
        var s := tree.sons[u][k - 1];
        AddSons(V, W, D, u, k - 1);
        SonSetStep(u, k - 1);
        NewSon(u, k - 1);
        assert s in SonSet(u, |tree.sons[u]|);
        assert Targets(u)[..k][..k - 1] == Targets(u)[..k - 1];
        assert D + SonSet(u, k - 1) + {s} == D + SonSet(u, k);
        AddSon(V, AddAll(W, Row(u), Targets(u)[..k - 1]), D + SonSet(u, k - 1), u, s);
      }
    }

    lemma NewSon(u: nat, k: nat)
      requires Sound() && u < m && k < |tree.sons[u]|
      ensures tree.sons[u][k] !in SonSet(u, k) && tree.sons[u][k] != u
    {
      SonFacts(u, tree.sons[u][k]);
      assert ListsSons(tree.sons[u], u, tree.father, Vertices(m));
    }

    lemma LineAdds(V: Rowset, W: Rowset, D: set<nat>, u: nat)
      requires Sound() && LiveRows(V) && TreeAdded(V, W, D) && u < m
      requires u !in D && SonSet(u, |tree.sons[u]|) !! D
      ensures LineOk(W, Line(u)) && Source(Line(u)) == Row(u) && (Destroys(Line(u)) <==> u == 0)
      ensures var X := AddAll(W, Row(u), Targets(u));
        TreeAdded(V, X, D + SonSet(u, |tree.sons[u]|)) && DoLine(W, Line(u)) == if u == 0 then X[Row(u) := None] else X
    {
      hide Plan.Sound, Plan.TreeAdded, Plan.SonSet, Added, AddAll;
      Shape();
      var n := |tree.sons[u]|;
      AddSons(V, W, D, u, n);
      assert Targets(u)[..n] == Targets(u) && Line(u)[1..] == Targets(u);
      Untouched(V, W, D, u);
      forall k | 1 <= k < |Line(u)|
        ensures 0 <= Line(u)[k] < |W| && Line(u)[k] != Row(u) && W[Line(u)[k]].Some?
      {
        SonTarget(V, W, D, u, k - 1);
      }
    }

    lemma Untouched(V: Rowset, W: Rowset, D: set<nat>, u: nat)
      requires Sound() && LiveRows(V) && TreeAdded(V, W, D) && u < m && u !in D
      ensures |W| == |V| && Row(u) < |W| && W[Row(u)] == V[Row(u)] && W[Row(u)].Some?
    {
    }

    lemma SonTarget(V: Rowset, W: Rowset, D: set<nat>, u: nat, k: nat)
      requires Sound() && LiveRows(V) && TreeAdded(V, W, D) && u < m && u !in D && k < |tree.sons[u]|
      requires SonSet(u, |tree.sons[u]|) !! D
      ensures var i := Row(tree.sons[u][k]); i < |W| && i != Row(u) && W[i].Some?
    {
      hide Plan.Sound, Plan.TreeAdded, Added;
      Shape();
      var s, n := tree.sons[u][k], |tree.sons[u]|;
      assert s in tree.sons[u][..n] && s in SonSet(u, n);
      AddSon(V, W, D, u, s);
    }

    /** Replaying the lines below the first k sons, from the last son on */
    lemma {:induction false} ReplaySons(V: Rowset, W: Rowset, D: set<nat>, u: nat, k: nat)
      requires Sound() && LiveRows(V) && TreeAdded(V, W, D) && u < m && k <= |tree.sons[u]| && D !! SubUpTo(u, k)
      ensures LinesOk(W, Reverse(LinesUpTo(u, k)))
      ensures TreeAdded(V, DoLines(W, Reverse(LinesUpTo(u, k))), D + Inner(u, k))
      decreases hmax - tree.height[u], k
    {
      hide Plan.Sound, Plan.TreeAdded, Plan.Sub, Plan.LiveRows, Reverse, DoLines, LinesOk;
      Shape();
      if k == 0 {
        assert D + Inner(u, 0) == D;
        NoLines(W);
      } else {
        var s := tree.sons[u][k - 1];
        SonFacts(u, s);
        NextSon(u, k - 1);
        SubUpToStep(u, k - 1);
        SonAndOthers(D, Sub(s), SubUpTo(u, k - 1), Inner(u, k - 1), s);
        ReplayLines(V, W, D, s);
        var W1 := DoLines(W, Reverse(Lines(s)));
        ReplaySons(V, W1, D + (Sub(s) - {s}), u, k - 1);
        ReverseConcat(LinesUpTo(u, k - 1), Lines(s));
        DoLinesConcat(W, Reverse(Lines(s)), Reverse(LinesUpTo(u, k - 1)));
      }
    }

    lemma SonAndOthers(D: set<nat>, a: set<nat>, b: set<nat>, c: set<nat>, s: nat)
      requires D !! b + a && a !! b
      ensures D !! a && D !! b && D + (a - {s}) !! b && D + (a - {s}) + c == D + (c + (a - {s}))
    {
    }

    lemma {:induction false} ReplayLines(V: Rowset, W: Rowset, D: set<nat>, u: nat)
      requires Sound() && LiveRows(V) && TreeAdded(V, W, D) && 0 < u < m && D !! Sub(u)
      ensures LinesOk(W, Reverse(Lines(u)))
      ensures TreeAdded(V, DoLines(W, Reverse(Lines(u))), D + (Sub(u) - {u}))
      decreases hmax - tree.height[u], |tree.sons[u]| + 1
    {
      hide Plan.TreeAdded, Plan.Sub, Plan.LiveRows;
      SubAll(u);
      var n := |tree.sons[u]|;
      if n == 0 {
        assert D + (Sub(u) - {u}) == D;
      } else {
        var X := ReplayVertex(V, W, D, u);
      }
    }

    /** The lines of the subtrees of u, then that of u */
    lemma {:induction false} ReplayVertex(V: Rowset, W: Rowset, D: set<nat>, u: nat) returns (X: Rowset)
      requires Sound() && LiveRows(V) && TreeAdded(V, W, D) && u < m && D !! Sub(u) && tree.sons[u] != []
      ensures LinesOk(W, Reverse(Lines(u))) && TreeAdded(V, X, D + (Sub(u) - {u}))
      ensures DoLines(W, Reverse(Lines(u))) == if u == 0 then X[Row(u) := None] else X
      decreases hmax - tree.height[u], |tree.sons[u]| + 1, 0
    {
      hide Plan.Sound, Plan.TreeAdded, Plan.Sub, Plan.LiveRows;
      Shape();
      SubAll(u);
      var n := |tree.sons[u]|;
      ReplaySons(V, W, D, u, n);
      InnerAndSons(u, n);
      var L := LinesUpTo(u, n);
      var W1, D1 := DoLines(W, Reverse(L)), D + Inner(u, n);
      LineAdds(V, W1, D1, u);
      X := AddAll(W1, Row(u), Targets(u));
      assert D1 + SonSet(u, n) == D + (Sub(u) - {u});
      ReverseFirst(Line(u), L);
      OneMoreLine(W, Reverse(L), Line(u));
    }
  }

  lemma NoLines(V: Rowset)
    ensures LinesOk(V, Reverse([])) && DoLines(V, Reverse([])) == V
  {
  }

  lemma ReverseFirst(l: seq<int>, s: seq<seq<int>>)
    ensures Reverse([l] + s) == Reverse(s) + [l]
  {
    assert ([l] + s)[1..] == s;
  }

  lemma OneMoreLine(V: Rowset, s: seq<seq<int>>, l: seq<int>)
    requires LinesOk(V, s) && LineOk(DoLines(V, s), l)
    ensures LinesOk(V, s + [l]) && DoLines(V, s + [l]) == DoLine(DoLines(V, s), l)
  {
    assert (s + [l])[..|s|] == s;
  }

  function Reverse(s: seq<seq<int>>): seq<seq<int>> {
    if s == [] then [] else Reverse(s[1..]) + [s[0]]
  }

  lemma {:induction false} ReverseConcat(s: seq<seq<int>>, t: seq<seq<int>>)
    ensures Reverse(s + t) == Reverse(t) + Reverse(s)
    decreases |s|
  {
    if s == [] {
      assert s + t == t;
    } else {
      assert (s + t)[1..] == s[1..] + t;
      ReverseConcat(s[1..], t);
    }
  }

  lemma {:induction false} DoLinesConcat(V: Rowset, s: seq<seq<int>>, t: seq<seq<int>>)
    ensures DoLines(V, s + t) == DoLines(DoLines(V, s), t)
    ensures LinesOk(V, s) && LinesOk(DoLines(V, s), t) ==> LinesOk(V, s + t)
    decreases |t|
  {
    if t == [] {
      assert s + t == s;
    } else {
      var k := |t| - 1;
      assert (s + t)[..|s + t| - 1] == s + t[..k];
      DoLinesConcat(V, s, t[..k]);
    }
  }
}
