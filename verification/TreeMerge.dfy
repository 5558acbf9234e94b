/** filter/merge_mono.c: merging along a minimal spanning tree. */
module TreeMerge {
  import opened Gf2
  import opened SparseRows
  import opened MergeIndex
  import opened History
  import opened MergeTree
  import opened FilterMatrix
  import opened SpanningTree
  import opened Mst
  import opened TreeHistory
  import opened Merge

  // ---------- The lines of a tree fit in the history array ----------

  lemma {:induction false} LinesFit(p: Plan, u: nat)
    requires p.Sound() && u < p.m
    ensures |p.Lines(u)| <= |p.Sub(u)|
    decreases p.hmax - p.tree.height[u], |p.tree.sons[u]| + 1
  {
    hide Plan.Sub;
    p.SubAll(u);
    var n := |p.tree.sons[u]|;
    if n > 0 {
      LinesUpToFit(p, u, n);
    }
  }

  lemma {:induction false} LinesUpToFit(p: Plan, u: nat, k: nat)
    requires p.Sound() && u < p.m && k <= |p.tree.sons[u]|
    ensures |p.LinesUpTo(u, k)| <= |p.SubUpTo(u, k)|
    decreases p.hmax - p.tree.height[u], k
  {
    hide Plan.Sub, Plan.Sound;
    p.Shape();
    if k > 0 {
      var s := p.tree.sons[u][k - 1];
      p.SonFacts(u, s);
      p.NextSon(u, k - 1);
      LinesUpToFit(p, u, k - 1);
      LinesFit(p, s);
      p.SubUpToStep(u, k - 1);
    }
  }

  lemma {:induction false} LinesUpToGrow(p: Plan, u: nat, k: nat, n: nat)
    requires p.Sound() && u < p.m && k <= n <= |p.tree.sons[u]|
    ensures |p.LinesUpTo(u, k)| <= |p.LinesUpTo(u, n)|
    decreases n
  {
    hide Plan.Sound;
    p.Shape();
    if k < n {
      p.SonFacts(u, p.tree.sons[u][n - 1]);
      LinesUpToGrow(p, u, k, n - 1);
    }
  }

  lemma SubCount(s: set<nat>, t: set<nat>)
    requires s <= t
    ensures |s| <= |t|
  {
    assert t == s + (t - s);
  }

  lemma RootLinesFit(p: Plan)
    requires p.Sound()
    ensures |p.Lines(0)| <= p.m
  {
    p.Shape();
    LinesFit(p, 0);
    SubCount(p.Sub(0), Vertices(p.m));
  }

  // ---------- The history array ----------

  /** The line at level0 so far, and the lines L after it; nothing before level0 has changed. */
  ghost predicate Recorded(h0: seq<seq<int>>, h: seq<seq<int>>, level0: nat, first: seq<int>, L: seq<seq<int>>) {
    && |h| == |h0| && level0 + 1 + |L| <= |h|
    && h[..level0] == h0[..level0] && h[level0] == first && h[level0 + 1..level0 + 1 + |L|] == L
  }

  /** The lines M of a subtree, from level on; nothing if it is a leaf */
  ghost predicate Returned(h0: seq<seq<int>>, h: seq<seq<int>>, level0: nat, M: seq<seq<int>>, level: int) {
    && |h| == |h0| && level0 + |M| <= |h|
    && h[..level0] == h0[..level0] && h[level0..level0 + |M|] == M
    && level == if M == [] then -1 else level0 + |M| - 1
  }

  lemma RecordSon(h0: seq<seq<int>>, h: seq<seq<int>>, h': seq<seq<int>>, level0: nat, first: seq<int>, L: seq<seq<int>>,
                  M: seq<seq<int>>, level: int, x: int)
    requires Recorded(h0, h, level0, first, L) && Returned(h, h', level0 + 1 + |L|, M, level)
    ensures h'[level0] == first && Recorded(h0, h'[level0 := first + [x]], level0, first + [x], L + M)
  {
    var n := level0 + 1 + |L|;
    assert forall y :: 0 <= y < n ==> h'[y] == h'[..n][y] == h[..n][y];
    assert h'[level0] == first;
    var g := h'[level0 := first + [x]];
    assert g[..level0] == h0[..level0] by {
      assert forall y :: 0 <= y < level0 ==> g[y] == h[..level0][y];
    }
    assert g[level0 + 1..n] == h[level0 + 1..n];
    assert g[n..n + |M|] == h'[n..n + |M|];
    assert g[level0 + 1..n + |M|] == g[level0 + 1..n] + g[n..n + |M|];
  }

  lemma RecordDone(h0: seq<seq<int>>, h: seq<seq<int>>, level0: nat, first: seq<int>, L: seq<seq<int>>, level: int)
    requires Recorded(h0, h, level0, first, L) && level == level0 + |L|
    ensures Returned(h0, h, level0, [first] + L, level)
  {
    assert h[level0..level0 + 1 + |L|] == [h[level0]] + h[level0 + 1..level0 + 1 + |L|];
  }

  // ---------- Fathers are added to their sons ----------

  /** What the recursion keeps: the index, and the rows of D with their fathers added */
  ghost predicate Merging(mat: Matrix, p: Plan, V: Rowset, D: set<nat>)
    reads mat
  {
    mat.Indexed() && |mat.rows| == |V| && p.LiveRows(V) && p.TreeAdded(V, mat.Live(), D)
  }

  /** a holds the weights of the sums of two rows. */
  ghost predicate Lengths(p: Plan, a: CostMatrix, V: Rowset, wburied: seq<nat>, nburied: nat) {
    |wburied| == |V| && AreLive(p.ind, V) && Weighed(a, V, p.ind, wburied, nburied)
  }

  lemma SonLength(p: Plan, a: CostMatrix, V: Rowset, wburied: seq<nat>, nburied: nat, s: nat, u: nat)
    requires p.Sound() && p.LiveRows(V) && Lengths(p, a, V, wburied, nburied) && s < p.m && u < p.m && s != u
    ensures |p.ind| == p.m && p.ind[s] < |V| == |wburied| && p.ind[u] < |V|
    ensures SpanningTree.At(a, s, u) - Buried(wburied[p.ind[s]], wburied[p.ind[u]], nburied)
         == |Xor(V[p.Row(s)].value, V[p.Row(u)].value)|
  {
    WeighedIsCost(a, V, p.ind, wburied, nburied);
  }

  method AddFather(mat: Matrix, p: Plan, a: CostMatrix, s: nat, u: nat, ghost V: Rowset, ghost D: set<nat>)
    requires p.Sound() && Merging(mat, p, V, D) && Lengths(p, a, V, mat.wburied, mat.nburied)
    requires u < p.m && s in p.tree.sons[u] && s !in D && u !in D
    modifies mat`rows, mat`wt, mat`S, mat`A, mat`R, mat`cells
    ensures Merging(mat, p, V, D + {s}) && SameStatus(old(mat.Ix()), mat.Ix())
  {
    hide Plan.Sound, Plan.TreeAdded, Plan.LiveRows, Agrees, SameStatus, RowsSorted, Added, Lengths, Sets, Xor, Buried;
    p.Shape();
    p.AddSon(V, mat.Live(), D, u, s);
    SonLength(p, a, V, mat.wburied, mat.nburied, s, u);
    var i1, i2 := p.ind[s], p.ind[u];
    UnchangedRows(mat.rows, p, V, s, u);
    var len := Buried(mat.wburied[i1], mat.wburied[i2], mat.nburied);
    len := SpanningTree.At(a, s, u) - len;
    mat.AddRowsAndUpdate(i1, i2, len);
  }

  lemma UnchangedRows(rows: seq<Option<seq<nat>>>, p: Plan, V: Rowset, s: nat, u: nat)
    requires p.LiveRows(V) && s < p.m && u < p.m && |rows| == |V|
    requires Values(rows)[p.Row(s)] == V[p.Row(s)] && Values(rows)[p.Row(u)] == V[p.Row(u)]
    ensures rows[p.Row(s)].Some? && rows[p.Row(u)].Some?
    ensures Cols(rows[p.Row(s)].value) == V[p.Row(s)].value && Cols(rows[p.Row(u)].value) == V[p.Row(u)].value
  {
  }

  lemma FirstNumber(p: Plan, u: nat)
    requires u < |p.ind| && u < |p.tree.sons|
    ensures p.Row(u) == p.ind[u] && |p.Line(u)| >= 1 && p.Line(u)[0] == if u == 0 then p.ind[u] as int else -(p.ind[u] as int + 1)
    ensures p.Line(u)[..1] == [p.Line(u)[0]]
  {
  }

  lemma NextNumber(p: Plan, u: nat, k: nat)
    requires u < |p.tree.sons| && k < |p.tree.sons[u]| && p.tree.sons[u][k] < |p.ind|
    ensures p.Line(u)[..1 + k] + [p.ind[p.tree.sons[u][k]]] == p.Line(u)[..2 + k]
  {
  }

  /** u is added to its sons, after the sons have been added to theirs; the lines are numbered from level0 on. */
  method AddFatherToSonsRec(mat: Matrix, p: Plan, a: CostMatrix, u: nat, level0: nat, h0: seq<seq<int>>, ghost V: Rowset, ghost D: set<nat>)
    returns (level: int, h: seq<seq<int>>)
    requires p.Sound() && u < p.m && Merging(mat, p, V, D) && D !! p.Sub(u) && Lengths(p, a, V, mat.wburied, mat.nburied)
    requires level0 + |p.Lines(u)| <= |h0|
    modifies mat`rows, mat`wt, mat`S, mat`A, mat`R, mat`cells
    ensures Merging(mat, p, V, D + (p.Sub(u) - {u})) && SameStatus(old(mat.Ix()), mat.Ix())
    ensures Returned(h0, h, level0, p.Lines(u), level)
    decreases p.hmax - p.tree.height[u]
  {
    hide Plan.Sound, Plan.TreeAdded, Plan.Sub, Plan.LiveRows, Agrees, SameStatus, RowsSorted, Lengths, Returned, Recorded, Merging;
    p.Shape();
    p.SubAll(u);
    StatusStart(mat, p, V, D);
    var sons := p.tree.sons[u];
    if |sons| == 0 {
      LeafReturned(h0, level0);
      assert D + (p.Sub(u) - {u}) == D;
      return -1, h0;
    }
    p.RootFather(u);
    FirstNumber(p, u);
    var i2: int := p.ind[u];
    var first := if u == p.Father(u) then i2 else -(i2 + 1);
    h := h0[level0 := [first]];
    level := level0;
    RecordFirst(h0, level0, first);
    assert D + p.SubUpTo(u, 0) == D;
    var k := 0;
    while k < |sons|
      invariant k <= |sons| && level == level0 + |p.LinesUpTo(u, k)| && |h| == |h0|
      invariant Merging(mat, p, V, D + p.SubUpTo(u, k)) && SameStatus(old(mat.Ix()), mat.Ix())
      invariant Recorded(h0, h, level0, p.Line(u)[..1 + k], p.LinesUpTo(u, k))
    {
      ghost var h1 := h;
      level, h := AddSonSubtree(mat, p, a, u, k, level0, level, h, V, D, old(mat.Ix()), h0);
      k := k + 1;
    }
    assert p.Line(u)[..1 + k] == p.Line(u);
    RecordDone(h0, h, level0, p.Line(u), p.LinesUpTo(u, k), level);
  }

  /** One turn of the loop over the sons of u */
  method AddSonSubtree(mat: Matrix, p: Plan, a: CostMatrix, u: nat, k: nat, level0: nat, level1: int, h1: seq<seq<int>>,
                       ghost V: Rowset, ghost D: set<nat>, ghost ix0: Index, ghost h0: seq<seq<int>>)
    returns (level: int, h: seq<seq<int>>)
    requires p.Sound() && u < p.m && k < |p.tree.sons[u]| && D !! p.Sub(u) && Lengths(p, a, V, mat.wburied, mat.nburied)
    requires Merging(mat, p, V, D + p.SubUpTo(u, k)) && SameStatus(ix0, mat.Ix())
    requires level0 + |p.Lines(u)| <= |h1| && level1 == level0 + |p.LinesUpTo(u, k)|
    requires Recorded(h0, h1, level0, p.Line(u)[..1 + k], p.LinesUpTo(u, k))
    modifies mat`rows, mat`wt, mat`S, mat`A, mat`R, mat`cells
    ensures Merging(mat, p, V, D + p.SubUpTo(u, k + 1)) && SameStatus(ix0, mat.Ix())
    ensures level == level0 + |p.LinesUpTo(u, k + 1)| && |h| == |h1|
    ensures Recorded(h0, h, level0, p.Line(u)[..2 + k], p.LinesUpTo(u, k + 1))
    decreases p.hmax - p.tree.height[u], 0
  {
    hide Plan.Sound, Plan.TreeAdded, Plan.Sub, Plan.LiveRows, Agrees, SameStatus, RowsSorted, Lengths, Merging, Recorded, Returned;
    p.Shape();
    var s := p.tree.sons[u][k];
    ghost var D1 := D + p.SubUpTo(u, k);
    p.SonFacts(u, s);
    p.NextSon(u, k);
    p.SubAll(u);
    p.SubUpToStep(u, k);
    SonDone(D, p.Sub(u), p.SubUpTo(u, k), p.Sub(s), u, s);
    LinesUpToGrow(p, u, k + 1, |p.tree.sons[u]|);
    ghost var ix := mat.Ix();
    var i1: int;
    i1, h := AddFatherToSonsRec(mat, p, a, s, level1 + 1, h1, V, D1);
    StatusTwice(ix0, ix, mat.Ix());
    level := if i1 != -1 then i1 else level1;
    ReturnedLevel(h1, h, level1 + 1, p.Lines(s), i1);
    RecordSon(h0, h1, h, level0, p.Line(u)[..1 + k], p.LinesUpTo(u, k), p.Lines(s), i1, p.ind[s]);
    ghost var ix1 := mat.Ix();
    AddFather(mat, p, a, s, u, V, D1 + (p.Sub(s) - {s}));
    StatusTwice(ix0, ix1, mat.Ix());
    NextNumber(p, u, k);
    h := h[level0 := h[level0] + [p.ind[s]]];
  }

  lemma SonDone(D: set<nat>, all: set<nat>, before: set<nat>, sub: set<nat>, u: nat, s: nat)
    requires D !! all && sub <= all && before !! sub && s in sub && u !in sub && u !in before && u in all
    ensures D + before !! sub && u !in D + before + (sub - {s}) && s !in D + before + (sub - {s})
    ensures D + before + (sub - {s}) + {s} == D + (before + sub)
  {
  }

  lemma ReturnedLevel(h0: seq<seq<int>>, h: seq<seq<int>>, level0: nat, M: seq<seq<int>>, level: int)
    requires Returned(h0, h, level0, M, level)
    ensures |h| == |h0| && (if level != -1 then level else level0 - 1) == level0 - 1 + |M|
  {
  }

  lemma LeafReturned(h: seq<seq<int>>, level0: nat)
    requires level0 <= |h|
    ensures Returned(h, h, level0, [], -1)
  {
  }

  lemma RecordFirst(h: seq<seq<int>>, level0: nat, x: int)
    requires level0 < |h|
    ensures Recorded(h, h[level0 := [x]], level0, [x], [])
  {
  }

  lemma StatusStart(mat: Matrix, p: Plan, V: Rowset, D: set<nat>)
    requires Merging(mat, p, V, D)
    ensures SameStatus(mat.Ix(), mat.Ix())
  {
    StatusSame(mat.Ix(), mat.cells);
  }

  // ---------- The whole merge ----------

  lemma PlanSound(a: CostMatrix, m: nat, tree: Tree, w: int, ind: seq<nat>, hmax: nat)
    requires IsMinimalTree(a, m, tree, w) && IsMaximum(tree.height, Vertices(m), hmax) && |ind| == m && Distinct(ind)
    ensures Plan(tree, m, ind, hmax).Sound()
  {
    hide IsRooted, SonsMatch, IsSpanningTree, Links, Cost, Vertices;
    Heights(tree, m, hmax);
  }

  lemma Heights(tree: Tree, m: nat, hmax: nat)
    requires IsRooted(tree, m, Vertices(m)) && IsMaximum(tree.height, Vertices(m), hmax)
    ensures |tree.height| == m && forall v: nat :: v < m ==> tree.height[v] <= hmax
  {
    hide SonsMatch;
    assert forall v: nat :: v < m ==> v in Vertices(m);
  }

  lemma PlanRows(p: Plan, V: Rowset)
    requires p.Sound() && AreLive(p.ind, V)
    ensures p.LiveRows(V) && p.TreeAdded(V, V, {})
  {
    p.Shape();
    hide Plan.Sound;
  }

  lemma RootHasSons(p: Plan)
    requires p.Sound() && p.m >= 2
    ensures p.tree.sons[0] != []
  {
    p.AllUnderRoot(1);
    var s := p.UnderSon(0, 1);
  }

  lemma RootSub(p: Plan)
    requires p.Sound()
    ensures p.Sub(0) == Vertices(p.m)
  {
    p.Shape();
    forall v: nat | v < p.m ensures v in p.Sub(0) {
      p.AllUnderRoot(v);
    }
  }

  /** Replaying the lines of a tree, last one first, does what the recursion did. */
  lemma ReplayTree(p: Plan, V: Rowset, W: Rowset)
    requires p.Sound() && p.LiveRows(V) && p.m >= 2 && p.TreeAdded(V, W, p.Sub(0) - {0})
    ensures LinesOk(V, Reverse(p.Lines(0))) && p.Row(0) < |W| && DoLines(V, Reverse(p.Lines(0))) == W[p.Row(0) := None]
  {
    hide Plan.Sound, Plan.TreeAdded, Plan.Sub;
    p.Shape();
    NothingAdded(p, V);
    RootHasSons(p);
    var X := p.ReplayVertex(V, V, {}, 0);
    assert {} + (p.Sub(0) - {0}) == p.Sub(0) - {0};
    SameTree(p, V, W, X, p.Sub(0) - {0});
  }

  lemma NothingAdded(p: Plan, V: Rowset)
    requires p.Sound() && p.LiveRows(V)
    ensures p.TreeAdded(V, V, {})
  {
    hide Plan.Sound;
  }

  lemma SameTree(p: Plan, V: Rowset, W: Rowset, X: Rowset, D: set<nat>)
    requires p.LiveRows(V) && p.TreeAdded(V, W, D) && p.TreeAdded(V, X, D) && p.m >= 1
    ensures W == X && p.Row(0) < |W|
  {
    forall i: nat | i < |V| ensures W[i] == X[i] {
      if v: nat :| v < p.m && p.Row(v) == i {
        assert v in D || v !in D;
      } else {
        assert forall v: nat :: v < p.m ==> p.Row(v) != i;
      }
    }
  }

  lemma {:induction false} ExplainsLines(start: Rowset, history: seq<seq<int>>, V: Rowset, L: seq<seq<int>>)
    requires Explains(start, history, V) && LinesOk(V, L)
    ensures Explains(start, history + L, DoLines(V, L))
    decreases |L|
  {
    hide Explains, LineOk;
    if L == [] {
      assert history + L == history;
    } else {
      var k := |L| - 1;
      ExplainsLines(start, history, V, L[..k]);
      ExplainsLine(start, history + L[..k], DoLines(V, L[..k]), L[k]);
      assert history + L[..k] + [L[k]] == history + L;
    }
  }

  lemma ReverseNext(h: seq<seq<int>>, i: nat)
    requires i < |h|
    ensures Reverse(h[i..]) == Reverse(h[i + 1..]) + [h[i]]
  {
    assert h[i..][1..] == h[i + 1..];
  }

  /** The lines are reported from the deepest level up. */
  method ReportAll(mat: Matrix, h: seq<seq<int>>, hmax: int, ghost L: seq<seq<int>>)
    requires -1 <= hmax < |h| && L == h[..hmax + 1] && forall k :: 0 <= k < |L| ==> L[k] != []
    requires |mat.outfile| == |mat.lines| && forall k :: 0 <= k < |mat.lines| ==> mat.lines[k] != [] && mat.outfile[k] == Print(mat.lines[k])
    modifies mat`outfile, mat`lines
    ensures mat.lines == old(mat.lines) + Reverse(L)
    ensures |mat.outfile| == |mat.lines| && forall k :: 0 <= k < |mat.lines| ==> mat.lines[k] != [] && mat.outfile[k] == Print(mat.lines[k])
  {
    hide Print;
    var i := hmax;
    assert L[i + 1..] == [];
    while i >= 0
      invariant -1 <= i <= hmax && mat.lines == old(mat.lines) + Reverse(L[i + 1..])
      invariant |mat.outfile| == |mat.lines| && forall k :: 0 <= k < |mat.lines| ==> mat.lines[k] != [] && mat.outfile[k] == Print(mat.lines[k])
    {
      ReverseNext(L, i);
      mat.Report(h[i]);
      i := i - 1;
    }
    assert L[0..] == L;
  }

  lemma {:induction false} DistinctCount(l: seq<nat>, s: set<nat>)
    requires (forall i, j :: 0 <= i < j < |l| ==> l[i] != l[j]) && forall i :: 0 <= i < |l| ==> l[i] in s
    ensures |l| <= |s|
    decreases |l|
  {
    if l != [] {
      var k := |l| - 1;
      DistinctCount(l[..k], s - {l[k]});
    }
  }

  /** The root is no son, so that a line has at most m numbers. */
  lemma FewSons(p: Plan, u: nat)
    requires p.Sound() && u < p.m
    ensures |p.tree.sons[u]| < p.m
  {
    var l := p.tree.sons[u];
    assert ListsSons(l, u, p.tree.father, Vertices(p.m));
    forall i | 0 <= i < |l| ensures l[i] in Vertices(p.m) - {0} {
      assert l[i] in l;
    }
    DistinctCount(l, Vertices(p.m) - {0});
    assert 0 in Vertices(p.m);
  }

  lemma {:induction false} ReverseExtends(lines: seq<seq<int>>, L: seq<seq<int>>, m: nat)
    requires forall k :: 0 <= k < |L| ==> |L[k]| <= m
    ensures Extends(lines, lines + Reverse(L), m)
    decreases |L|
  {
    if L != [] {
      ReverseExtends(lines, L[1..], m);
      assert lines + Reverse(L) == lines + Reverse(L[1..]) + [L[0]];
    }
  }

  lemma {:induction false} LinesNonEmpty(p: Plan, u: nat)
    requires p.Sound() && u < p.m
    ensures forall k :: 0 <= k < |p.Lines(u)| ==> 1 <= |p.Lines(u)[k]| <= p.m
    decreases p.hmax - p.tree.height[u], |p.tree.sons[u]| + 1
  {
    var n := |p.tree.sons[u]|;
    if n > 0 {
      FewSons(p, u);
      hide Plan.Sound;
      p.Shape();
      LinesUpToNonEmpty(p, u, n);
    }
  }

  lemma {:induction false} LinesUpToNonEmpty(p: Plan, u: nat, k: nat)
    requires p.Sound() && u < p.m && k <= |p.tree.sons[u]|
    ensures forall i :: 0 <= i < |p.LinesUpTo(u, k)| ==> 1 <= |p.LinesUpTo(u, k)[i]| <= p.m
    decreases p.hmax - p.tree.height[u], k
  {
    hide Plan.Sound;
    p.Shape();
    if k > 0 {
      p.SonFacts(u, p.tree.sons[u][k - 1]);
      LinesUpToNonEmpty(p, u, k - 1);
      LinesNonEmpty(p, p.tree.sons[u][k - 1]);
    }
  }

  /** Every row but the root has its father added to it; the root is gone. */
  ghost predicate TreeMerged(p: Plan, V: Rowset, V': Rowset)
    requires p.LiveRows(V)
  {
    && |V'| == |V| && p.m >= 1 && V'[p.Row(0)] == None
    && (forall v: nat :: 0 < v < p.m ==> V'[p.Row(v)] == p.SumWithFather(V, v))
    && (forall i: nat :: i < |V| && (forall v: nat :: v < p.m ==> p.Row(v) != i) ==> V'[i] == V[i])
  }

  lemma RootGone(p: Plan, V: Rowset, W: Rowset)
    requires p.Sound() && p.LiveRows(V) && p.TreeAdded(V, W, p.Sub(0) - {0})
    ensures p.Row(0) < |W| && W[p.Row(0)] == V[p.Row(0)] && W[p.Row(0)].Some? && TreeMerged(p, V, W[p.Row(0) := None])
  {
    p.Shape();
    RootSub(p);
    hide Plan.Sub, Plan.Sound;
    forall v: nat | 0 < v < p.m ensures W[p.Row(0) := None][p.Row(v)] == p.SumWithFather(V, v) {
      p.RowsDiffer(0, v);
      assert v in Vertices(p.m) - {0};
    }
  }

  /** addFatherToSons */
  method AddFatherToSons(mat: Matrix, p: Plan, a: CostMatrix, h0: seq<seq<int>>, ghost V: Rowset) returns (level: int, h: seq<seq<int>>)
    requires p.Sound() && p.m >= 2 && Lengths(p, a, V, mat.wburied, mat.nburied) && p.m <= |h0|
    requires mat.Indexed() && V == mat.Live()
    modifies mat`rows, mat`wt, mat`S, mat`A, mat`R, mat`cells
    ensures mat.Indexed() && |mat.rows| == |V| && SameStatus(old(mat.Ix()), mat.Ix())
    ensures p.LiveRows(V) && p.TreeAdded(V, mat.Live(), p.Sub(0) - {0})
    ensures 0 <= level < |h| && p.Lines(0) == h[..level + 1]
  {
    hide Plan.Sound, Plan.TreeAdded, Plan.Sub, Plan.LiveRows, Agrees, SameStatus, RowsSorted, Returned, Weighed, AreLive;
    p.Shape();
    PlanRows(p, V);
    RootLinesFit(p);
    level, h := AddFatherToSonsRec(mat, p, a, 0, 0, h0, V, {});
    assert {} + (p.Sub(0) - {0}) == p.Sub(0) - {0};
    RootHasSons(p);
    RootReturned(h0, h, p.Lines(0), level);
  }

  lemma RootReturned(h0: seq<seq<int>>, h: seq<seq<int>>, M: seq<seq<int>>, level: int)
    requires Returned(h0, h, 0, M, level) && M != []
    ensures 0 <= level < |h| && M == h[..level + 1]
  {
  }

  /** The lines that are reported are those of a cheapest tree for the weights of the sums of two rows. */
  ghost predicate TreeReported(V: Rowset, wburied: seq<nat>, nburied: nat, ind: seq<nat>, lines: seq<seq<int>>, lines': seq<seq<int>>) {
    && AreLive(ind, V) && |wburied| == |V|
    && exists p: Plan, a: CostMatrix, w: int ::
         && p.Sound() && p.ind == ind && p.m == |ind| && IsMinimalTree(a, |ind|, p.tree, w)
         && Weighed(a, V, ind, wburied, nburied) && lines' == lines + Reverse(p.Lines(0))
  }

  /** MSTWithA: the merge along a minimal spanning tree. */
  method MSTWithA(mat: Matrix, ind: seq<nat>, a: CostMatrix) returns (ghost p: Plan)
    requires mat.Valid() && 2 <= |ind| <= MERGE_LEVEL_MAX && Distinct(ind) && AreLive(ind, mat.Live())
    requires |mat.wburied| == |mat.rows| && Weighed(a, mat.Live(), ind, mat.wburied, mat.nburied)
    modifies mat`rows, mat`wt, mat`S, mat`A, mat`R, mat`cells, mat`outfile, mat`lines
    ensures mat.Valid() && SameStatus(old(mat.Ix()), mat.Ix()) && |mat.rows| == |old(mat.rows)|
    ensures p.Sound() && p.ind == ind && p.m == |ind| && (exists w: int :: IsMinimalTree(a, |ind|, p.tree, w))
    ensures p.LiveRows(old(mat.Live())) && TreeMerged(p, old(mat.Live()), mat.Live())
    ensures Extends(old(mat.lines), mat.lines, |ind|) && mat.lines == old(mat.lines) + Reverse(p.Lines(0))
    ensures Written(old(mat.Live()), mat.Live(), old(mat.lines), mat.lines)
  {
    hide Plan.Sound, Plan.TreeAdded, Plan.Sub, Plan.LiveRows, Agrees, SameStatus, RowsSorted, Weighed, IsMinimalTree, IsMaximum, IsCostMatrix,
      Explains, Print, Distinct, AreLive, Sets, Values, Vertices, LinesOk, TreeMerged, Extends, Written;
    ghost var V, ix := mat.Live(), mat.Ix();
    WeighedIsCost(a, V, ind, mat.wburied, mat.nburied);
    var m := |ind|;
    var w, tree, hmax := MinimalSpanningTreeWithPrim(a, m);
    PlanSound(a, m, tree, w, ind, hmax);
    var plan := Plan(tree, m, ind, hmax);
    p := plan;
    var h: seq<seq<int>> := seq(MERGE_LEVEL_MAX, _ => []);
    var level;
    level, h := AddFatherToSons(mat, plan, a, h, V);
    LinesNonEmpty(p, 0);
    ReverseExtends(mat.lines, p.Lines(0), m);
    ReportAll(mat, h, level, p.Lines(0));
    ghost var rows, ix1 := mat.rows, mat.Ix();
    ReplayTree(p, V, Values(rows));
    ExplainsLines(mat.start, old(mat.lines), V, Reverse(p.Lines(0)));
    RootGone(p, V, Values(rows));
    RootRow(p, rows);
    DropLive(rows, ind[0]);
    mat.RemoveAndDestroy(ind[0]);
    StatusTwice(ix, ix1, mat.Ix());
    WrittenLines(V, mat.Live(), old(mat.lines), Reverse(p.Lines(0)));
  }

  lemma RootRow(p: Plan, rows: seq<Option<seq<nat>>>)
    requires p.Sound() && p.Row(0) < |rows| && Values(rows)[p.Row(0)].Some?
    ensures p.ind != [] && p.Row(0) == p.ind[0] && rows[p.Row(0)].Some?
  {
    p.Shape();
  }
}
