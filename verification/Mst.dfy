/** filter/mst.c: a binary heap of edges, and Prim's algorithm over it. */
module EdgeHeap {
  datatype Edge = Edge(s: nat, t: nat, w: int)

  /** The n items of a queue q are q[1..n+1]; q[0] holds no item. */
  ghost function Items(q: seq<Edge>, n: nat): multiset<Edge>
    requires n < |q|
  {
    multiset(q[1..n + 1])
  }

  ghost predicate IsHeap(q: seq<Edge>, n: nat) {
    n < |q| && forall i :: 2 <= i <= n ==> q[i / 2].w <= q[i].w
  }

  lemma ItemsUpdate(q: seq<Edge>, n: nat, k: nat, e: Edge)
    requires 1 <= k <= n < |q|
    ensures Items(q[k := e], n) == Items(q, n) - multiset{q[k]} + multiset{e}
    ensures q[k] in Items(q, n)
  {
    assert q[k := e][1..n + 1] == q[1..n + 1][k - 1 := e];
    assert q[k] == q[1..n + 1][k - 1];
  }

  /** Moving the item at j into the hole at k, and the hole to j, loses nothing. */
  lemma MoveHole(q: seq<Edge>, n: nat, k: nat, j: nat, e: Edge)
    requires 1 <= k <= n < |q| && 1 <= j <= n && j != k
    ensures Items(q[k := q[j]][j := e], n) == Items(q[k := e], n)
  {
    ItemsUpdate(q, n, k, q[j]);
    ItemsUpdate(q[k := q[j]], n, j, e);
    ItemsUpdate(q, n, k, e);
  }

  /** With e in the place of q[k], the only disorder is between k and its father. */
  ghost predicate Rising(q: seq<Edge>, n: nat, k: nat, e: Edge) {
    && 1 <= k <= n < |q|
    && (forall i :: 2 <= i <= n && i != k && i / 2 != k ==> q[i / 2].w <= q[i].w)
    && (forall i :: 2 <= i <= n && i / 2 == k ==> e.w <= q[i].w && (k > 1 ==> q[k / 2].w <= q[i].w))
  }

  lemma RiseStep(q: seq<Edge>, n: nat, k: nat, e: Edge)
    requires Rising(q, n, k, e) && k > 1 && q[k / 2].w >= e.w
    ensures Rising(q[k := q[k / 2]], n, k / 2, e)
  {
    var q' := q[k := q[k / 2]];
    forall i | 2 <= i <= n && i / 2 == k / 2
      ensures e.w <= q'[i].w && (k / 2 > 1 ==> q'[k / 2 / 2].w <= q'[i].w)
    {
      assert k / 2 > 1 ==> q[k / 2 / 2].w <= q[k / 2].w;
    }
  }

  lemma RiseDone(q: seq<Edge>, n: nat, k: nat, e: Edge)
    requires Rising(q, n, k, e) && (k == 1 || q[k / 2].w < e.w)
    ensures IsHeap(q[k := e], n)
  {
  }

  /** With e in the place of q[k], the only disorder is between k and its sons. */
  ghost predicate Sinking(q: seq<Edge>, n: nat, k: nat, e: Edge) {
    && 1 <= k <= n < |q|
    && (forall i :: 2 <= i <= n && i != k && i / 2 != k ==> q[i / 2].w <= q[i].w)
    && (forall i :: 2 <= i <= n && i / 2 == k && k > 1 ==> q[k / 2].w <= q[i].w)
    && (k > 1 ==> q[k / 2].w <= e.w)
  }

  /** j is the smaller son of k. */
  ghost predicate SmallerSon(q: seq<Edge>, n: nat, k: nat, j: nat) {
    && 1 <= k <= j <= n < |q|
    && j / 2 == k
    && forall i :: 2 <= i <= n && i / 2 == k ==> q[j].w <= q[i].w
  }

  lemma SinkStep(q: seq<Edge>, n: nat, k: nat, j: nat, e: Edge)
    requires Sinking(q, n, k, e) && SmallerSon(q, n, k, j) && q[j].w < e.w
    ensures Sinking(q[k := q[j]], n, j, e)
  {
    var q' := q[k := q[j]];
    forall i | 2 <= i <= n && i / 2 == j ensures q'[j / 2].w <= q'[i].w {
      assert q[i / 2].w <= q[i].w;
    }
  }

  lemma SinkDone(q: seq<Edge>, n: nat, k: nat, e: Edge)
    requires Sinking(q, n, k, e)
    requires forall i :: 2 <= i <= n && i / 2 == k ==> e.w <= q[i].w
    ensures IsHeap(q[k := e], n)
  {
  }

  lemma {:induction false} RootBelow(q: seq<Edge>, n: nat, i: nat)
    requires IsHeap(q, n) && 1 <= i <= n
    ensures q[1].w <= q[i].w
    decreases i
  {
    if i > 1 {
      RootBelow(q, n, i / 2);
    }
  }

  lemma RootIsSmallest(q: seq<Edge>, n: nat, x: Edge)
    requires IsHeap(q, n) && x in Items(q, n)
    ensures q[1].w <= x.w
  {
    var i :| 0 <= i < n && q[1..n + 1][i] == x;
    RootBelow(q, n, i + 1);
  }

  lemma RootSinks(q: seq<Edge>, n: nat)
    requires IsHeap(q, n) && n >= 2
    ensures Sinking(q[1 := q[n]], n - 1, 1, q[n])
  {
  }

  lemma HeapPops(q: seq<Edge>, n: nat)
    requires IsHeap(q, n) && n >= 1
    ensures q[1] in Items(q, n) && forall x :: x in Items(q, n) ==> q[1].w <= x.w
    ensures Items(q[1 := q[n]], n - 1) == Items(q, n) - multiset{q[1]}
    ensures n >= 2 ==> Sinking(q[1 := q[n]], n - 1, 1, q[n])
  {
    forall x | x in Items(q, n) ensures q[1].w <= x.w {
      RootIsSmallest(q, n, x);
    }
    PopItems(q, n);
    ItemsUpdate(q, n, 1, q[1]);
    if n >= 2 {
      RootSinks(q, n);
    }
  }

  /** What is left once the root is replaced by the last item. */
  lemma PopItems(q: seq<Edge>, n: nat)
    requires 1 <= n < |q|
    ensures Items(q[1 := q[n]], n - 1) == Items(q, n) - multiset{q[1]}
  {
    var s := q[1..n + 1];
    assert s == [q[1]] + s[1..];
    if n > 1 {
      assert s[1..] == q[2..n] + [q[n]];
      assert q[1 := q[n]][1..n] == [q[n]] + q[2..n];
    }
  }
}

module Mst {
  import opened SpanningTree
  import opened EdgeHeap

  const MERGE_LEVEL_MAX := 256
  const QUEUE_SIZE := 65536   // MERGE_LEVEL_MAX * MERGE_LEVEL_MAX

  class EdgeQueue {
    const q: array<Edge>
    var n: nat

    ghost predicate Valid()
      reads this, q
    {
      q.Length == QUEUE_SIZE && n < q.Length && IsHeap(q[..], n)
    }

    ghost function Contents(): multiset<Edge>
      requires n < q.Length
      reads this, q
    {
      Items(q[..], n)
    }

    constructor ()
      ensures Valid() && Contents() == multiset{} && n == 0 && fresh(q)
    {
      q := new Edge[QUEUE_SIZE](_ => Edge(0, 0, 0));
      n := 0;
    }

    lemma EmptyQueue()
      requires n == 0 && Valid()
      ensures Contents() == multiset{}
    {
    }

    /** Q[k] rises to its place. */
    method UpQueue(k0: nat)
      requires k0 < q.Length && Rising(q[..], n, k0, q[k0])
      modifies q
      ensures IsHeap(q[..], n) && Contents() == old(Contents())
    {
      var k, e := k0, q[k0];
      assert q[..][k := e] == q[..];
      while k > 1 && q[k / 2].w >= e.w
        invariant 1 <= k && Rising(q[..], n, k, e)
        invariant Items(q[..][k := e], n) == old(Contents())
      {
        ghost var s := q[..];
        RiseStep(s, n, k, e);
        MoveHole(s, n, k, k / 2, e);
        q[k] := q[k / 2];
        assert q[..] == s[k := s[k / 2]];
        k := k / 2;
      }
      ghost var s := q[..];
      RiseDone(s, n, k, e);
      q[k] := e;
      assert q[..] == s[k := e];
    }

    method AddEdge(u: nat, v: nat, w: int)
      requires Valid() && n + 1 < QUEUE_SIZE
      modifies this, q
      ensures Valid() && Contents() == old(Contents()) + multiset{Edge(u, v, w)} && n == old(n) + 1
    {
      n := n + 1;
      q[n] := Edge(u, v, w);
      assert q[1..n + 1] == old(q[1..n + 1]) + [Edge(u, v, w)];
      assert q[..][1..n + 1] == q[1..n + 1];
      UpQueue(n);
    }

    /** Q[1] sinks to its place. */
    method DownQueue()
      requires n < q.Length && 1 < q.Length
      requires n >= 1 ==> Sinking(q[..], n, 1, q[1])
      modifies q
      ensures IsHeap(q[..], n) && Contents() == old(Contents())
    {
      var k, e := 1, q[1];
      assert q[..][k := e] == q[..];
      while k <= n / 2
        invariant n >= 1 ==> Sinking(q[..], n, k, e) && Items(q[..][k := e], n) == old(Contents())
        invariant n == 0 ==> k == 1 && q[..] == old(q[..])
        decreases n - k
      {
        var j := 2 * k;
        if j < n && q[j].w > q[j + 1].w {
          j := j + 1;
        }
        assert SmallerSon(q[..], n, k, j);
        if e.w <= q[j].w {
          break;
        }
        ghost var s := q[..];
        SinkStep(s, n, k, j, e);
        MoveHole(s, n, k, j, e);
        q[k] := q[j];
        assert q[..] == s[k := s[j]];
        k := j;
      }
      ghost var s := q[..];
      if n >= 1 {
        SinkDone(s, n, k, e);
      }
      q[k] := e;
      assert q[..] == s[k := e];
    }

    /** The smallest edge is always in Q[1]. */
    method PopQueue() returns (e: Edge)
      requires Valid() && n >= 1
      modifies this, q
      ensures Valid() && n == old(n) - 1
      ensures e in old(Contents()) && Contents() == old(Contents()) - multiset{e}
      ensures forall x :: x in old(Contents()) ==> e.w <= x.w
    {
      hide IsHeap, Items, Sinking;
      e := q[1];
      ghost var s := q[..];
      HeapPops(s, n);
      q[1] := q[n];
      n := n - 1;
      assert q[..] == s[1 := s[n + 1]];
      DownQueue();
    }
  }

  /** father[0] is 0, and father[v] is -1 until v is reached; sons[u] lists the sons of u. */
  datatype Tree = Tree(father: seq<int>, height: seq<nat>, sons: seq<seq<nat>>) {

    ghost predicate Fits(m: nat) {
      |father| == m && |height| == m && |sons| == m
    }

    predicate Has(v: nat) {
      v < |father| && v < |height| && v < |sons|
    }

    function Attach(s: nat, t: nat): Tree
      requires Has(s) && Has(t)
    {
      Tree(father[t := s], height[t := height[s] + 1], sons[s := sons[s] + [t]])
    }
  }

  /** Only the root is reached. */
  function Start(m: nat): Tree
    requires 1 <= m
  {
    Tree(seq(m, v => if v == 0 then 0 else -1), seq(m, _ => 0), seq(m, _ => []))
  }

  /** The reached vertices form a tree rooted at 0: every other one has a reached father, one level higher. */
  ghost predicate IsRooted(tree: Tree, m: nat, reached: set<nat>) {
    && tree.Fits(m) && 1 <= m
    && 0 in reached && reached <= Vertices(m)
    && tree.father[0] == 0 && tree.height[0] == 0
    && (forall v :: 0 <= v < m && v !in reached ==> tree.father[v] == -1)
    && (forall v :: v in reached && v != 0 ==>
          && 0 <= tree.father[v] < m && tree.father[v] in reached
          && tree.height[v] == tree.height[tree.father[v]] + 1)
  }

  lemma RootedGrows(tree: Tree, m: nat, reached: set<nat>, s: nat, t: nat)
    requires IsRooted(tree, m, reached) && s in reached && t < m && t !in reached
    ensures tree.Fits(m) && reached <= Vertices(m) && s < m && t != 0
    ensures IsRooted(tree.Attach(s, t), m, reached + {t})
  {
  }

  /** list holds, once each, the reached vertices whose father is u. */
  ghost predicate ListsSons(list: seq<nat>, u: nat, father: seq<int>, reached: set<nat>)
    requires forall v :: v in reached ==> v < |father|
  {
    && (forall v :: v in list <==> v in reached && v != 0 && father[v] == u)
    && (forall i, j :: 0 <= i < j < |list| ==> list[i] != list[j])
  }

  ghost predicate SonsMatch(sons: seq<seq<nat>>, father: seq<int>, m: nat, reached: set<nat>) {
    && |sons| == m == |father| && reached <= Vertices(m)
    && forall u :: 0 <= u < m ==> ListsSons(sons[u], u, father, reached)
  }

  lemma SonsGrow(sons: seq<seq<nat>>, father: seq<int>, m: nat, reached: set<nat>, s: nat, t: nat)
    requires SonsMatch(sons, father, m, reached) && s < m && t < m && t !in reached && t != 0
    ensures SonsMatch(sons[s := sons[s] + [t]], father[t := s], m, reached + {t})
  {
    var sons', father', reached' := sons[s := sons[s] + [t]], father[t := s], reached + {t};
    forall u | 0 <= u < m ensures ListsSons(sons'[u], u, father', reached') {
      assert ListsSons(sons[u], u, father, reached);
      assert u != s ==> sons'[u] == sons[u];
      forall v: nat ensures v in sons'[u] <==> v in reached' && v != 0 && father'[v] == u {
        assert u == s ==> (v in sons'[u] <==> v in sons[u] || v == t);
      }
    }
  }

  /** The edges from each reached vertex to its father. */
  ghost function Links(tree: Tree, reached: set<nat>): set<Link> {
    set v | v in reached && 0 < v < |tree.father| && 0 <= tree.father[v] :: Norm(tree.father[v], v)
  }

  /** f has edges between reached vertices, one fewer than there are vertices. */
  ghost predicate LinksCount(f: set<Link>, m: nat, reached: set<nat>) {
    && AreLinks(f, m)
    && |f| == |reached| - 1
    && forall l :: l in f ==> l.0 in reached && l.1 in reached
  }

  lemma CountGrows(f: set<Link>, m: nat, reached: set<nat>, s: nat, t: nat)
    requires LinksCount(f, m, reached) && s in reached && s < m && t < m && t !in reached
    ensures Norm(s, t) !in f && LinksCount(f + {Norm(s, t)}, m, reached + {t})
  {
  }

  lemma LinksExtend(tree: Tree, m: nat, reached: set<nat>, s: nat, t: nat)
    requires tree.Fits(m) && s < m && 0 < t < m && t !in reached
    ensures Links(tree.Attach(s, t), reached + {t}) == Links(tree, reached) + {Norm(s, t)}
  {
    var tree', reached' := tree.Attach(s, t), reached + {t};
    forall l | l in Links(tree, reached) ensures l in Links(tree', reached') {
      var v :| v in reached && 0 < v < m && 0 <= tree.father[v] && l == Norm(tree.father[v], v);
      assert v in reached' && tree'.father[v] == tree.father[v];
    }
    assert t in reached' && tree'.father[t] == s;
  }

  /** Between a vertex on one side of a cut and the root on the other, some vertex
      is separated from its father. */
  lemma {:induction false} ClimbCrosses(tree: Tree, m: nat, cut: set<nat>, v: nat)
    requires IsRooted(tree, m, Vertices(m)) && v < m && (v in cut) != (0 in cut)
    ensures Crossed(Links(tree, Vertices(m)), cut)
    decreases tree.height[v]
  {
    var u := tree.father[v];
    if (u in cut) == (v in cut) {
      ClimbCrosses(tree, m, cut, u);
    } else {
      var l := Norm(u, v);
      assert l in Links(tree, Vertices(m)) && Crosses(l, cut);
    }
  }

  lemma ProperSubset(s: set<nat>, t: set<nat>)
    requires s < t
    ensures t - s != {}
  {
    assert t == s + (t - s);
  }

  lemma TreeSpans(tree: Tree, m: nat)
    requires IsRooted(tree, m, Vertices(m)) && LinksCount(Links(tree, Vertices(m)), m, Vertices(m))
    ensures IsSpanningTree(Links(tree, Vertices(m)), m)
  {
    forall cut: set<nat> | cut != {} && cut < Vertices(m) ensures Crossed(Links(tree, Vertices(m)), cut) {
      hide Crossed, Links;
      var side := if 0 in cut then Vertices(m) - cut else cut;
      ProperSubset(cut, Vertices(m));
      var v :| v in side;
      ClimbCrosses(tree, m, cut, v);
    }
  }

  ghost predicate GoodEdge(e: Edge, a: CostMatrix, m: nat, reached: set<nat>)
  {
    e.s in reached && e.s < m && e.t < m && e.s != e.t && e.w == At(a, e.s, e.t)
  }

  /** The edges from u to the unreached vertices below k are in the queue. */
  ghost predicate HasEdgesFrom(c: multiset<Edge>, a: CostMatrix, m: nat, u: nat, k: nat, reached: set<nat>)
  {
    forall v :: 0 <= v < k && v !in reached ==> Edge(u, v, At(a, u, v)) in c
  }

  /** Everything in the queue starts from src, and every edge from src out of reached is in the queue. */
  ghost predicate QueueCovers(c: multiset<Edge>, a: CostMatrix, m: nat, src: set<nat>, reached: set<nat>)
  {
    && (forall e :: e in c ==> GoodEdge(e, a, m, src))
    && (forall u :: u in src && u < m ==> HasEdgesFrom(c, a, m, u, m, reached))
  }

  lemma EdgesFromStep(c: multiset<Edge>, c': multiset<Edge>, a: CostMatrix, m: nat, u: nat, k: nat, reached: set<nat>)
    requires u < m && k < m && c <= c'
    requires HasEdgesFrom(c, a, m, u, k, reached)
    requires k in reached || Edge(u, k, At(a, u, k)) in c'
    ensures HasEdgesFrom(c', a, m, u, k + 1, reached)
  {
  }

  lemma CoversExtend(c: multiset<Edge>, c': multiset<Edge>, a: CostMatrix, m: nat, src: set<nat>, reached: set<nat>, u: nat)
    requires u < m && c <= c' && reached == src + {u}
    requires QueueCovers(c, a, m, src, reached)
    requires forall e :: e in c' ==> GoodEdge(e, a, m, reached)
    requires HasEdgesFrom(c', a, m, u, m, reached)
    ensures QueueCovers(c', a, m, reached, reached)
  {
    forall x | x in reached && x < m ensures HasEdgesFrom(c', a, m, x, m, reached) {
      if x != u {
        assert HasEdgesFrom(c, a, m, x, m, reached);
      }
    }
  }

  /** Once e.t is reached, the edge e is no longer needed. */
  lemma CoversPop(c: multiset<Edge>, a: CostMatrix, m: nat, reached: set<nat>, e: Edge)
    requires e in c && QueueCovers(c, a, m, reached, reached)
    ensures e.s in reached && e.s < m && e.t < m
    ensures QueueCovers(c - multiset{e}, a, m, reached, reached + {e.t})
  {
    assert GoodEdge(e, a, m, reached);
    forall x | x in reached && x < m ensures HasEdgesFrom(c - multiset{e}, a, m, x, m, reached + {e.t}) {
      assert HasEdgesFrom(c, a, m, x, m, reached);
    }
  }

  lemma PoppedIsCheapest(c: multiset<Edge>, a: CostMatrix, m: nat, reached: set<nat>, e: Edge)
    requires QueueCovers(c, a, m, reached, reached)
    requires e in c && e.t !in reached && forall x :: x in c ==> e.w <= x.w
    ensures Cheapest(a, m, reached, e.s, e.t)
  {
    assert GoodEdge(e, a, m, reached);
    forall x, y | x in reached && x < m && 0 <= y < m && y !in reached ensures At(a, e.s, e.t) <= At(a, x, y) {
      assert HasEdgesFrom(c, a, m, x, m, reached);
      assert Edge(x, y, At(a, x, y)) in c;
    }
  }

  lemma QueueReaches(c: multiset<Edge>, a: CostMatrix, m: nat, reached: set<nat>)
    requires QueueCovers(c, a, m, reached, reached)
    requires 0 in reached && 1 <= m && reached < Vertices(m)
    ensures c != multiset{}
  {
    ProperSubset(reached, Vertices(m));
    var v :| v in Vertices(m) - reached;
    assert HasEdgesFrom(c, a, m, 0, m, reached);
    assert Edge(0, v, At(a, 0, v)) in c;
  }

  /** father[v] is -1 exactly for the vertices not yet reached. */
  ghost predicate Marked(father: seq<int>, m: nat, reached: set<nat>) {
    |father| == m && forall v :: 0 <= v < m ==> if v in reached then father[v] >= 0 else father[v] == -1
  }

  /** Adds the edges from u, which has just been reached, to the unreached vertices. */
  method AddAllEdges(queue: EdgeQueue, u: nat, father: seq<int>, a: CostMatrix, m: nat,
                     ghost src: set<nat>, ghost reached: set<nat>)
    requires IsCostMatrix(a, m) && u < m <= MERGE_LEVEL_MAX && reached == src + {u}
    requires Marked(father, m, reached)
    requires queue.Valid() && queue.n + m <= QUEUE_SIZE
    requires QueueCovers(queue.Contents(), a, m, src, reached)
    modifies queue, queue.q
    ensures queue.Valid() && queue.n <= old(queue.n) + m - 1
    ensures QueueCovers(queue.Contents(), a, m, reached, reached)
  {
    ghost var c0 := queue.Contents();
    forall e | e in c0 ensures GoodEdge(e, a, m, reached) {
      assert GoodEdge(e, a, m, src);
    }
    for v := 0 to m
      invariant queue.Valid() && queue.n <= old(queue.n) + (if v <= u then v else v - 1)
      invariant forall e :: e in queue.Contents() ==> GoodEdge(e, a, m, reached)
      invariant c0 <= queue.Contents()
      invariant HasEdgesFrom(queue.Contents(), a, m, u, v, reached)
    {
      ghost var c := queue.Contents();
      if v != u && father[v] < 0 {
        assert GoodEdge(Edge(u, v, At(a, u, v)), a, m, reached);
        queue.AddEdge(u, v, a[u][v]);
      }
      EdgesFromStep(c, queue.Contents(), a, m, u, v, reached);
    }
    CoversExtend(c0, queue.Contents(), a, m, src, reached, u);
  }

  ghost predicate IsMaximum(height: seq<nat>, reached: set<nat>, hmax: nat) {
    && (forall v :: v in reached ==> v < |height| && height[v] <= hmax)
    && (exists v :: v in reached && height[v] == hmax)
  }

  lemma MaximumGrows(height: seq<nat>, reached: set<nat>, hmax: nat, t: nat, h: nat)
    requires IsMaximum(height, reached, hmax) && t !in reached && t < |height|
    ensures IsMaximum(height[t := h], reached + {t}, if h > hmax then h else hmax)
  {
    var height', reached' := height[t := h], reached + {t};
    var v :| v in reached && height[v] == hmax;
    assert v in reached' && t in reached' && height'[v] == hmax;
  }

  /** What Prim's loop keeps: a tree with its cost, which no spanning tree can beat. */
  ghost predicate PrimState(a: CostMatrix, m: nat, tree: Tree, reached: set<nat>, w: int, hmax: nat) {
    && IsRooted(tree, m, reached)
    && SonsMatch(tree.sons, tree.father, m, reached)
    && LinksCount(Links(tree, reached), m, reached)
    && w == Cost(a, Links(tree, reached))
    && LowerBound(a, m, reached, w)
    && IsMaximum(tree.height, reached, hmax)
  }

  lemma PrimInit(a: CostMatrix, m: nat)
    requires 1 <= m
    ensures PrimState(a, m, Start(m), {0}, 0, 0)
  {
    var tree := Start(m);
    LowerBoundInit(a, m);
    assert Links(tree, {0}) == {};
    assert 0 in {0} && tree.height[0] == 0;
  }

  lemma TreeStep(m: nat, tree: Tree, reached: set<nat>, hmax: nat, s: nat, t: nat)
    requires IsRooted(tree, m, reached) && SonsMatch(tree.sons, tree.father, m, reached)
    requires IsMaximum(tree.height, reached, hmax)
    requires s in reached && t < m && t !in reached
    ensures s < m && t != 0 && tree.Has(s) && tree.Has(t)
    ensures var tree', h := tree.Attach(s, t), tree.height[s] + 1;
      && IsRooted(tree', m, reached + {t}) && SonsMatch(tree'.sons, tree'.father, m, reached + {t})
      && IsMaximum(tree'.height, reached + {t}, if h > hmax then h else hmax)
  {
    RootedGrows(tree, m, reached, s, t);
    SonsGrow(tree.sons, tree.father, m, reached, s, t);
    MaximumGrows(tree.height, reached, hmax, t, tree.height[s] + 1);
  }

  lemma CostStep(a: CostMatrix, m: nat, tree: Tree, reached: set<nat>, w: int, s: nat, t: nat)
    requires tree.Fits(m) && reached <= Vertices(m) && LinksCount(Links(tree, reached), m, reached)
    requires w == Cost(a, Links(tree, reached)) && LowerBound(a, m, reached, w)
    requires IsCostMatrix(a, m) && Cheapest(a, m, reached, s, t) && t != 0
    ensures var f' := Links(tree.Attach(s, t), reached + {t});
      && LinksCount(f', m, reached + {t})
      && w + At(a, s, t) == Cost(a, f') && LowerBound(a, m, reached + {t}, w + At(a, s, t))
  {
    var f, l := Links(tree, reached), Norm(s, t);
    LinksExtend(tree, m, reached, s, t);
    CountGrows(f, m, reached, s, t);
    CostAdd(a, f, l);
    assert At(a, l.0, l.1) == At(a, s, t);
    LowerBoundStep(a, m, reached, w, s, t);
  }

  lemma PrimStep(a: CostMatrix, m: nat, tree: Tree, reached: set<nat>, w: int, hmax: nat, s: nat, t: nat)
    requires IsCostMatrix(a, m) && PrimState(a, m, tree, reached, w, hmax) && Cheapest(a, m, reached, s, t)
    ensures tree.Has(s) && tree.Has(t)
    ensures var h := tree.height[s] + 1;
      PrimState(a, m, tree.Attach(s, t), reached + {t}, w + At(a, s, t), if h > hmax then h else hmax)
  {
    hide SonsMatch, IsMaximum, LinksCount, Cost, LowerBound, Links;
    TreeStep(m, tree, reached, hmax, s, t);
    CostStep(a, m, tree, reached, w, s, t);
  }

  lemma PrimFacts(a: CostMatrix, m: nat, tree: Tree, reached: set<nat>, w: int, hmax: nat)
    requires IsCostMatrix(a, m) && PrimState(a, m, tree, reached, w, hmax)
    ensures tree.Fits(m) && 0 in reached && reached <= Vertices(m) && |reached| <= m
    ensures Marked(tree.father, m, reached)
  {
    assert Vertices(m) == reached + (Vertices(m) - reached);
  }

  lemma AllReached(c: multiset<Edge>, a: CostMatrix, m: nat, tree: Tree, reached: set<nat>, w: int, hmax: nat)
    requires IsCostMatrix(a, m) && PrimState(a, m, tree, reached, w, hmax)
    requires |reached| == m || (c == multiset{} && QueueCovers(c, a, m, reached, reached))
    ensures reached == Vertices(m)
  {
    PrimFacts(a, m, tree, reached, w, hmax);
    if |reached| == m {
      assert Vertices(m) == reached + (Vertices(m) - reached);
    } else if reached != Vertices(m) {
      QueueReaches(c, a, m, reached);
    }
  }

  /** The tree reaches every vertex, spans them at cost w, and no spanning tree is cheaper. */
  ghost predicate IsMinimalTree(a: CostMatrix, m: nat, tree: Tree, w: int) {
    && IsRooted(tree, m, Vertices(m))
    && SonsMatch(tree.sons, tree.father, m, Vertices(m))
    && IsSpanningTree(Links(tree, Vertices(m)), m)
    && w == Cost(a, Links(tree, Vertices(m)))
    && forall f | IsSpanningTree(f, m) :: w <= Cost(a, f)
  }

  lemma PrimDone(a: CostMatrix, m: nat, tree: Tree, w: int, hmax: nat)
    requires IsCostMatrix(a, m) && PrimState(a, m, tree, Vertices(m), w, hmax)
    ensures IsMinimalTree(a, m, tree, w) && IsMaximum(tree.height, Vertices(m), hmax)
  {
    TreeSpans(tree, m);
    LowerBoundFinal(a, m, w);
  }

  lemma PrimStart(a: CostMatrix, m: nat)
    requires 1 <= m
    ensures PrimState(a, m, Start(m), {0}, 0, 0) && Marked(Start(m).father, m, {0})
    ensures QueueCovers(multiset{}, a, m, {}, {0})
  {
    PrimInit(a, m);
  }

  /** What the popped edge e does to the tree: it is attached if it reaches a new vertex, else dropped. */
  lemma PopStep(c: multiset<Edge>, a: CostMatrix, m: nat, tree: Tree, reached: set<nat>, w: int, hmax: nat, e: Edge)
    requires IsCostMatrix(a, m) && PrimState(a, m, tree, reached, w, hmax) && QueueCovers(c, a, m, reached, reached)
    requires e in c && forall x :: x in c ==> e.w <= x.w
    ensures e.s < m && e.t < m && tree.Has(e.s) && tree.Has(e.t) && |reached| <= m
    ensures QueueCovers(c - multiset{e}, a, m, reached, reached + {e.t})
    ensures tree.father[e.t] != -1 ==> reached + {e.t} == reached
    ensures tree.father[e.t] == -1 ==>
      var tree', h := tree.Attach(e.s, e.t), tree.height[e.s] + 1;
      && |reached + {e.t}| == |reached| + 1 <= m && Marked(tree'.father, m, reached + {e.t})
      && PrimState(a, m, tree', reached + {e.t}, w + At(a, e.s, e.t), if h > hmax then h else hmax)
  {
    hide PrimState, QueueCovers, IsCostMatrix;
    PrimFacts(a, m, tree, reached, w, hmax);
    CoversPop(c, a, m, reached, e);
    if tree.father[e.t] == -1 {
      PoppedIsCheapest(c, a, m, reached, e);
      PopAttaches(a, m, tree, reached, w, hmax, e);
    } else {
      assert e.t in reached;
    }
  }

  lemma PopAttaches(a: CostMatrix, m: nat, tree: Tree, reached: set<nat>, w: int, hmax: nat, e: Edge)
    requires IsCostMatrix(a, m) && PrimState(a, m, tree, reached, w, hmax) && tree.Has(e.s) && tree.Has(e.t)
    requires e.s in reached && e.s < m && e.t < m && e.t !in reached && Cheapest(a, m, reached, e.s, e.t)
    ensures var tree', h := tree.Attach(e.s, e.t), tree.height[e.s] + 1;
      && |reached + {e.t}| == |reached| + 1 <= m && Marked(tree'.father, m, reached + {e.t})
      && PrimState(a, m, tree', reached + {e.t}, w + At(a, e.s, e.t), if h > hmax then h else hmax)
  {
    hide PrimState, IsCostMatrix, Cheapest;
    PrimStep(a, m, tree, reached, w, hmax, e.s, e.t);
    var h := tree.height[e.s] + 1;
    PrimFacts(a, m, tree.Attach(e.s, e.t), reached + {e.t}, w + At(a, e.s, e.t), if h > hmax then h else hmax);
  }

  /** Prim's algorithm. Edges to vertices reached in the meantime stay in the queue. */
  method MinimalSpanningTreeWithPrim(a: CostMatrix, m: nat) returns (w: int, tree: Tree, hmax: nat)
    requires IsCostMatrix(a, m) && 1 <= m <= MERGE_LEVEL_MAX
    ensures IsMinimalTree(a, m, tree, w)
    ensures IsMaximum(tree.height, Vertices(m), hmax)
  {
    hide PrimState, QueueCovers, IsMinimalTree, IsMaximum, IsHeap, Items, IsCostMatrix, Vertices, At, Marked, Start;
    tree, w, hmax := Start(m), 0, 0;
    var nV := m - 1;
    var queue := new EdgeQueue();
    ghost var reached: set<nat> := {0};
    PrimStart(a, m);
    AddAllEdges(queue, 0, tree.father, a, m, {}, reached);
    while queue.n != 0
      invariant queue.Valid() && fresh(queue) && fresh(queue.q)
      invariant PrimState(a, m, tree, reached, w, hmax)
      invariant QueueCovers(queue.Contents(), a, m, reached, reached)
      invariant nV == m - |reached| && queue.n <= |reached| * 255
      decreases nV, queue.n
    {
      ghost var c := queue.Contents();
      var e := queue.PopQueue();
      PopStep(c, a, m, tree, reached, w, hmax, e);
      if tree.father[e.t] == -1 {
        w := w + At(a, e.s, e.t);
        tree := tree.Attach(e.s, e.t);
        if tree.height[e.t] > hmax {
          hmax := tree.height[e.t];
        }
        ghost var src := reached;
        reached := reached + {e.t};
        nV := nV - 1;
        if nV == 0 {
          break;
        }
        AddAllEdges(queue, e.t, tree.father, a, m, src, reached);
      }
    }
    if queue.n == 0 {
      queue.EmptyQueue();
    }
    AllReached(queue.Contents(), a, m, tree, reached, w, hmax);
    PrimDone(a, m, tree, w, hmax);
  }
}
