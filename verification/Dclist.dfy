/** filter/dclist.c: doubly linked lists of columns, and how the lists by weight are made of them. */
module Dclist {
  import opened MergeIndex

  class Cell {
    var j: int
    var prev: Cell?
    var next: Cell?

    /** dclistCreate */
    constructor (j0: int)
      ensures j == j0 && prev == null && next == null
    {
      j, prev, next := j0, null, null;
    }
  }

  // ---------- One list ----------

  /** The cells of a list, from its header with -1 on */
  ghost predicate Chain(l: seq<Cell>)
    reads l
  {
    && l != [] && l[0].j == -1 && l[0].prev == null && l[|l| - 1].next == null
    && (forall k {:trigger l[k].prev} :: 0 < k < |l| ==> l[k].prev == l[k - 1])
    && (forall k {:trigger l[k].next} :: 0 <= k < |l| - 1 ==> l[k].next == l[k + 1])
    && (forall k {:trigger l[k].j} :: 0 < k < |l| ==> l[k].j >= 0)
    && (forall k, k' :: 0 <= k < k' < |l| ==> l[k] != l[k'])
  }

  /** The cells l hold the columns c, behind the header. */
  ghost predicate ListIs(l: seq<Cell>, c: seq<nat>)
    reads l
  {
    Chain(l) && |l| == |c| + 1 && forall k {:trigger c[k]} :: 0 <= k < |c| ==> l[k + 1].j == c[k]
  }

  /** dclistInsert: a new cell after the cell at place p */
  method InsertAfter(dcl: Cell, j: nat, ghost l: seq<Cell>, ghost p: nat) returns (c: Cell, ghost l': seq<Cell>)
    requires Chain(l) && p < |l| && l[p] == dcl
    modifies l
    ensures fresh(c) && c.j == j && l' == l[..p + 1] + [c] + l[p + 1..] && Chain(l')
    ensures forall x :: x in l ==> x.j == old(x.j)
  {
    c := new Cell(j);
    l' := l[..p + 1] + [c] + l[p + 1..];
    c.next := dcl.next;
    c.prev := dcl;
    if dcl.next != null {
      assert l[p].next == l[p + 1];
      dcl.next.prev := c;
    }
    dcl.next := c;
  }

  /** A column becomes the first one of a list. */
  method InsertFirst(dcl: Cell, j: nat, ghost l: seq<Cell>, ghost cols: seq<nat>) returns (c: Cell, ghost l': seq<Cell>)
    requires ListIs(l, cols) && l[0] == dcl
    modifies l
    ensures fresh(c) && l' == l[..1] + [c] + l[1..] && ListIs(l', [j] + cols)
  {
    hide Chain;
    c, l' := InsertAfter(dcl, j, l, 0);
    forall k | 0 <= k < |cols| + 1 ensures l'[k + 1].j == ([j] + cols)[k] {
      assert k > 0 ==> l'[k + 1] == l[k] && l[k].j == cols[k - 1];
    }
  }

  /** dclistRemove: the cell at place p is taken out. */
  method Remove(dcl: Cell, ghost l: seq<Cell>, ghost p: nat) returns (ghost l': seq<Cell>)
    requires Chain(l) && 0 < p < |l| && l[p] == dcl
    modifies l
    ensures l' == l[..p] + l[p + 1..] && Chain(l')
    ensures forall x :: x in l ==> x.j == old(x.j)
  {
    l' := l[..p] + l[p + 1..];
    assert l[p].prev == l[p - 1];
    assert p + 1 < |l| ==> l[p].next == l[p + 1];
    var q := dcl.prev;
    if q != null {
      q.next := dcl.next;
    }
    var n := dcl.next;
    if n != null {
      n.prev := dcl.prev;
    }
  }

  /** The column at place k leaves a list. */
  method RemoveAt(dcl: Cell, ghost l: seq<Cell>, ghost cols: seq<nat>, ghost k: nat) returns (ghost l': seq<Cell>)
    requires ListIs(l, cols) && k < |cols| && l[k + 1] == dcl
    modifies l
    ensures l' == l[..k + 1] + l[k + 2..] && ListIs(l', cols[..k] + cols[k + 1..])
  {
    hide Chain;
    l' := Remove(dcl, l, k + 1);
    ghost var c := cols[..k] + cols[k + 1..];
    forall i | 0 <= i < |c| ensures l'[i + 1].j == c[i] {
      var m := if i < k then i else i + 1;
      assert l'[i + 1] == l[m + 1] && l[m + 1].j == cols[m];
    }
  }

  /** dclistFirst: the cell after the header, if there is one */
  method FirstCell(dcl: Cell, ghost l: seq<Cell>, ghost cols: seq<nat>) returns (c: Cell?)
    requires ListIs(l, cols) && l[0] == dcl
    ensures if cols == [] then c == null else c != null && c == l[1] && c.j == cols[0]
  {
    assert |l| > 1 ==> l[0].next == l[1];
    c := if dcl.j == -1 then dcl.next else dcl;
  }

  /** dclistLength: the number of columns */
  method Length(dcl0: Cell, ghost l: seq<Cell>, ghost cols: seq<nat>) returns (n: int)
    requires ListIs(l, cols) && l[0] == dcl0
    ensures n == |cols|
  {
    n := -1;
    var dcl: Cell? := dcl0;
    while true
      invariant -1 <= n < |l| - 1 && dcl == l[n + 1]
      decreases |l| - n
    {
      n := n + 1;
      assert n < |l| - 1 ==> l[n].next == l[n + 1];
      dcl := dcl.next;
      if dcl == null {
        break;
      }
    }
  }

  // ---------- The lists by weight ----------

  /** No cell is in two lists. */
  ghost predicate Separate(chains: seq<seq<Cell>>) {
    forall v, w, x :: 0 <= v < w < |chains| && x in chains[v] ==> x !in chains[w]
  }

  /** A[j] is the cell of column j, in the list at[j]. */
  ghost predicate Placed(chains: seq<seq<Cell>>, contents: seq<seq<nat>>, A: seq<Cell?>, at: seq<Option<nat>>) {
    && |at| == |A| && |contents| == |chains| && ListsAgree(contents, at)
    && (forall w :: 0 <= w < |chains| ==> |chains[w]| == |contents[w]| + 1)
    && (forall w, k :: 0 <= w < |chains| && 0 <= k < |contents[w]| ==> contents[w][k] < |A| && A[contents[w][k]] == chains[w][k + 1])
    && (forall j :: 0 <= j < |A| ==> (A[j] == null <==> at[j] == None))
  }

  /** S[w] is the header of list w. The ghost fields are what the cells stand for. */
  class Lists {
    var S: seq<Cell>
    var A: seq<Cell?>
    ghost var chains: seq<seq<Cell>>
    ghost var contents: seq<seq<nat>>
    ghost var at: seq<Option<nat>>
    ghost var Repr: set<Cell>

    ghost predicate Valid()
      reads this, Repr
    {
      && |chains| == |S| && Separate(chains) && Placed(chains, contents, A, at)
      && (forall w, x :: 0 <= w < |chains| && x in chains[w] ==> x in Repr)
      && (forall w :: 0 <= w < |S| ==> ListIs(chains[w], contents[w]) && chains[w][0] == S[w])
    }

    /** No lists yet */
    constructor (ncols: nat)
      ensures Valid() && S == [] && |A| == ncols && contents == [] && at == seq(ncols, _ => None) && Repr == {}
    {
      S, A := [], seq(ncols, _ => null);
      chains, contents, at, Repr := [], [], seq(ncols, _ => None), {};
      new;
      NoLists(A, at);
    }

    /** One more list, which is a header: the step of initSWAR */
    method AddList()
      requires Valid()
      modifies this
      ensures Valid() && |S| == |old(S)| + 1 && A == old(A) && fresh(Repr - old(Repr))
      ensures contents == old(contents) + [[]] && at == old(at)
    {
      hide Chain, ListIs, Separate, Placed, ListsAgree;
      PlacedShape(chains, contents, A, at);
      var c := new Cell(-1);
      ListAdded(chains, contents, A, at, Repr, c);
      HeaderOnly(c);
      S := S + [c];
      chains, contents, Repr := chains + [[c]], contents + [[]], Repr + {c};
    }

    /** A[j] = dclistInsert (S[w], j) */
    method Insert(w: nat, j: nat)
      requires Valid() && w < |S| && j < |A| && A[j] == null
      modifies this, Repr
      ensures Valid() && S == old(S) && |A| == |old(A)| && fresh(Repr - old(Repr))
      ensures contents == MergeIndex.Insert(old(contents), w, j) && at == old(at)[j := Some(w)]
    {
      hide Chain, ListIs, Separate, Placed, ListsAgree;
      ghost var l, r := chains[w], Repr;
      PlacedShape(chains, contents, A, at);
      HeaderIs(l, contents[w]);
      SeparateAll(chains, w);
      var c, l' := InsertFirst(S[w], j, l, contents[w]);
      forall v | 0 <= v < |S| && v != w ensures ListIs(chains[v], contents[v]) {
        assert old(ListIs(chains[v], contents[v]));
        assert forall k :: 0 <= k < |chains[v]| ==> chains[v][k] in chains[v] && chains[v][k] !in l;
        assert forall k :: 0 <= k < |chains[v]| ==> unchanged(chains[v][k]);
      }
      NewCell(chains, r, c);
      InsertPlaced(chains, contents, A, at, w, j, c);
      A := A[j := c];
      Repr := Repr + {c};
      chains := chains[w := l'];
      contents := contents[w := [j] + contents[w]];
      at := at[j := Some(w)];
      StillInside(l, l', r, c);
    }

    /** remove_j_from_SWAR */
    method RemoveColumn(j: nat)
      requires Valid() && j < |A|
      modifies this, Repr
      ensures Valid() && S == old(S) && |A| == |old(A)| && Repr == old(Repr)
      ensures contents == Unlink(old(contents), old(at), j) && at == old(at)[j := None] && A == old(A)[j := null]
    {
      hide Chain, ListIs, Separate, Placed, ListsAgree;
      ghost var k := PlaceOf(chains, contents, A, at, j);
      if A[j] == null {
        assert at[j := None] == at && A[j := null] == A;
        return;
      }
      ghost var w := at[j].value;
      ghost var l := chains[w];
      HeaderIs(l, contents[w]);
      SeparateAll(chains, w);
      ghost var l' := RemoveAt(A[j], l, contents[w], k);
      forall v | 0 <= v < |S| && v != w ensures ListIs(chains[v], contents[v]) {
        assert old(ListIs(chains[v], contents[v]));
        assert forall k :: 0 <= k < |chains[v]| ==> chains[v][k] in chains[v] && chains[v][k] !in l;
        assert forall k :: 0 <= k < |chains[v]| ==> unchanged(chains[v][k]);
      }
      RemovePlaced(chains, contents, A, at, j, k);
      A := A[j := null];
      chains := chains[w := l'];
      contents := contents[w := Without(contents[w], j)];
      at := at[j := None];
    }

    /** How decreaseColWeightSWAR and addColSWAR move a column to list w */
    method Move(j: nat, w: nat)
      requires Valid() && j < |A| && w < |S|
      modifies this, Repr
      ensures Valid() && S == old(S) && |A| == |old(A)| && fresh(Repr - old(Repr))
      ensures contents == MergeIndex.Insert(Unlink(old(contents), old(at), j), w, j) && at == old(at)[j := Some(w)]
    {
      RemoveColumn(j);
      Insert(w, j);
    }

    /** deleteEmptyColumnsSWAR: dclistRemoveMessy takes the cells out one by one without mending the links back; what is
        left is the header. */
    method Clear(w: nat) returns (n: nat)
      requires Valid() && w < |S|
      modifies this, Repr
      ensures Valid() && S == old(S) && |A| == |old(A)| && Repr == old(Repr)
      ensures n == |old(contents)[w]| && contents == old(contents)[w := []] && at == ClearedAt(old(at), w)
    {
      hide Chain, ListIs, Separate, Placed, ListsAgree;
      PlacedShape(chains, contents, A, at);
      ghost var l, c := chains[w], contents[w];
      SeparateAll(chains, w);
      CellsAre(l, c);
      NoneCleared(A, c);
      var header := S[w];
      assert header == l[0] && header in l;
      n := 0;
      while header.next != null
        invariant n <= |c| && header.next == (if n < |c| then l[n + 1] else null) && A == ClearedCells(old(A), c[..n])
        invariant header.j == -1 && header.prev == null
        invariant forall k :: 0 < k < |l| ==> l[k] != header && l[k].j == c[k - 1] && l[k].next == if k < |c| then l[k + 1] else null
        modifies this`A, header
        decreases |c| - n
      {
        var cell := header.next;
        assert cell == l[n + 1];
        ghost var k := n + 1;
        assert cell == l[k] && cell.next == if k < |c| then l[k + 1] else null;
        var j := cell.j;
        ColumnInRange(chains, contents, old(A), at, w, n);
        header.next := cell.next;
        ClearedNext(old(A), c, n);
        A := A[j := null];
        n := n + 1;
      }
      assert c[..n] == c;
      forall v | 0 <= v < |S| && v != w ensures ListIs(chains[v], contents[v]) {
        assert old(ListIs(chains[v], contents[v]));
        assert forall k :: 0 <= k < |chains[v]| ==> chains[v][k] in chains[v] && chains[v][k] != header;
        assert forall k :: 0 <= k < |chains[v]| ==> unchanged(chains[v][k]);
      }
      ClearPlaced(chains, contents, old(A), at, w);
      HeaderOnly(header);
      chains := chains[w := [header]];
      contents := contents[w := []];
      at := ClearedAt(at, w);
    }

    /** dclistFirst (S[w]) */
    method FirstOf(w: nat) returns (j: int)
      requires Valid() && w < |S|
      ensures j == if contents[w] == [] then -1 else contents[w][0]
    {
      ghost var l := chains[w];
      assert ListIs(l, contents[w]);
      var c := FirstCell(S[w], l, contents[w]);
      j := if c == null then -1 else c.j;
    }
  }

  lemma CellsAre(l: seq<Cell>, c: seq<nat>)
    requires ListIs(l, c)
    ensures |l| == |c| + 1 && l[0].j == -1 && l[0].prev == null && l[0].next == if c == [] then null else l[1]
    ensures forall k :: 0 < k < |l| ==> l[k] != l[0] && l[k].j == c[k - 1] && l[k].next == if k < |c| then l[k + 1] else null
  {
    forall k | 0 < k < |l| ensures l[k].j == c[k - 1] {
      var i := k - 1;
      assert l[i + 1].j == c[i];
    }
  }

  lemma NoLists(A: seq<Cell?>, at: seq<Option<nat>>)
    requires |at| == |A| && forall j :: 0 <= j < |A| ==> A[j] == null && at[j] == None
    ensures Separate([]) && Placed([], [], A, at)
  {
  }

  lemma HeaderOnly(c: Cell)
    requires c.j == -1 && c.prev == null && c.next == null
    ensures ListIs([c], [])
  {
  }

  lemma ListAdded(chains: seq<seq<Cell>>, contents: seq<seq<nat>>, A: seq<Cell?>, at: seq<Option<nat>>, r: set<Cell>, c: Cell)
    requires Separate(chains) && Placed(chains, contents, A, at) && c !in r
    requires forall w, x :: 0 <= w < |chains| && x in chains[w] ==> x in r
    ensures Separate(chains + [[c]]) && Placed(chains + [[c]], contents + [[]], A, at)
  {
    forall v: nat, x: nat ensures Holds(contents + [[]], v, x) <==> x < |at| && at[x] == Some(v) {
      assert Holds(contents, v, x) <==> x < |at| && at[x] == Some(v);
    }
  }

  ghost function ClearedAt(at: seq<Option<nat>>, w: nat): seq<Option<nat>> {
    seq(|at|, j requires 0 <= j < |at| => if at[j] == Some(w) then None else at[j])
  }

  /** A without the cells of the columns c */
  ghost function ClearedCells(A: seq<Cell?>, c: seq<nat>): (r: seq<Cell?>)
    ensures |r| == |A|
  {
    seq(|A|, j requires 0 <= j < |A| => if j in c then null else A[j])
  }

  lemma NoneCleared(A: seq<Cell?>, c: seq<nat>)
    ensures ClearedCells(A, c[..0]) == A
  {
  }

  lemma ClearedNext(A: seq<Cell?>, c: seq<nat>, n: nat)
    requires n < |c| && c[n] < |A|
    ensures ClearedCells(A, c[..n])[c[n] := null] == ClearedCells(A, c[..n + 1])
  {
    assert c[..n + 1] == c[..n] + [c[n]];
  }

  lemma ColumnInRange(chains: seq<seq<Cell>>, contents: seq<seq<nat>>, A: seq<Cell?>, at: seq<Option<nat>>, w: nat, n: nat)
    requires Placed(chains, contents, A, at) && w < |chains| && n < |contents[w]|
    ensures contents[w][n] < |A|
  {
  }

  lemma ClearPlaced(chains: seq<seq<Cell>>, contents: seq<seq<nat>>, A: seq<Cell?>, at: seq<Option<nat>>, w: nat)
    requires Separate(chains) && Placed(chains, contents, A, at) && w < |chains| && chains[w] != []
    ensures Separate(chains[w := [chains[w][0]]])
    ensures Placed(chains[w := [chains[w][0]]], contents[w := []], ClearedCells(A, contents[w]), ClearedAt(at, w))
  {
    hide Separate;
    SeparateLess(chains, w, [chains[w][0]]);
    var contents', at' := contents[w := []], ClearedAt(at, w);
    forall v: nat, x: nat ensures Holds(contents', v, x) <==> x < |at'| && at'[x] == Some(v) {
      assert Holds(contents, v, x) <==> x < |at| && at[x] == Some(v);
    }
    assert forall v: nat :: v < |contents'| ==> NoDup(contents'[v]);
    forall j | 0 <= j < |A| ensures j in contents[w] <==> at[j] == Some(w) {
      assert Holds(contents, w, j) <==> at[j] == Some(w);
    }
    forall v, k | 0 <= v < |chains| && v != w && 0 <= k < |contents[v]| ensures contents[v][k] !in contents[w] {
      assert Holds(contents, v, contents[v][k]);
    }
  }

  lemma HeaderIs(l: seq<Cell>, c: seq<nat>)
    requires ListIs(l, c)
    ensures |l| == |c| + 1
  {
  }

  lemma PlacedShape(chains: seq<seq<Cell>>, contents: seq<seq<nat>>, A: seq<Cell?>, at: seq<Option<nat>>)
    requires Placed(chains, contents, A, at)
    ensures |contents| == |chains| && |at| == |A|
  {
  }

  lemma StillInside(l: seq<Cell>, l': seq<Cell>, r: set<Cell>, c: Cell)
    requires l != [] && l' == l[..1] + [c] + l[1..] && (forall x :: x in l ==> x in r)
    ensures (forall x :: x in l' ==> x in r + {c}) && l'[0] == l[0]
  {
  }

  lemma SeparateAll(chains: seq<seq<Cell>>, w: nat)
    requires Separate(chains) && w < |chains|
    ensures forall v, x :: 0 <= v < |chains| && v != w && x in chains[v] ==> x !in chains[w]
  {
  }

  lemma NewCell(chains: seq<seq<Cell>>, r: set<Cell>, c: Cell)
    requires c !in r && forall w, x :: 0 <= w < |chains| && x in chains[w] ==> x in r
    ensures forall w :: 0 <= w < |chains| ==> c !in chains[w]
  {
  }

  lemma InsertPlaced(chains: seq<seq<Cell>>, contents: seq<seq<nat>>, A: seq<Cell?>, at: seq<Option<nat>>, w: nat, j: nat, c: Cell)
    requires Separate(chains) && Placed(chains, contents, A, at) && w < |chains| && j < |A| && A[j] == null
    requires forall v :: 0 <= v < |chains| ==> c !in chains[v]
    ensures var l' := chains[w][..1] + [c] + chains[w][1..];
      && Separate(chains[w := l'])
      && Placed(chains[w := l'], contents[w := [j] + contents[w]], A[j := c], at[j := Some(w)])
  {
    hide ListsAgree;
    InsertAgrees(contents, at, j, w);
    var l' := chains[w][..1] + [c] + chains[w][1..];
    forall x ensures x in l' <==> x in chains[w] || x == c {
      assert chains[w] == chains[w][..1] + chains[w][1..];
    }
    NotListed(contents, at, j);
  }

  lemma NotListed(contents: seq<seq<nat>>, at: seq<Option<nat>>, j: nat)
    requires ListsAgree(contents, at) && j < |at| && at[j].None?
    ensures forall v, k :: 0 <= v < |contents| && 0 <= k < |contents[v]| ==> contents[v][k] != j
  {
    forall v, k | 0 <= v < |contents| && 0 <= k < |contents[v]| ensures contents[v][k] != j {
      assert Holds(contents, v, contents[v][k]);
    }
  }

  /** The place of column j in its list */
  lemma PlaceOf(chains: seq<seq<Cell>>, contents: seq<seq<nat>>, A: seq<Cell?>, at: seq<Option<nat>>, j: nat) returns (k: nat)
    requires Placed(chains, contents, A, at) && j < |A|
    ensures |at| == |A| && |contents| == |chains| && (A[j] == null <==> at[j] == None)
    ensures at[j].Some? ==> var w := at[j].value;
      w < |chains| && k < |contents[w]| && contents[w][k] == j && k + 1 < |chains[w]| && A[j] == chains[w][k + 1]
    ensures at[j].Some? ==> var c := contents[at[j].value]; Without(c, j) == c[..k] + c[k + 1..]
  {
    k := 0;
    if at[j].Some? {
      var w := at[j].value;
      assert Holds(contents, w, j);
      k :| 0 <= k < |contents[w]| && contents[w][k] == j;
      WithoutAt(contents[w], j, k);
    }
  }

  lemma {:induction false} WithoutAt(c: seq<nat>, j: nat, k: nat)
    requires NoDup(c) && k < |c| && c[k] == j
    ensures Without(c, j) == c[..k] + c[k + 1..]
    decreases k
  {
    if k > 0 {
      WithoutAt(c[1..], j, k - 1);
    }
  }

  lemma SeparateLess(chains: seq<seq<Cell>>, w: nat, l': seq<Cell>)
    requires Separate(chains) && w < |chains| && forall x :: x in l' ==> x in chains[w]
    ensures Separate(chains[w := l'])
  {
  }

  lemma RemovePlaced(chains: seq<seq<Cell>>, contents: seq<seq<nat>>, A: seq<Cell?>, at: seq<Option<nat>>, j: nat, k: nat)
    requires Separate(chains) && Placed(chains, contents, A, at) && j < |A| && at[j].Some?
    requires at[j].value < |chains| && k < |contents[at[j].value]| && contents[at[j].value][k] == j
    requires var c := contents[at[j].value]; Without(c, j) == c[..k] + c[k + 1..]
    ensures var w := at[j].value;
      var l' := chains[w][..k + 1] + chains[w][k + 2..];
      && Separate(chains[w := l'])
      && Placed(chains[w := l'], contents[w := Without(contents[w], j)], A[j := null], at[j := None])
  {
    hide ListsAgree, Separate, Without;
    var w := at[j].value;
    UnlinkAgrees(contents, at, j);
    var l', c' := chains[w][..k + 1] + chains[w][k + 2..], Without(contents[w], j);
    SeparateLess(chains, w, l');
    var contents', chains' := contents[w := c'], chains[w := l'];
    NotListed(contents', at[j := None], j);
    forall v, i | 0 <= v < |chains| && 0 <= i < |contents'[v]|
      ensures contents'[v][i] < |A| && A[j := null][contents'[v][i]] == chains'[v][i + 1]
    {
      assert contents'[v][i] != j;
      if v == w {
        var m := if i < k then i else i + 1;
        assert c'[i] == contents[w][m] && l'[i + 1] == chains[w][m + 1];
      }
    }
  }
}
