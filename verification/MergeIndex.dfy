/** filter/swar.c and filter/filter_matrix.c: column weights, row lists per column and lists by weight. */
module MergeIndex {
  datatype Option<T> = None | Some(value: T)

  /** cwmax: bound on the weight; wt[j]: weight of column j, negative once the column is too heavy to follow;
      R[j]: the rows that contain j, -1 for a free place; S[w]: the columns of weight w, heavier ones in S[cwmax+1];
      A[j]: the list whose cell holds j. */
  datatype Index = Index(cwmax: nat, wt: seq<int>, R: seq<Option<seq<int>>>, S: seq<seq<nat>>, A: seq<Option<nat>>)

  // ---------- Row lists ----------

  /** Where x is first, or |r| */
  function First(r: seq<int>, x: int): (k: nat)
    ensures k <= |r| && (k < |r| ==> r[k] == x) && forall l :: 0 <= l < k ==> r[l] != x
  {
    if r == [] then 0 else if r[0] == x then 0 else 1 + First(r[1..], x)
  }

  /** The entries of r other than -1 are the elements of s, once each. */
  ghost predicate ListsRows(r: seq<int>, s: set<nat>) {
    && (forall k :: 0 <= k < |r| ==> r[k] == -1 || (r[k] >= 0 && r[k] in s))
    && (forall i :: i in s ==> i in r)
    && (forall k, l :: 0 <= k < l < |r| && r[k] == r[l] ==> r[k] == -1)
  }

  function RemoveRow(r: seq<int>, i: nat): seq<int> {
    var k := First(r, i);
    if k < |r| then r[k := -1] else r
  }

  function AddRow(r: seq<int>, i: nat): seq<int> {
    var k := First(r, -1);
    if k < |r| then r[k := i] else r + [i]
  }

  lemma RemoveRowLists(r: seq<int>, i: nat, s: set<nat>)
    requires ListsRows(r, s) && i in s
    ensures ListsRows(RemoveRow(r, i), s - {i})
  {
    var k := First(r, i);
    var r' := RemoveRow(r, i);
    assert i in r;
    forall x: nat | x in s - {i} ensures x in r' {
      assert x in r;
      var l :| 0 <= l < |r| && r[l] == x;
      assert r'[l] == x;
    }
    assert forall l :: 0 <= l < |r| && l != k ==> r'[l] == r[l] && r[l] != i;
  }

  lemma AddRowLists(r: seq<int>, i: nat, s: set<nat>)
    requires ListsRows(r, s) && i !in s
    ensures ListsRows(AddRow(r, i), s + {i})
  {
    var k := First(r, -1);
    var r' := AddRow(r, i);
    assert r'[k] == i;
    forall x: nat | x in s ensures x in r' {
      assert x in r;
      var l :| 0 <= l < |r| && r[l] == x;
      assert r'[l] == x;
    }
    assert forall l :: 0 <= l < |r| && l != k ==> r'[l] == r[l] && r[l] != i;
  }

  // ---------- Lists by weight ----------

  ghost predicate NoDup(l: seq<nat>) {
    forall k, k' :: 0 <= k < k' < |l| ==> l[k] != l[k']
  }

  /** The list without the cell of j */
  function Without(l: seq<nat>, j: nat): seq<nat> {
    if l == [] then [] else if l[0] == j then l[1..] else [l[0]] + Without(l[1..], j)
  }

  lemma {:induction false} WithoutHas(l: seq<nat>, j: nat)
    requires NoDup(l)
    ensures NoDup(Without(l, j)) && forall x :: x in Without(l, j) <==> x in l && x != j
    decreases |l|
  {
    if l != [] {
      WithoutHas(l[1..], j);
      assert l == [l[0]] + l[1..];
      if l[0] != j {
        var t := Without(l[1..], j);
        forall k | 0 <= k < |t| ensures t[k] != l[0] {
          assert t[k] in t && t[k] in l[1..];
        }
      }
    }
  }

  predicate Holds(S: seq<seq<nat>>, w: nat, j: nat) {
    w < |S| && j in S[w]
  }

  /** Every cell of a list belongs to a column that points to that list, and the other way round. */
  ghost predicate ListsAgree(S: seq<seq<nat>>, A: seq<Option<nat>>) {
    && (forall w: nat, j: nat :: Holds(S, w, j) <==> j < |A| && A[j] == Some(w))
    && (forall w: nat :: w < |S| ==> NoDup(S[w]))
  }

  /** Removes the cell of j. */
  function Unlink(S: seq<seq<nat>>, A: seq<Option<nat>>, j: nat): seq<seq<nat>> {
    if j < |A| && A[j].Some? && A[j].value < |S| then S[A[j].value := Without(S[A[j].value], j)] else S
  }

  /** Inserts a cell for j after the header of list w. */
  function Insert(S: seq<seq<nat>>, w: nat, j: nat): seq<seq<nat>> {
    if w < |S| then S[w := [j] + S[w]] else S
  }

  lemma UnlinkAgrees(S: seq<seq<nat>>, A: seq<Option<nat>>, j: nat)
    requires ListsAgree(S, A) && j < |A| && A[j].Some?
    ensures ListsAgree(Unlink(S, A, j), A[j := None])
  {
    var w, S', A' := A[j].value, Unlink(S, A, j), A[j := None];
    assert Holds(S, w, j);
    WithoutHas(S[w], j);
    forall v: nat, x: nat ensures Holds(S', v, x) <==> x < |A'| && A'[x] == Some(v) {
      assert Holds(S, v, x) <==> x < |A| && A[x] == Some(v);
    }
    forall v: nat | v < |S'| ensures NoDup(S'[v]) {
      assert NoDup(S[v]);
    }
  }

  lemma InsertAgrees(S: seq<seq<nat>>, A: seq<Option<nat>>, j: nat, w: nat)
    requires ListsAgree(S, A) && j < |A| && A[j].None? && w < |S|
    ensures ListsAgree(Insert(S, w, j), A[j := Some(w)])
  {
    var S', A' := Insert(S, w, j), A[j := Some(w)];
    assert !Holds(S, w, j) && NoDup(S[w]);
    assert forall x :: x in S'[w] <==> x in S[w] || x == j;
    forall v: nat, x: nat ensures Holds(S', v, x) <==> x < |A'| && A'[x] == Some(v) {
      assert Holds(S, v, x) <==> x < |A| && A[x] == Some(v);
    }
    forall v: nat | v < |S'| ensures NoDup(S'[v]) {
      assert NoDup(S[v]);
      assert forall k :: 0 <= k < |S[w]| ==> S[w][k] in S[w];
    }
  }

  // ---------- The whole index ----------

  /** The rows in which column j is counted */
  function Rows(cells: seq<set<nat>>, j: nat): set<nat> {
    set i: nat | i < |cells| && j in cells[i]
  }

  function ListOf(w: int, cwmax: nat): nat {
    if w > cwmax then cwmax + 1 else if w < 0 then 0 else w
  }

  /** Followed columns are recounted; the others are heavy, or retired and in no row. */
  ghost predicate ColumnAgrees(ix: Index, s: set<nat>, j: nat)
    requires j < |ix.wt| == |ix.R| == |ix.A|
  {
    match ix.A[j]
    case Some(w) => ix.wt[j] == |s| && w == ListOf(ix.wt[j], ix.cwmax) && ix.R[j].Some? && ListsRows(ix.R[j].value, s)
    case None => ix.R[j].None? && (ix.wt[j] < 0 || (ix.wt[j] == 0 && s == {}))
  }

  ghost predicate Agrees(ix: Index, cells: seq<set<nat>>) {
    && |ix.R| == |ix.A| == |ix.wt| && |ix.S| == ix.cwmax + 2
    && ListsAgree(ix.S, ix.A)
    && (forall i, j :: 0 <= i < |cells| && j in cells[i] ==> j < |ix.wt|)
    && forall j: nat :: j < |ix.wt| ==> ColumnAgrees(ix, Rows(cells, j), j)
  }

  predicate Retired(ix: Index, j: nat) {
    j < |ix.A| && j < |ix.wt| && ix.A[j].None? && ix.wt[j] == 0
  }

  /** Heavy columns stay heavy, followed ones stay followed and retired ones stay retired. */
  ghost predicate SameStatus(ix: Index, ix': Index) {
    && |ix'.A| == |ix.A| == |ix.wt| == |ix'.wt| && ix'.cwmax == ix.cwmax
    && forall j: nat :: j < |ix.A| ==>
         && ix'.A[j].Some? == ix.A[j].Some?
         && (ix.A[j].None? ==> ((ix'.wt[j] < 0) == (ix.wt[j] < 0) && (ix'.wt[j] == 0) == (ix.wt[j] == 0)))
  }

  function IncrS(w: int): int {
    if w >= 0 then w + 1 else w - 1
  }

  function DecrS(w: int): int {
    if w >= 0 then w - 1 else w + 1
  }

  /** decreaseColWeightSWAR */
  function Decreased(ix: Index, j: nat): Index
    requires j < |ix.wt|
  {
    Moved(ix, j, DecrS(ix.wt[j]))
  }

  /** Column j gets weight w and moves to the list for it. */
  function Moved(ix: Index, j: nat, w: int): Index
    requires j < |ix.wt|
  {
    var ind := ListOf(w, ix.cwmax);
    ix.(wt := ix.wt[j := w], S := Insert(Unlink(ix.S, ix.A, j), ind, j),
        A := if j < |ix.A| then ix.A[j := Some(ind)] else ix.A)
  }

  /** addColSWAR: heavy columns only have their weight changed. */
  function Increased(ix: Index, j: nat): Index
    requires j < |ix.wt|
  {
    var w := IncrS(ix.wt[j]);
    if w < 0 then ix.(wt := ix.wt[j := w]) else Moved(ix, j, w)
  }

  /** removeCellAndUpdate */
  function CellRemoved(ix: Index, i: nat, j: nat): Index
    requires j < |ix.wt|
  {
    if ix.wt[j] < 0 then ix else
      var ix' := Decreased(ix, j);
      if j < |ix.R| && ix.R[j].Some? then ix'.(R := ix.R[j := Some(RemoveRow(ix.R[j].value, i))]) else ix'
  }

  /** addCellAndUpdate */
  function CellAdded(ix: Index, i: nat, j: nat): Index
    requires j < |ix.wt|
  {
    var ix' := Increased(ix, j);
    if IncrS(ix.wt[j]) >= 0 && j < |ix.R| && ix.R[j].Some? then ix'.(R := ix.R[j := Some(AddRow(ix.R[j].value, i))]) else ix'
  }

  lemma RowsCell(cells: seq<set<nat>>, i: nat, c: set<nat>, j: nat)
    requires i < |cells|
    ensures Rows(cells[i := c], j) == if j in c then Rows(cells, j) + {i} else Rows(cells, j) - {i}
  {
  }

  lemma MoveLists(ix: Index, j: nat, w: int)
    requires ListsAgree(ix.S, ix.A) && |ix.S| == ix.cwmax + 2 && j < |ix.A| == |ix.wt| && ix.A[j].Some? && w >= 0
    ensures ListsAgree(Moved(ix, j, w).S, Moved(ix, j, w).A) && |Moved(ix, j, w).S| == ix.cwmax + 2
  {
    UnlinkAgrees(ix.S, ix.A, j);
    InsertAgrees(Unlink(ix.S, ix.A, j), ix.A[j := None], j, ListOf(w, ix.cwmax));
    assert ix.A[j := None][j := Some(ListOf(w, ix.cwmax))] == ix.A[j := Some(ListOf(w, ix.cwmax))];
  }

  /** Column j alone changes, from the rows s to the rows s'. */
  lemma OneColumn(ix: Index, ix': Index, cells: seq<set<nat>>, cells': seq<set<nat>>, j: nat)
    requires Agrees(ix, cells) && j < |ix.wt|
    requires |ix'.wt| == |ix'.R| == |ix'.A| == |ix.wt| && ix'.cwmax == ix.cwmax && |ix'.S| == |ix.S| && ListsAgree(ix'.S, ix'.A)
    requires forall x: nat :: x < |ix.wt| && x != j ==>
      ix'.wt[x] == ix.wt[x] && ix'.R[x] == ix.R[x] && ix'.A[x] == ix.A[x] && Rows(cells', x) == Rows(cells, x)
    requires forall i, x :: 0 <= i < |cells'| && x in cells'[i] ==> x < |ix.wt|
    requires ColumnAgrees(ix', Rows(cells', j), j)
    ensures Agrees(ix', cells')
  {
    hide ListsAgree, Rows, ListsRows;
    forall x: nat | x < |ix.wt| ensures ColumnAgrees(ix', Rows(cells', x), x) {
      assert ColumnAgrees(ix, Rows(cells, x), x);
    }
  }

  lemma OtherRows(cells: seq<set<nat>>, i: nat, j: nat, add: bool)
    requires i < |cells|
    ensures var cells' := cells[i := if add then cells[i] + {j} else cells[i] - {j}];
      forall x: nat :: x != j ==> Rows(cells', x) == Rows(cells, x)
  {
    var cells' := cells[i := if add then cells[i] + {j} else cells[i] - {j}];
    forall x: nat | x != j ensures Rows(cells', x) == Rows(cells, x) {
      RowsCell(cells, i, cells'[i], x);
      assert i in Rows(cells, x) <==> x in cells[i];
    }
  }

  lemma CellRemovedAgrees(ix: Index, cells: seq<set<nat>>, i: nat, j: nat)
    requires Agrees(ix, cells) && i < |cells| && j in cells[i] && j < |ix.wt|
    ensures Agrees(CellRemoved(ix, i, j), cells[i := cells[i] - {j}]) && SameStatus(ix, CellRemoved(ix, i, j))
  {
    hide ListsAgree, Rows, ListsRows, Unlink, Insert, RemoveRow;
    var s, cells', ix' := Rows(cells, j), cells[i := cells[i] - {j}], CellRemoved(ix, i, j);
    RowsCell(cells, i, cells'[i], j);
    OtherRows(cells, i, j, false);
    InRows(cells, i, j);
    assert ColumnAgrees(ix, s, j);
    if ix.wt[j] >= 0 {
      SetMinus(s, i);
      MoveLists(ix, j, ix.wt[j] - 1);
      RemoveRowLists(ix.R[j].value, i, s);
    }
    OneColumn(ix, ix', cells, cells', j);
  }

  lemma InRows(cells: seq<set<nat>>, i: nat, j: nat)
    requires i < |cells|
    ensures i in Rows(cells, j) <==> j in cells[i]
  {
  }

  lemma SetMinus(s: set<nat>, i: nat)
    requires i in s
    ensures |s - {i}| == |s| - 1
  {
  }

  lemma CellAddedAgrees(ix: Index, cells: seq<set<nat>>, i: nat, j: nat)
    requires Agrees(ix, cells) && i < |cells| && j !in cells[i] && j < |ix.wt| && !Retired(ix, j)
    ensures Agrees(CellAdded(ix, i, j), cells[i := cells[i] + {j}]) && SameStatus(ix, CellAdded(ix, i, j))
  {
    hide ListsAgree, Rows, ListsRows, Unlink, Insert, AddRow;
    var s, cells', ix' := Rows(cells, j), cells[i := cells[i] + {j}], CellAdded(ix, i, j);
    RowsCell(cells, i, cells'[i], j);
    OtherRows(cells, i, j, true);
    InRows(cells, i, j);
    assert ColumnAgrees(ix, s, j);
    if ix.wt[j] >= 0 {
      MoveLists(ix, j, ix.wt[j] + 1);
      AddRowLists(ix.R[j].value, i, s);
    }
    OneColumn(ix, ix', cells, cells', j);
  }

  /** removeColumnAndUpdate, then wt[j] := w */
  function ColumnDropped(ix: Index, j: nat, w: int): Index
    requires j < |ix.wt|
  {
    ix.(S := Unlink(ix.S, ix.A, j), A := if j < |ix.A| then ix.A[j := None] else ix.A, wt := ix.wt[j := w],
        R := if j < |ix.R| then ix.R[j := None] else ix.R)
  }

  /** A followed column may stop being followed if it is heavy, or counted in no row from now on. */
  lemma ColumnDroppedAgrees(ix: Index, cells: seq<set<nat>>, cells': seq<set<nat>>, j: nat, w: int)
    requires Agrees(ix, cells) && j < |ix.wt| && ix.A[j].Some?
    requires forall x: nat :: x != j ==> Rows(cells', x) == Rows(cells, x)
    requires forall i, x :: 0 <= i < |cells'| && x in cells'[i] ==> x < |ix.wt|
    requires w < 0 || (w == 0 && Rows(cells', j) == {})
    ensures Agrees(ColumnDropped(ix, j, w), cells')
  {
    hide Rows, ListsRows, ListsAgree, Unlink;
    UnlinkAgrees(ix.S, ix.A, j);
    UnlinkSize(ix.S, ix.A, j);
    OneColumn(ix, ColumnDropped(ix, j, w), cells, cells', j);
  }

  lemma UnlinkSize(S: seq<seq<nat>>, A: seq<Option<nat>>, j: nat)
    ensures |Unlink(S, A, j)| == |S|
  {
  }

  /** What a consistent index says: a followed column has its exact weight and row list and one cell, in the list
      for its weight; a heavy one has none; a retired one is in no row. */
  lemma Recount(ix: Index, cells: seq<set<nat>>, j: nat, w: nat)
    requires Agrees(ix, cells) && j < |ix.wt| && w < |ix.S|
    ensures j in ix.S[w] <==> ix.A[j] == Some(w)
    ensures ix.A[j].Some? ==> ix.wt[j] == |Rows(cells, j)| && ix.A[j].value == ListOf(ix.wt[j], ix.cwmax)
    ensures ix.A[j].Some? ==> ix.R[j].Some? && ListsRows(ix.R[j].value, Rows(cells, j))
    ensures Retired(ix, j) ==> forall i: nat :: i < |cells| ==> j !in cells[i]
    ensures ix.A[j].None? ==> ix.wt[j] < 0 || Retired(ix, j)
  {
    assert Holds(ix.S, w, j) <==> ix.A[j] == Some(w);
    assert ColumnAgrees(ix, Rows(cells, j), j);
    if Retired(ix, j) {
      forall i: nat | i < |cells| ensures j !in cells[i] {
        InRows(cells, i, j);
      }
    }
  }
}
