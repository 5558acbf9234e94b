/** filter/merge_mono.c, mergeForColumn: one step of the merge phase, and runs of it. */
module MergeColumn {
  import opened Gf2
  import opened SparseRows
  import opened MergeIndex
  import opened History
  import opened MergeTree
  import opened LostRows
  import opened FilterMatrix
  import opened SpanningTree
  import opened Mst
  import opened TreeHistory
  import opened Merge
  import opened TreeMerge
  import opened Replay
  import opened SmallMatrix

  // ---------- Both combinations replace rows along a tree ----------

  ghost function SetOf(ind: seq<nat>): set<nat> {
    set i | i in ind
  }

  /** The rows of s are combined along some tree; one of them is dropped. */
  ghost predicate Combined(V: Rowset, V': Rowset, s: set<nat>) {
    exists root: nat, father: map<nat, nat>, rank: map<nat, nat> :: Combines(V, V', s, root, father, rank)
  }

  lemma {:induction false} AddAllEach(V: Rowset, src: nat, l: seq<nat>, i: nat)
    requires src < |V| && V[src].Some? && Distinct(l) && i < |V|
    requires forall k :: 0 <= k < |l| ==> l[k] < |V| && l[k] != src && V[l[k]].Some?
    ensures AddAll(V, src, AsInts(l))[i] == if i in l then Some(Xor(V[i].value, V[src].value)) else V[i]
    decreases |l|
  {
    if l == [] {
      assert AsInts(l) == [];
    } else {
      var n := |l| - 1;
      var l' := l[..n];
      assert l == l' + [l[n]];
      assert l[n] !in l';
      AddAllSnoc(V, src, l', l[n]);
      AddAllEach(V, src, l', i);
      AddAllEach(V, src, l', src);
      AddAllEach(V, src, l', l[n]);
    }
  }

  lemma OthersAre(ind: seq<nat>, i: nat)
    requires i < |ind| && Distinct(ind)
    ensures Distinct(Others(ind, i, |ind|)) && SetOf(Others(ind, i, |ind|)) == SetOf(ind) - {ind[i]}
  {
    hide Others;
    var o := Others(ind, i, |ind|);
    forall k, l | 0 <= k < l < |o| ensures o[k] != o[l] {
      OtherAt(ind, i, |ind|, k);
      OtherAt(ind, i, |ind|, l);
    }
    forall x | x in o ensures x in ind && x != ind[i] {
      var l :| 0 <= l < |o| && o[l] == x;
      OtherAt(ind, i, |ind|, l);
    }
    forall x | x in ind && x != ind[i] ensures x in o {
      var k :| 0 <= k < |ind| && ind[k] == x;
      AtOther(ind, i, k);
    }
  }

  lemma AtOther(ind: seq<nat>, i: nat, k: nat)
    requires i < |ind| && k < |ind| && k != i
    ensures ind[k] in Others(ind, i, |ind|)
  {
    assert Others(ind, i, |ind|)[if k < i then k else k - 1] == ind[k];
  }

  lemma StarCombines(V: Rowset, ind: seq<nat>, i: nat)
    requires i < |ind| && Distinct(ind) && AreLive(ind, V)
    ensures Combined(V, AddAll(V, ind[i], AsInts(Others(ind, i, |ind|)))[ind[i] := None], SetOf(ind))
  {
    var src, o, s := ind[i], Others(ind, i, |ind|), SetOf(ind);
    var V' := AddAll(V, src, AsInts(o))[src := None];
    OthersAre(ind, i);
    OthersLive(V, ind, i, |ind|);
    var father := map x | x in s :: src;
    var rank := map x | x in s :: if x == src then 0 else 1;
    assert forall k :: 0 <= k < |o| ==> o[k] == AsInts(o)[k];
    forall x: nat | x < |V| ensures V'[x] == if x in s then CombinedRow(V, src, father, x) else V[x] {
      AddAllEach(V, src, o, x);
      assert x in SetOf(o) <==> x in o;
    }
    StarFits(V, V', s, ind, src, father, rank);
  }

  lemma StarFits(V: Rowset, V': Rowset, s: set<nat>, ind: seq<nat>, src: nat, father: map<nat, nat>, rank: map<nat, nat>)
    requires AreLive(ind, V) && s == SetOf(ind) && src in s && |V'| == |V| && father.Keys == s == rank.Keys
    requires forall x :: x in s ==> father[x] == src && rank[x] == if x == src then 0 else 1
    requires forall x: nat :: x < |V| ==> V'[x] == if x in s then CombinedRow(V, src, father, x) else V[x]
    ensures Combined(V, V', s)
  {
    assert Combines(V, V', s, src, father, rank);
  }

  ghost function FatherRow(p: Plan, x: nat): nat
    requires p.Sound() && x in p.ind
  {
    p.Row(p.Father(VertexOf(p, x)))
  }

  ghost function RankOf(p: Plan, x: nat): nat
    requires p.Sound() && x in p.ind
  {
    p.Shape();
    p.tree.height[VertexOf(p, x)]
  }

  lemma TreeCombines(p: Plan, V: Rowset, V': Rowset)
    requires p.Sound() && p.LiveRows(V) && TreeMerged(p, V, V')
    ensures Combined(V, V', SetOf(p.ind))
  {
    hide Plan.Sound, VertexOf, FatherRow, RankOf, CombinedRow;
    var s := SetOf(p.ind);
    var father := map x: nat | x in s :: FatherRow(p, x);
    var rank := map x: nat | x in s :: RankOf(p, x);
    forall x | x in s
      ensures x < |V| && V[x].Some? && V'[x] == CombinedRow(V, p.Row(0), father, x)
      ensures x != p.Row(0) ==> father[x] in s && rank[father[x]] < rank[x]
    {
      TreeRow(p, V, V', father, rank, VertexOf(p, x));
    }
    RowsElsewhere(p, V, V');
    VertexIs(p, 0);
    assert Combines(V, V', s, p.Row(0), father, rank);
  }

  lemma RowsElsewhere(p: Plan, V: Rowset, V': Rowset)
    requires p.Sound() && p.LiveRows(V) && TreeMerged(p, V, V')
    ensures forall x: nat :: x < |V| && x !in SetOf(p.ind) ==> V'[x] == V[x]
  {
    p.Shape();
    hide Plan.Sound;
    assert forall v: nat :: v < p.m ==> p.Row(v) in p.ind;
  }

  /** The vertex that stands for row x */
  ghost function VertexOf(p: Plan, x: nat): (v: nat)
    requires p.Sound() && x in p.ind
    ensures v < p.m && p.Row(v) == x
  {
    p.Shape();
    var v :| 0 <= v < |p.ind| && p.ind[v] == x;
    v
  }

  lemma VertexIs(p: Plan, v: nat)
    requires p.Sound() && v < p.m
    ensures p.Row(v) in p.ind && VertexOf(p, p.Row(v)) == v
  {
    p.Shape();
    var u := VertexOf(p, p.Row(v));
    if u != v {
      p.RowsDiffer(u, v);
    }
  }

  lemma TreeRow(p: Plan, V: Rowset, V': Rowset, father: map<nat, nat>, rank: map<nat, nat>, v: nat)
    requires p.Sound() && p.LiveRows(V) && TreeMerged(p, V, V') && v < p.m
    requires father.Keys == rank.Keys == SetOf(p.ind)
    requires forall x :: x in father ==> father[x] == FatherRow(p, x)
    requires forall x :: x in rank ==> rank[x] == RankOf(p, x)
    ensures var x := p.Row(v); x < |V| && V[x].Some? && V'[x] == CombinedRow(V, p.Row(0), father, x)
    ensures var x := p.Row(v); x in father && (x != p.Row(0) ==> father[x] in SetOf(p.ind) && rank[father[x]] < rank[x])
  {
    hide Plan.Sound, VertexOf;
    p.Shape();
    VertexIs(p, v);
    if v != 0 {
      FatherFacts(p, v);
      VertexIs(p, p.Father(v));
      p.Shape();
      p.RowsDiffer(v, 0);
    }
  }

  lemma FatherFacts(p: Plan, v: nat)
    requires p.Sound() && 0 < v < p.m
    ensures |p.tree.height| == p.m && p.Father(v) < p.m && p.tree.height[p.Father(v)] < p.tree.height[v]
  {
    assert v in Vertices(p.m);
  }

  // ---------- One column ----------

  /** The line that is reported is that of the best star. */
  ghost predicate StarReported(V: Rowset, wburied: seq<nat>, nburied: nat, ind: seq<nat>, lines: seq<seq<int>>, lines': seq<seq<int>>) {
    && AreLive(ind, V) && |wburied| == |V|
    && exists root: nat :: IsBest(V, ind, wburied, nburied, root) && lines' == lines + [AsInts(StarLine(ind, root))]
  }

  /** A star for at most two rows or without useMST, and else a tree */
  ghost predicate ColumnReported(V: Rowset, wburied: seq<nat>, nburied: nat, ind: seq<nat>, useMST: bool, lines: seq<seq<int>>, lines': seq<seq<int>>) {
    if |ind| <= 2 || !useMST then StarReported(V, wburied, nburied, ind, lines, lines') else TreeReported(V, wburied, nburied, ind, lines, lines')
  }

  /** findOptimalCombination */
  method FindOptimalCombination(mat: Matrix, ind: seq<nat>, useMST: bool)
    requires mat.Valid() && 1 <= |ind| <= MERGE_LEVEL_MAX && Distinct(ind) && AreLive(ind, mat.Live()) && |mat.wburied| == |mat.rows|
    modifies mat`rows, mat`wt, mat`S, mat`A, mat`R, mat`cells, mat`outfile, mat`lines
    ensures mat.Valid() && SameStatus(old(mat.Ix()), mat.Ix()) && |mat.rows| == |old(mat.rows)|
    ensures Combined(old(mat.Live()), mat.Live(), SetOf(ind)) && Extends(old(mat.lines), mat.lines, |ind|)
    ensures Written(old(mat.Live()), mat.Live(), old(mat.lines), mat.lines)
    ensures ColumnReported(old(mat.Live()), mat.wburied, mat.nburied, ind, useMST, old(mat.lines), mat.lines)
  {
    hide Extends, Agrees, SameStatus, RowsSorted, Explains, Print, Sets, Distinct, AreLive, Combined, Weighed, TreeMerged, Plan.Sound, Plan.LiveRows, IsMinimalTree, AddAll, Written, IsBest,
      StarLine, AsInts;
    if |ind| <= 2 || !useMST {
      ghost var root := TryAllCombinations(mat, ind);
      StarCombines(old(mat.Live()), ind, root);
    } else {
      var a := FillRowAddMatrix(mat, ind);
      ghost var p := MSTWithA(mat, ind, a);
      ghost var w: int :| IsMinimalTree(a, |ind|, p.tree, w);
      TreeCombines(p, old(mat.Live()), mat.Live());
    }
  }

  /** The entries of a row list, without its free places */
  function Entries(r: seq<int>, k: nat): seq<nat>
    requires k <= |r|
  {
    if k == 0 then [] else Entries(r, k - 1) + if r[k - 1] >= 0 then [r[k - 1]] else []
  }

  lemma {:induction false} EntriesAre(r: seq<int>, k: nat, s: set<nat>)
    requires ListsRows(r, s) && k <= |r|
    ensures Distinct(Entries(r, k)) && SetOf(Entries(r, k)) == Listed(r, k) && |Entries(r, k)| == |Listed(r, k)|
    decreases k
  {
    hide Listed, Distinct, SetOf, ListsRows;
    if k == 0 {
      NoneListed(r);
      NoEntries();
    } else {
      EntriesAre(r, k - 1, s);
      NextListed(r, k - 1, s);
      if r[k - 1] >= 0 {
        DistinctMore(Entries(r, k - 1), r[k - 1]);
      } else {
        FreePlace(r, k - 1, s);
        assert Entries(r, k) == Entries(r, k - 1);
      }
    }
  }

  lemma NoEntries()
    ensures Distinct([]) && SetOf([]) == {}
  {
  }

  lemma FreePlace(r: seq<int>, k: nat, s: set<nat>)
    requires ListsRows(r, s) && k < |r| && r[k] < 0
    ensures r[k] == -1
  {
  }

  lemma DistinctMore(e: seq<nat>, i: nat)
    requires Distinct(e) && i !in SetOf(e)
    ensures Distinct(e + [i]) && SetOf(e + [i]) == SetOf(e) + {i}
  {
    assert forall k :: 0 <= k < |e| ==> e[k] in SetOf(e);
  }

  lemma {:induction false} EntriesShort(r: seq<int>, k: nat, n: nat)
    requires k <= n <= |r| && |Entries(r, k)| == |Entries(r, n)|
    ensures Entries(r, k) == Entries(r, n)
    decreases n
  {
    if k < n {
      EntriesGrow(r, k, n - 1);
      EntriesShort(r, k, n - 1);
    }
  }

  lemma {:induction false} EntriesGrow(r: seq<int>, k: nat, n: nat)
    requires k <= n <= |r|
    ensures |Entries(r, k)| <= |Entries(r, n)|
    decreases n
  {
    if k < n {
      EntriesGrow(r, k, n - 1);
    }
  }

  /** The rows of a column, read from its row list */
  method CollectRows(r: seq<int>, m: nat, ghost s: set<nat>) returns (ind: seq<nat>)
    requires ListsRows(r, s) && m == |s| && m >= 1
    ensures Distinct(ind) && SetOf(ind) == s && |ind| == m && ind == Entries(r, |r|)
  {
    ind := [];
    var k := 0;
    AllListed(r, s);
    EntriesAre(r, |r|, s);
    while k < |r|
      invariant k <= |r| && ind == Entries(r, k)
    {
      if r[k] != -1 {
        assert r[k] >= 0;
        ind := ind + [r[k]];
        if |ind| == m {
          EntriesShort(r, k + 1, |r|);
          return;
        }
      }
      k := k + 1;
    }
  }

  /** The rows of column j in the order of its row list */
  function RowsListed(R: seq<Option<seq<int>>>, j: nat): seq<nat> {
    if j < |R| && R[j].Some? then Entries(R[j].value, |R[j].value|) else []
  }

  lemma RowsAreLive(rows: seq<Option<seq<nat>>>, cells: seq<set<nat>>, j: nat, ind: seq<nat>)
    requires cells == Sets(Values(rows)) && SetOf(ind) == Rows(cells, j)
    ensures AreLive(ind, Values(rows)) && RowsWith(Values(rows), j, SetOf(ind))
  {
    forall k | 0 <= k < |ind| ensures ind[k] < |rows| && rows[ind[k]].Some? {
      assert ind[k] in SetOf(ind);
      CountedRow(rows, cells, ind[k], j);
    }
    forall i: nat ensures i in SetOf(ind) <==> i < |rows| && Values(rows)[i].Some? && j in Values(rows)[i].value {
      if i < |rows| {
        InRows(cells, i, j);
      }
    }
  }

  lemma NoRowLeft(rows: seq<Option<seq<nat>>>, cells: seq<set<nat>>, j: nat)
    requires cells == Sets(Values(rows)) && ColumnGone(Values(rows), j)
    ensures Rows(cells, j) == {}
  {
    forall i: nat | i < |cells| ensures j !in cells[i] {
      if Values(rows)[i].Some? {
        assert j !in Values(rows)[i].value;
      }
    }
  }

  lemma CombinedMerges(V: Rowset, V': Rowset, s: set<nat>, j: nat)
    requires Combined(V, V', s) && RowsWith(V, j, s)
    ensures ColumnMerged(V, V', j) && |Present(V')| == |Present(V)| - 1
  {
    hide Combines, InRowSpan, Present;
    var root: nat, father: map<nat, nat>, rank: map<nat, nat> :| Combines(V, V', s, root, father, rank);
    CombinesMerges(V, V', s, root, father, rank, j);
    CombinesPresent(V, V', s, root, father, rank);
  }

  method MergeForColumn(mat: Matrix, m: nat, j: nat, useMST: bool)
    requires mat.Valid() && |mat.wburied| == |mat.rows| && j < |mat.wt| && j < |mat.A| && mat.A[j].Some?
    requires mat.wt[j] == m && 1 <= m <= MERGE_LEVEL_MAX
    modifies mat
    ensures mat.Valid() && OneWay(old(mat.Ix()), mat.Ix()) && Retired(mat.Ix(), j)
    ensures ColumnMerged(old(mat.Live()), mat.Live(), j) && |mat.rows| == |old(mat.rows)| && Extends(old(mat.lines), mat.lines, m)
    ensures Followed(mat.A) == Followed(old(mat.A)) - {j} && |Present(mat.Live())| == |Present(old(mat.Live()))| - 1
    ensures mat.rem_nrows == old(mat.rem_nrows) - 1 && mat.rem_ncols == old(mat.rem_ncols) - 1
    ensures Written(old(mat.Live()), mat.Live(), old(mat.lines), mat.lines) && |RowsListed(old(mat.R), j)| == m
    ensures ColumnReported(old(mat.Live()), mat.wburied, mat.nburied, RowsListed(old(mat.R), j), useMST, old(mat.lines), mat.lines)
  {
    hide ColumnReported, Written, Entries, Agrees, SameStatus, RowsSorted, Explains, Print, Sets, Distinct, AreLive, Combined, Rows, ListsRows, Values, OneWay,
      ColumnMerged, RowsWith, Unlink, Followed, ColumnGone, Extends, Present;
    ghost var V, ix, cells := mat.Live(), mat.Ix(), mat.cells;
    ColumnFacts(ix, cells, j);
    Recount(ix, cells, j, 0);
    var ind := CollectRows(mat.R[j].value, m, Rows(cells, j));
    RowsAreLive(mat.rows, cells, j, ind);
    FindOptimalCombination(mat, ind, useMST);
    CombinedMerges(V, mat.Live(), SetOf(ind), j);
    mat.rem_nrows := mat.rem_nrows - 1;
    mat.rem_ncols := mat.rem_ncols - 1;
    ghost var ix' := mat.Ix();
    StatusFollowed(ix, ix', j);
    ColumnFacts(ix', mat.cells, j);
    MergedGone(V, mat.Live(), j);
    NoRowLeft(mat.rows, mat.cells, j);
    EmptyDropped(ix', mat.cells, j);
    DroppedOneWay(ix, ix', cells, j, 0);
    mat.RemoveColumnAndUpdate(j);
    DroppedFollowed(ix', j);
  }

  lemma MergedGone(V: Rowset, V': Rowset, j: nat)
    requires ColumnMerged(V, V', j)
    ensures ColumnGone(V', j)
  {
  }

  lemma DroppedFollowed(ix: Index, j: nat)
    requires j < |ix.wt| == |ix.A|
    ensures Followed(ColumnDropped(ix, j, 0).A) == Followed(ix.A) - {j} && Retired(ColumnDropped(ix, j, 0), j)
  {
  }

  lemma EmptyDropped(ix: Index, cells: seq<set<nat>>, j: nat)
    requires Agrees(ix, cells) && j < |ix.wt| && j < |ix.A| && ix.A[j].Some? && Rows(cells, j) == {}
    ensures Agrees(ColumnDropped(ix, j, 0), cells)
  {
    ColumnDroppedAgrees(ix, cells, cells, j, 0);
  }

  // ---------- Runs ----------

  /** mergeForColumn, for column j */
  ghost predicate DidColumn(s: Snapshot, s': Snapshot, j: nat, useMST: bool) {
    && |s'.rows| == |s.rows| && Written(Values(s.rows), Values(s'.rows), s.lines, s'.lines)
    && ColumnReported(Values(s.rows), s.wburied, s.nburied, RowsListed(s.ix.R, j), useMST, s.lines, s'.lines)
    && Retired(s'.ix, j) && Followed(s'.ix.A) == Followed(s.ix.A) - {j}
    && s'.rem_nrows == s.rem_nrows - 1 && s'.rem_ncols == s.rem_ncols - 1
  }

  /** deleteHeavyColumns: exactly the columns in the last list are no longer followed. */
  ghost predicate DidHeavy(s: Snapshot, s': Snapshot) {
    && s'.rows == s.rows && s'.lines == s.lines && s'.rem_nrows == s.rem_nrows && s'.rem_ncols == s.rem_ncols
    && forall j: nat :: j in Followed(s'.ix.A) <==> j < |s.ix.A| && s.ix.A[j].Some? && s.ix.A[j] != Some(s.ix.cwmax + 1)
  }

  /** One turn for the weight m: the first column of its list is merged, and then heavy columns leave the lists. */
  ghost predicate ColumnTurn(s: Snapshot, s': Snapshot, m: nat, useMST: bool) {
    m < |s.ix.S| && s.ix.S[m] != [] && ColumnDone(s, s', s.ix.S[m][0], useMST)
  }

  /** mergeForColumn2 */
  ghost predicate ColumnDone(s: Snapshot, s': Snapshot, j: nat, useMST: bool) {
    exists mid: Snapshot :: DidColumn(s, mid, j, useMST) && DidHeavy(mid, s')
  }

  lemma ViaColumn(s: Snapshot, mid: Snapshot, s': Snapshot, j: nat, useMST: bool)
    requires DidColumn(s, mid, j, useMST) && DidHeavy(mid, s')
    ensures ColumnDone(s, s', j, useMST)
  {
  }

  lemma TurnIs(s: Snapshot, s': Snapshot, m: nat, j: nat, useMST: bool)
    requires m < |s.ix.S| && s.ix.S[m] != [] && s.ix.S[m][0] == j && ColumnDone(s, s', j, useMST)
    ensures ColumnTurn(s, s', m, useMST)
  {
  }

  /** A sequence of such turns, which merge the columns of J */
  ghost predicate ColumnTurns(states: seq<Snapshot>, m: nat, J: set<nat>) {
    && |states| == |J| + 1
    && forall k :: 0 <= k < |J| ==> ColumnTurn(states[k], states[k + 1], m, true) && states[k].ix.S[m][0] in J
  }

  lemma NoTurn(s: Snapshot, m: nat)
    ensures ColumnTurns([s], m, {})
  {
  }

  lemma TurnsMore(states: seq<Snapshot>, s: Snapshot, m: nat, J: set<nat>, j: nat)
    requires ColumnTurns(states, m, J) && ColumnTurn(states[|J|], s, m, true) && states[|J|].ix.S[m][0] == j && j !in J
    ensures ColumnTurns(states + [s], m, J + {j})
  {
    hide ColumnTurn;
    TurnFacts(states[|J|], s, m);
    var states', J' := states + [s], J + {j};
    assert |J'| == |J| + 1;
    forall k | 0 <= k < |J'| ensures ColumnTurn(states'[k], states'[k + 1], m, true) && m < |states'[k].ix.S| && states'[k].ix.S[m] != [] && states'[k].ix.S[m][0] in J' {
      if k < |J| {
        assert ColumnTurn(states[k], states[k + 1], m, true);
        TurnFacts(states[k], states[k + 1], m);
      }
    }
    assert states'[0..] == states';
  }

  lemma TurnFacts(s: Snapshot, s': Snapshot, m: nat)
    requires ColumnTurn(s, s', m, true)
    ensures m < |s.ix.S| && s.ix.S[m] != []
  {
  }

  /** What a step has done that merges the columns of J */
  ghost predicate Merges(V: Rowset, V': Rowset, ix: Index, ix': Index, J: set<nat>) {
    && OneWay(ix, ix') && ColumnsMerged(V, V', J) && |Present(V')| + |J| == |Present(V)|
    && J + Followed(ix'.A) <= Followed(ix.A) && J !! Followed(ix'.A) && forall j :: j in J ==> Retired(ix', j)
  }

  lemma NoMerges(V: Rowset, ix: Index)
    ensures Merges(V, V, ix, ix, {})
  {
    SameOneWay(ix);
    NoneMerged(V);
  }

  lemma MergesTwice(V: Rowset, W: Rowset, W': Rowset, ix0: Index, ix: Index, ix': Index, J: set<nat>, j: nat)
    requires Merges(V, W, ix0, ix, J) && Merges(W, W', ix, ix', {j})
    ensures Merges(V, W', ix0, ix', J + {j}) && j !in J && |J + {j}| == |J| + 1 && |Followed(ix'.A)| < |Followed(ix.A)|
  {
    hide ColumnsMerged, OneWay, Present, Followed, Retired;
    MergedTwice(V, W, W', J, {j});
    OneWayTwice(ix0, ix, ix');
    RetiredMore(ix, ix', J);
    SubCount(Followed(ix'.A), Followed(ix.A) - {j});
    assert Followed(ix.A) == (Followed(ix.A) - {j}) + {j};
  }

  /** mergeForColumn2 */
  method MergeForColumn2(mat: Matrix, j: nat, useMST: bool) returns (njrem: nat)
    requires mat.Valid() && |mat.wburied| == |mat.rows| && j < |mat.wt| && j < |mat.A| && mat.A[j].Some? && 1 <= mat.wt[j] <= MERGE_LEVEL_MAX
    requires mat.cwmax >= 1
    modifies mat
    ensures mat.Valid() && Merges(old(mat.Live()), mat.Live(), old(mat.Ix()), mat.Ix(), {j})
    ensures |mat.rows| == |old(mat.rows)| && Extends(old(mat.lines), mat.lines, old(mat.wt)[j])
    ensures mat.rem_nrows == old(mat.rem_nrows) - 1 && mat.rem_ncols == old(mat.rem_ncols) - 1
    ensures ColumnDone(old(Now(mat)), Now(mat), j, useMST) && |mat.S| == mat.cwmax + 2
    ensures njrem == |Followed(old(mat.A))| - |Followed(mat.A)| - 1
  {
    hide ColumnReported, Written, RowsListed, Agrees, RowsSorted, Explains, Print, OneWay, ColumnMerged, ColumnsMerged, Extends, Present,
      Values, Sets, TreeReported, Retired, Followed, ColumnDone;
    ghost var s0, V, ix := Now(mat), mat.Live(), mat.Ix();
    IsFollowed(mat.A, j);
    MergeForColumn(mat, mat.wt[j], j, useMST);
    ghost var s1, ix1 := Now(mat), mat.Ix();
    ColumnIs(s0, s1, j, useMST);
    NoneMerged(V);
    MergedMore(V, V, mat.Live(), {}, j);
    assert {} + {j} == {j};
    ListCount(ix1, mat.cells);
    ghost var heavy;
    njrem, heavy := mat.DeleteAllColsFromStack(mat.cwmax + 1);
    OneWayTwice(ix, ix1, mat.Ix());
    RetiredMore(ix1, mat.Ix(), {j});
    HeavyIs(s1, Now(mat), heavy);
    ViaColumn(s0, s1, Now(mat), j, useMST);
    OthersLeft(Followed(ix.A), Followed(ix1.A), Followed(mat.A), j, heavy);
    ListCount(mat.Ix(), mat.cells);
  }

  /** merge_m_fast: merges all columns of weight m, or maxdo of them if maxdo > 0. J is the set of merged columns; the turns of
      the loop lead from state to state. */
  method MergeM(mat: Matrix, m: nat, maxdo0: int) returns (njrem: nat, ghost J: set<nat>, ghost states: seq<Snapshot>)
    requires mat.Valid() && |mat.wburied| == |mat.rows| && 1 <= m <= mat.cwmax && m <= MERGE_LEVEL_MAX
    modifies mat
    ensures mat.Valid() && Merges(old(mat.Live()), mat.Live(), old(mat.Ix()), mat.Ix(), J) && |mat.rows| == |old(mat.rows)|
    ensures m < |old(mat.S)| && (old(mat.S)[m] != [] ==> J != {})
    ensures maxdo0 <= 0 ==> m < |mat.S| && mat.S[m] == []
    ensures maxdo0 > 0 ==> |J| <= maxdo0 && (|J| == maxdo0 || (m < |mat.S| && mat.S[m] == []))
    ensures Extends(old(mat.lines), mat.lines, m)
    ensures mat.rem_nrows == old(mat.rem_nrows) - |J| && mat.rem_ncols == old(mat.rem_ncols) - |J|
    ensures njrem == |Followed(old(mat.A))| - |Followed(mat.A)| - |J|
    ensures ColumnTurns(states, m, J) && states[0] == old(Now(mat)) && states[|J|] == Now(mat)
  {
    hide ColumnTurn, ColumnTurns, ColumnDone, Merges, Extends, Agrees, RowsSorted, Explains, Print, Sets, Values, Followed;
    ghost var V, ix0 := mat.Live(), mat.Ix();
    var maxdo := maxdo0;
    njrem, J, states := 0, {}, [Now(mat)];
    NoTurn(Now(mat), m);
    ExtendsNone(mat.lines, m);
    NoMerges(V, ix0);
    ListCount(mat.Ix(), mat.cells);
    while mat.S[m] != []
      invariant mat.Valid() && |mat.wburied| == |mat.rows| == |old(mat.rows)| && m < |mat.S| && (maxdo0 <= 0 ==> maxdo <= 0)
      invariant Merges(V, mat.Live(), ix0, mat.Ix(), J) && Extends(old(mat.lines), mat.lines, m)
      invariant J == {} ==> mat.S == old(mat.S)
      invariant mat.rem_nrows == old(mat.rem_nrows) - |J| && mat.rem_ncols == old(mat.rem_ncols) - |J| && maxdo == maxdo0 - |J|
      invariant ColumnTurns(states, m, J) && [old(Now(mat))] <= states && |states| == |J| + 1 && states[|J|] == Now(mat)
      invariant njrem == |Followed(ix0.A)| - |Followed(mat.A)| - |J| && (maxdo0 > 0 ==> maxdo > 0)
      decreases |Followed(mat.A)|
    {
      ghost var s0, W := Now(mat), mat.Live();
      var j := mat.S[m][0];
      CellOf(s0.ix, mat.cells, m, j);
      WeightOfCell(s0.ix, mat.cells, m, j);
      var n := MergeForColumn2(mat, j, true);
      njrem := njrem + n;
      ExtendsTwice(old(mat.lines), s0.lines, mat.lines, m);
      MergesTwice(V, W, mat.Live(), ix0, s0.ix, mat.Ix(), J, j);
      TurnIs(s0, Now(mat), m, j, true);
      TurnsMore(states, Now(mat), m, J, j);
      states := states + [Now(mat)];
      J := J + {j};
      maxdo := maxdo - 1;
      if maxdo == 0 {
        return;
      }
    }
  }

  lemma ColumnIs(s: Snapshot, s': Snapshot, j: nat, useMST: bool)
    requires |s'.rows| == |s.rows| && Written(Values(s.rows), Values(s'.rows), s.lines, s'.lines)
    requires ColumnReported(Values(s.rows), s.wburied, s.nburied, RowsListed(s.ix.R, j), useMST, s.lines, s'.lines)
    requires Retired(s'.ix, j) && Followed(s'.ix.A) == Followed(s.ix.A) - {j}
    requires s'.rem_nrows == s.rem_nrows - 1 && s'.rem_ncols == s.rem_ncols - 1
    ensures DidColumn(s, s', j, useMST)
  {
  }

  lemma HeavyIs(s: Snapshot, s': Snapshot, J: set<nat>)
    requires s'.rows == s.rows && s'.lines == s.lines && s'.rem_nrows == s.rem_nrows && s'.rem_ncols == s.rem_ncols
    requires Followed(s'.ix.A) == Followed(s.ix.A) - J && forall j: nat :: j in J <==> j < |s.ix.A| && s.ix.A[j] == Some(s.ix.cwmax + 1)
    ensures DidHeavy(s, s')
  {
  }

  lemma OthersLeft(F: set<nat>, F1: set<nat>, F2: set<nat>, j: nat, heavy: set<nat>)
    requires j in F && F1 == F - {j} && heavy <= F1 && F2 == F1 - heavy
    ensures |F| == |F2| + |heavy| + 1
  {
    assert F1 == F2 + heavy && F == F1 + {j};
  }

  lemma WeightOfCell(ix: Index, cells: seq<set<nat>>, m: nat, j: nat)
    requires Agrees(ix, cells) && j < |ix.wt| == |ix.A| && ix.A[j] == Some(m) && m <= ix.cwmax
    ensures ix.wt[j] == m
  {
    assert ColumnAgrees(ix, Rows(cells, j), j);
  }

  /** The history file has the lines that were reported, and lines with costs anywhere between them. The rows that
      replay computes are those after the lines that it reads; if it reads all of them, these are the live rows. */
  method ReplayMatches(mat: Matrix, file: string, costmin: nat, ghost records: seq<Record>) returns (newrows: array<Option<seq<nat>>>)
    requires mat.Valid() && file == Text(records) && LinesOf(records) == mat.lines
    ensures newrows.Length == |mat.rows| && RowsSorted(newrows[..])
    ensures Values(newrows[..]) == DoLines(Units(|mat.rows|), LinesOf(records[..ReadCount(records, costmin)]))
    ensures var V := DoLines(mat.start, LinesOf(records[..ReadCount(records, costmin)]));
      Represents(V, Values(newrows[..]), Sets(mat.start))
    ensures ReadCount(records, costmin) == |records| <==> forall k :: 0 <= k < |records| ==> !Stops(records[k], costmin)
    ensures (forall k :: 0 <= k < |records| ==> !Stops(records[k], costmin)) ==>
      forall i: nat :: i < |mat.rows| && mat.rows[i].Some? ==>
        newrows[i].Some? && Cols(mat.rows[i].value) == Comb(Sets(mat.start), Cols(newrows[i].value))
  {
    hide Agrees, RowsSorted, Print, LinesOk, Stops, Text, LinesOf, DoLines, ReadCount, Represents;
    ghost var n := ReadCount(records, costmin);
    UnitsRepresent(mat.start);
    LinesOkRepresents(mat.start, Units(|mat.start|), Sets(mat.start), mat.lines);
    newrows := BuildNewRows(file, |mat.rows|, costmin, records);
    ReadsAll(records, costmin);
    PrefixRepresents(mat.start, records, n);
    if n == |records| {
      assert records[..n] == records;
      RowsRepresented(mat, newrows[..]);
    }
  }

  /** Replaying a part of the history on row numbers represents the rows at that time. */
  lemma PrefixRepresents(start: Rowset, records: seq<Record>, n: nat)
    requires n <= |records| && LinesOk(start, LinesOf(records))
    ensures Represents(DoLines(start, LinesOf(records[..n])), DoLines(Units(|start|), LinesOf(records[..n])), Sets(start))
  {
    hide LinesOk, LinesOf, DoLines;
    LinesPrefixOf(records, n);
    var all, l := LinesOf(records), LinesOf(records[..n]);
    assert all[..|l|] == l;
    LinesPrefix(start, all, |l|);
    UnitsRepresent(start);
    DoLinesRepresents(start, Units(|start|), Sets(start), l);
  }

  lemma RowsRepresented(mat: Matrix, newrows: seq<Option<seq<nat>>>)
    requires mat.Valid() && Values(newrows) == DoLines(Units(|mat.start|), mat.lines) && |newrows| == |mat.rows|
    ensures forall i: nat :: i < |mat.rows| && mat.rows[i].Some? ==>
      newrows[i].Some? && Cols(mat.rows[i].value) == Comb(Sets(mat.start), Cols(newrows[i].value))
  {
    hide Agrees, RowsSorted, Print, LinesOk, DoLines;
    ReplayMeansMerge(mat.start, mat.lines, mat.Live());
    var V, N := mat.Live(), Values(newrows);
    forall i: nat | i < |mat.rows| && mat.rows[i].Some?
      ensures newrows[i].Some? && Cols(mat.rows[i].value) == Comb(Sets(mat.start), Cols(newrows[i].value))
    {
      assert V[i].Some? && N[i] == Value(newrows[i]);
    }
  }

  /** replay as a whole: the rows of the small matrix are the rows after the lines that are read, on every set K of columns
      on which the relations and the rows that merge started from are the same. If all lines are read, they are the live rows. */
  method MakeSmallMatrix(mat: Matrix, file: string, costmin: nat, ghost records: seq<Record>, rels: seq<seq<nat>>, ncols: nat, ghost K: set<nat>)
    returns (newrows: array<Option<seq<nat>>>, m: Small)
    requires mat.Valid() && file == Text(records) && LinesOf(records) == mat.lines
    requires |rels| == |mat.rows| && forall i :: 0 <= i < |rels| ==> Sorted(rels[i]) && forall j :: j in rels[i] ==> j < ncols
    requires |mat.start| == |rels| && forall i :: 0 <= i < |rels| ==> Cols(rels[i]) * K == Sets(mat.start)[i] * K
    ensures m.Valid() && newrows.Length == |mat.rows| && |m.rows| == Rank(newrows[..], newrows.Length)
    ensures var V := DoLines(mat.start, LinesOf(records[..ReadCount(records, costmin)])); IsSmall(m.rows, newrows[..], V, K)
    ensures (forall k :: 0 <= k < |records| ==> !Stops(records[k], costmin)) ==> IsSmall(m.rows, newrows[..], mat.Live(), K)
    ensures forall i, k :: 0 <= i < k < newrows.Length && newrows[i].Some? && newrows[k].Some? ==>
      Rank(newrows[..], i) != Rank(newrows[..], k)
  {
    hide Agrees, RowsSorted, Print, LinesOk, Stops, Text, LinesOf, DoLines, ReadCount, Represents, Sets, OldRows, Takes, SumsUpTo,
      IsSmall;
    newrows := ReplayMatches(mat, file, costmin, records);
    ghost var V := DoLines(mat.start, LinesOf(records[..ReadCount(records, costmin)]));
    ReplayedRows(newrows[..], LinesOf(records[..ReadCount(records, costmin)]));
    var oldrows, nb := InvertRows(newrows[..]);
    m := MakeSparse(rels, ncols, oldrows, nb, newrows[..]);
    SmallRows(m.rows, newrows[..], rels, mat.start, V, K);
    if ReadCount(records, costmin) == |records| {
      assert records[..|records|] == records;
      LiveSmall(m.rows, newrows[..], mat.start, mat.lines, mat.Live(), K);
    }
    forall i, k | 0 <= i < k < newrows.Length && newrows[i].Some? && newrows[k].Some?
      ensures Rank(newrows[..], i) != Rank(newrows[..], k)
    {
      RankDiffers(newrows[..], i, k);
    }
  }

  /** Every row of V has its own place in rows, where it is the same on the columns of K. */
  ghost predicate IsSmall(rows: seq<Option<seq<nat>>>, newrows: seq<Option<seq<nat>>>, V: Rowset, K: set<nat>) {
    |newrows| == |V| && forall i: nat :: i < |V| && V[i].Some? ==>
      newrows[i].Some? && Rank(newrows, i) < |rows| && ColsAt(rows, Rank(newrows, i)) * K == V[i].value * K
  }

  lemma SmallRows(rows: seq<Option<seq<nat>>>, newrows: seq<Option<seq<nat>>>, rels: seq<seq<nat>>, start: Rowset, V: Rowset, K: set<nat>)
    requires |rels| == |newrows| == |start| && SumsUpTo(rows, newrows, rels, |rels|)
    requires Represents(V, Values(newrows), Sets(start))
    requires forall k :: 0 <= k < |rels| ==> Cols(rels[k]) * K == Sets(start)[k] * K
    ensures IsSmall(rows, newrows, V, K)
  {
    hide SumsUpTo, Sets, ColsAt;
    forall i: nat | i < |V| && V[i].Some?
      ensures newrows[i].Some? && Rank(newrows, i) < |rows| && ColsAt(rows, Rank(newrows, i)) * K == V[i].value * K
    {
      assert Values(newrows)[i] == Value(newrows[i]);
      SmallRow(rows, newrows, rels, Sets(start), K, i);
    }
  }

  /** The live rows are the rows after all lines, as far as they have not been dropped without one. */
  lemma LiveSmall(rows: seq<Option<seq<nat>>>, newrows: seq<Option<seq<nat>>>, start: Rowset, lines: seq<seq<int>>, V: Rowset, K: set<nat>)
    requires Explains(start, lines, V) && IsSmall(rows, newrows, DoLines(start, lines), K)
    ensures IsSmall(rows, newrows, V, K)
  {
    hide LinesOk, DoLines;
    var W := DoLines(start, lines);
    forall i: nat | i < |V| && V[i].Some? ensures W[i] == V[i] {
    }
  }

  lemma SmallRow(rows: seq<Option<seq<nat>>>, newrows: seq<Option<seq<nat>>>, rels: seq<seq<nat>>, start: seq<set<nat>>, K: set<nat>, i: nat)
    requires |rels| == |newrows| == |start| && SumsUpTo(rows, newrows, rels, |rels|) && i < |newrows| && newrows[i].Some?
    requires forall k :: 0 <= k < |rels| ==> Cols(rels[k]) * K == start[k] * K
    ensures Rank(newrows, i) < |rows|
    ensures ColsAt(rows, Rank(newrows, i)) * K == Comb(start, Cols(newrows[i].value)) * K
  {
    assert AsSets(rels)[..|rels|] == AsSets(rels);
    CombOn(AsSets(rels), start, Cols(newrows[i].value), K);
  }
}
