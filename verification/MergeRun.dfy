/** filter/merge_mono.c, mergeOneByOne: whole runs of the merge phase, with the rows that are deleted on the way. */
module MergeRun {
  import opened Gf2
  import opened SparseRows
  import opened MergeIndex
  import opened History
  import opened MergeTree
  import opened LostRows
  import opened RunTrace
  import opened FilterMatrix
  import opened SpanningTree
  import opened Mst
  import opened TreeMerge
  import opened MergeColumn
  import opened Replay

  // ---------- Rows that are deleted ----------

  /** What deletions of rows keep */
  ghost predicate OnlyRows(ix: Index, ix': Index, rows: seq<Option<seq<nat>>>, rows': seq<Option<seq<nat>>>,
                           lines: seq<seq<int>>, lines': seq<seq<int>>) {
    SameStatus(ix, ix') && OneWay(ix, ix') && RowsKept(rows, rows') && Extends(lines, lines', 1)
  }

  lemma OnlyRowsTwice(a: Index, b: Index, c: Index, r: seq<Option<seq<nat>>>, s: seq<Option<seq<nat>>>, t: seq<Option<seq<nat>>>,
                      k: seq<seq<int>>, l: seq<seq<int>>, m: seq<seq<int>>)
    requires OnlyRows(a, b, r, s, k, l) && OnlyRows(b, c, s, t, l, m)
    ensures OnlyRows(a, c, r, t, k, m)
  {
    StatusTwice(a, b, c);
    OneWayTwice(a, b, c);
    KeptTwice(r, s, t);
    ExtendsTwice(k, l, m, 1);
  }

  lemma NoRows(ix: Index, cells: seq<set<nat>>, rows: seq<Option<seq<nat>>>, lines: seq<seq<int>>)
    requires Agrees(ix, cells)
    ensures OnlyRows(ix, ix, rows, rows, lines, lines)
  {
  }

  /** A live row of the matrix */
  lemma LiveValue(rows: seq<Option<seq<nat>>>, i: nat)
    requires i < |rows| && rows[i].Some?
    ensures Values(rows)[i] == Some(Cols(rows[i].value)) && RowsKept(rows, rows[i := None])
  {
  }

  /** removeRowDefinitely, or the removal of a useless row (with report == false) */
  method Delete(mat: Matrix, i: nat, report: bool, ghost V: Rowset, ghost J: set<nat>, ghost lost0: seq<set<nat>>) returns (ghost lost: seq<set<nat>>)
    requires mat.Valid() && i < |mat.rows| && mat.rows[i].Some? && MergedBut(V, mat.Live(), J, lost0)
    modifies mat`rows, mat`wt, mat`S, mat`A, mat`R, mat`cells, mat`outfile, mat`lines, mat`rem_nrows
    ensures mat.Valid() && OnlyRows(old(mat.Ix()), mat.Ix(), old(mat.rows), mat.rows, old(mat.lines), mat.lines)
    ensures MergedBut(V, mat.Live(), J, lost) && |lost| == |lost0| + 1
    ensures mat.rows == old(mat.rows)[i := None] && mat.rem_nrows == old(mat.rem_nrows) - if report then 1 else 0
    ensures mat.lines == if report then old(mat.lines) + [[i]] else old(mat.lines)
  {
    hide Agrees, RowsSorted, Explains, Print, OneWay, SameStatus, MergedBut, Extends, Values, Sets, RowsKept;
    LiveValue(mat.rows, i);
    ThenDeleted(V, mat.Live(), J, lost0, i);
    lost := lost0 + [mat.Live()[i].value];
    if report {
      mat.DeleteRow(i);
    } else {
      ExtendsNone(mat.lines, 1);
      mat.DropUselessRow(i);
    }
  }

  /** deleteSuperfluousRows, for the rows of tmp from the last one on */
  method DeleteSuperfluousRows(mat: Matrix, tmp: seq<nat>, keep: int, niremmax: int, ghost V: Rowset, ghost J: set<nat>, ghost lost0: seq<set<nat>>)
    returns (nirem: nat, ghost lost: seq<set<nat>>)
    requires mat.Valid() && (forall l :: 0 <= l < |tmp| ==> tmp[l] < |mat.rows|) && MergedBut(V, mat.Live(), J, lost0)
    modifies mat`rows, mat`wt, mat`S, mat`A, mat`R, mat`cells, mat`outfile, mat`lines, mat`rem_nrows
    ensures mat.Valid() && OnlyRows(old(mat.Ix()), mat.Ix(), old(mat.rows), mat.rows, old(mat.lines), mat.lines)
    ensures MergedBut(V, mat.Live(), J, lost) && |lost| == |lost0| + nirem && nirem == old(mat.rem_nrows) - mat.rem_nrows
    ensures DidSuperfluous(old(Now(mat)), Now(mat), tmp, niremmax, keep)
  {
    hide Agrees, RowsSorted, Explains, Print, OneWay, SameStatus, MergedBut, Extends, Values, Sets, OnlyRows, Removed;
    ghost var s, del := Now(mat), [];
    nirem, lost := 0, lost0;
    NoRows(mat.Ix(), mat.cells, mat.rows, mat.lines);
    RemovedNone(s);
    var k := |tmp|;
    while true
      invariant 0 <= k <= |tmp| && mat.Valid() && del == Met(s.rows, tmp, k) && Removed(s, Now(mat), del) && |del| == nirem
      invariant OnlyRows(old(mat.Ix()), mat.Ix(), old(mat.rows), mat.rows, old(mat.lines), mat.lines)
      invariant MergedBut(V, mat.Live(), J, lost) && |lost| == |lost0| + nirem && mat.rem_nrows == s.rem_nrows - nirem
      invariant |mat.rows| == |s.rows| && forall l :: 0 <= l < |tmp| ==> tmp[l] < |mat.rows|
      invariant nirem == 0 || (nirem <= niremmax && mat.rem_nrows - mat.rem_ncols >= keep)
      decreases k
    {
      if k == 0 || nirem >= niremmax || mat.rem_nrows - mat.rem_ncols <= keep {
        assert SuperfluousTo(s, Now(mat), tmp, niremmax, keep, k);
        return;
      }
      k := k - 1;
      NowHere(s, Now(mat), del, tmp[k]);
      if mat.rows[tmp[k]].Some? {
        ghost var s1 := Now(mat);
        lost := Delete(mat, tmp[k], true, V, J, lost);
        RemovedMore(s, s1, Now(mat), del, tmp[k]);
        del := del + [tmp[k]];
        nirem := nirem + 1;
        OnlyRowsTwice(old(mat.Ix()), s1.ix, mat.Ix(), old(mat.rows), s1.rows, mat.rows, old(mat.lines), s1.lines, mat.lines);
      }
    }
  }

  lemma NowHere(s: Snapshot, s': Snapshot, del: seq<nat>, i: nat)
    requires Removed(s, s', del) && i < |s.rows|
    ensures |s'.rows| == |s.rows| && (s'.rows[i].Some? <==> s.rows[i].Some? && i !in del)
    ensures s'.rows[i].Some? ==> s'.rows[i] == s.rows[i]
  {
  }

  /** isRowToBeDeleted: all columns of the row are heavy. */
  method IsRowToBeDeleted(row: seq<nat>, wt: seq<int>) returns (heavy: bool)
    requires forall k :: 0 <= k < |row| ==> row[k] < |wt|
    ensures heavy <==> AllHeavy(row, wt)
  {
    heavy := true;
    var k := 0;
    while k < |row|
      invariant k <= |row| && heavy && forall l :: 0 <= l < k ==> row[l] < |wt| && wt[row[l]] < 0
    {
      if wt[row[k]] >= 0 {
        assert row[k] in row;
        heavy := false;
        return;
      }
      k := k + 1;
    }
  }

  lemma RowFits(mat: Matrix, i: nat)
    requires mat.Valid() && i < |mat.rows| && mat.rows[i].Some?
    ensures forall k :: 0 <= k < |mat.rows[i].value| ==> mat.rows[i].value[k] < |mat.wt|
  {
    hide Agrees;
    DropLive(mat.rows, i);
    var row := mat.rows[i].value;
    forall k | 0 <= k < |row| ensures row[k] < |mat.wt| {
      InCols(row, row[k]);
      CellFacts(mat.Ix(), mat.cells, i, row[k]);
    }
  }

  lemma FactsOf(ix: Index, ix': Index, rows: seq<Option<seq<nat>>>, rows': seq<Option<seq<nat>>>, lines: seq<seq<int>>, lines': seq<seq<int>>)
    requires OnlyRows(ix, ix', rows, rows', lines, lines')
    ensures OneWay(ix, ix') && SameStatus(ix, ix') && RowsKept(rows, rows') && |rows'| == |rows|
  {
  }

  /** A row with a column that is not heavy keeps one, and one without stays without. */
  lemma HeavySame(ix: Index, ix': Index, cells': seq<set<nat>>, row: seq<nat>)
    requires SameStatus(ix, ix') && OneWay(ix, ix') && Agrees(ix', cells')
    ensures AllHeavy(row, ix'.wt) <==> AllHeavy(row, ix.wt)
  {
    hide Agrees;
    if !AllHeavy(row, ix.wt) {
      var j :| j in row && !(j < |ix.wt| && ix.wt[j] < 0);
      if j < |ix.wt| {
        ColumnFacts(ix', cells', j);
      }
    }
  }

  /** The first loop of inspectRowWeight: too heavy rows are deleted as long as there is enough excess, 129 at most. */
  method DeleteLongRows(mat: Matrix, keep: int, rwmax: nat, ghost V: Rowset, ghost J: set<nat>, ghost lost0: seq<set<nat>>)
    returns (nirem: nat, ended: bool, ghost lost: seq<set<nat>>)
    requires mat.Valid() && MergedBut(V, mat.Live(), J, lost0)
    modifies mat`rows, mat`wt, mat`S, mat`A, mat`R, mat`cells, mat`outfile, mat`lines, mat`rem_nrows
    ensures mat.Valid() && OnlyRows(old(mat.Ix()), mat.Ix(), old(mat.rows), mat.rows, old(mat.lines), mat.lines)
    ensures MergedBut(V, mat.Live(), J, lost) && |lost| == |lost0| + nirem && nirem == old(mat.rem_nrows) - mat.rem_nrows
    ensures DidLong(old(Now(mat)), Now(mat), keep, rwmax, ended)
  {
    hide Agrees, RowsSorted, Explains, Print, OneWay, SameStatus, MergedBut, Extends, Values, Sets, OnlyRows, Removed, LongRows;
    ghost var s, del := Now(mat), [];
    nirem, ended, lost := 0, false, lost0;
    NoRows(mat.Ix(), mat.cells, mat.rows, mat.lines);
    RemovedNone(s);
    NoLong(s.rows, rwmax);
    var i := 0;
    while i < |mat.rows|
      invariant i <= |mat.rows| == |s.rows| && mat.Valid() && nirem <= 128
      invariant del == LongRows(s.rows, rwmax, i) && Removed(s, Now(mat), del) && |del| == nirem
      invariant OnlyRows(old(mat.Ix()), mat.Ix(), old(mat.rows), mat.rows, old(mat.lines), mat.lines)
      invariant MergedBut(V, mat.Live(), J, lost) && |lost| == |lost0| + nirem && mat.rem_nrows == s.rem_nrows - nirem
      invariant nirem == 0 || mat.rem_nrows - mat.rem_ncols >= keep
    {
      if mat.rem_nrows - mat.rem_ncols <= keep {
        assert LongTo(s, Now(mat), keep, rwmax, true, i);
        return nirem, true, lost;
      }
      LongNext(s.rows, rwmax, i);
      NowHere(s, Now(mat), del, i);
      if mat.rows[i].Some? && |mat.rows[i].value| > rwmax {
        ghost var s1 := Now(mat);
        lost := Delete(mat, i, true, V, J, lost);
        RemovedMore(s, s1, Now(mat), del, i);
        del := del + [i];
        nirem := nirem + 1;
        OnlyRowsTwice(old(mat.Ix()), s1.ix, mat.Ix(), old(mat.rows), s1.rows, mat.rows, old(mat.lines), s1.lines, mat.lines);
        if nirem > 128 {
          assert LongTo(s, Now(mat), keep, rwmax, false, i + 1);
          return;
        }
      }
      i := i + 1;
    }
    assert LongTo(s, Now(mat), keep, rwmax, false, i);
  }

  lemma NoLong(rows: seq<Option<seq<nat>>>, rwmax: nat)
    ensures LongRows(rows, rwmax, 0) == []
  {
  }

  /** The second loop: rows with only heavy columns are dropped, without a line. */
  method DropUselessRows(mat: Matrix, ghost V: Rowset, ghost J: set<nat>, ghost lost0: seq<set<nat>>)
    returns (useless: nat, ghost lost: seq<set<nat>>)
    requires mat.Valid() && MergedBut(V, mat.Live(), J, lost0)
    modifies mat`rows, mat`wt, mat`S, mat`A, mat`R, mat`cells, mat`outfile, mat`lines, mat`rem_nrows
    ensures mat.Valid() && OnlyRows(old(mat.Ix()), mat.Ix(), old(mat.rows), mat.rows, old(mat.lines), mat.lines)
    ensures MergedBut(V, mat.Live(), J, lost) && |lost| == |lost0| + useless
    ensures DidDrop(old(Now(mat)), Now(mat))
  {
    hide Agrees, RowsSorted, Explains, Print, OneWay, SameStatus, MergedBut, Extends, Values, Sets, OnlyRows, AllHeavy;
    ghost var s := Now(mat);
    useless, lost := 0, lost0;
    NoRows(mat.Ix(), mat.cells, mat.rows, mat.lines);
    var i := 0;
    while i < |mat.rows|
      invariant i <= |mat.rows| == |s.rows| && mat.Valid()
      invariant OnlyRows(s.ix, mat.Ix(), s.rows, mat.rows, s.lines, mat.lines) && mat.lines == s.lines && mat.rem_nrows == s.rem_nrows
      invariant MergedBut(V, mat.Live(), J, lost) && |lost| == |lost0| + useless
      invariant forall l :: 0 <= l < |s.rows| ==> mat.rows[l] == if l < i then UsefulRows(s.rows, s.ix.wt)[l] else s.rows[l]
    {
      if mat.rows[i].Some? {
        RowFits(mat, i);
        FactsOf(s.ix, mat.Ix(), s.rows, mat.rows, s.lines, mat.lines);
        HeavySame(s.ix, mat.Ix(), mat.cells, mat.rows[i].value);
        var all := IsRowToBeDeleted(mat.rows[i].value, mat.wt);
        if all {
          ghost var s1 := Now(mat);
          lost := Delete(mat, i, false, V, J, lost);
          useless := useless + 1;
          OnlyRowsTwice(s.ix, s1.ix, mat.Ix(), s.rows, s1.rows, mat.rows, s.lines, s1.lines, mat.lines);
        }
      }
      i := i + 1;
    }
    assert mat.rows == UsefulRows(s.rows, s.ix.wt);
  }

  /** inspectRowWeight: too heavy rows are deleted as long as there is enough excess, 129 at most; then useless rows are dropped. */
  method InspectRowWeight(mat: Matrix, keep: int, rwmax: nat, ghost V: Rowset, ghost J: set<nat>, ghost lost0: seq<set<nat>>)
    returns (nirem: nat, ghost lost: seq<set<nat>>)
    requires mat.Valid() && MergedBut(V, mat.Live(), J, lost0)
    modifies mat`rows, mat`wt, mat`S, mat`A, mat`R, mat`cells, mat`outfile, mat`lines, mat`rem_nrows
    ensures mat.Valid() && OnlyRows(old(mat.Ix()), mat.Ix(), old(mat.rows), mat.rows, old(mat.lines), mat.lines)
    ensures MergedBut(V, mat.Live(), J, lost) && |lost| >= |lost0| + nirem && nirem == old(mat.rem_nrows) - mat.rem_nrows
    ensures DidInspect(old(Now(mat)), Now(mat), keep, rwmax)
  {
    hide Agrees, RowsSorted, Explains, Print, OneWay, SameStatus, MergedBut, Extends, Values, Sets, OnlyRows, DidLong, DidDrop;
    ghost var s := Now(mat);
    var ended;
    nirem, ended, lost := DeleteLongRows(mat, keep, rwmax, V, J, lost0);
    ghost var mid := Now(mat);
    if !ended {
      var useless;
      useless, lost := DropUselessRows(mat, V, J, lost);
      OnlyRowsTwice(s.ix, mid.ix, mat.Ix(), s.rows, mid.rows, mat.rows, s.lines, mid.lines, mat.lines);
      DropCounts(mid, Now(mat));
    }
    assert InspectVia(s, mid, Now(mat), keep, rwmax, ended);
  }

  lemma DropCounts(s: Snapshot, s': Snapshot)
    requires DidDrop(s, s')
    ensures s'.rem_nrows == s.rem_nrows
  {
  }

  // ---------- One round ----------

  /** minColWeight: the least weight at most cwmax of a column, or -1 */
  method MinColWeight(mat: Matrix) returns (m: int)
    requires |mat.S| == mat.cwmax + 2
    ensures m == -1 || (m >= 1 && LeastWeight(mat.Ix(), m))
    ensures m == -1 ==> forall w :: 1 <= w <= mat.cwmax ==> mat.S[w] == []
  {
    m := 1;
    while m <= mat.cwmax
      invariant 1 <= m <= mat.cwmax + 1 && forall w :: 1 <= w < m ==> mat.S[w] == []
    {
      if mat.S[m] != [] {
        return;
      }
      m := m + 1;
    }
    m := -1;
  }

  /** doOneMerge: all singletons, all columns of weight 2, or one column */
  method DoOneMerge(mat: Matrix, m: nat, maxdo: int, useMST: bool) returns (ghost K: set<nat>)
    requires mat.Valid() && |mat.wburied| == |mat.rows| && LeastWeight(mat.Ix(), m) && m <= MERGE_LEVEL_MAX
    modifies mat
    ensures mat.Valid() && DidMerge(old(Now(mat)), Now(mat), m, maxdo, useMST, K)
  {
    hide Agrees, RowsSorted, Explains, Print, OneWay, ColumnMerged, ColumnsMerged, Extends, Present, Values, Sets, TreeReported, Retired,
      Followed, RowsKept, LinesFor, ColumnTurn, ColumnTurns, DidColumn, DidHeavy;
    if m == 1 {
      ghost var rows := mat.rows;
      var n;
      n, K := mat.DeleteAllColsFromStack(1);
      KeptSize(rows, mat.rows);
    } else if m == 2 {
      var n;
      ghost var states;
      n, K, states := MergeM(mat, m, maxdo);
    } else {
      var j := mat.S[m][0];
      CellOf(mat.Ix(), mat.cells, m, j);
      WeightOfCell(mat.Ix(), mat.cells, m, j);
      ghost var s0 := Now(mat);
      var n := MergeForColumn2(mat, j, useMST);
      TurnIs(s0, Now(mat), m, j, useMST);
      K := {j};
    }
    ListCount(mat.Ix(), mat.cells);
  }

  lemma KeptSize(rows: seq<Option<seq<nat>>>, rows': seq<Option<seq<nat>>>)
    requires RowsKept(rows, rows')
    ensures |rows'| == |rows|
  {
  }

  // ---------- Whole runs ----------

  predicate RowsIn(d: seq<Deletion>, n: nat) {
    forall k, l :: 0 <= k < |d| && d[k].Superfluous? && 0 <= l < |d[k].tmp| ==> d[k].tmp[l] < n
  }

  /** The deletions of d one after the other */
  method DeleteRows(mat: Matrix, d: seq<Deletion>, keep: int, rwmax: nat, ghost V: Rowset, ghost J: set<nat>, ghost lost0: seq<set<nat>>,
                    ghost run0: Run)
    returns (ghost lost: seq<set<nat>>, ghost run: Run)
    requires mat.Valid() && RowsIn(d, |mat.rows|) && MergedBut(V, mat.Live(), J, lost0) && Traced(run0, Now(mat), lost0, keep, rwmax)
    modifies mat`rows, mat`wt, mat`S, mat`A, mat`R, mat`cells, mat`outfile, mat`lines, mat`rem_nrows
    ensures mat.Valid() && OnlyRows(old(mat.Ix()), mat.Ix(), old(mat.rows), mat.rows, old(mat.lines), mat.lines)
    ensures MergedBut(V, mat.Live(), J, lost) && Traced(run, Now(mat), lost, keep, rwmax)
    ensures run0.states <= run.states && run.acts == run0.acts + Deletes(d)
  {
    hide Agrees, RowsSorted, Explains, Print, OneWay, SameStatus, MergedBut, Extends, Values, Sets, OnlyRows, DidSuperfluous, DidInspect,
      Traced;
    lost, run := lost0, run0;
    NoRows(mat.Ix(), mat.cells, mat.rows, mat.lines);
    var k := 0;
    while k < |d|
      invariant k <= |d| && mat.Valid() && |mat.rows| == |old(mat.rows)| && MergedBut(V, mat.Live(), J, lost)
      invariant OnlyRows(old(mat.Ix()), mat.Ix(), old(mat.rows), mat.rows, old(mat.lines), mat.lines)
      invariant Traced(run, Now(mat), lost, keep, rwmax) && run0.states <= run.states && run.acts == run0.acts + Deletes(d[..k])
    {
      ghost var s, lost1 := Now(mat), lost;
      var n;
      if d[k].Superfluous? {
        n, lost := DeleteSuperfluousRows(mat, d[k].tmp, keep, d[k].niremmax, V, J, lost);
      } else {
        n, lost := InspectRowWeight(mat, keep, rwmax, V, J, lost);
      }
      FactsOf(s.ix, mat.Ix(), s.rows, mat.rows, s.lines, mat.lines);
      OnlyRowsTwice(old(mat.Ix()), s.ix, mat.Ix(), old(mat.rows), s.rows, mat.rows, old(mat.lines), s.lines, mat.lines);
      LostBetween(V, Values(s.rows), mat.Live(), J, lost1, lost);
      TraceMore(run, s, lost1, DeleteAct(d[k]), Now(mat), lost, keep, rwmax);
      DeletesMore(d, k);
      run := run.Then(DeleteAct(d[k]), Now(mat));
      k := k + 1;
    }
    assert d[..k] == d;
  }

  lemma LostBetween(V: Rowset, W: Rowset, W': Rowset, J: set<nat>, lost: seq<set<nat>>, lost': seq<set<nat>>)
    requires MergedBut(V, W, J, lost) && MergedBut(V, W', J, lost')
    ensures |lost'| == |lost| + |Present(W)| - |Present(W')|
  {
  }

  function AtLeast1(maxlevel: int): nat {
    if maxlevel < 1 then 1 else maxlevel
  }

  /** What holds from round to round: index and history are kept, the columns of J are merged and some rows are lost. */
  ghost predicate RunOk(V: Rowset, V': Rowset, ix: Index, ix': Index, lines: seq<seq<int>>, lines': seq<seq<int>>,
                        J: set<nat>, lost: seq<set<nat>>, maxlevel: int) {
    && MergedBut(V, V', J, lost) && OneWay(ix, ix') && Extends(lines, lines', AtLeast1(maxlevel))
    && J <= Followed(ix.A) && J !! Followed(ix'.A) && forall j :: j in J ==> Retired(ix', j)
  }

  lemma RunMerges(V: Rowset, V': Rowset, V'': Rowset, ix: Index, ix': Index, ix'': Index, l: seq<seq<int>>, l': seq<seq<int>>, l'': seq<seq<int>>,
                  J: set<nat>, K: set<nat>, lost: seq<set<nat>>, maxlevel: int, m: nat) returns (lost': seq<set<nat>>)
    requires RunOk(V, V', ix, ix', l, l', J, lost, maxlevel) && Merges(V', V'', ix', ix'', K) && Extends(l', l'', m) && m <= AtLeast1(maxlevel)
    requires Followed(ix'.A) <= Followed(ix.A)
    ensures RunOk(V, V'', ix, ix'', l, l'', J + K, lost', maxlevel) && |lost'| == |lost|
  {
    hide MergedBut, ColumnsMerged, OneWay, Extends, Followed, Retired;
    lost' := ThenMerged(V, V', V'', J, K, lost);
    ExtendsWider(l', l'', m, AtLeast1(maxlevel));
    ExtendsTwice(l, l', l'', AtLeast1(maxlevel));
    OneWayTwice(ix, ix', ix'');
    RetiredMore(ix', ix'', J);
  }

  /** Then rows are deleted. */
  lemma RunDeletes(V: Rowset, V': Rowset, V'': Rowset, ix: Index, ix': Index, ix'': Index, l: seq<seq<int>>, l': seq<seq<int>>, l'': seq<seq<int>>,
                   J: set<nat>, lost: seq<set<nat>>, lost': seq<set<nat>>, maxlevel: int)
    requires RunOk(V, V', ix, ix', l, l', J, lost, maxlevel) && MergedBut(V, V'', J, lost') && Extends(l', l'', 1)
    requires OneWay(ix', ix'') && Followed(ix''.A) <= Followed(ix'.A)
    ensures RunOk(V, V'', ix, ix'', l, l'', J, lost', maxlevel)
  {
    hide MergedBut, OneWay, Extends, Followed, Retired;
    ExtendsWider(l', l'', 1, AtLeast1(maxlevel));
    ExtendsTwice(l, l', l'', AtLeast1(maxlevel));
    OneWayTwice(ix, ix', ix'');
    RetiredMore(ix', ix'', J);
  }

  lemma RunStarts(V: Rowset, ix: Index, lines: seq<seq<int>>, maxlevel: int)
    ensures RunOk(V, V, ix, ix, lines, lines, {}, [], maxlevel)
  {
    NothingLost(V);
    SameOneWay(ix);
  }

  lemma RunFacts(V: Rowset, V': Rowset, ix: Index, ix': Index, lines: seq<seq<int>>, lines': seq<seq<int>>,
                 J: set<nat>, lost: seq<set<nat>>, maxlevel: int)
    requires RunOk(V, V', ix, ix', lines, lines', J, lost, maxlevel)
    ensures MergedBut(V, V', J, lost)
  {
  }

  lemma DeletionFacts(ix: Index, ix': Index, rows: seq<Option<seq<nat>>>, rows': seq<Option<seq<nat>>>, lines: seq<seq<int>>, lines': seq<seq<int>>)
    requires OnlyRows(ix, ix', rows, rows', lines, lines')
    ensures OneWay(ix, ix') && Followed(ix'.A) == Followed(ix.A) && Extends(lines, lines', 1) && |rows'| == |rows|
  {
    StatusFollowed(ix, ix', 0);
  }

  lemma MergeFacts(V: Rowset, V': Rowset, ix: Index, ix': Index, J: set<nat>)
    requires Merges(V, V', ix, ix', J) && J != {}
    ensures Followed(ix'.A) <= Followed(ix.A) && |Followed(ix'.A)| < |Followed(ix.A)|
  {
    hide ColumnsMerged, Followed;
    var j :| j in J;
    SubsetSize(Followed(ix'.A), Followed(ix.A));
  }

  /** One round of mergeOneByOne */
  method Step(mat: Matrix, m: nat, keep: int, rwmax: nat, round: Round, maxlevel: int, ghost V: Rowset, ghost ix0: Index,
              ghost lines0: seq<seq<int>>, ghost J0: set<nat>, ghost lost0: seq<set<nat>>, ghost run0: Run)
    returns (ghost J: set<nat>, ghost lost: seq<set<nat>>, ghost run: Run)
    requires mat.Valid() && |mat.wburied| == |mat.rows|
    requires LeastWeight(mat.Ix(), m) && m <= MERGE_LEVEL_MAX && m <= maxlevel && RowsIn(round.deletions, |mat.rows|)
    requires RunOk(V, mat.Live(), ix0, mat.Ix(), lines0, mat.lines, J0, lost0, maxlevel) && Followed(mat.A) <= Followed(ix0.A)
    requires Traced(run0, Now(mat), lost0, keep, rwmax)
    modifies mat
    ensures mat.Valid() && |mat.rows| == |old(mat.rows)| && |mat.S| == mat.cwmax + 2
    ensures RunOk(V, mat.Live(), ix0, mat.Ix(), lines0, mat.lines, J, lost, maxlevel)
    ensures Followed(mat.A) <= Followed(old(mat.A)) && |Followed(mat.A)| < |Followed(old(mat.A))|
    ensures Traced(run, Now(mat), lost, keep, rwmax) && run0.states <= run.states
    ensures run.acts == run0.acts + [MergeAct(m)] + Deletes(round.deletions)
  {
    hide Agrees, RowsSorted, Explains, Print, Values, Sets, Merges, RunOk, OnlyRows, RowsIn, Followed, OneWay, Extends, MergedBut, Traced,
      LeastWeight, DidMerge, DidEmpty;
    ghost var s0, W := Now(mat), mat.Live();
    ghost var K := DoOneMerge(mat, m, 0, true);
    ghost var s1, W1 := Now(mat), mat.Live();
    DidMergeFacts(s0, s1, m, K);
    J := J0 + K;
    lost := RunMerges(V, W, W1, ix0, s0.ix, s1.ix, lines0, s0.lines, s1.lines, J0, K, lost0, maxlevel, m);
    MergeFacts(W, W1, s0.ix, s1.ix, K);
    var njrem := mat.DeleteEmptyColumns();
    ghost var s2 := Now(mat);
    assert DidEmpty(s1, s2) by {
      EmptyIs(s1, s2);
    }
    SubCount(Followed(s2.ix.A), Followed(s1.ix.A));
    ExtendsNone(s1.lines, 1);
    RunFacts(V, W1, ix0, s1.ix, lines0, s1.lines, J, lost, maxlevel);
    RunDeletes(V, W1, mat.Live(), ix0, s1.ix, s2.ix, lines0, s1.lines, s1.lines, J, lost, lost, maxlevel);
    TraceMerge(run0, s0, lost0, m, K, s1, s2, lost, keep, rwmax);
    ghost var lost2, run2 := lost, run0.Then(MergeAct(m), s2);
    lost, run := DeleteRows(mat, round.deletions, keep, rwmax, V, J, lost, run2);
    DeletionFacts(s2.ix, mat.Ix(), s2.rows, mat.rows, s1.lines, mat.lines);
    RunDeletes(V, W1, mat.Live(), ix0, s2.ix, mat.Ix(), lines0, s1.lines, mat.lines, J, lost2, lost, maxlevel);
    ListCount(mat.Ix(), mat.cells);
  }

  lemma DidMergeFacts(s: Snapshot, s': Snapshot, m: nat, K: set<nat>)
    requires DidMerge(s, s', m, 0, true, K)
    ensures Merges(Values(s.rows), Values(s'.rows), s.ix, s'.ix, K) && K != {} && Extends(s.lines, s'.lines, m) && |s'.rows| == |s.rows|
  {
  }

  lemma EmptyIs(s: Snapshot, s': Snapshot)
    requires s'.rows == s.rows && s'.lines == s.lines && s'.rem_nrows == s.rem_nrows
    requires |s'.ix.S| == |s.ix.S| >= 1 && s'.ix.S[0] == [] && forall w :: 0 < w < |s.ix.S| ==> s'.ix.S[w] == s.ix.S[w]
    requires s'.rem_ncols == s.rem_ncols - |s.ix.S[0]| && OneWay(s.ix, s'.ix) && Followed(s'.ix.A) <= Followed(s.ix.A)
    ensures DidEmpty(s, s')
  {
  }

  /** mergeOneByOne: rounds of doOneMerge for the least weight, with deletions of rows after each, in any number and of any rows.
      ms are the weights of the rounds, and run has all steps with the states between them. */
  method MergeOneByOne(mat: Matrix, maxlevel: int, keep: int, rwmax: nat, rounds: nat -> Round, last: seq<Deletion>)
    returns (ghost J: set<nat>, ghost lost: seq<set<nat>>, ghost ms: seq<nat>, ghost run: Run)
    requires mat.Valid() && |mat.wburied| == |mat.rows| && maxlevel <= MERGE_LEVEL_MAX
    requires RowsIn(last, |mat.rows|) && forall n: nat :: RowsIn(rounds(n).deletions, |mat.rows|)
    modifies mat
    ensures mat.Valid() && |mat.rows| == |old(mat.rows)|
    ensures RunOk(old(mat.Live()), mat.Live(), old(mat.Ix()), mat.Ix(), old(mat.lines), mat.lines, J, lost, maxlevel)
    ensures WholeRun(run, ms, rounds, last, maxlevel, keep, rwmax) && run.states[0] == old(Now(mat)) && Traced(run, Now(mat), lost, keep, rwmax)
  {
    hide Agrees, RowsSorted, Explains, Print, Values, Sets, Merges, RunOk, OnlyRows, RowsIn, Followed, Traced, LeastWeight, NoMergeLeft, Acts,
      MergedBut, OneWay, Extends, WholeRun, Run.Follows;
    ghost var V, ix0 := mat.Live(), mat.Ix();
    J, lost, ms, run := {}, [], [], Run([Now(mat)], []);
    NoActs(rounds);
    var mmax, n := 0, 0;
    RunStarts(V, ix0, mat.lines, maxlevel);
    TraceStart(Now(mat), keep, rwmax);
    ListCount(mat.Ix(), mat.cells);
    while true
      invariant mat.Valid() && |mat.rows| == |old(mat.rows)| && |mat.S| == mat.cwmax + 2 && (mmax <= maxlevel || mmax == 0)
      invariant RunOk(V, mat.Live(), ix0, mat.Ix(), old(mat.lines), mat.lines, J, lost, maxlevel)
      invariant Followed(mat.A) <= Followed(ix0.A)
      invariant Traced(run, Now(mat), lost, keep, rwmax) && run.acts == Acts(ms, rounds) && [old(Now(mat))] <= run.states && |ms| == n
      invariant (forall k :: 0 <= k < n ==> ms[k] <= maxlevel) && forall k :: 0 <= k < n ==> !rounds(k).stop
      decreases |Followed(mat.A)|
    {
      var m := MinColWeight(mat);
      if m > mmax {
        mmax := m;
      }
      if mmax > maxlevel || m == -1 {
        NothingLeft(mat.Ix(), m, mmax, maxlevel);
        break;
      }
      J, lost, run := Step(mat, m, keep, rwmax, rounds(n), maxlevel, V, ix0, old(mat.lines), J, lost, run);
      ActsMore(ms, m, rounds);
      ms := ms + [m];
      if rounds(n).stop {
        break;
      }
      n := n + 1;
    }
    ghost var s, W, lost0, run0 := Now(mat), mat.Live(), lost, run;
    assert (|ms| > 0 && rounds(|ms| - 1).stop) || NoMergeLeft(s.ix, maxlevel);
    TraceFacts(run, s, lost, keep, rwmax);
    RunFacts(V, W, ix0, s.ix, old(mat.lines), s.lines, J, lost, maxlevel);
    lost, run := DeleteRows(mat, last, keep, rwmax, V, J, lost, run);
    TraceFacts(run, Now(mat), lost, keep, rwmax);
    RunIsWhole(run0, run, ms, rounds, last, maxlevel, keep, rwmax);
    DeletionFacts(s.ix, mat.Ix(), s.rows, mat.rows, s.lines, mat.lines);
    RunDeletes(V, W, mat.Live(), ix0, s.ix, mat.Ix(), old(mat.lines), s.lines, mat.lines, J, lost0, lost, maxlevel);
  }

  lemma NoActs(rounds: nat -> Round)
    ensures Acts([], rounds) == []
  {
  }

  lemma RunIsWhole(run0: Run, run: Run, ms: seq<nat>, rounds: nat -> Round, last: seq<Deletion>, maxlevel: int, keep: int, rwmax: nat)
    requires run.Follows(keep, rwmax) && run0.acts == Acts(ms, rounds) && run.acts == run0.acts + Deletes(last)
    requires |run0.states| == |run0.acts| + 1 && run0.states <= run.states
    requires (forall k :: 0 <= k < |ms| ==> ms[k] <= maxlevel) && forall k :: 0 <= k < |ms| - 1 ==> !rounds(k).stop
    requires (|ms| > 0 && rounds(|ms| - 1).stop) || NoMergeLeft(run0.states[|run0.acts|].ix, maxlevel)
    ensures WholeRun(run, ms, rounds, last, maxlevel, keep, rwmax)
  {
    hide Acts, NoMergeLeft;
    assert run.states[|run0.acts|] == run0.states[|run0.acts|];
  }

  lemma TraceFacts(run: Run, now: Snapshot, lost: seq<set<nat>>, keep: int, rwmax: nat)
    requires Traced(run, now, lost, keep, rwmax)
    ensures run.Follows(keep, rwmax) && |run.states| == |run.acts| + 1 && run.states[|run.acts|] == now
  {
  }

  /** The loop ends because of the weights. */
  lemma NothingLeft(ix: Index, m: int, mmax: int, maxlevel: int)
    requires |ix.S| == ix.cwmax + 2 && (m == -1 || (m >= 1 && LeastWeight(ix, m))) && (m == -1 ==> forall w :: 1 <= w <= ix.cwmax ==> ix.S[w] == [])
    requires m <= mmax && (mmax > maxlevel || m == -1) && (mmax == m || mmax <= maxlevel || mmax == 0)
    ensures NoMergeLeft(ix, maxlevel)
  {
  }

  /** Costs are 64-bit numbers. */
  ghost predicate CostsFit(records: seq<Record>) {
    forall k :: 0 <= k < |records| && !records[k].Line? ==> records[k].cost < Pow10(20)
  }

  /** merge as a whole. What the run needs for its history to be read to the end is known before it starts. */
  method MergeAll(rows: seq<Option<seq<nat>>>, ncols: nat, cwmax: nat, wburied: seq<nat>, nburied: nat, maxlevel: int, keep: int, rwmax: nat,
                  rounds: nat -> Round, last: seq<Deletion>)
    returns (mat: Matrix, ghost J: set<nat>, ghost lost: seq<set<nat>>, ghost ms: seq<nat>, ghost run: Run)
    requires RowsSorted(rows) && forall i, j :: 0 <= i < |rows| && rows[i].Some? && j in rows[i].value ==> j < ncols
    requires |wburied| == |rows| && maxlevel <= MERGE_LEVEL_MAX
    requires RowsIn(last, |rows|) && forall n: nat :: RowsIn(rounds(n).deletions, |rows|)
    ensures mat.Valid() && mat.start == Values(rows) && MergedBut(Values(rows), mat.Live(), J, lost)
    ensures forall j :: j in J ==> Retired(mat.Ix(), j)
    ensures WholeRun(run, ms, rounds, last, maxlevel, keep, rwmax) && Traced(run, Now(mat), lost, keep, rwmax)
    ensures run.states[0] == Snapshot(rows, InitialIndex(rows, ncols, cwmax), [], |rows|, ncols, wburied, nburied)
    ensures forall records: seq<Record>, D: nat {:trigger LinesOf(records), Pow10(D)} ::
      LinesOf(records) == mat.lines && CostsFit(records) && D >= 1 && |rows| < Pow10(D) && 1 + AtLeast1(maxlevel) * (D + 1) < STRLENMAX ==>
        ReadCount(records, 0) == |records|
  {
    hide Agrees, RowsSorted, Print, Sets, MergedBut, InitialIndex, LinesOf, Pow10, ReadCount, AtLeast1, OneWay, Extends, Followed, Retired, LinesOk;
    mat := new Matrix(rows, ncols, cwmax, wburied, nburied);
    J, lost, ms, run := MergeOneByOne(mat, maxlevel, keep, rwmax, rounds, last);
    var m := AtLeast1(maxlevel);
    forall records: seq<Record>, D: nat {:trigger LinesOf(records), Pow10(D)} |
      LinesOf(records) == mat.lines && CostsFit(records) && D >= 1 && |rows| < Pow10(D) && 1 + m * (D + 1) < STRLENMAX
      ensures ReadCount(records, 0) == |records|
    {
      ShortHistory(mat.start, records, m, D);
    }
  }
}
