/** filter/merge_mono.c, swar.c, filter_matrix.c: the matrix, its index and its history, updated in place. */
module FilterMatrix {
  import opened Gf2
  import opened SparseRows
  import opened MergeIndex
  import opened History
  import opened MergeTree

  /** The fields of the matrix at one time */
  datatype Snapshot = Snapshot(rows: seq<Option<seq<nat>>>, ix: Index, lines: seq<seq<int>>, rem_nrows: int, rem_ncols: int,
                               wburied: seq<nat>, nburied: nat) {
    function Excess(): int {
      rem_nrows - rem_ncols
    }

    /** How many rows are there */
    ghost function Count(): nat {
      |Present(Values(rows))|
    }
  }

  ghost function Now(mat: Matrix): Snapshot
    reads mat
  {
    Snapshot(mat.rows, mat.Ix(), mat.lines, mat.rem_nrows, mat.rem_ncols, mat.wburied, mat.nburied)
  }

  class Matrix {
    var rows: seq<Option<seq<nat>>>
    const cwmax: nat
    /** Estimated weights of the columns that are not in the matrix, and their number */
    const wburied: seq<nat>
    const nburied: nat
    var wt: seq<int>
    var R: seq<Option<seq<int>>>
    var S: seq<seq<nat>>
    var A: seq<Option<nat>>
    var rem_nrows: int
    var rem_ncols: int
    var outfile: seq<string>

    /** The columns of each row that the index counts */
    ghost var cells: seq<set<nat>>
    /** The lines of outfile, as numbers */
    ghost var lines: seq<seq<int>>
    /** The rows before the first merge */
    ghost const start: Rowset

    function Ix(): Index
      reads this
    {
      Index(cwmax, wt, R, S, A)
    }

    ghost function Live(): Rowset
      reads this
    {
      Values(rows)
    }

    /** The index agrees with what it counts. */
    ghost predicate Counted()
      reads this
    {
      |cells| == |rows| && RowsSorted(rows) && Agrees(Ix(), cells)
    }

    /** What it counts is the live rows. */
    ghost predicate Indexed()
      reads this
    {
      Counted() && cells == Sets(Live())
    }

    /** The lines written so far explain the live rows. */
    ghost predicate Explained()
      reads this
    {
      && Explains(start, lines, Live())
      && |outfile| == |lines| && forall k :: 0 <= k < |lines| ==> lines[k] != [] && outfile[k] == Print(lines[k])
    }

    ghost predicate Valid()
      reads this
    {
      Indexed() && Explained()
    }

    /** filter_matrix_read_weights, fillmat and filter_matrix_read: columns of weight at most cwmax are followed. */
    constructor (rows0: seq<Option<seq<nat>>>, ncols: nat, cwmax0: nat, wburied0: seq<nat>, nburied0: nat)
      requires RowsSorted(rows0) && forall i, j :: 0 <= i < |rows0| && rows0[i].Some? && j in rows0[i].value ==> j < ncols
      ensures Valid() && rows == rows0 && start == Values(rows0) && lines == [] && |wt| == ncols && cwmax == cwmax0
      ensures wburied == wburied0 && nburied == nburied0 && rem_nrows == |rows0| && rem_ncols == ncols && Ix() == InitialIndex(rows0, ncols, cwmax0)
    {
      var wt0 := ReadWeights(rows0, ncols);
      var wt1, R1, S1, A1 := FillMat(wt0, cwmax0, rows0);
      R1 := FillRowLists(rows0, wt1, R1, cwmax0);
      rows, cwmax, wburied, nburied := rows0, cwmax0, wburied0, nburied0;
      wt, R, S, A := wt1, R1, S1, A1;
      rem_nrows, rem_ncols, outfile := |rows0|, ncols, [];
      cells, lines, start := Sets(Values(rows0)), [], Values(rows0);
      new;
      IndexIs(rows0, ncols, cwmax0, Ix());
      InitialAgrees(rows0, ncols, cwmax0);
    }

    // ---------- swar.c ----------

    /** Removes the cell of j from the list it is in. */
    method RemoveJFromS(j: nat)
      requires j < |A| && (A[j].Some? ==> A[j].value < |S|)
      modifies this`S
      ensures S == Unlink(old(S), A, j)
    {
      if A[j].None? {
        return;
      }
      S := S[A[j].value := Without(S[A[j].value], j)];
    }

    method DecreaseColWeight(j: nat)
      requires j < |wt| == |A| && A[j].Some? && A[j].value < |S| && |S| == cwmax + 2 && wt[j] >= 1
      modifies this`wt, this`S, this`A
      ensures Ix() == Decreased(old(Ix()), j)
    {
      wt := wt[j := DecrS(wt[j])];
      var ind := wt[j];
      RemoveJFromS(j);
      if wt[j] > cwmax {
        ind := cwmax + 1;
      }
      S := S[ind := [j] + S[ind]];
      A := A[j := Some(ind)];
    }

    /** A negative result means that the column is too heavy to be followed. */
    method AddCol(j: nat) returns (ind: int)
      requires j < |wt| == |A| && |S| == cwmax + 2 && (wt[j] >= 0 ==> A[j].Some? && A[j].value < |S|)
      modifies this`wt, this`S, this`A
      ensures Ix() == Increased(old(Ix()), j) && (ind >= 0 <==> IncrS(old(wt[j])) >= 0)
    {
      wt := wt[j := IncrS(wt[j])];
      ind := wt[j];
      if ind < 0 {
        return;
      }
      RemoveJFromS(j);
      if wt[j] > cwmax {
        ind := cwmax + 1;
      }
      S := S[ind := [j] + S[ind]];
      A := A[j := Some(ind)];
    }

    // ---------- filter_matrix.c ----------

    method RemoveIFromRj(i: nat, j: nat)
      requires j < |R|
      modifies this`R
      ensures R == match old(R[j]) case None => old(R) case Some(r) => old(R)[j := Some(RemoveRow(r, i))]
    {
      if R[j].None? {
        return;
      }
      var r := R[j].value;
      var k := 0;
      while k < |r|
        invariant k <= |r| && R == old(R) && r == old(R[j]).value
        invariant forall l :: 0 <= l < k ==> r[l] != i
      {
        if r[k] == i {
          FirstIs(r, i, k);
          R := R[j := Some(r[k := -1])];
          return;
        }
        k := k + 1;
      }
      FirstIs(r, i, k);
      assert R == old(R)[j := Some(r)];
    }

    method AddIToRj(i: nat, j: nat)
      requires j < |R| && R[j].Some?
      modifies this`R
      ensures R == old(R)[j := Some(AddRow(old(R[j]).value, i))]
    {
      var r := R[j].value;
      var k := 0;
      while k < |r|
        invariant k <= |r|
        invariant forall l :: 0 <= l < k ==> r[l] != -1
      {
        if r[k] == -1 {
          break;
        }
        k := k + 1;
      }
      FirstIs(r, -1, k);
      R := R[j := Some(if k < |r| then r[k := i] else r + [i])];
    }

    // ---------- Cells and rows ----------

    method RemoveCellAndUpdate(i: nat, j: nat)
      requires Agrees(Ix(), cells) && i < |cells| && j in cells[i]
      modifies this`wt, this`S, this`A, this`R, this`cells
      ensures Agrees(Ix(), cells) && cells == old(cells)[i := old(cells[i]) - {j}] && SameStatus(old(Ix()), Ix())
      ensures OtherLists(old(R), R, {j})
    {
      CellFacts(Ix(), cells, i, j);
      CellRemovedAgrees(Ix(), cells, i, j);
      cells := cells[i := cells[i] - {j}];
      if wt[j] < 0 {
        return;
      }
      DecreaseColWeight(j);
      RemoveIFromRj(i, j);
    }

    method AddCellAndUpdate(i: nat, j: nat)
      requires Agrees(Ix(), cells) && i < |cells| && j !in cells[i] && j < |wt| && !Retired(Ix(), j)
      modifies this`wt, this`S, this`A, this`R, this`cells
      ensures Agrees(Ix(), cells) && cells == old(cells)[i := old(cells[i]) + {j}] && SameStatus(old(Ix()), Ix())
    {
      ColumnFacts(Ix(), cells, j);
      CellAddedAgrees(Ix(), cells, i, j);
      cells := cells[i := cells[i] + {j}];
      var ind := AddCol(j);
      if ind >= 0 {
        AddIToRj(i, j);
      }
    }

    /** All cells of row i leave the index. */
    method RemoveRowAndUpdate(i: nat)
      requires Counted() && i < |rows| && rows[i].Some? && Cols(rows[i].value) <= cells[i]
      modifies this`wt, this`S, this`A, this`R, this`cells
      ensures Counted() && SameStatus(old(Ix()), Ix())
      ensures cells == old(cells)[i := old(cells[i]) - Cols(rows[i].value)] && OtherLists(old(R), R, Cols(rows[i].value))
    {
      hide Agrees, SameStatus, Sorted;
      var row := rows[i].value;
      StatusSame(Ix(), cells);
      assert Sorted(row) by {
        SortedAt(rows, i);
      }
      NoCells(row);
      assert cells[i] - Cols(row[..0]) == cells[i];
      var k := 0;
      while k < |row|
        invariant k <= |row| && |cells| == |rows| && Agrees(Ix(), cells) && SameStatus(old(Ix()), Ix())
        invariant cells == old(cells)[i := old(cells[i]) - Cols(row[..k])] && OtherLists(old(R), R, Cols(row[..k]))
      {
        NextCell(row, k);
        RestCells(row, old(cells[i]), k);
        ghost var ix := Ix();
        RemoveCellAndUpdate(i, row[k]);
        StatusTwice(old(Ix()), ix, Ix());
        k := k + 1;
      }
      assert row[..k] == row;
    }

    /** All cells of row i enter the index. */
    method AddOneRowAndUpdate(i: nat)
      requires Counted() && i < |rows| && rows[i].Some? && cells[i] == {}
      requires forall j :: j in rows[i].value ==> j < |wt| && !Retired(Ix(), j)
      modifies this`wt, this`S, this`A, this`R, this`cells
      ensures Counted() && SameStatus(old(Ix()), Ix()) && cells == old(cells)[i := Cols(rows[i].value)]
    {
      hide Agrees, SameStatus, Sorted;
      var row := rows[i].value;
      StatusSame(Ix(), cells);
      assert Sorted(row) by {
        SortedAt(rows, i);
      }
      NoCells(row);
      assert cells == cells[i := Cols(row[..0])];
      var k := 0;
      while k < |row|
        invariant k <= |row| && |cells| == |rows| && Agrees(Ix(), cells) && SameStatus(old(Ix()), Ix())
        invariant cells == old(cells)[i := Cols(row[..k])]
      {
        NextCell(row, k);
        StatusRetired(old(Ix()), Ix(), row[k]);
        ghost var ix := Ix();
        AddCellAndUpdate(i, row[k]);
        StatusTwice(old(Ix()), ix, Ix());
        k := k + 1;
      }
      assert row[..k] == row;
    }

    /** mat[i1] += mat[i2] */
    method AddRowsAndUpdate(i1: nat, i2: nat, len: int)
      requires Indexed() && i1 < |rows| && i2 < |rows| && i1 != i2 && rows[i1].Some? && rows[i2].Some?
      requires len == -1 || len == |Xor(Cols(rows[i1].value), Cols(rows[i2].value))|
      modifies this`rows, this`wt, this`S, this`A, this`R, this`cells
      ensures Indexed() && SameStatus(old(Ix()), Ix()) && Live() == Added(old(Live()), i1, i2)
      ensures |rows| == |old(rows)|
    {
      hide Agrees, SameStatus, Sorted;
      ghost var ix, V := Ix(), Live();
      var r1, r2 := rows[i1].value, rows[i2].value;
      SortedAt(rows, i1);
      SortedAt(rows, i2);
      RemoveRowAndUpdate(i1);
      var r := AddRows(r1, r2, len);
      SumNotRetired(ix, Ix(), old(cells), i1, i2, r1, r2, r);
      ghost var ix1 := Ix();
      rows := rows[i1 := Some(r)];
      SortedPut(old(rows), i1, r);
      AddOneRowAndUpdate(i1);
      StatusTwice(ix, ix1, Ix());
      SumLive(old(rows), i1, i2, r);
    }

    // ---------- Reports and deletions ----------

    /** reportn: one more line of the history */
    method Report(ind: seq<int>)
      requires ind != []
      modifies this`outfile, this`lines
      ensures outfile == old(outfile) + [Print(ind)] && lines == old(lines) + [ind]
    {
      var str := ReportLine(ind);
      outfile := outfile + [str];
      lines := lines + [ind];
    }

    /** Row i leaves the index and the matrix. */
    method RemoveAndDestroy(i: nat)
      requires Counted() && i < |rows| && rows[i].Some? && Cols(rows[i].value) <= cells[i]
      modifies this`rows, this`wt, this`S, this`A, this`R, this`cells
      ensures Counted() && SameStatus(old(Ix()), Ix()) && rows == old(rows)[i := None]
      ensures cells == old(cells)[i := old(cells[i]) - Cols(old(rows[i]).value)]
      ensures OtherLists(old(R), R, Cols(old(rows[i]).value))
    {
      hide Agrees, SameStatus, Sorted;
      RemoveRowAndUpdate(i);
      rows := rows[i := None];
    }

    method RemoveRowDefinitely(i: nat)
      requires Counted() && i < |rows| && rows[i].Some? && Cols(rows[i].value) <= cells[i]
      modifies this`rows, this`wt, this`S, this`A, this`R, this`cells, this`outfile, this`lines, this`rem_nrows
      ensures Counted() && SameStatus(old(Ix()), Ix()) && rows == old(rows)[i := None]
      ensures cells == old(cells)[i := old(cells[i]) - Cols(old(rows[i]).value)]
      ensures OtherLists(old(R), R, Cols(old(rows[i]).value))
      ensures outfile == old(outfile) + [Print([i])] && lines == old(lines) + [[i]] && rem_nrows == old(rem_nrows) - 1
    {
      hide Agrees, SameStatus, Sorted, RowsSorted, Cols, Print;
      RemoveAndDestroy(i);
      Report([i]);
      rem_nrows := rem_nrows - 1;
    }

    /** A heavy or superfluous row is deleted, with a line of its own. */
    method DeleteRow(i: nat)
      requires Valid() && i < |rows| && rows[i].Some?
      modifies this`rows, this`wt, this`S, this`A, this`R, this`cells, this`outfile, this`lines, this`rem_nrows
      ensures Valid() && OneWay(old(Ix()), Ix()) && Live() == old(Live())[i := None] && rem_nrows == old(rem_nrows) - 1
      ensures rows == old(rows)[i := None] && lines == old(lines) + [[i]] && Extends(old(lines), lines, 1)
      ensures SameStatus(old(Ix()), Ix())
    {
      hide Agrees, SameStatus, RowsSorted, Cols, Print, Explains, OneWay;
      ghost var ix, c := Ix(), cells;
      DropLive(rows, i);
      ExplainsDestroy(start, lines, Live(), i);
      RemoveRowDefinitely(i);
      StatusOneWay(ix, Ix(), c);
    }

    /** A row without columns to follow is dropped, without a line. */
    method DropUselessRow(i: nat)
      requires Valid() && i < |rows| && rows[i].Some?
      modifies this`rows, this`wt, this`S, this`A, this`R, this`cells
      ensures Valid() && OneWay(old(Ix()), Ix()) && Live() == old(Live())[i := None] && rows == old(rows)[i := None]
      ensures SameStatus(old(Ix()), Ix())
    {
      hide Agrees, SameStatus, RowsSorted, Cols, Print, Explains, OneWay;
      ghost var ix, c := Ix(), cells;
      DropLive(rows, i);
      ExplainsDrop(start, lines, Live(), i);
      RemoveAndDestroy(i);
      StatusOneWay(ix, Ix(), c);
    }

    /** Column j leaves the lists; its weight becomes 0. */
    method RemoveColumnAndUpdate(j: nat)
      requires j < |wt| == |R| == |A| && (A[j].Some? ==> A[j].value < |S|)
      modifies this`wt, this`S, this`A, this`R
      ensures Ix() == ColumnDropped(old(Ix()), j, 0)
    {
      RemoveJFromS(j);
      A := A[j := None];
      wt := wt[j := 0];
      R := R[j := None];
    }

    /** remove_j_from_row: crunches row i. */
    method RemoveJFromRow(i: nat, j: nat)
      requires RowsSorted(rows) && i < |rows| && rows[i].Some? && j in rows[i].value
      modifies this`rows
      ensures |rows| == |old(rows)| && RowsSorted(rows) && rows[i].Some? && Cols(rows[i].value) == Cols(old(rows[i]).value) - {j}
      ensures forall x: nat :: x < |rows| && x != i ==> rows[x] == old(rows)[x]
    {
      var row := rows[i].value;
      var k := 0;
      while row[k] != j
        invariant k < |row| && forall l :: 0 <= l < k ==> row[l] != j
        decreases |row| - k
      {
        k := k + 1;
      }
      CrunchedRow(row, k);
      rows := rows[i := Some(row[..k] + row[k + 1..])];
    }

    /** What removeColDefinitely has done once the rows in done are gone: they are only counted for column j. */
    ghost predicate Cleared(j: nat, done: set<nat>, rows0: seq<Option<seq<nat>>>, cells0: seq<set<nat>>)
      reads this
    {
      && |rows| == |rows0| == |cells| == |cells0|
      && (forall i: nat :: i < |rows| && i in done ==> rows[i].None? && cells[i] == {j})
      && (forall i: nat :: i < |rows| && i !in done ==> rows[i] == rows0[i] && cells[i] == cells0[i])
    }

    method ClearRow(i: nat, j: nat, ghost done: set<nat>, ghost rows0: seq<Option<seq<nat>>>, ghost cells0: seq<set<nat>>)
      requires Counted() && Explained() && Cleared(j, done, rows0, cells0)
      requires i < |rows| && rows[i].Some? && i !in done && cells[i] == Cols(rows[i].value) && j in cells[i] && j < |R|
      modifies this`rows, this`wt, this`S, this`A, this`R, this`cells, this`outfile, this`lines, this`rem_nrows
      ensures Counted() && Explained() && Cleared(j, done + {i}, rows0, cells0) && SameStatus(old(Ix()), Ix())
      ensures |R| == |old(R)| && R[j] == old(R[j]) && rem_nrows == old(rem_nrows) - 1
      ensures lines == old(lines) + [[i]]
    {
      hide Agrees, SameStatus, RowsSorted, Print, Explains, Cols;
      ghost var V, c := Live(), Cols(rows[i].value);
      InCols(rows[i].value, j);
      ExplainsDestroy(start, lines, V, i);
      RemoveJFromRow(i, j);
      assert rows[i := None] == old(rows)[i := None];
      DropLive(old(rows), i);
      assert c - (c - {j}) == {j};
      RemoveRowDefinitely(i);
    }

    /** The loop of removeColDefinitely when the rows in done are gone, each with its line */
    ghost predicate Clearing(j: nat, done: set<nat>, s: Snapshot, cells0: seq<set<nat>>)
      reads this
    {
      && Counted() && Explained() && Cleared(j, done, s.rows, cells0) && SameStatus(s.ix, Ix()) && LinesFor(s.lines, lines, done)
      && j < |R| && j < |s.ix.R| && R[j] == s.ix.R[j] && |R| == |s.ix.R|
      && rem_nrows + |lines| == s.rem_nrows + |s.lines| && rem_ncols + |lines| == s.rem_ncols + |s.lines|
    }

    /** One row of the column */
    method ClearNext(i: nat, j: nat, ghost done: set<nat>, ghost s: Snapshot, ghost cells0: seq<set<nat>>)
      requires Clearing(j, done, s, cells0) && cells0 == Sets(Values(s.rows)) && i in Rows(cells0, j) && i !in done
      modifies this`rows, this`wt, this`S, this`A, this`R, this`cells, this`outfile, this`lines, this`rem_nrows, this`rem_ncols
      ensures Clearing(j, done + {i}, s, cells0)
    {
      hide Agrees, SameStatus, RowsSorted, Print, Rows, Explains, Cols, LinesFor;
      ghost var ix := Ix();
      CountedRow(s.rows, cells0, i, j);
      LinesMore(s.lines, lines, done, i);
      ClearRow(i, j, done, s.rows, cells0);
      StatusTwice(s.ix, ix, Ix());
      rem_ncols := rem_ncols - 1;
    }

    /** One entry of the row list, which may be a free place */
    method ClearEntry(r: seq<int>, k: nat, j: nat, ghost s: Snapshot, ghost cells0: seq<set<nat>>)
      requires k < |r| && ListsRows(r, Rows(cells0, j)) && Clearing(j, Listed(r, k), s, cells0) && cells0 == Sets(Values(s.rows))
      modifies this`rows, this`wt, this`S, this`A, this`R, this`cells, this`outfile, this`lines, this`rem_nrows, this`rem_ncols
      ensures Clearing(j, Listed(r, k + 1), s, cells0)
    {
      hide Clearing, Rows, ListsRows, Listed, Sets, Values;
      NextListed(r, k, Rows(cells0, j));
      if r[k] != -1 {
        ClearNext(r[k], j, Listed(r, k), s, cells0);
      }
    }

    /** The loop of removeColDefinitely: all rows of column j are deleted; the index still counts j in them. */
    method RemoveRowsOf(j: nat)
      requires Valid() && j < |wt| && A[j].Some?
      modifies this`rows, this`wt, this`S, this`A, this`R, this`cells, this`outfile, this`lines, this`rem_nrows, this`rem_ncols
      ensures Clearing(j, Rows(old(cells), j), old(Now(this)), old(cells))
    {
      ghost var s, c := Now(this), cells;
      var k, r := ClearStart(j);
      AllListed(r, Rows(c, j));
      hide Clearing, Rows, ListsRows, Listed, Sets, Values;
      while k < |r|
        invariant k <= |r| && Clearing(j, Listed(r, k), s, c)
      {
        ClearEntry(r, k, j, s, c);
        k := k + 1;
      }
    }

    method ClearStart(j: nat) returns (k: nat, r: seq<int>)
      requires Valid() && j < |wt| && A[j].Some?
      ensures k == 0 && ListsRows(r, Rows(cells, j)) && Clearing(j, Listed(r, 0), Now(this), cells)
    {
      hide Agrees, SameStatus, RowsSorted, Print, Rows, Explains, ListsRows, Cols;
      ColumnFacts(Ix(), cells, j);
      StatusSame(Ix(), cells);
      NoLines(lines);
      Recount(Ix(), cells, j, 0);
      k, r := 0, R[j].value;
      NoneListed(r);
    }

    /** removeColDefinitely */
    method RemoveColDefinitely(j: nat) returns (ghost ix: Index)
      requires Valid() && j < |wt| && A[j].Some?
      modifies this`rows, this`wt, this`S, this`A, this`R, this`cells, this`outfile, this`lines, this`rem_nrows, this`rem_ncols
      ensures Cleared(j, Rows(old(cells), j), old(rows), old(cells)) && RowsSorted(rows) && Explained()
      ensures Agrees(ix, cells) && SameStatus(old(Ix()), ix) && j < |ix.wt| && Ix() == ix.(wt := ix.wt[j := 0])
      ensures LinesFor(old(lines), lines, Rows(old(cells), j)) && Extends(old(lines), lines, 1)
      ensures rem_nrows == old(rem_nrows) - |Rows(old(cells), j)| && rem_ncols == old(rem_ncols) - |Rows(old(cells), j)|
    {
      hide Agrees, SameStatus, RowsSorted, Print, Rows, Explains, LinesFor, Extends, Sets, Values;
      ghost var s := Rows(cells, j);
      RemoveRowsOf(j);
      LinesExtend(old(lines), lines, s);
      ix := Ix();
      StatusRetired(old(Ix()), ix, j);
      wt := wt[j := 0];
    }

    /** Column j is no longer followed. Its rows go with it if it is a singleton; if it is in no row it is retired,
        and else it counts as heavy from now on. */
    method DeleteColumn(j: nat, iS: nat)
      requires Valid() && j < |wt| && A[j] == Some(iS)
      modifies this`rows, this`wt, this`S, this`A, this`R, this`cells, this`outfile, this`lines, this`rem_nrows, this`rem_ncols
      ensures Valid() && OneWay(old(Ix()), Ix()) && Followed(A) == Followed(old(A)) - {j}
      ensures RowsKept(old(rows), rows) && Extends(old(lines), lines, 1)
      ensures iS <= 1 ==> Retired(Ix(), j)
      ensures iS == 1 ==> ColumnGone(Live(), j)
      ensures iS == 1 <= cwmax ==> ColumnMerged(old(Live()), Live(), j) && |Present(Live())| == |Present(old(Live()))| - 1
      ensures iS != 1 ==> rows == old(rows) && lines == old(lines)
      ensures LinesFor(old(lines), lines, GoneRows(old(rows), rows))
      ensures iS != 1 ==> |A| == |old(A)| && A == old(A)[j := None]
      ensures iS == 1 <= cwmax ==> rem_nrows == old(rem_nrows) - 1 && rem_ncols == old(rem_ncols) - 1
      ensures iS != 1 ==> rem_nrows == old(rem_nrows) && rem_ncols == old(rem_ncols) - if iS == 0 then 1 else 0
    {
      hide Agrees, SameStatus, RowsSorted, Print, Rows, Explains, ListsRows, Cols, OneWay, ColumnGone, Sets, Followed, Unlink,
        ColumnMerged, RowsKept, Extends, LinesFor, GoneRows;
      SameRows(rows);
      ExtendsNone(lines, 1);
      NoLines(lines);
      NoneGone(rows);
      ghost var ix := Ix();
      ColumnFacts(Ix(), cells, j);
      Recount(Ix(), cells, j, iS);
      if iS == 0 {
        rem_ncols := rem_ncols - 1;
      }
      if iS == 1 {
        ix := RemoveColDefinitely(j);
        StatusFollowed(old(Ix()), ix, j);
        ClearedAgrees(ix, rows, cells, old(rows), old(cells), j);
        ColumnFacts(ix, cells, j);
        ClearedKept(rows, old(rows), Rows(old(cells), j));
        ClearedGone(rows, old(rows), old(cells), j);
        if cwmax >= 1 {
          ClearedMerged(rows, cells, old(rows), old(cells), j);
        }
        cells := Sets(Live());
      } else {
        StatusSame(ix, cells);
        StatusFollowed(ix, ix, j);
        UnclearedAgrees(ix, cells, j);
      }
      var k := wt[j];
      RemoveColumnAndUpdate(j);
      wt := wt[j := -k];
      DroppedAgain(ix, Ix(), j, k);
      DroppedOneWay(old(Ix()), ix, old(cells), j, -k);
    }

    /** deleteAllColsFromStack: for singletons (iS = 1), heavy columns (iS = cwmax + 1) or empty ones (iS = 0) */
    method DeleteAllColsFromStack(iS: nat) returns (njrem: nat, ghost J: set<nat>)
      requires Valid() && iS < |S|
      modifies this`rows, this`wt, this`S, this`A, this`R, this`cells, this`outfile, this`lines, this`rem_nrows, this`rem_ncols
      ensures Valid() && OneWay(old(Ix()), Ix()) && iS < |S| && S[iS] == []
      ensures J <= Followed(old(A)) && Followed(A) == Followed(old(A)) - J && njrem == |J|
      ensures RowsKept(old(rows), rows) && Extends(old(lines), lines, 1)
      ensures iS <= 1 ==> forall j :: j in J ==> Retired(Ix(), j)
      ensures iS == 1 <= cwmax ==> ColumnsMerged(old(Live()), Live(), J) && |Present(Live())| + |J| == |Present(old(Live()))|
      ensures iS != 1 ==> rows == old(rows) && lines == old(lines)
      ensures LinesFor(old(lines), lines, GoneRows(old(rows), rows))
      ensures iS != 1 ==> forall j: nat :: j in J <==> j < |old(A)| && old(A)[j] == Some(iS)
      ensures old(S)[iS] != [] ==> J != {}
      ensures iS == 1 <= cwmax ==> rem_nrows == old(rem_nrows) - |J| && rem_ncols == old(rem_ncols) - |J|
      ensures iS != 1 ==> rem_nrows == old(rem_nrows) && rem_ncols == old(rem_ncols) - if iS == 0 then |J| else 0
    {
      hide Agrees, RowsSorted, Print, Explains, OneWay, Sets, Followed, Values, ColumnMerged, ColumnsMerged, RowsKept, Extends, Retired,
        Present, LinesFor, GoneRows, Unlisted;
      NoLines(lines);
      NoneGone(rows);
      NoneUnlisted(A, iS);
      njrem, J := 0, {};
      SameOneWay(Ix());
      SameRows(rows);
      ExtendsNone(lines, 1);
      NoneMerged(Live());
      ListCount(Ix(), cells);
      while S[iS] != []
        invariant Valid() && OneWay(old(Ix()), Ix()) && |S| == |old(S)|
        invariant J <= Followed(old(A)) && Followed(A) == Followed(old(A)) - J && njrem == |J|
        invariant RowsKept(old(rows), rows) && Extends(old(lines), lines, 1) && LinesFor(old(lines), lines, GoneRows(old(rows), rows))
        invariant iS <= 1 ==> forall j :: j in J ==> Retired(Ix(), j)
        invariant iS == 1 <= cwmax ==> ColumnsMerged(old(Live()), Live(), J) && |Present(Live())| + |J| == |Present(old(Live()))|
        invariant iS != 1 ==> rows == old(rows) && lines == old(lines)
        invariant J == {} ==> S == old(S)
        invariant iS != 1 ==> Unlisted(old(A), A, J, iS)
        invariant iS == 1 <= cwmax ==> rem_nrows == old(rem_nrows) - |J| && rem_ncols == old(rem_ncols) - |J|
        invariant iS != 1 ==> rem_nrows == old(rem_nrows) && rem_ncols == old(rem_ncols) - if iS == 0 then |J| else 0
        decreases |Followed(A)|
      {
        ghost var ix, rows1, lines1, V := Ix(), rows, lines, Live();
        var j := S[iS][0];
        CellOf(Ix(), cells, iS, j);
        IsFollowed(A, j);
        njrem := njrem + 1;
        DeleteColumn(j, iS);
        OneWayTwice(old(Ix()), ix, Ix());
        KeptTwice(old(rows), rows1, rows);
        LinesTwice(old(lines), lines1, lines, old(rows), rows1, rows);
        ExtendsTwice(old(lines), lines1, lines, 1);
        RetiredMore(ix, Ix(), J);
        if iS == 1 <= cwmax {
          MergedMore(old(Live()), V, Live(), J, j);
        }
        if iS != 1 {
          UnlistedMore(old(A), ix.A, J, j, iS);
        }
        J := J + {j};
        ListCount(Ix(), cells);
        FewerFollowed(ix.A, j);
      }
      if iS != 1 {
        AllUnlisted(Ix(), cells, old(A), J, iS);
      }
    }

    /** deleteEmptyColumnsSWAR */
    method DeleteEmptyColumns() returns (njrem: nat)
      requires Valid()
      modifies this`wt, this`S, this`A, this`R, this`rem_ncols
      ensures Valid() && OneWay(old(Ix()), Ix()) && |S| > 0 && S[0] == [] && rem_ncols == old(rem_ncols) - njrem
      ensures njrem == |old(S)[0]| && Followed(A) <= Followed(old(A))
      ensures |S| == |old(S)| && forall w :: 0 < w < |S| ==> S[w] == old(S)[w]
    {
      hide Agrees, RowsSorted, Print, Explains, OneWay, Sets, Followed, Values;
      njrem := 0;
      SameOneWay(Ix());
      ListCount(Ix(), cells);
      while S[0] != []
        invariant Valid() && OneWay(old(Ix()), Ix()) && |S| == |old(S)| && njrem + |S[0]| == |old(S)[0]| && rem_ncols == old(rem_ncols)
        invariant Followed(A) <= Followed(old(A)) && forall w :: 0 < w < |S| ==> S[w] == old(S)[w]
        decreases |S[0]|
      {
        ghost var ix := Ix();
        var j := S[0][0];
        CellOf(Ix(), cells, 0, j);
        ColumnFacts(ix, cells, j);
        FirstUnlinked(ix, cells, j);
        StatusSame(ix, cells);
        DroppedOneWay(ix, ix, cells, j, 0);
        S := S[0 := S[0][1..]];
        njrem := njrem + 1;
        A := A[j := None];
        wt := wt[j := 0];
        R := R[j := None];
        NotFollowed(ix.A, j);
        OneWayTwice(old(Ix()), ix, Ix());
        ListCount(Ix(), cells);
      }
      rem_ncols := rem_ncols - njrem;
    }
  }

  lemma FirstUnlinked(ix: Index, cells: seq<set<nat>>, j: nat)
    requires Agrees(ix, cells) && |ix.S| > 0 && ix.S[0] != [] && ix.S[0][0] == j && j < |ix.wt| && ix.A[j] == Some(0)
    ensures Unlink(ix.S, ix.A, j) == ix.S[0 := ix.S[0][1..]] && Agrees(ColumnDropped(ix, j, 0), cells)
  {
    assert ColumnAgrees(ix, Rows(cells, j), j);
    ColumnFacts(ix, cells, j);
    UnclearedAgrees(ix, cells, j);
  }

  ghost function Followed(A: seq<Option<nat>>): set<nat> {
    set j: nat | j < |A| && A[j].Some?
  }

  lemma IsFollowed(A: seq<Option<nat>>, j: nat)
    requires j < |A| && A[j].Some?
    ensures j in Followed(A)
  {
  }

  // ---------- A line for each deleted row ----------

  /** Each row of s has a line of its own among the new lines, and there are no others. */
  ghost predicate LinesFor(lines: seq<seq<int>>, lines': seq<seq<int>>, s: set<nat>) {
    Extends(lines, lines', 1) && |lines'| == |lines| + |s| && forall i :: i in s ==> [i as int] in lines'[|lines|..]
  }

  ghost function GoneRows<T>(rows: seq<Option<T>>, rows': seq<Option<T>>): set<nat> {
    set i: nat | i < |rows| && i < |rows'| && rows[i].Some? && rows'[i].None?
  }

  lemma NoLines(lines: seq<seq<int>>)
    ensures LinesFor(lines, lines, {})
  {
  }

  lemma NoneGone(rows: seq<Option<seq<nat>>>)
    ensures GoneRows(rows, rows) == {}
  {
  }

  lemma LinesMore(lines: seq<seq<int>>, lines': seq<seq<int>>, s: set<nat>, i: nat)
    requires LinesFor(lines, lines', s) && i !in s
    ensures LinesFor(lines, lines' + [[i]], s + {i})
  {
    var more := lines' + [[i]];
    assert more[|lines|..] == lines'[|lines|..] + [[i]];
  }

  lemma LinesExtend(lines: seq<seq<int>>, lines': seq<seq<int>>, s: set<nat>)
    requires LinesFor(lines, lines', s)
    ensures Extends(lines, lines', 1) && |lines'| == |lines| + |s|
  {
  }

  lemma LinesTwice(k: seq<seq<int>>, l: seq<seq<int>>, m: seq<seq<int>>, a: seq<Option<seq<nat>>>, b: seq<Option<seq<nat>>>, c: seq<Option<seq<nat>>>)
    requires LinesFor(k, l, GoneRows(a, b)) && LinesFor(l, m, GoneRows(b, c)) && RowsKept(a, b) && RowsKept(b, c)
    ensures LinesFor(k, m, GoneRows(a, c))
  {
    var s, t, u := GoneRows(a, b), GoneRows(b, c), GoneRows(a, c);
    GoneTwice(a, b, c);
    ExtendsTwice(k, l, m, 1);
    assert m[|k|..] == l[|k|..] + m[|l|..];
  }

  lemma GoneTwice(a: seq<Option<seq<nat>>>, b: seq<Option<seq<nat>>>, c: seq<Option<seq<nat>>>)
    requires RowsKept(a, b) && RowsKept(b, c)
    ensures GoneRows(a, c) == GoneRows(a, b) + GoneRows(b, c) && |GoneRows(a, c)| == |GoneRows(a, b)| + |GoneRows(b, c)|
  {
    assert GoneRows(a, b) !! GoneRows(b, c);
    assert GoneRows(a, c) == GoneRows(a, b) + GoneRows(b, c);
  }

  lemma ClearedGone(rows: seq<Option<seq<nat>>>, rows0: seq<Option<seq<nat>>>, cells0: seq<set<nat>>, j: nat)
    requires cells0 == Sets(Values(rows0)) && |rows| == |rows0|
    requires forall i: nat :: i < |rows| ==> if i in Rows(cells0, j) then rows[i].None? else rows[i] == rows0[i]
    ensures GoneRows(rows0, rows) == Rows(cells0, j)
  {
    forall i: nat ensures i in GoneRows(rows0, rows) <==> i in Rows(cells0, j) {
      if i in Rows(cells0, j) {
        CountedRow(rows0, cells0, i, j);
      }
    }
  }

  /** The columns of J were in list w, and are in no list now. */
  ghost predicate Unlisted(A: seq<Option<nat>>, A': seq<Option<nat>>, J: set<nat>, w: nat) {
    && |A'| == |A| && (forall j: nat :: j < |A| ==> A'[j] == if j in J then None else A[j])
    && forall j: nat :: j in J ==> j < |A| && A[j] == Some(w)
  }

  lemma NoneUnlisted(A: seq<Option<nat>>, w: nat)
    ensures Unlisted(A, A, {}, w)
  {
  }

  lemma UnlistedMore(A: seq<Option<nat>>, A': seq<Option<nat>>, J: set<nat>, j: nat, w: nat)
    requires Unlisted(A, A', J, w) && j < |A'| && A'[j] == Some(w)
    ensures Unlisted(A, A'[j := None], J + {j}, w)
  {
  }

  lemma AllUnlisted(ix: Index, cells: seq<set<nat>>, A: seq<Option<nat>>, J: set<nat>, w: nat)
    requires Agrees(ix, cells) && w < |ix.S| && ix.S[w] == [] && Unlisted(A, ix.A, J, w)
    ensures forall j: nat :: j in J <==> j < |A| && A[j] == Some(w)
  {
    NoneInList(ix, cells, w);
  }

  lemma NoneInList(ix: Index, cells: seq<set<nat>>, w: nat)
    requires Agrees(ix, cells) && w < |ix.S| && ix.S[w] == []
    ensures forall j: nat :: j < |ix.A| ==> ix.A[j] != Some(w)
  {
    forall j: nat | j < |ix.A| ensures ix.A[j] != Some(w) {
      assert !Holds(ix.S, w, j);
    }
  }

  lemma NotFollowed(A: seq<Option<nat>>, j: nat)
    requires j < |A|
    ensures Followed(A[j := None]) == Followed(A) - {j}
  {
  }

  lemma RetiredMore(ix: Index, ix': Index, J: set<nat>)
    requires OneWay(ix, ix')
    ensures (forall j :: j in J ==> Retired(ix, j)) ==> forall j :: j in J ==> Retired(ix', j)
  {
  }

  lemma SameRows(rows: seq<Option<seq<nat>>>)
    ensures RowsKept(rows, rows)
  {
  }

  lemma ClearedKept(rows: seq<Option<seq<nat>>>, rows0: seq<Option<seq<nat>>>, s: set<nat>)
    requires |rows| == |rows0| && forall i: nat :: i < |rows| ==> if i in s then rows[i].None? else rows[i] == rows0[i]
    ensures RowsKept(rows0, rows)
  {
  }

  /** With the only row that contains j, nothing but column j goes. */
  lemma ClearedMerged(rows: seq<Option<seq<nat>>>, cells: seq<set<nat>>, rows0: seq<Option<seq<nat>>>, cells0: seq<set<nat>>, j: nat)
    requires cells0 == Sets(Values(rows0)) && |rows| == |rows0| && |Rows(cells0, j)| == 1
    requires forall i: nat :: i < |rows| ==> if i in Rows(cells0, j) then rows[i].None? else rows[i] == rows0[i]
    ensures ColumnMerged(Values(rows0), Values(rows), j) && |Present(Values(rows))| == |Present(Values(rows0))| - 1
  {
    var s := Rows(cells0, j);
    var i :| i in s;
    assert s == {i} by {
      assert |s - {i}| == 0;
    }
    CountedRow(rows0, cells0, i, j);
    forall k: nat ensures k in {i} <==> k < |rows0| && Values(rows0)[k].Some? && j in Values(rows0)[k].value {
      if k < |rows0| {
        InRows(cells0, k, j);
      }
    }
    assert Values(rows) == Values(rows0)[i := None];
    SingletonMerges(Values(rows0), Values(rows), i, j);
  }

  lemma FewerFollowed(A: seq<Option<nat>>, j: nat)
    requires j < |A| && A[j].Some?
    ensures |Followed(A) - {j}| < |Followed(A)|
  {
    assert j in Followed(A);
  }

  lemma SameOneWay(ix: Index)
    ensures OneWay(ix, ix)
  {
  }

  lemma OneWayTwice(a: Index, b: Index, c: Index)
    requires OneWay(a, b) && OneWay(b, c)
    ensures OneWay(a, c)
  {
  }

  lemma ListCount(ix: Index, cells: seq<set<nat>>)
    requires Agrees(ix, cells)
    ensures |ix.S| == ix.cwmax + 2
  {
  }

  lemma CellOf(ix: Index, cells: seq<set<nat>>, w: nat, j: nat)
    requires Agrees(ix, cells) && w < |ix.S| && j in ix.S[w]
    ensures j < |ix.wt| == |ix.A| && ix.A[j] == Some(w)
  {
    assert Holds(ix.S, w, j);
  }

  lemma StatusFollowed(ix: Index, ix': Index, j: nat)
    requires SameStatus(ix, ix')
    ensures |ix'.A| == |ix.A| == |ix.wt| == |ix'.wt| && Followed(ix'.A) == Followed(ix.A)
    ensures j < |ix.A| ==> ix'.A[j].Some? == ix.A[j].Some?
  {
  }

  /** Whatever weight column j has, dropping it gives the same index. */
  lemma DroppedAgain(ix: Index, ix': Index, j: nat, k: int)
    requires j < |ix.wt| == |ix.A| == |ix.R|
    requires var d := ColumnDropped(ix, j, 0); ix' == d.(wt := d.wt[j := -k])
    ensures ix' == ColumnDropped(ix, j, -k) && Followed(ix'.A) == Followed(ix.A) - {j}
  {
  }

  lemma DroppedOneWay(ix: Index, ix': Index, cells: seq<set<nat>>, j: nat, w: int)
    requires Agrees(ix, cells) && SameStatus(ix, ix') && j < |ix.wt| && ix.A[j].Some?
    ensures j < |ix'.wt| && OneWay(ix, ColumnDropped(ix', j, w))
  {
    forall x: nat | x < |ix.wt| ensures (ix.wt[x] < 0 ==> ColumnDropped(ix', j, w).wt[x] < 0) && (Retired(ix, x) ==> Retired(ColumnDropped(ix', j, w), x)) {
      ColumnFacts(ix, cells, x);
    }
  }

  lemma ClearedAgrees(ix: Index, rows: seq<Option<seq<nat>>>, cells: seq<set<nat>>, rows0: seq<Option<seq<nat>>>, cells0: seq<set<nat>>, j: nat)
    requires Agrees(ix, cells) && j < |ix.wt| && ix.A[j].Some? && cells0 == Sets(Values(rows0))
    requires |rows| == |rows0| == |cells| == |cells0|
    requires forall i: nat :: i < |rows| && i in Rows(cells0, j) ==> rows[i].None? && cells[i] == {j}
    requires forall i: nat :: i < |rows| && i !in Rows(cells0, j) ==> rows[i] == rows0[i] && cells[i] == cells0[i]
    ensures Agrees(ColumnDropped(ix, j, 0), Sets(Values(rows))) && ColumnGone(Values(rows), j)
  {
    var cells' := Sets(Values(rows));
    forall i: nat | i < |rows| ensures cells'[i] == cells[i] - {j} {
      InRows(cells0, i, j);
    }
    forall x: nat | x != j ensures Rows(cells', x) == Rows(cells, x) {
    }
    assert Rows(cells', j) == {};
    forall i, x | 0 <= i < |cells'| && x in cells'[i] ensures x < |ix.wt| {
      assert x in cells[i];
    }
    ColumnDroppedAgrees(ix, cells, cells', j, 0);
    forall i | 0 <= i < |rows| && Values(rows)[i].Some? ensures j !in Values(rows)[i].value {
      assert j !in cells'[i];
    }
  }

  lemma UnclearedAgrees(ix: Index, cells: seq<set<nat>>, j: nat)
    requires Agrees(ix, cells) && j < |ix.wt| && ix.A[j].Some?
    ensures Agrees(ColumnDropped(ix, j, -ix.wt[j]), cells)
  {
    ColumnFacts(ix, cells, j);
    assert ColumnAgrees(ix, Rows(cells, j), j);
    ColumnDroppedAgrees(ix, cells, cells, j, -ix.wt[j]);
  }

  lemma NoneListed(r: seq<int>)
    ensures Listed(r, 0) == {}
  {
  }

  lemma NextListed(r: seq<int>, k: nat, s: set<nat>)
    requires ListsRows(r, s) && k < |r|
    ensures r[k] == -1 ==> Listed(r, k + 1) == Listed(r, k)
    ensures r[k] != -1 ==> r[k] >= 0 && r[k] in s && r[k] !in Listed(r, k) && Listed(r, k + 1) == Listed(r, k) + {r[k]}
  {
  }

  lemma AllListed(r: seq<int>, s: set<nat>)
    requires ListsRows(r, s)
    ensures Listed(r, |r|) == s
  {
    forall i | i in s ensures i in Listed(r, |r|) {
      assert i in r;
    }
  }

  lemma CountedRow(rows: seq<Option<seq<nat>>>, cells: seq<set<nat>>, i: nat, j: nat)
    requires cells == Sets(Values(rows)) && i in Rows(cells, j)
    ensures i < |rows| && rows[i].Some? && cells[i] == Cols(rows[i].value) && j in cells[i]
  {
  }

  /** Only the row lists of the columns in c may differ. */
  ghost predicate OtherLists(R: seq<Option<seq<int>>>, R': seq<Option<seq<int>>>, c: set<nat>) {
    |R'| == |R| && forall x: nat :: x < |R| && x !in c ==> R'[x] == R[x]
  }

  /** The rows among the first k entries */
  ghost function Listed(r: seq<int>, k: nat): set<nat> {
    set l | 0 <= l < k && l < |r| && r[l] >= 0 :: r[l]
  }

  lemma InCols(r: seq<nat>, j: nat)
    ensures j in Cols(r) <==> j in r
  {
  }

  lemma CrunchedRow(row: seq<nat>, k: nat)
    requires Sorted(row) && k < |row|
    ensures Sorted(row[..k] + row[k + 1..]) && Cols(row[..k] + row[k + 1..]) == Cols(row) - {row[k]}
  {
    assert row == row[..k] + [row[k]] + row[k + 1..];
    assert row[k] !in row[..k] && row[k] !in row[k + 1..];
  }

  // ---------- The first index ----------

  /** The rows before i that contain j */
  function RowsBefore(rows: seq<Option<seq<nat>>>, j: nat, i: nat): seq<int>
    requires i <= |rows|
  {
    if i == 0 then [] else
      RowsBefore(rows, j, i - 1) + if rows[i - 1].Some? && j in rows[i - 1].value then [i - 1] else []
  }

  function WeightOf(rows: seq<Option<seq<nat>>>, j: nat): nat {
    |RowsBefore(rows, j, |rows|)|
  }

  /** The columns before j of weight w, the last one first */
  function ColumnsBefore(rows: seq<Option<seq<nat>>>, w: nat, j: nat): seq<nat> {
    if j == 0 then [] else (if WeightOf(rows, j - 1) == w then [j - 1] else []) + ColumnsBefore(rows, w, j - 1)
  }

  function InitialIndex(rows: seq<Option<seq<nat>>>, ncols: nat, cwmax: nat): Index {
    Index(cwmax,
          seq(ncols, j requires 0 <= j < ncols => if WeightOf(rows, j) <= cwmax then WeightOf(rows, j) else -(WeightOf(rows, j) as int)),
          seq(ncols, j requires 0 <= j < ncols => if WeightOf(rows, j) <= cwmax then Some(RowsBefore(rows, j, |rows|)) else None),
          seq(cwmax + 2, w requires 0 <= w < cwmax + 2 => if w <= cwmax then ColumnsBefore(rows, w, ncols) else []),
          seq(ncols, j requires 0 <= j < ncols => if WeightOf(rows, j) <= cwmax then Some(WeightOf(rows, j)) else None))
  }

  lemma {:induction false} RowsBeforeGrow(rows: seq<Option<seq<nat>>>, j: nat, i: nat, n: nat)
    requires i <= n <= |rows|
    ensures |RowsBefore(rows, j, i)| <= |RowsBefore(rows, j, n)|
    decreases n
  {
    if i < n {
      RowsBeforeGrow(rows, j, i, n - 1);
    }
  }

  /** The rows and the columns of a matrix: every row is sorted, and its columns are below ncols. */
  ghost predicate Fits(rows: seq<Option<seq<nat>>>, ncols: nat) {
    RowsSorted(rows) && forall i, j :: 0 <= i < |rows| && rows[i].Some? && j in rows[i].value ==> j < ncols
  }

  lemma ColumnOnce(row: seq<nat>, k: nat, x: nat)
    requires Sorted(row) && k < |row|
    ensures x in row[..k + 1] <==> x in row[..k] || x == row[k]
    ensures row[k] !in row[..k]
  {
    assert row[..k + 1] == row[..k] + [row[k]];
  }

  /** filter_matrix_read_weights: the weight of every column */
  method ReadWeights(rows: seq<Option<seq<nat>>>, ncols: nat) returns (wt: seq<int>)
    requires Fits(rows, ncols)
    ensures |wt| == ncols && forall j :: 0 <= j < ncols ==> wt[j] == WeightOf(rows, j)
  {
    wt := seq(ncols, _ => 0);
    var i := 0;
    while i < |rows|
      invariant i <= |rows| && |wt| == ncols && forall j :: 0 <= j < ncols ==> wt[j] == |RowsBefore(rows, j, i)|
    {
      if rows[i].Some? {
        var row, k := rows[i].value, 0;
        SortedAt(rows, i);
        while k < |row|
          invariant k <= |row| && |wt| == ncols
          invariant forall j :: 0 <= j < ncols ==> wt[j] == |RowsBefore(rows, j, i)| + if j in row[..k] then 1 else 0
        {
          var j := row[k];
          assert j in row;
          forall x: nat ensures x in row[..k + 1] <==> x in row[..k] || x == j {
            ColumnOnce(row, k, x);
          }
          ColumnOnce(row, k, j);
          wt := wt[j := wt[j] + 1];
          k := k + 1;
        }
        assert row[..k] == row;
      }
      i := i + 1;
    }
  }

  /** fillmat: light columns enter the list for their weight, with an empty row list; the weight of heavy ones is negated. */
  method FillMat(wt0: seq<int>, cwmax: nat, ghost rows: seq<Option<seq<nat>>>)
    returns (wt: seq<int>, R: seq<Option<seq<int>>>, S: seq<seq<nat>>, A: seq<Option<nat>>)
    requires forall j :: 0 <= j < |wt0| ==> wt0[j] == WeightOf(rows, j)
    ensures |wt| == |R| == |A| == |wt0| && |S| == cwmax + 2
    ensures forall j :: 0 <= j < |wt0| ==> wt[j] == if wt0[j] <= cwmax then wt0[j] else -wt0[j]
    ensures forall j :: 0 <= j < |wt0| ==> R[j] == if wt0[j] <= cwmax then Some([]) else None
    ensures forall j :: 0 <= j < |wt0| ==> A[j] == if wt0[j] <= cwmax then Some(wt0[j]) else None
    ensures forall w :: 0 <= w < |S| ==> S[w] == if w <= cwmax then ColumnsBefore(rows, w, |wt0|) else []
  {
    hide WeightOf, ColumnsBefore;
    var n := |wt0|;
    NoColumns(rows);
    wt, R, S, A := wt0, seq(n, _ => None), seq(cwmax + 2, _ => []), seq(n, _ => None);
    var j := 0;
    while j < n
      invariant j <= n == |wt| == |R| == |A| && |S| == cwmax + 2
      invariant forall k :: 0 <= k < n ==> wt[k] == if k < j && wt0[k] > cwmax then -wt0[k] else wt0[k]
      invariant forall k :: 0 <= k < n ==> R[k] == if k < j && wt0[k] <= cwmax then Some([]) else None
      invariant forall k :: 0 <= k < n ==> A[k] == if k < j && wt0[k] <= cwmax then Some(wt0[k]) else None
      invariant forall w :: 0 <= w < |S| ==> S[w] == if w <= cwmax then ColumnsBefore(rows, w, j) else []
    {
      var wj := wt[j];
      if wj <= cwmax {
        S := S[wj := [j] + S[wj]];
        A := A[j := Some(wj)];
        R := R[j := Some([])];
      } else {
        wt := wt[j := -wt[j]];
        A := A[j := None];
        R := R[j := None];
      }
      forall w: nat | w <= cwmax
        ensures ColumnsBefore(rows, w, j + 1) == if wj == w then [j] + ColumnsBefore(rows, w, j) else ColumnsBefore(rows, w, j)
      {
        NextColumn(rows, w, j);
      }
      j := j + 1;
    }
  }

  lemma NoColumns(rows: seq<Option<seq<nat>>>)
    ensures forall w: nat :: ColumnsBefore(rows, w, 0) == []
  {
  }

  lemma NextColumn(rows: seq<Option<seq<nat>>>, w: nat, j: nat)
    ensures ColumnsBefore(rows, w, j + 1)
         == if WeightOf(rows, j) == w then [j] + ColumnsBefore(rows, w, j) else ColumnsBefore(rows, w, j)
  {
    hide WeightOf;
  }

  /** filter_matrix_read: every row enters the lists of its light columns. */
  method FillRowLists(rows: seq<Option<seq<nat>>>, wt: seq<int>, R0: seq<Option<seq<int>>>, cwmax: nat) returns (R: seq<Option<seq<int>>>)
    requires Fits(rows, |wt|) && |R0| == |wt|
    requires forall j :: 0 <= j < |wt| ==> wt[j] == if WeightOf(rows, j) <= cwmax then WeightOf(rows, j) else -(WeightOf(rows, j) as int)
    requires forall j :: 0 <= j < |wt| ==> R0[j] == if WeightOf(rows, j) <= cwmax then Some([]) else None
    ensures |R| == |wt|
    ensures forall j :: 0 <= j < |wt| ==> R[j] == if WeightOf(rows, j) <= cwmax then Some(RowsBefore(rows, j, |rows|)) else None
  {
    hide WeightOf;
    R := R0;
    var i := 0;
    while i < |rows|
      invariant i <= |rows| && |R| == |wt|
      invariant forall j :: 0 <= j < |wt| ==> R[j] == if WeightOf(rows, j) <= cwmax then Some(RowsBefore(rows, j, i)) else None
    {
      if rows[i].Some? {
        R := EnterRow(rows, wt, R, cwmax, i);
      } else {
        forall j | 0 <= j < |wt| ensures RowsBefore(rows, j, i + 1) == RowsBefore(rows, j, i) {
          RowsBeforeNext(rows, j, i);
        }
      }
      i := i + 1;
    }
  }

  method EnterRow(rows: seq<Option<seq<nat>>>, wt: seq<int>, R0: seq<Option<seq<int>>>, cwmax: nat, i: nat) returns (R: seq<Option<seq<int>>>)
    requires Fits(rows, |wt|) && |R0| == |wt| && i < |rows| && rows[i].Some?
    requires forall j :: 0 <= j < |wt| ==> wt[j] == if WeightOf(rows, j) <= cwmax then WeightOf(rows, j) else -(WeightOf(rows, j) as int)
    requires forall j :: 0 <= j < |wt| ==> R0[j] == if WeightOf(rows, j) <= cwmax then Some(RowsBefore(rows, j, i)) else None
    ensures |R| == |wt|
    ensures forall j :: 0 <= j < |wt| ==> R[j] == if WeightOf(rows, j) <= cwmax then Some(RowsBefore(rows, j, i + 1)) else None
  {
    hide WeightOf, RowsBefore;
    var row, k := rows[i].value, 0;
    SortedAt(rows, i);
    R := R0;
    while k < |row|
      invariant k <= |row| && |R| == |wt|
      invariant forall j :: 0 <= j < |wt| ==>
        R[j] == if WeightOf(rows, j) > cwmax then None
                else Some(if j in row[..k] then RowsBefore(rows, j, i) + [i] else RowsBefore(rows, j, i))
    {
      var j := row[k];
      assert j in row;
      OccursOnce(rows, i, j);
      forall x: nat ensures x in row[..k + 1] <==> x in row[..k] || x == j {
        ColumnOnce(row, k, x);
      }
      ColumnOnce(row, k, j);
      if wt[j] > 0 {
        R := R[j := Some(R[j].value + [i])];
      }
      k := k + 1;
    }
    assert row[..k] == row;
    forall j | 0 <= j < |wt|
      ensures RowsBefore(rows, j, i + 1) == if j in row then RowsBefore(rows, j, i) + [i] else RowsBefore(rows, j, i)
    {
      RowsBeforeNext(rows, j, i);
    }
  }

  lemma RowsBeforeNext(rows: seq<Option<seq<nat>>>, j: nat, i: nat)
    requires i < |rows|
    ensures RowsBefore(rows, j, i + 1)
         == if rows[i].Some? && j in rows[i].value then RowsBefore(rows, j, i) + [i] else RowsBefore(rows, j, i)
  {
  }

  lemma OccursOnce(rows: seq<Option<seq<nat>>>, i: nat, j: nat)
    requires i < |rows| && rows[i].Some? && j in rows[i].value
    ensures WeightOf(rows, j) > 0
  {
    RowsBeforeGrow(rows, j, i + 1, |rows|);
  }

  lemma IndexIs(rows: seq<Option<seq<nat>>>, ncols: nat, cwmax: nat, ix: Index)
    requires ix.cwmax == cwmax && |ix.wt| == |ix.R| == |ix.A| == ncols && |ix.S| == cwmax + 2
    requires forall j :: 0 <= j < ncols ==> ix.wt[j] == if WeightOf(rows, j) <= cwmax then WeightOf(rows, j) else -(WeightOf(rows, j) as int)
    requires forall j :: 0 <= j < ncols ==> ix.R[j] == if WeightOf(rows, j) <= cwmax then Some(RowsBefore(rows, j, |rows|)) else None
    requires forall w :: 0 <= w < cwmax + 2 ==> ix.S[w] == if w <= cwmax then ColumnsBefore(rows, w, ncols) else []
    requires forall j :: 0 <= j < ncols ==> ix.A[j] == if WeightOf(rows, j) <= cwmax then Some(WeightOf(rows, j)) else None
    ensures ix == InitialIndex(rows, ncols, cwmax)
  {
    hide WeightOf;
    var jx := InitialIndex(rows, ncols, cwmax);
    assert ix.wt == jx.wt && ix.R == jx.R && ix.S == jx.S && ix.A == jx.A;
  }

  lemma {:induction false} RowsBeforeHas(rows: seq<Option<seq<nat>>>, j: nat, i: nat)
    requires i <= |rows|
    ensures var r, s := RowsBefore(rows, j, i), Rows(Sets(Values(rows))[..i], j); ListsRows(r, s) && |r| == |s|
    decreases i
  {
    hide ListsRows, Rows, Sets, Values, RowsBefore;
    var cells := Sets(Values(rows));
    if i > 0 {
      RowsBeforeHas(rows, j, i - 1);
      RowsPrefix(cells, j, i - 1);
      RowsBeforeNext(rows, j, i - 1);
      RowCells(rows, j, i - 1);
      if j in cells[i - 1] {
        ListsMore(RowsBefore(rows, j, i - 1), Rows(cells[..i - 1], j), i - 1);
      }
    } else {
      NoRows(cells, j);
      RowsBeforeNone(rows, j);
    }
  }

  lemma RowsBeforeNone(rows: seq<Option<seq<nat>>>, j: nat)
    ensures RowsBefore(rows, j, 0) == []
  {
  }

  lemma RowCells(rows: seq<Option<seq<nat>>>, j: nat, i: nat)
    requires i < |rows|
    ensures j in Sets(Values(rows))[i] <==> rows[i].Some? && j in rows[i].value
  {
  }

  lemma NoRows(cells: seq<set<nat>>, j: nat)
    ensures Rows(cells[..0], j) == {} && ListsRows([], {})
  {
  }

  lemma RowsPrefix(cells: seq<set<nat>>, j: nat, i: nat)
    requires i < |cells|
    ensures i !in Rows(cells[..i], j)
    ensures Rows(cells[..i + 1], j) == if j in cells[i] then Rows(cells[..i], j) + {i} else Rows(cells[..i], j)
  {
  }

  lemma ListsMore(r: seq<int>, s: set<nat>, i: nat)
    requires ListsRows(r, s) && i !in s
    ensures ListsRows(r + [i], s + {i})
  {
    forall x: nat | x in s ensures x in r + [i] {
      assert x in r;
    }
  }

  lemma {:induction false} ColumnsBeforeHas(rows: seq<Option<seq<nat>>>, w: nat, n: nat)
    ensures var l := ColumnsBefore(rows, w, n); NoDup(l) && forall j: nat :: j in l <==> j < n && WeightOf(rows, j) == w
    decreases n
  {
    if n > 0 {
      ColumnsBeforeHas(rows, w, n - 1);
    }
  }

  lemma InitialAgrees(rows: seq<Option<seq<nat>>>, ncols: nat, cwmax: nat)
    requires forall i, j :: 0 <= i < |rows| && rows[i].Some? && j in rows[i].value ==> j < ncols
    ensures Agrees(InitialIndex(rows, ncols, cwmax), Sets(Values(rows)))
  {
    var ix, cells := InitialIndex(rows, ncols, cwmax), Sets(Values(rows));
    assert cells[..|rows|] == cells;
    forall w: nat, j: nat ensures Holds(ix.S, w, j) <==> j < |ix.A| && ix.A[j] == Some(w) {
      ColumnsBeforeHas(rows, w, ncols);
    }
    forall w: nat | w < |ix.S| ensures NoDup(ix.S[w]) {
      ColumnsBeforeHas(rows, w, ncols);
    }
    forall j: nat | j < ncols ensures ColumnAgrees(ix, Rows(cells, j), j) {
      RowsBeforeHas(rows, j, |rows|);
    }
  }

  /** Heavy columns stay heavy and retired ones stay retired. */
  ghost predicate OneWay(ix: Index, ix': Index) {
    && |ix'.wt| == |ix.wt|
    && forall j: nat :: j < |ix.wt| ==> (ix.wt[j] < 0 ==> ix'.wt[j] < 0) && (Retired(ix, j) ==> Retired(ix', j))
  }

  lemma StatusOneWay(ix: Index, ix': Index, cells: seq<set<nat>>)
    requires Agrees(ix, cells) && SameStatus(ix, ix')
    ensures OneWay(ix, ix')
  {
    forall j: nat | j < |ix.wt| ensures (ix.wt[j] < 0 ==> ix'.wt[j] < 0) && (Retired(ix, j) ==> Retired(ix', j)) {
      ColumnFacts(ix, cells, j);
    }
  }

  lemma DropLive(rows: seq<Option<seq<nat>>>, i: nat)
    requires i < |rows| && rows[i].Some?
    ensures Values(rows[i := None]) == Values(rows)[i := None]
    ensures Sets(Values(rows))[i] == Cols(rows[i].value)
    ensures Sets(Values(rows[i := None])) == Sets(Values(rows))[i := Cols(rows[i].value) - Cols(rows[i].value)]
  {
    assert Cols(rows[i].value) - Cols(rows[i].value) == {};
  }

  lemma ExplainsDestroy(start: Rowset, lines: seq<seq<int>>, V: Rowset, i: nat)
    requires Explains(start, lines, V) && i < |V| && V[i].Some?
    ensures Explains(start, lines + [[i]], V[i := None])
  {
    ExplainsLine(start, lines, V, [i]);
    assert [i][1..] == [];
    assert DoLine(V, [i]) == V[i := None];
  }

  lemma SortedAt(rows: seq<Option<seq<nat>>>, i: nat)
    requires RowsSorted(rows) && i < |rows| && rows[i].Some?
    ensures Sorted(rows[i].value)
  {
  }

  lemma SortedPut(rows: seq<Option<seq<nat>>>, i: nat, r: seq<nat>)
    requires RowsSorted(rows) && i < |rows| && Sorted(r)
    ensures RowsSorted(rows[i := Some(r)])
  {
  }

  lemma StatusSame(ix: Index, cells: seq<set<nat>>)
    requires Agrees(ix, cells)
    ensures SameStatus(ix, ix)
  {
  }

  lemma StatusTwice(a: Index, b: Index, c: Index)
    requires SameStatus(a, b) && SameStatus(b, c)
    ensures SameStatus(a, c)
  {
  }

  lemma StatusRetired(a: Index, b: Index, j: nat)
    requires SameStatus(a, b)
    ensures Retired(b, j) <==> Retired(a, j)
    ensures |b.wt| == |a.wt|
  {
  }

  lemma NextCell(row: seq<nat>, k: nat)
    requires Sorted(row) && k < |row|
    ensures row[k] !in Cols(row[..k]) && Cols(row[..k + 1]) == Cols(row[..k]) + {row[k]}
  {
    ColsSnoc(row, k);
  }

  lemma NoCells(row: seq<nat>)
    ensures Cols(row[..0]) == {}
  {
  }

  lemma RestCells(row: seq<nat>, c: set<nat>, k: nat)
    requires Sorted(row) && Cols(row) <= c
    ensures k < |row| ==> row[k] in c - Cols(row[..k]) && c - Cols(row[..k + 1]) == c - Cols(row[..k]) - {row[k]}
  {
    if k < |row| {
      NextCell(row, k);
      assert row[k] in Cols(row);
    }
  }

  lemma SumNotRetired(ix: Index, ix': Index, cells: seq<set<nat>>, i1: nat, i2: nat, r1: seq<nat>, r2: seq<nat>, r: seq<nat>)
    requires Agrees(ix, cells) && SameStatus(ix, ix') && i1 < |cells| && i2 < |cells|
    requires cells[i1] == Cols(r1) && cells[i2] == Cols(r2) && Cols(r) == Xor(Cols(r1), Cols(r2))
    ensures forall j :: j in r ==> j < |ix'.wt| && !Retired(ix', j)
  {
    hide Agrees, SameStatus;
    forall j | j in r ensures j < |ix'.wt| && !Retired(ix', j) {
      assert j in Cols(r);
      CellFacts(ix, cells, if j in Cols(r1) then i1 else i2, j);
      StatusRetired(ix, ix', j);
    }
  }

  lemma SumLive(rows: seq<Option<seq<nat>>>, i1: nat, i2: nat, r: seq<nat>)
    requires i1 < |rows| && i2 < |rows| && rows[i1].Some? && rows[i2].Some?
    requires Cols(r) == Xor(Cols(rows[i1].value), Cols(rows[i2].value))
    ensures Values(rows[i1 := Some(r)]) == Added(Values(rows), i1, i2)
    ensures Sets(Values(rows[i1 := Some(r)])) == Sets(Values(rows))[i1 := Cols(r)]
  {
  }

  lemma FirstIs(r: seq<int>, x: int, k: nat)
    requires k <= |r| && (forall l :: 0 <= l < k ==> r[l] != x) && (k < |r| ==> r[k] == x)
    ensures First(r, x) == k
  {
  }

  lemma ColumnFacts(ix: Index, cells: seq<set<nat>>, j: nat)
    requires Agrees(ix, cells) && j < |ix.wt|
    ensures |ix.R| == |ix.A| == |ix.wt| && |ix.S| == ix.cwmax + 2 && (ix.A[j].Some? ==> ix.A[j].value < |ix.S| && ix.R[j].Some?)
    ensures ix.wt[j] >= 0 && !Retired(ix, j) ==> ix.A[j].Some?
    ensures ix.wt[j] < 0 ==> ix.A[j].None?
  {
    assert ColumnAgrees(ix, Rows(cells, j), j);
  }

  lemma CellFacts(ix: Index, cells: seq<set<nat>>, i: nat, j: nat)
    requires Agrees(ix, cells) && i < |cells| && j in cells[i]
    ensures j < |ix.wt| == |ix.R| == |ix.A| && |ix.S| == ix.cwmax + 2 && !Retired(ix, j)
    ensures ix.wt[j] >= 0 ==> ix.wt[j] >= 1 && ix.A[j].Some? && ix.A[j].value < |ix.S| && ix.R[j].Some?
  {
    assert ColumnAgrees(ix, Rows(cells, j), j);
    InRows(cells, i, j);
    assert Rows(cells, j) != {};
  }
}
