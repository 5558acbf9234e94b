/** filter/merge_mono.c and replay.c: merges whose line in the history file is too long to be read. */
module LongLines {
  import opened Gf2
  import opened SparseRows
  import opened MergeIndex
  import opened History
  import opened SpanningTree
  import opened Mst
  import opened TreeHistory
  import opened Merge
  import opened TreeMerge
  import opened MergeTree
  import opened FilterMatrix
  import opened MergeColumn
  import opened StarTree
  import opened Replay

  // ---------- Its line ----------

  lemma {:induction false} ListSize(l: seq<nat>)
    requires Distinct(l)
    ensures |SetOf(l)| == |l|
    decreases |l|
  {
    if l != [] {
      var k := |l| - 1;
      ListSize(l[..k]);
      assert l == l[..k] + [l[k]];
      assert l[k] !in SetOf(l[..k]) && SetOf(l) == SetOf(l[..k]) + {l[k]};
    }
  }

  lemma HasElement(l: seq<nat>)
    ensures l == [] || exists v: nat :: v in l
  {
    if l != [] {
      assert l[0] in l;
    }
  }

  /** All vertices are sons of the root. */
  lemma StarSons(p: Plan)
    requires p.Sound() && forall v: nat :: v < p.m ==> p.tree.father[v] == 0
    ensures |p.tree.sons| == p.m >= 1 && |p.tree.sons[0]| == p.m - 1
    ensures forall u: nat :: 0 < u < p.m ==> p.tree.sons[u] == []
  {
    var l := p.tree.sons[0];
    assert ListsSons(l, 0, p.tree.father, Vertices(p.m));
    ListSize(l);
    assert SetOf(l) == Vertices(p.m) - {0};
    OneFewer(Vertices(p.m), 0);
    forall u: nat | 0 < u < p.m ensures p.tree.sons[u] == [] {
      assert ListsSons(p.tree.sons[u], u, p.tree.father, Vertices(p.m));
      HasElement(p.tree.sons[u]);
    }
  }

  lemma {:induction false} NoInnerLines(p: Plan, k: nat)
    requires p.Sound() && p.m >= 1 && |p.tree.sons| == p.m && k <= |p.tree.sons[0]|
    requires forall u: nat :: 0 < u < p.m ==> p.tree.sons[u] == []
    ensures p.LinesUpTo(0, k) == []
    decreases k
  {
    hide Plan.Sound;
    if k > 0 {
      NoInnerLines(p, k - 1);
      p.SonFacts(0, p.tree.sons[0][k - 1]);
    }
  }

  /** The history of a star is the line of its root. */
  lemma StarHistory(p: Plan)
    requires p.Sound() && p.m >= 2 && forall v: nat :: v < p.m ==> p.tree.father[v] == 0
    ensures |p.tree.sons| == p.m && Reverse(p.Lines(0)) == [p.Line(0)] && |p.Line(0)| == p.m
  {
    StarSons(p);
    NoInnerLines(p, |p.tree.sons[0]|);
    assert p.Lines(0) == [p.Line(0)];
  }

  /** A line with n rows of D digits has n (D + 1) characters. */
  lemma LineLength(line: seq<int>, D: nat)
    requires line != [] && D >= 2 && forall k :: 0 <= k < |line| ==> Pow10(D - 1) <= line[k] < Pow10(D)
    ensures |Print(line)| == |line| * (D + 1)
  {
    hide Digits, Pow10;
    RestLength(line[1..], D);
    DigitsLength(line[0], D);
    DigitsLength(line[0], D - 1);
    assert |line| * (D + 1) == (|line| - 1) * (D + 1) + (D + 1);
  }

  // ---------- The merge ----------

  lemma WeightsCentred(a: CostMatrix, V: Rowset, ind: seq<nat>, wburied: seq<nat>, nburied: nat)
    requires AreLive(ind, V) && |wburied| == |V| && Weighed(a, V, ind, wburied, nburied)
    requires forall u: nat, v: nat {:trigger SumWeight(V, ind, wburied, nburied, u, v)} :: 0 < u < |ind| && 0 < v < |ind| && u != v ==>
      SumWeight(V, ind, wburied, nburied, 0, v) < SumWeight(V, ind, wburied, nburied, u, v)
    ensures IsCostMatrix(a, |ind|) && Centred(a, |ind|)
  {
    hide Weighed, SumWeight, IsCostMatrix;
    WeighedIsCost(a, V, ind, wburied, nburied);
  }

  /** Rows of D digits are merged, and the sums with the first one are the lightest: the merge writes one line, and reading
      stops at it exactly if n (D + 1) is at least 2048. */
  lemma StarMergeLine(V: Rowset, wburied: seq<nat>, nburied: nat, ind: seq<nat>, lines: seq<seq<int>>, lines': seq<seq<int>>, D: nat)
    requires TreeReported(V, wburied, nburied, ind, lines, lines') && |ind| >= 2
    requires forall u: nat, v: nat {:trigger SumWeight(V, ind, wburied, nburied, u, v)} :: 0 < u < |ind| && 0 < v < |ind| && u != v ==>
      SumWeight(V, ind, wburied, nburied, 0, v) < SumWeight(V, ind, wburied, nburied, u, v)
    requires D >= 2 && forall k :: 0 <= k < |ind| ==> Pow10(D - 1) <= ind[k] < Pow10(D)
    ensures |lines'| == |lines| + 1 && lines == lines'[..|lines|]
    ensures var line := lines'[|lines|];
      && line != [] && |Print(line)| == |ind| * (D + 1) && LineOk(V, line) && Destroys(line) && Source(line) == ind[0]
      && forall costmin :: Stops(Line(line), costmin) <==> |ind| * (D + 1) >= STRLENMAX
  {
    hide Weighed, SumWeight, IsMinimalTree, IsCostMatrix, Plan.Sound, Print, Pow10;
    var p: Plan, a: CostMatrix, w: int :|
      && p.Sound() && p.ind == ind && p.m == |ind| && IsMinimalTree(a, |ind|, p.tree, w)
      && Weighed(a, V, ind, wburied, nburied) && lines' == lines + Reverse(p.Lines(0));
    WeightsCentred(a, V, ind, wburied, nburied);
    StarIsMinimal(a, |ind|, p.tree, w);
    StarHistory(p);
    StarLine(p, V);
    LineLength(p.Line(0), D);
  }

  lemma StarLine(p: Plan, V: Rowset)
    requires p.Sound() && AreLive(p.ind, V)
    ensures |p.tree.sons| == p.m && LineOk(V, p.Line(0)) && Destroys(p.Line(0)) && Source(p.Line(0)) == p.ind[0]
    ensures forall k :: 0 <= k < |p.Line(0)| ==> p.Line(0)[k] in p.ind
  {
    hide Plan.Sound, Plan.LiveRows, Plan.TreeAdded, LineOk, DoLine, AddAll;
    p.Shape();
    PlanRows(p, V);
    p.LineAdds(V, V, {}, 0);
    forall k | 0 <= k < |p.Line(0)| ensures p.Line(0)[k] in p.ind {
      if k > 0 {
        p.SonFacts(0, p.tree.sons[0][k - 1]);
      }
    }
  }

  /** A matrix for which this happens: 256 rows of 8 digits contain column 0, the first one nothing else, and every other one
      two columns of its own. */
  ghost predicate LongStar(V: Rowset, wburied: seq<nat>) {
    && |V| == |wburied| >= 10000256
    && forall i: nat :: i < |V| ==>
         if 10000000 <= i < 10000256 then V[i] == Some(StarRow(i - 10000000)) && wburied[i] == 0 else V[i].Some? ==> 0 !in V[i].value
  }

  function StarRow(k: nat): set<nat> {
    if k == 0 then {0} else {0, 2 * k - 1, 2 * k}
  }

  function LongStarRows(): seq<nat> {
    seq(256, k requires 0 <= k < 256 => 10000000 + k)
  }

  lemma StarWeight(V: Rowset, wburied: seq<nat>, nburied: nat, u: nat, v: nat)
    requires LongStar(V, wburied) && u < 256 && 0 < v < 256 && u != v
    ensures AreLive(LongStarRows(), V) && SumWeight(V, LongStarRows(), wburied, nburied, u, v) == if u == 0 then 2 else 4
  {
    hide StarRow, Xor;
    var ind := LongStarRows();
    forall k | 0 <= k < |ind| ensures V[ind[k]] == Some(StarRow(k)) && wburied[ind[k]] == 0 {
    }
    StarSums(u, v);
  }

  lemma StarSums(u: nat, v: nat)
    requires 0 < v && u != v
    ensures |Xor(StarRow(u), StarRow(v))| == if u == 0 then 2 else 4
  {
    if u == 0 {
      assert Xor(StarRow(u), StarRow(v)) == {2 * v - 1, 2 * v};
    } else {
      assert Xor(StarRow(u), StarRow(v)) == {2 * u - 1, 2 * u, 2 * v - 1, 2 * v};
    }
  }

  lemma EightDigits()
    ensures Pow10(7) == 10000000 && Pow10(8) == 100000000
  {
    assert Pow10(4) == 10000;
    assert Pow10(7) == 1000 * Pow10(4);
    assert Pow10(8) == 10 * Pow10(7);
  }

  /** The merge for column 0 of such a matrix writes a line of 2304 characters; if it is the first line, nothing is read. */
  lemma LongLineMerges(V: Rowset, wburied: seq<nat>, nburied: nat, lines': seq<seq<int>>, rest: seq<Record>, costmin: nat)
    requires LongStar(V, wburied) && TreeReported(V, wburied, nburied, LongStarRows(), [], lines')
    ensures |lines'| == 1 && lines'[0] != [] && |Print(lines'[0])| == 2304 && LineOk(V, lines'[0])
    ensures ReadCount([Line(lines'[0])] + rest, costmin) == 0
    ensures DoLine(V, lines'[0])[10000000] == None && V[10000000] == Some({0})
  {
    hide TreeReported, SumWeight, Print, Pow10, ReadCount, DoLine;
    var ind := LongStarRows();
    EightDigits();
    assert V[10000000] == Some({0});
    StarWeight(V, wburied, nburied, 0, 1);
    forall u: nat, v: nat {:trigger SumWeight(V, ind, wburied, nburied, u, v)} | 0 < u < |ind| && 0 < v < |ind| && u != v
      ensures SumWeight(V, ind, wburied, nburied, 0, v) < SumWeight(V, ind, wburied, nburied, u, v)
    {
      StarWeight(V, wburied, nburied, 0, v);
      StarWeight(V, wburied, nburied, u, v);
    }
    StarMergeLine(V, wburied, nburied, ind, [], lines', 8);
    LongLineStops(V, lines'[0], rest, costmin);
  }

  lemma {:induction false} LongStarBefore(rows: seq<Option<seq<nat>>>, wburied: seq<nat>, n: nat)
    requires LongStar(Values(rows), wburied) && n <= |rows|
    ensures var c := if n < 10000000 then 0 else if n < 10000256 then n - 10000000 else 256; RowsBefore(rows, 0, n) == LongStarRows()[..c]
    decreases n
  {
    if n > 0 {
      LongStarBefore(rows, wburied, n - 1);
      assert Values(rows)[n - 1] == Value(rows[n - 1]);
      if rows[n - 1].Some? {
        InCols(rows[n - 1].value, 0);
      }
    }
  }

  lemma {:induction false} EntriesAll(r: seq<int>, k: nat)
    requires k <= |r| && forall l :: 0 <= l < |r| ==> r[l] >= 0
    ensures Entries(r, k) == r[..k]
    decreases k
  {
    if k > 0 {
      EntriesAll(r, k - 1);
    }
  }

  /** Column 0 of the first index */
  lemma LongStarIndex(rows: seq<Option<seq<nat>>>, ncols: nat, cwmax: nat, wburied: seq<nat>)
    requires LongStar(Values(rows), wburied) && cwmax >= 256 && ncols >= 1
    ensures var ix := InitialIndex(rows, ncols, cwmax);
      |ix.A| == |ix.wt| == ncols && ix.wt[0] == 256 && ix.A[0].Some? && RowsListed(ix.R, 0) == LongStarRows()
  {
    LongStarBefore(rows, wburied, |rows|);
    var r := RowsBefore(rows, 0, |rows|);
    assert r == LongStarRows();
    EntriesAll(r, |r|);
  }

  /** The whole way: one merge on such a matrix, and its history read back. Row 10000000 is gone from the matrix, but replay
      still has it. */
  method LongStarRun(rows: seq<Option<seq<nat>>>, ncols: nat, cwmax: nat, wburied: seq<nat>, nburied: nat, costmin: nat)
    returns (mat: Matrix, newrows: array<Option<seq<nat>>>)
    requires RowsSorted(rows) && forall i, j :: 0 <= i < |rows| && rows[i].Some? && j in rows[i].value ==> j < ncols
    requires LongStar(Values(rows), wburied) && cwmax >= 256
    ensures mat.Valid() && mat.start == Values(rows) && |mat.outfile| == 1 && |mat.outfile[0]| == 2304
    ensures |mat.rows| == newrows.Length == |rows| && mat.rows[10000000] == None
    ensures forall i: nat :: i < |rows| ==> newrows[i].Some? && Cols(newrows[i].value) == {i}
  {
    hide Agrees, TreeReported, LongStar, InitialIndex, RowsListed, ReadCount, Print, Explains, ColumnMerged, Extends, Present, Followed,
      Represents, OneWay, Stops;
    LongStarColumn(rows, ncols, wburied);
    mat := new Matrix(rows, ncols, cwmax, wburied, nburied);
    LongStarIndex(rows, ncols, cwmax, wburied);
    MergeForColumn(mat, 256, 0, true);
    LongLineMerges(Values(rows), wburied, nburied, mat.lines, [], costmin);
    ghost var records := [Line(mat.lines[0])];
    assert [Line(mat.lines[0])] + [] == records;
    OneRecord(mat.lines[0]);
    newrows := ReplayMatches(mat, mat.outfile[0], costmin, records);
    RowGone(mat.start, mat.lines, mat.rows, 10000000);
    NothingRead(records, newrows[..]);
  }

  lemma LongStarColumn(rows: seq<Option<seq<nat>>>, ncols: nat, wburied: seq<nat>)
    requires LongStar(Values(rows), wburied)
    requires forall i, j :: 0 <= i < |rows| && rows[i].Some? && j in rows[i].value ==> j < ncols
    ensures ncols >= 1 && |rows| == |wburied| >= 10000256
  {
    assert Values(rows)[10000000] == Value(rows[10000000]);
    InCols(rows[10000000].value, 0);
  }

  lemma OneRecord(line: seq<int>)
    requires line != []
    ensures Text([Line(line)]) == Print(line) && LinesOf([Line(line)]) == [line]
  {
  }

  lemma RowGone(start: Rowset, lines: seq<seq<int>>, rows: seq<Option<seq<nat>>>, i: nat)
    requires Explains(start, lines, Values(rows)) && |lines| == 1 && i < |rows| && |start| == |rows| && DoLine(start, lines[0])[i] == None
    ensures rows[i] == None
  {
    hide DoLine;
    assert DoLines(start, lines[..0]) == start;
    assert Values(rows)[i] == Value(rows[i]);
  }

  lemma NothingRead(records: seq<Record>, newrows: seq<Option<seq<nat>>>)
    requires Values(newrows) == DoLines(Units(|newrows|), LinesOf(records[..0]))
    ensures forall i: nat :: i < |newrows| ==> newrows[i].Some? && Cols(newrows[i].value) == {i}
  {
    assert Values(newrows) == Units(|newrows|);
    forall i: nat | i < |newrows| ensures newrows[i].Some? && Cols(newrows[i].value) == {i} {
      assert Values(newrows)[i] == Value(newrows[i]);
    }
  }
}
