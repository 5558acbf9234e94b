/** filter/merge_mono.c: a column is removed by adding the rows that contain it to each other. */
module Merge {
  import opened Gf2
  import opened SparseRows
  import opened MergeIndex
  import opened History
  import opened MergeTree
  import opened FilterMatrix
  import opened SpanningTree
  import opened Mst
  import opened TreeHistory

  // ---------- Weights of sums ----------

  ghost predicate Distinct(ind: seq<nat>) {
    forall k, l :: 0 <= k < l < |ind| ==> ind[k] != ind[l]
  }

  /** The rows of ind are live. */
  ghost predicate AreLive(ind: seq<nat>, V: Rowset) {
    forall k :: 0 <= k < |ind| ==> ind[k] < |V| && V[ind[k]].Some?
  }

  /** The estimated weight of the sum of the rows u and v of ind */
  ghost function SumWeight(V: Rowset, ind: seq<nat>, wburied: seq<nat>, nburied: nat, u: nat, v: nat): int
    requires AreLive(ind, V) && u < |ind| && v < |ind| && |wburied| == |V|
  {
    Buried(wburied[ind[u]], wburied[ind[v]], nburied) + |Xor(V[ind[u]].value, V[ind[v]].value)|
  }

  /** a holds the weights of the pairs before (i, j), and zeros on its diagonal. */
  ghost predicate WeighedUpTo(a: CostMatrix, V: Rowset, ind: seq<nat>, wburied: seq<nat>, nburied: nat, i: nat, j: nat)
    requires AreLive(ind, V) && |wburied| == |V|
  {
    && |a| == |ind| && (forall u :: 0 <= u < |ind| ==> |a[u]| == |ind|)
    && (forall u: nat :: u < |ind| ==> SpanningTree.At(a, u, u) == 0)
    && forall u: nat, v: nat :: u < v < |ind| && (u < i || (u == i && v < j)) ==>
         SpanningTree.At(a, u, v) == SumWeight(V, ind, wburied, nburied, u, v) == SpanningTree.At(a, v, u)
  }

  ghost predicate Weighed(a: CostMatrix, V: Rowset, ind: seq<nat>, wburied: seq<nat>, nburied: nat)
    requires AreLive(ind, V) && |wburied| == |V|
  {
    WeighedUpTo(a, V, ind, wburied, nburied, |ind|, 0)
  }

  lemma XorSwaps(a: set<nat>, b: set<nat>)
    ensures Xor(a, b) == Xor(b, a)
  {
  }

  lemma WeighedIsCost(a: CostMatrix, V: Rowset, ind: seq<nat>, wburied: seq<nat>, nburied: nat)
    requires AreLive(ind, V) && |wburied| == |V| && Weighed(a, V, ind, wburied, nburied)
    ensures IsCostMatrix(a, |ind|)
    ensures forall u: nat, v: nat :: u < |ind| && v < |ind| && u != v ==>
      SpanningTree.At(a, u, v) == SumWeight(V, ind, wburied, nburied, u, v)
  {
    forall u: nat, v: nat | u < |ind| && v < |ind| && u != v
      ensures SpanningTree.At(a, u, v) == SumWeight(V, ind, wburied, nburied, u, v) == SpanningTree.At(a, v, u)
    {
      XorSwaps(V[ind[u]].value, V[ind[v]].value);
      if u < v {
        assert SpanningTree.At(a, u, v) == SumWeight(V, ind, wburied, nburied, u, v) == SpanningTree.At(a, v, u);
      } else {
        assert SpanningTree.At(a, v, u) == SumWeight(V, ind, wburied, nburied, v, u) == SpanningTree.At(a, u, v);
      }
    }
    forall u, v ensures SpanningTree.At(a, u, v) == SpanningTree.At(a, v, u) {
    }
  }

  lemma WeighedStep(a: CostMatrix, V: Rowset, ind: seq<nat>, wburied: seq<nat>, nburied: nat, i: nat, j: nat, w: int)
    requires AreLive(ind, V) && |wburied| == |V| && WeighedUpTo(a, V, ind, wburied, nburied, i, j) && i < j < |ind|
    requires w == SumWeight(V, ind, wburied, nburied, i, j)
    ensures var a1 := a[i := a[i][j := w]]; WeighedUpTo(a1[j := a1[j][i := w]], V, ind, wburied, nburied, i, j + 1)
  {
    var a1 := a[i := a[i][j := w]];
    var a2 := a1[j := a1[j][i := w]];
    forall u: nat, v: nat | u < v < |ind| && (u < i || (u == i && v < j + 1))
      ensures SpanningTree.At(a2, u, v) == SumWeight(V, ind, wburied, nburied, u, v) == SpanningTree.At(a2, v, u)
    {
      if u < i || v < j {
        assert SpanningTree.At(a, u, v) == SumWeight(V, ind, wburied, nburied, u, v) == SpanningTree.At(a, v, u);
      }
    }
    forall u: nat | u < |ind| ensures SpanningTree.At(a2, u, u) == 0 {
      assert SpanningTree.At(a, u, u) == 0;
    }
  }

  lemma WeighedRow(a: CostMatrix, V: Rowset, ind: seq<nat>, wburied: seq<nat>, nburied: nat, i: nat)
    requires AreLive(ind, V) && |wburied| == |V| && i < |ind|
    requires WeighedUpTo(a, V, ind, wburied, nburied, i, |ind|)
    ensures WeighedUpTo(a, V, ind, wburied, nburied, i + 1, i + 2)
  {
    forall u: nat, v: nat | u < v < |ind| && (u < i + 1 || (u == i + 1 && v < i + 2))
      ensures SpanningTree.At(a, u, v) == SumWeight(V, ind, wburied, nburied, u, v) == SpanningTree.At(a, v, u)
    {
      assert u <= i;
    }
  }

  method FillRowAddMatrix(mat: Matrix, ind: seq<nat>) returns (a: CostMatrix)
    requires mat.Indexed() && AreLive(ind, mat.Live()) && |mat.wburied| == |mat.rows|
    ensures Weighed(a, mat.Live(), ind, mat.wburied, mat.nburied)
  {
    hide Agrees;
    a := FillWeights(mat.rows, ind, mat.wburied, mat.nburied);
  }

  method FillWeights(rows: seq<Option<seq<nat>>>, ind: seq<nat>, wburied: seq<nat>, nburied: nat) returns (a: CostMatrix)
    requires RowsSorted(rows) && AreLive(ind, Values(rows)) && |wburied| == |rows|
    ensures Weighed(a, Values(rows), ind, wburied, nburied)
  {
    var m := |ind|;
    a := seq(m, _ => seq(m, _ => 0));
    WeighedNone(a, Values(rows), ind, wburied, nburied);
    hide WeighedUpTo, RowsSorted, AreLive;
    var i := 0;
    while i < m
      invariant i <= m && WeighedUpTo(a, Values(rows), ind, wburied, nburied, i, i + 1)
    {
      a := WeighRow(a, rows, ind, wburied, nburied, i);
      WeighedRow(a, Values(rows), ind, wburied, nburied, i);
      i := i + 1;
    }
    WeighedLast(a, Values(rows), ind, wburied, nburied);
  }

  method WeighRow(a0: CostMatrix, rows: seq<Option<seq<nat>>>, ind: seq<nat>, wburied: seq<nat>, nburied: nat, i: nat)
    returns (a: CostMatrix)
    requires RowsSorted(rows) && AreLive(ind, Values(rows)) && |wburied| == |rows| && i < |ind|
    requires WeighedUpTo(a0, Values(rows), ind, wburied, nburied, i, i + 1)
    ensures WeighedUpTo(a, Values(rows), ind, wburied, nburied, i, |ind|)
  {
    hide WeighedUpTo, RowsSorted, AreLive, Values, SumWeight, Sorted, Cols;
    a := a0;
    var j := i + 1;
    while j < |ind|
      invariant i < j <= |ind| && WeighedUpTo(a, Values(rows), ind, wburied, nburied, i, j)
    {
      Square(a, Values(rows), ind, wburied, nburied, i, j);
      LiveRow(rows, ind, i);
      LiveRow(rows, ind, j);
      var w := WeightSum(rows[ind[i]].value, rows[ind[j]].value, wburied[ind[i]], wburied[ind[j]], nburied);
      WeightIs(rows, ind, wburied, nburied, i, j);
      WeighedStep(a, Values(rows), ind, wburied, nburied, i, j, w);
      a := a[i := a[i][j := w]];
      a := a[j := a[j][i := w]];
      j := j + 1;
    }
  }

  lemma Square(a: CostMatrix, V: Rowset, ind: seq<nat>, wburied: seq<nat>, nburied: nat, i: nat, j: nat)
    requires AreLive(ind, V) && |wburied| == |V| && WeighedUpTo(a, V, ind, wburied, nburied, i, j) && i < j < |ind|
    ensures |a| == |ind| && |a[i]| == |ind| && |a[j]| == |ind|
  {
  }

  lemma WeighedNone(a: CostMatrix, V: Rowset, ind: seq<nat>, wburied: seq<nat>, nburied: nat)
    requires AreLive(ind, V) && |wburied| == |V| && |a| == |ind| && (forall u :: 0 <= u < |ind| ==> |a[u]| == |ind|)
    requires forall u: nat :: u < |ind| ==> SpanningTree.At(a, u, u) == 0
    ensures WeighedUpTo(a, V, ind, wburied, nburied, 0, 1)
  {
  }

  lemma WeighedLast(a: CostMatrix, V: Rowset, ind: seq<nat>, wburied: seq<nat>, nburied: nat)
    requires AreLive(ind, V) && |wburied| == |V| && WeighedUpTo(a, V, ind, wburied, nburied, |ind|, |ind| + 1)
    ensures Weighed(a, V, ind, wburied, nburied)
  {
  }

  lemma LiveRow(rows: seq<Option<seq<nat>>>, ind: seq<nat>, k: nat)
    requires RowsSorted(rows) && AreLive(ind, Values(rows)) && k < |ind|
    ensures ind[k] < |rows| && rows[ind[k]].Some? && Sorted(rows[ind[k]].value)
    ensures Values(rows)[ind[k]] == Some(Cols(rows[ind[k]].value))
  {
  }

  lemma WeightIs(rows: seq<Option<seq<nat>>>, ind: seq<nat>, wburied: seq<nat>, nburied: nat, i: nat, j: nat)
    requires RowsSorted(rows) && AreLive(ind, Values(rows)) && i < |ind| && j < |ind| && |wburied| == |rows|
    ensures ind[i] < |rows| && ind[j] < |rows| && rows[ind[i]].Some? && rows[ind[j]].Some?
    ensures SumWeight(Values(rows), ind, wburied, nburied, i, j)
         == Buried(wburied[ind[i]], wburied[ind[j]], nburied) + |Xor(Cols(rows[ind[i]].value), Cols(rows[ind[j]].value))|
  {
    LiveRow(rows, ind, i);
    LiveRow(rows, ind, j);
  }

  // ---------- The best pivot ----------

  function RowSum(row: seq<int>, n: nat): int {
    if n == 0 || n > |row| then 0 else RowSum(row, n - 1) + row[n - 1]
  }

  /** The total weight of the sums if row i is added to the other ones among the first n */
  ghost function StarWeight(V: Rowset, ind: seq<nat>, wburied: seq<nat>, nburied: nat, i: nat, n: nat): int
    requires AreLive(ind, V) && |wburied| == |V| && i < |ind| && n <= |ind|
  {
    if n == 0 then 0 else
      StarWeight(V, ind, wburied, nburied, i, n - 1) + if n - 1 == i then 0 else SumWeight(V, ind, wburied, nburied, i, n - 1)
  }

  lemma {:induction false} RowSumIs(a: CostMatrix, V: Rowset, ind: seq<nat>, wburied: seq<nat>, nburied: nat, i: nat, n: nat)
    requires AreLive(ind, V) && |wburied| == |V| && Weighed(a, V, ind, wburied, nburied) && i < |ind| && n <= |ind|
    ensures i < |a| && RowSum(a[i], n) == StarWeight(V, ind, wburied, nburied, i, n)
    decreases n
  {
    if n > 0 {
      RowSumIs(a, V, ind, wburied, nburied, i, n - 1);
      WeighedIsCost(a, V, ind, wburied, nburied);
      assert a[i][n - 1] == SpanningTree.At(a, i, n - 1);
    }
  }

  /** i is as good as any other row to be added to all others, and better than those before it. */
  ghost predicate IsBest(V: Rowset, ind: seq<nat>, wburied: seq<nat>, nburied: nat, i: nat)
    requires AreLive(ind, V) && |wburied| == |V|
  {
    i < |ind| && forall k :: 0 <= k < |ind| ==>
      && StarWeight(V, ind, wburied, nburied, i, |ind|) <= StarWeight(V, ind, wburied, nburied, k, |ind|)
      && (k < i ==> StarWeight(V, ind, wburied, nburied, i, |ind|) < StarWeight(V, ind, wburied, nburied, k, |ind|))
  }

  /** Of two rows, either one will do, and so the first one is taken. */
  lemma BestOfTwo(V: Rowset, ind: seq<nat>, wburied: seq<nat>, nburied: nat)
    requires AreLive(ind, V) && |wburied| == |V| && |ind| == 2
    ensures IsBest(V, ind, wburied, nburied, 0)
  {
    XorSwaps(V[ind[0]].value, V[ind[1]].value);
    forall k: nat | k < 2
      ensures StarWeight(V, ind, wburied, nburied, k, 2) == SumWeight(V, ind, wburied, nburied, 0, 1)
    {
      assert StarWeight(V, ind, wburied, nburied, k, 1) == if k == 0 then 0 else SumWeight(V, ind, wburied, nburied, 1, 0);
    }
  }

  /** The row whose addition to all others is cheapest; the first one of two */
  method FindBestIndex(mat: Matrix, ind: seq<nat>) returns (imin: nat)
    requires mat.Indexed() && AreLive(ind, mat.Live()) && |mat.wburied| == |mat.rows| && ind != []
    ensures IsBest(mat.Live(), ind, mat.wburied, mat.nburied, imin)
  {
    var m := |ind|;
    if m == 2 {
      BestOfTwo(mat.Live(), ind, mat.wburied, mat.nburied);
      return 0;
    }
    hide Agrees, SumWeight, AreLive, Weighed, IsCostMatrix;
    var a := FillRowAddMatrix(mat, ind);
    WeighedIsCost(a, mat.Live(), ind, mat.wburied, mat.nburied);
    imin := BestRow(a, m);
    forall k: nat | k < m ensures k < |a| && RowSum(a[k], m) == StarWeight(mat.Live(), ind, mat.wburied, mat.nburied, k, m) {
      RowSumIs(a, mat.Live(), ind, mat.wburied, mat.nburied, k, m);
    }
  }

  method BestRow(a: CostMatrix, m: nat) returns (imin: nat)
    requires IsCostMatrix(a, m) && m >= 1
    ensures imin < m <= |a| && forall k :: 0 <= k < m ==>
      RowSum(a[imin], m) <= RowSum(a[k], m) && (k < imin ==> RowSum(a[imin], m) < RowSum(a[k], m))
  {
    imin := 0;
    var wmin := 0;
    var i := 0;
    while i < m
      invariant i <= m && imin < m && (i > 0 ==> imin < i && wmin == RowSum(a[imin], m))
      invariant forall k :: 0 <= k < i ==> wmin <= RowSum(a[k], m) && (k < imin ==> wmin < RowSum(a[k], m))
    {
      var w, j := 0, 0;
      while j < m
        invariant j <= m && w == RowSum(a[i], j)
      {
        w := w + a[i][j];
        j := j + 1;
      }
      if i == 0 || w < wmin {
        imin, wmin := i, w;
      }
      i := i + 1;
    }
  }

  // ---------- Adding one row to all others ----------

  /** ind without its entry i, up to position k */
  function Others(ind: seq<nat>, i: nat, k: nat): seq<nat>
    requires i < |ind| && k <= |ind|
  {
    if k <= i then ind[..k] else ind[..i] + ind[i + 1..k]
  }

  function AsInts(l: seq<nat>): (r: seq<int>)
    ensures |r| == |l| && forall k :: 0 <= k < |l| ==> r[k] == l[k]
  {
    seq(|l|, k requires 0 <= k < |l| => l[k])
  }

  lemma OtherAt(ind: seq<nat>, i: nat, k: nat, l: nat)
    requires i < |ind| && k <= |ind| && l < |Others(ind, i, k)|
    ensures var x := if l < i then l else l + 1; x < k && x != i && Others(ind, i, k)[l] == ind[x]
  {
  }

  lemma OtherSnoc(ind: seq<nat>, i: nat, k: nat)
    requires i < |ind| && k < |ind|
    ensures Others(ind, i, k + 1) == if k == i then Others(ind, i, k) else Others(ind, i, k) + [ind[k]]
  {
  }

  lemma AddAllSnoc(V: Rowset, src: nat, l: seq<nat>, t: nat)
    ensures AddAll(V, src, AsInts(l + [t])) == Added(AddAll(V, src, AsInts(l)), t, src)
  {
    var r := AsInts(l + [t]);
    assert r[..|r| - 1] == AsInts(l) && r[|r| - 1] == t;
  }

  lemma AddOther(V: Rowset, ind: seq<nat>, i: nat, k: nat)
    requires i < |ind| && k < |ind| && Distinct(ind) && AreLive(ind, V)
    ensures k == i ==> Others(ind, i, k + 1) == Others(ind, i, k)
    ensures k != i ==>
      AddAll(V, ind[i], AsInts(Others(ind, i, k + 1))) == Added(AddAll(V, ind[i], AsInts(Others(ind, i, k))), ind[k], ind[i])
    ensures AreLive(ind, AddAll(V, ind[i], AsInts(Others(ind, i, k))))
  {
    hide Added, Others, Distinct;
    OtherSnoc(ind, i, k);
    AddAllSnoc(V, ind[i], Others(ind, i, k), ind[k]);
    hide AddAll;
    OthersLive(V, ind, i, k);
    AddAllKeeps(V, ind[i], AsInts(Others(ind, i, k)));
  }

  lemma OthersLive(V: Rowset, ind: seq<nat>, i: nat, k: nat)
    requires i < |ind| && k <= |ind| && Distinct(ind) && AreLive(ind, V)
    ensures var o := AsInts(Others(ind, i, k));
      forall l :: 0 <= l < |o| ==> 0 <= o[l] < |V| && o[l] != ind[i] && V[o[l]].Some?
  {
    hide Others, Distinct;
    var o := AsInts(Others(ind, i, k));
    forall l | 0 <= l < |o| ensures 0 <= o[l] < |V| && o[l] != ind[i] && V[o[l]].Some? {
      OtherAt(ind, i, k, l);
      DistinctAt(ind, i, if l < i then l else l + 1);
    }
  }

  /** The line that records the merge: the pivot first */
  function StarLine(ind: seq<nat>, i: nat): seq<nat>
    requires i < |ind|
  {
    [ind[i]] + Others(ind, i, |ind|)
  }

  lemma StarLineOk(V: Rowset, ind: seq<nat>, i: nat)
    requires i < |ind| && Distinct(ind) && AreLive(ind, V)
    ensures LineOk(V, AsInts(StarLine(ind, i))) && AsInts(StarLine(ind, i))[0] == ind[i]
    ensures DoLine(V, AsInts(StarLine(ind, i))) == AddAll(V, ind[i], AsInts(Others(ind, i, |ind|)))[ind[i] := None]
  {
    var l, o := AsInts(StarLine(ind, i)), AsInts(Others(ind, i, |ind|));
    assert l[1..] == o;
    OthersLive(V, ind, i, |ind|);
    forall k | 1 <= k < |l| ensures 0 <= l[k] < |V| && l[k] != Source(l) && V[l[k]].Some? {
      assert l[k] == o[k - 1];
    }
  }

  /** ind[i] moves to the front. */
  method PutFirst(ind0: seq<nat>, i: nat) returns (ind: seq<nat>)
    requires i < |ind0|
    ensures ind == StarLine(ind0, i)
  {
    ind := ind0;
    if i > 0 {
      var itmp, k := ind[i], i;
      while k > 0
        invariant k <= i && |ind| == |ind0|
        invariant ind[..k] == ind0[..k] && ind[i + 1..] == ind0[i + 1..]
        invariant forall l :: k < l <= i ==> ind[l] == ind0[l - 1]
      {
        assert ind[k - 1] == ind0[..k][k - 1];
        ind := ind[k := ind[k - 1]];
        k := k - 1;
      }
      ind := ind[0 := itmp];
    }
    FirstPut(ind0, ind, i);
  }

  lemma FirstPut(ind0: seq<nat>, ind: seq<nat>, i: nat)
    requires i < |ind0| == |ind| && ind[0] == ind0[i] && ind[i + 1..] == ind0[i + 1..]
    requires forall l :: 0 < l <= i ==> ind[l] == ind0[l - 1]
    ensures ind == StarLine(ind0, i)
  {
    assert ind[1..i + 1] == ind0[..i];
    assert ind == [ind[0]] + ind[1..i + 1] + ind[i + 1..];
  }

  lemma StarLineLength(ind: seq<nat>, i: nat)
    requires i < |ind|
    ensures |AsInts(StarLine(ind, i))| == |ind|
  {
  }

  /** tryAllCombinations: row ind[i] is added to the other rows of ind and deleted. */
  method TryAllCombinations(mat: Matrix, ind0: seq<nat>) returns (ghost root: nat)
    requires mat.Valid() && ind0 != [] && Distinct(ind0) && AreLive(ind0, mat.Live()) && |mat.wburied| == |mat.rows|
    modifies mat`rows, mat`wt, mat`S, mat`A, mat`R, mat`cells, mat`outfile, mat`lines
    ensures mat.Valid() && SameStatus(old(mat.Ix()), mat.Ix()) && root < |ind0| && |mat.rows| == |old(mat.rows)|
    ensures mat.Live() == AddAll(old(mat.Live()), ind0[root], AsInts(Others(ind0, root, |ind0|)))[ind0[root] := None]
    ensures Extends(old(mat.lines), mat.lines, |ind0|) && IsBest(old(mat.Live()), ind0, mat.wburied, mat.nburied, root)
    ensures mat.lines == old(mat.lines) + [AsInts(StarLine(ind0, root))] && Written(old(mat.Live()), mat.Live(), old(mat.lines), mat.lines)
  {
    hide Agrees, SameStatus, RowsSorted, Print, Explains, Added, AddAll, AsInts, Sets, AreLive, Distinct, Others, StarWeight;
    ghost var V, ix0 := mat.Live(), mat.Ix();
    var m := |ind0|;
    var i := FindBestIndex(mat, ind0);
    root := i;
    AddTo(mat, ind0, i);
    StarLineOk(V, ind0, i);
    ExplainsLine(mat.start, mat.lines, V, AsInts(StarLine(ind0, i)));
    var ind := PutFirst(ind0, i);
    StarLineLength(ind0, i);
    mat.Report(AsInts(ind));
    ghost var rows, ix := mat.rows, mat.Ix();
    AddOther(V, ind0, i, i);
    PivotLive(rows, V, ind0, i);
    DropLive(rows, ind0[i]);
    mat.RemoveAndDestroy(ind[0]);
    StatusTwice(ix0, ix, mat.Ix());
    WrittenLine(V, mat.Live(), old(mat.lines), AsInts(StarLine(ind0, i)));
  }

  lemma PivotLive(rows: seq<Option<seq<nat>>>, V: Rowset, ind: seq<nat>, i: nat)
    requires i < |ind| && Distinct(ind) && AreLive(ind, V) && Values(rows) == AddAll(V, ind[i], AsInts(Others(ind, i, |ind|)))
    ensures ind[i] < |rows| && rows[ind[i]].Some?
  {
    OthersLive(V, ind, i, |ind|);
    AddAllKeeps(V, ind[i], AsInts(Others(ind, i, |ind|)));
  }

  method AddTo(mat: Matrix, ind: seq<nat>, i: nat)
    requires mat.Indexed() && i < |ind| && Distinct(ind) && AreLive(ind, mat.Live())
    modifies mat`rows, mat`wt, mat`S, mat`A, mat`R, mat`cells
    ensures mat.Indexed() && SameStatus(old(mat.Ix()), mat.Ix()) && |mat.rows| == |old(mat.rows)|
    ensures mat.Live() == AddAll(old(mat.Live()), ind[i], AsInts(Others(ind, i, |ind|)))
  {
    hide Agrees, SameStatus, RowsSorted, Added, AddAll, AsInts, Sets, AreLive, Distinct, Others;
    ghost var V := mat.Live();
    StatusSame(mat.Ix(), mat.cells);
    AddNoOther(V, ind, i);
    var k := 0;
    while k < |ind|
      invariant k <= |ind| && mat.Indexed() && SameStatus(old(mat.Ix()), mat.Ix()) && |mat.rows| == |V|
      invariant mat.Live() == AddAll(V, ind[i], AsInts(Others(ind, i, k)))
    {
      AddOther(V, ind, i, k);
      if k != i {
        LiveRow(mat.rows, ind, k);
        LiveRow(mat.rows, ind, i);
        DistinctAt(ind, i, k);
        ghost var ix := mat.Ix();
        mat.AddRowsAndUpdate(ind[k], ind[i], -1);
        StatusTwice(old(mat.Ix()), ix, mat.Ix());
      }
      k := k + 1;
    }
  }

  lemma DistinctAt(ind: seq<nat>, i: nat, k: nat)
    requires Distinct(ind) && i < |ind| && k < |ind| && i != k
    ensures ind[i] != ind[k]
  {
  }

  lemma AddNoOther(V: Rowset, ind: seq<nat>, i: nat)
    requires i < |ind|
    ensures AddAll(V, ind[i], AsInts(Others(ind, i, 0))) == V
  {
  }
}
