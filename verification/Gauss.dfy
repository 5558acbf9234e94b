/** linalg/gauss.c: elimination over GF(2) that stores its bookkeeping in the matrix.
    A row is the set of columns where it has a 1. */
module Elimination {
  import opened Gf2

  type Row = set<nat>

  /** The pivots recorded in the processed columns of a row. */
  ghost function Recorded(row: Row, piv: seq<int>, c: nat): set<int> {
    set j | j in row && j < c && j < |piv| :: piv[j]
  }

  ghost function High(row: Row, c: nat): Row {
    set j | j in row && j >= c
  }

  /** The columns below c that have a pivot have different ones; the others hold -1. */
  ghost predicate PivotTable(piv: seq<int>, n: nat, c: nat) {
    && c <= |piv|
    && (forall j :: 0 <= j < |piv| ==> -1 <= piv[j] < n && (j >= c ==> piv[j] == -1))
    && (forall j, k :: 0 <= j < k < |piv| && piv[j] >= 0 ==> piv[j] != piv[k])
  }

  /** A row not yet used as a pivot: l is the set of original rows it is the sum of, which its
      processed columns record; its other columns are those of that sum. */
  ghost predicate Pending(m: seq<Row>, i: nat, row: Row, l: set<nat>, piv: seq<int>, c: nat) {
    && (forall j :: j in row && j < c ==> j < |piv| && 0 <= piv[j] != i)
    && (forall q :: q in l <==> q == i || q in Recorded(row, piv, c))
    && Comb(m, l) == High(row, c)
  }

  /** A row used as the pivot of column k: it was the sum of the original rows of l, that is,
      of itself and of earlier pivots, and k was its first column. */
  ghost predicate PivotSum(m: seq<Row>, k: nat, l: set<nat>, piv: seq<int>) {
    && k < |piv| && 0 <= piv[k] && piv[k] in l
    && (forall q :: q in l && q != piv[k] ==> q in piv[..k])
    && k in Comb(m, l)
    && forall j :: j in Comb(m, l) ==> j >= k
  }

  /** Column c has no 1 in this row. */
  lemma PendingSkip(m: seq<Row>, i: nat, row: Row, l: set<nat>, piv: seq<int>, c: nat, p: int)
    requires Pending(m, i, row, l, piv, c) && c !in row && c < |piv|
    ensures Pending(m, i, row, l, piv[c := p], c + 1)
  {
    assert Recorded(row, piv, c) == Recorded(row, piv[c := p], c + 1);
    assert High(row, c) == High(row, c + 1);
  }

  lemma RecordedXor(x: Row, y: Row, piv: seq<int>, c: nat, n: nat, q: int)
    requires PivotTable(piv, n, c)
    requires forall j :: j in x + y && j < c ==> piv[j] >= 0
    ensures q in Recorded(Xor(x, y), piv, c) <==> (q in Recorded(x, piv, c)) != (q in Recorded(y, piv, c))
  {
    if q in Recorded(x, piv, c) {
      var j :| j in x && j < c && j < |piv| && piv[j] == q;
      if q in Recorded(y, piv, c) {
        var k :| k in y && k < c && k < |piv| && piv[k] == q;
        assert j == k;
      } else {
        assert j in Xor(x, y);
      }
    } else if q in Recorded(y, piv, c) {
      var j :| j in y && j < c && j < |piv| && piv[j] == q;
      assert j in Xor(x, y);
    }
  }

  /** The row that addRows writes: the sum, with bit c set as a mark. */
  function Marked(x: Row, y: Row, c: nat): Row {
    Xor(x, y) + {c}
  }

  /** Column c has a 1 in the row and in the pivot row, which is added to it. */
  lemma PendingAdd(m: seq<Row>, n: nat, i: nat, x: Row, lx: set<nat>, p: nat, y: Row, ly: set<nat>, piv: seq<int>, c: nat)
    requires PivotTable(piv, n, c) && c < |piv| && i != p && p !in piv && i !in piv
    requires Pending(m, i, x, lx, piv, c) && c in x
    requires Pending(m, p, y, ly, piv, c) && c in y
    ensures Pending(m, i, Marked(x, y, c), Xor(lx, ly), piv[c := p], c + 1)
  {
    var row, piv' := Marked(x, y, c), piv[c := p];
    forall q ensures q in Recorded(row, piv', c + 1) <==> q == p || q in Recorded(Xor(x, y), piv, c) {
      if q == p {
        assert c in row && piv'[c] == p;
      }
      if q in Recorded(Xor(x, y), piv, c) {
        var j :| j in Xor(x, y) && j < c && j < |piv| && piv[j] == q;
        assert j in row && piv'[j] == q;
      }
    }
    forall q ensures q in Xor(lx, ly) <==> q == i || q in Recorded(row, piv', c + 1) {
      RecordedXor(x, y, piv, c, n, q);
      assert i !in Recorded(y, piv, c) && p !in Recorded(x, piv, c);
    }
    CombXor(m, lx, ly);
    assert Xor(High(x, c), High(y, c)) == High(row, c + 1);
  }

  /** A pending row with a 1 in column c can serve as its pivot. */
  lemma PendingBecomesPivot(m: seq<Row>, p: nat, y: Row, l: set<nat>, piv: seq<int>, c: nat)
    requires Pending(m, p, y, l, piv, c) && c in y && c < |piv|
    ensures PivotSum(m, c, l, piv[c := p])
  {
    var piv' := piv[c := p];
    forall q | q in l && q != p ensures q in piv'[..c] {
      var j :| j in y && j < c && j < |piv| && piv[j] == q;
      assert piv'[..c][j] == q;
    }
  }

  lemma PivotSumKept(m: seq<Row>, k: nat, l: set<nat>, piv: seq<int>, c: nat, p: int)
    requires PivotSum(m, k, l, piv) && k < c < |piv|
    ensures PivotSum(m, k, l, piv[c := p])
  {
    assert piv[c := p][..k] == piv[..k];
  }

  // ---------- The state after c columns ----------

  ghost predicate Eliminated(m: seq<Row>, rows: seq<Row>, l: seq<set<nat>>, piv: seq<int>, c: nat) {
    && |rows| == |l| == |m|
    && PivotTable(piv, |m|, c)
    && (forall i :: 0 <= i < |m| && i !in piv ==> Pending(m, i, rows[i], l[i], piv, c))
    && (forall k :: 0 <= k < c && piv[k] >= 0 ==> rows[piv[k]] == {k} && PivotSum(m, k, l[piv[k]], piv))
  }

  lemma EliminatedInit(m: seq<Row>, l: seq<set<nat>>, piv: seq<int>)
    requires |l| == |m| && forall i :: 0 <= i < |m| ==> l[i] == {i}
    requires forall j :: 0 <= j < |piv| ==> piv[j] == -1
    ensures Eliminated(m, m, l, piv, 0)
  {
    forall i | 0 <= i < |m| ensures Pending(m, i, m[i], l[i], piv, 0) {
      CombUnit(m, i);
      assert High(m[i], 0) == m[i];
    }
  }

  lemma ColumnWithoutPivot(m: seq<Row>, rows: seq<Row>, l: seq<set<nat>>, piv: seq<int>, c: nat)
    requires Eliminated(m, rows, l, piv, c) && c < |piv|
    requires forall i :: 0 <= i < |m| ==> c !in rows[i]
    ensures Eliminated(m, rows, l, piv, c + 1)
  {
    assert piv[c := -1] == piv;
    forall i | 0 <= i < |m| && i !in piv ensures Pending(m, i, rows[i], l[i], piv, c + 1) {
      PendingSkip(m, i, rows[i], l[i], piv, c, -1);
    }
  }

  /** What one pivot does to the rows, and to the rows of the transform. */
  ghost function Swept(rows: seq<Row>, p: nat, c: nat): seq<Row>
    requires p < |rows|
  {
    seq(|rows|, i requires 0 <= i < |rows| =>
      if i == p then {c} else if i > p && c in rows[i] then Marked(rows[i], rows[p], c) else rows[i])
  }

  ghost function SweptTransform(l: seq<set<nat>>, rows: seq<Row>, p: nat, c: nat): seq<set<nat>>
    requires p < |rows| == |l|
  {
    seq(|l|, i requires 0 <= i < |l| => if i > p && c in rows[i] then Xor(l[i], l[p]) else l[i])
  }

  lemma SweepRow(m: seq<Row>, rows: seq<Row>, l: seq<set<nat>>, piv: seq<int>, c: nat, p: nat, i: nat)
    requires Eliminated(m, rows, l, piv, c) && c < |piv|
    requires p < |m| && c in rows[p] && p !in piv && (forall k :: 0 <= k < p ==> c !in rows[k])
    requires i < |m| && i != p && i !in piv
    ensures Pending(m, i, Swept(rows, p, c)[i], SweptTransform(l, rows, p, c)[i], piv[c := p], c + 1)
  {
    assert Pending(m, i, rows[i], l[i], piv, c) && Pending(m, p, rows[p], l[p], piv, c);
    if c in rows[i] {
      PendingAdd(m, |m|, i, rows[i], l[i], p, rows[p], l[p], piv, c);
    } else {
      PendingSkip(m, i, rows[i], l[i], piv, c, p);
    }
  }

  lemma PivotIsPending(m: seq<Row>, rows: seq<Row>, l: seq<set<nat>>, piv: seq<int>, c: nat, p: nat)
    requires Eliminated(m, rows, l, piv, c) && p < |m| && c in rows[p]
    ensures p !in piv
  {
  }

  lemma ColumnWithPivot(m: seq<Row>, rows: seq<Row>, l: seq<set<nat>>, piv: seq<int>, c: nat, p: nat)
    requires Eliminated(m, rows, l, piv, c) && c < |piv|
    requires p < |m| && c in rows[p] && (forall k :: 0 <= k < p ==> c !in rows[k])
    ensures Eliminated(m, Swept(rows, p, c), SweptTransform(l, rows, p, c), piv[c := p], c + 1)
  {
    PivotIsPending(m, rows, l, piv, c, p);
    var rows', l', piv' := Swept(rows, p, c), SweptTransform(l, rows, p, c), piv[c := p];
    forall i | 0 <= i < |m| && i !in piv' ensures Pending(m, i, rows'[i], l'[i], piv', c + 1) {
      assert piv'[c] == p;
      forall j | 0 <= j < |piv| ensures piv[j] != i {
        assert j != c ==> piv'[j] == piv[j];
      }
      SweepRow(m, rows, l, piv, c, p, i);
    }
    forall k | 0 <= k < c + 1 && piv'[k] >= 0
      ensures rows'[piv'[k]] == {k} && PivotSum(m, k, l'[piv'[k]], piv')
    {
      if k == c {
        PendingBecomesPivot(m, p, rows[p], l[p], piv, c);
      } else {
        assert piv[k] in piv;
        PivotSumKept(m, k, l[piv[k]], piv, c, p);
      }
    }
  }

  // ---------- What the final state means ----------

  ghost function Used(piv: seq<int>): set<nat> {
    set q: nat | q in piv
  }

  /** The original matrix m, what elimination made of its rows, the transform l and the pivot table. */
  datatype Outcome = Outcome(m: seq<Row>, rows: seq<Row>, l: seq<set<nat>>, piv: seq<int>) {

    ghost predicate Valid() {
      && (forall i :: 0 <= i < |m| ==> m[i] <= Indices(|piv|))
      && Eliminated(m, rows, l, piv, |piv|)
    }

    /** The combination kept for an unused row annihilates the matrix. */
    lemma UnusedIsNull(i: nat)
      requires Valid() && i < |m| && i !in piv
      ensures Comb(m, l[i]) == {}
      ensures forall q :: q in l[i] <==> q == i || (exists j :: 0 <= j < |piv| && j in rows[i] && piv[j] == q)
      ensures forall q :: q in l[i] && q != i ==> q in Used(piv)
    {
      assert Pending(m, i, rows[i], l[i], piv, |piv|);
      CombWithin(m, l[i], Indices(|piv|));
    }

    /** A combination of the first pivots that cancels the first k columns is empty. */
    lemma {:induction false} PivotsIndependent(k: nat, v: set<nat>)
      requires Valid() && k <= |piv|
      requires forall q :: q in v ==> q in piv[..k]
      requires forall j :: j in Comb(m, v) ==> j >= k
      ensures v == {}
      decreases k
    {
      if k > 0 {
        var p := piv[k - 1];
        var lp := if p in v then l[p] else {};
        var v' := Xor(v, lp);
        CombXor(m, v, lp);
        CombEmpty(m);
        assert p in v ==> PivotSum(m, k - 1, lp, piv);
        forall q | q in v' ensures q in piv[..k - 1] {
          if q in v && q != p {
            var j :| 0 <= j < k && piv[..k][j] == q;
            assert piv[..k - 1][j] == q;
          }
        }
        PivotsIndependent(k - 1, v');
        XorEmpty(v, lp);
      }
    }

    lemma SpannedByUsed(i: nat)
      requires Valid() && i < |m|
      ensures InSpan(m[i], m, Used(piv))
    {
      CombUnit(m, i);
      if i in piv {
        assert {i} <= Used(piv);
      } else {
        UnusedIsNull(i);
        CombXor(m, {i}, l[i]);
        assert Xor({i}, l[i]) <= Used(piv);
        assert Xor(m[i], {}) == m[i];
      }
    }

    /** The rows used as pivots are a basis of the row space. */
    lemma UsedIsBasis()
      requires Valid()
      ensures IsBasis(m, Used(piv))
    {
      forall w: set<nat> | w <= Used(piv) && Comb(m, w) == {} ensures w == {} {
        assert piv[..|piv|] == piv;
        PivotsIndependent(|piv|, w);
      }
      forall i | 0 <= i < |m| ensures InSpan(m[i], m, Used(piv)) {
        SpannedByUsed(i);
      }
    }

    // The rows of the transform are independent, and every unit vector is a sum of them.

    lemma OnlyItsOwnUnused(i: nat, j: nat)
      requires Valid() && i < |m| && i !in piv && j < |m| && j != i
      ensures i !in l[j]
    {
      if j in piv {
        var k :| 0 <= k < |piv| && piv[k] == j;
        assert PivotSum(m, k, l[j], piv);
      } else {
        UnusedIsNull(j);
      }
    }

    lemma TransformIndependent(w: set<nat>)
      requires Valid() && w <= Indices(|m|) && Comb(l, w) == {}
      ensures w == {}
    {
      forall i | i in w ensures i in piv {
        if i !in piv {
          UnusedIsNull(i);
          forall j | 0 <= j < |m| && j in w && j != i ensures i !in l[j] {
            OnlyItsOwnUnused(i, j);
          }
          CombPrivate(l, w, i, i);
        }
      }
      assert piv[..|piv|] == piv;
      LastPivot(w, |piv|);
    }

    lemma {:induction false} LastPivot(w: set<nat>, k: nat)
      requires Valid() && k <= |piv|
      requires Comb(l, w) == {} && forall q :: q in w ==> q in piv[..k]
      ensures w == {}
      decreases k
    {
      if k > 0 {
        if piv[k - 1] in w {
          var p: nat := piv[k - 1];
          assert PivotSum(m, k - 1, l[p], piv);
          forall j | 0 <= j < |m| && j in w && j != p ensures p !in l[j] {
            var t :| 0 <= t < k && piv[..k][t] == j;
            assert PivotSum(m, t, l[j], piv);
          }
          CombPrivate(l, w, p, p);
          assert false;
        }
        forall q | q in w ensures q in piv[..k - 1] {
          var j :| 0 <= j < k && piv[..k][j] == q;
          assert piv[..k - 1][j] == q;
        }
        LastPivot(w, k - 1);
      }
    }

    lemma {:induction false} PivotUnits(k: nat)
      requires Valid() && k < |piv| && piv[k] >= 0
      ensures InSpan({piv[k] as nat}, l, Indices(|m|))
      decreases k
    {
      var p: nat := piv[k];
      assert PivotSum(m, k, l[p], piv);
      forall q | q in l[p] - {p} ensures InSpan({q}, l, Indices(|m|)) {
        var j :| 0 <= j < k && piv[..k][j] == q;
        PivotUnits(j);
      }
      UnitFromRest(p);
    }

    lemma UnitFromRest(i: nat)
      requires Valid() && i < |m| && i in l[i]
      requires forall q :: q in l[i] - {i} ==> InSpan({q}, l, Indices(|m|))
      ensures InSpan({i}, l, Indices(|m|))
    {
      SpanUnits(l, Indices(|m|), l[i] - {i});
      SpanRow(l, Indices(|m|), i);
      SpanXor(l, Indices(|m|), l[i], l[i] - {i});
      assert Xor(l[i], l[i] - {i}) == {i};
    }

    lemma TransformSpans(i: nat)
      requires Valid() && i < |m|
      ensures InSpan({i}, l, Indices(|m|))
    {
      if i in piv {
        var k :| 0 <= k < |piv| && piv[k] == i;
        PivotUnits(k);
      } else {
        UnusedIsNull(i);
        forall q | q in l[i] - {i} ensures InSpan({q}, l, Indices(|m|)) {
          var j :| 0 <= j < |piv| && piv[j] == q;
          PivotUnits(j);
        }
        UnitFromRest(i);
      }
    }
  }
}

module Gauss {
  import opened Gf2
  import opened Elimination

  /** The first row with a 1 in column c, or -1. */
  method GetPivot(mat: array<Row>, c: nat) returns (p: int)
    ensures -1 <= p < mat.Length
    ensures p >= 0 ==> c in mat[p] && forall k :: 0 <= k < p ==> c !in mat[k]
    ensures p == -1 ==> forall k :: 0 <= k < mat.Length ==> c !in mat[k]
  {
    for i := 0 to mat.Length
      invariant forall k :: 0 <= k < i ==> c !in mat[k]
    {
      if c in mat[i] {
        return i;
      }
    }
    return -1;
  }

  method AddRows(mat: array<Row>, row: nat, pivot: nat, c: nat)
    requires row < mat.Length && pivot < mat.Length
    modifies mat
    ensures mat[..] == old(mat[..])[row := Marked(old(mat[row]), old(mat[pivot]), c)]
  {
    mat[row] := Xor(mat[row], mat[pivot]);
    mat[row] := mat[row] + {c};
  }

  /** Two rows at a time. */
  method Add2Rows(mat: array<Row>, row: nat, row2: nat, pivot: nat, c: nat)
    requires row < mat.Length && row2 < mat.Length && pivot < mat.Length
    requires row != row2 && row != pivot && row2 != pivot
    modifies mat
    ensures mat[..] == old(mat[..])[row := Marked(old(mat[row]), old(mat[pivot]), c)]
                                   [row2 := Marked(old(mat[row2]), old(mat[pivot]), c)]
  {
    mat[row] := Xor(mat[row], mat[pivot]);
    mat[row2] := Xor(mat[row2], mat[pivot]);
    mat[row] := mat[row] + {c};
    mat[row2] := mat[row2] + {c};
  }

  /** Does nothing when no transform is kept. */
  method SimpleAddrows(lmat: array?<Row>, d: nat, s: nat)
    requires lmat != null ==> d < lmat.Length && s < lmat.Length
    modifies lmat
    ensures lmat != null ==> lmat[..] == old(lmat[..])[d := Xor(old(lmat[d]), old(lmat[s]))]
  {
    if lmat != null {
      lmat[d] := Xor(lmat[d], lmat[s]);
    }
  }

  /** Eliminates column c from the rows below the pivot p, two at a time, then purges the pivot row. */
  method Sweep(mat: array<Row>, lmat: array?<Row>, p: nat, c: nat)
    requires p < mat.Length && mat != lmat && (lmat != null ==> lmat.Length == mat.Length)
    requires forall k :: 0 <= k < p ==> c !in mat[k]
    modifies mat, lmat
    ensures mat[..] == Swept(old(mat[..]), p, c)
    ensures lmat != null ==> lmat[..] == SweptTransform(old(lmat[..]), old(mat[..]), p, c)
  {
    ghost var rows, rows' := mat[..], Swept(mat[..], p, c);
    ghost var l := if lmat != null then lmat[..] else seq(mat.Length, _ => {});
    ghost var l' := SweptTransform(l, rows, p, c);
    var i, i1 := p + 1, -1;
    while i < mat.Length
      invariant p < i <= mat.Length && -1 <= i1 < i && (i1 >= 0 ==> p < i1 && c in rows[i1])
      invariant forall k :: 0 <= k < mat.Length ==>
        mat[k] == (if p < k < i && k != i1 then rows'[k] else rows[k])
      invariant lmat != null ==> forall k :: 0 <= k < mat.Length ==>
        lmat[k] == (if p < k < i && k != i1 then l'[k] else l[k])
    {
      if c in mat[i] {
        if i1 >= 0 {
          Add2Rows(mat, i1, i, p, c);
          SimpleAddrows(lmat, i, p);
          SimpleAddrows(lmat, i1, p);
          i1 := -1;
        } else {
          i1 := i;
        }
      }
      i := i + 1;
    }
    if i1 >= 0 {
      AddRows(mat, i1, p, c);
      SimpleAddrows(lmat, i1, p);
    }
    assert Marked(rows[p], rows[p], c) == {c};
    AddRows(mat, p, p, c);
  }

  /** Main loop: for each column, finds the pivot and eliminates. The transform is kept in lmat if there is one. */
  method GaussianElimination(mat: array<Row>, lmat: array?<Row>, ncols: nat)
      returns (setPivot: seq<int>, setUsed: seq<bool>, ghost l: seq<set<nat>>)
    requires mat != lmat
    requires forall i :: 0 <= i < mat.Length ==> mat[i] <= Indices(ncols)
    requires lmat != null ==> lmat.Length == mat.Length && forall i :: 0 <= i < lmat.Length ==> lmat[i] == {i}
    modifies mat, lmat
    ensures |setPivot| == ncols && Outcome(old(mat[..]), mat[..], l, setPivot).Valid()
    ensures lmat != null ==> lmat[..] == l
    ensures UsedTable(setUsed, setPivot, mat.Length)
  {
    hide Eliminated, UsedTable;
    ghost var m := mat[..];
    setPivot, setUsed := seq(ncols, _ => -1), seq(mat.Length, _ => false);
    l := seq(mat.Length, i => {i});
    EliminatedInit(m, l, setPivot);
    UsedTableInit(setUsed, setPivot);
    for c := 0 to ncols
      invariant |setPivot| == ncols && |setUsed| == |l| == mat.Length
      invariant Eliminated(m, mat[..], l, setPivot, c) && UsedTable(setUsed, setPivot, mat.Length)
      invariant lmat != null ==> lmat[..] == l
    {
      var p := GetPivot(mat, c);
      if p != -1 {
        ColumnWithPivot(m, mat[..], l, setPivot, c, p);
        UsedGrows(m, mat[..], l, setPivot, setUsed, c, p);
        l := SweptTransform(l, mat[..], p, c);
        setPivot := setPivot[c := p];
        setUsed := setUsed[p := true];
        Sweep(mat, lmat, p, c);
      } else {
        ColumnWithoutPivot(m, mat[..], l, setPivot, c);
      }
    }
  }

  /** used[i] says whether row i is the pivot of some column. */
  ghost predicate UsedTable(used: seq<bool>, piv: seq<int>, n: nat) {
    |used| == n && forall i :: 0 <= i < n ==> (used[i] <==> i in piv)
  }

  lemma UsedTableInit(used: seq<bool>, piv: seq<int>)
    requires (forall i :: 0 <= i < |used| ==> !used[i]) && forall j :: 0 <= j < |piv| ==> piv[j] == -1
    ensures UsedTable(used, piv, |used|)
  {
  }

  lemma UsedGrows(m: seq<Row>, rows: seq<Row>, l: seq<set<nat>>, piv: seq<int>, used: seq<bool>, c: nat, p: nat)
    requires Eliminated(m, rows, l, piv, c) && c < |piv| && p < |m| && UsedTable(used, piv, |m|)
    ensures UsedTable(used[p := true], piv[c := p], |m|)
  {
    var used', piv' := used[p := true], piv[c := p];
    forall i | 0 <= i < |m| ensures used'[i] <==> i in piv' {
      if i in piv {
        var k :| 0 <= k < |piv| && piv[k] == i;
        assert piv'[k] == i;
      }
      assert piv'[c] == p;
    }
  }

  // ---------- kernel ----------

  /** ker lists a basis of the left null space of m. */
  ghost predicate IsKernelBasis(m: seq<Row>, ker: seq<set<nat>>) {
    && (forall t :: 0 <= t < |ker| ==> ker[t] <= Indices(|m|) && Comb(m, ker[t]) == {})
    && Independent(ker, Indices(|ker|))
    && (forall v: set<nat> :: v <= Indices(|m|) && Comb(m, v) == {} ==> InSpan(v, ker, Indices(|ker|)))
  }

  /** u lists the unused rows below k, in order. */
  ghost predicate ListsUnused(u: seq<nat>, piv: seq<int>, k: nat) {
    && (forall i :: i in u <==> 0 <= i < k && i !in piv)
    && (forall s, t :: 0 <= s < t < |u| ==> u[s] < u[t])
  }

  /** ker holds the combinations of the rows listed in u. */
  ghost predicate Reads(ker: seq<set<nat>>, u: seq<nat>, l: seq<set<nat>>) {
    |ker| == |u| && forall t :: 0 <= t < |u| ==> u[t] < |l| && ker[t] == l[u[t]]
  }

  ghost predicate IsKernelOf(e: Outcome, u: seq<nat>, ker: seq<set<nat>>) {
    e.Valid() && ListsUnused(u, e.piv, |e.m|) && Reads(ker, u, e.l)
  }

  lemma KernelPrivate(e: Outcome, u: seq<nat>, ker: seq<set<nat>>, w: set<nat>, t: nat)
    requires IsKernelOf(e, u, ker) && t < |u|
    ensures u[t] in Comb(ker, w) <==> t in w
  {
    assert u[t] in u;
    e.UnusedIsNull(u[t]);
    forall s | 0 <= s < |ker| && s in w && s != t ensures u[t] !in ker[s] {
      assert u[s] in u;
      e.OnlyItsOwnUnused(u[t], u[s]);
    }
    CombPrivate(ker, w, t, u[t]);
  }

  lemma KernelSound(e: Outcome, u: seq<nat>, ker: seq<set<nat>>, t: nat)
    requires IsKernelOf(e, u, ker) && t < |u|
    ensures ker[t] <= Indices(|e.m|) && Comb(e.m, ker[t]) == {}
  {
    assert u[t] in u;
    e.UnusedIsNull(u[t]);
    assert forall q :: q in Used(e.piv) ==> q < |e.m|;
  }

  lemma {:induction false} AllNull(m: seq<Row>, ker: seq<set<nat>>, w: set<nat>)
    requires forall t :: 0 <= t < |ker| ==> Comb(m, ker[t]) == {}
    ensures Comb(m, Comb(ker, w)) == {}
    decreases |ker|
  {
    CombEmpty(m);
    if ker != [] {
      var k := |ker| - 1;
      AllNull(m, ker[..k], w);
      CombXor(m, Comb(ker[..k], w), if k in w then ker[k] else {});
    }
  }

  /** The positions in u of the elements of v. */
  ghost function Positions(u: seq<nat>, v: set<nat>): set<nat> {
    set t | t in Indices(|u|) && u[t] in v
  }

  /** v and the kernel vectors of its unused rows differ only in used rows. */
  lemma KernelDifference(e: Outcome, u: seq<nat>, ker: seq<set<nat>>, v: set<nat>)
    requires IsKernelOf(e, u, ker) && v <= Indices(|e.m|)
    ensures Xor(v, Comb(ker, Positions(u, v))) <= Used(e.piv)
  {
    var w := Positions(u, v);
    forall t | 0 <= t < |ker| ensures ker[t] <= Indices(|e.m|) {
      KernelSound(e, u, ker, t);
    }
    CombWithin(ker, w, Indices(|e.m|));
    forall i | i in Xor(v, Comb(ker, w)) ensures i in Used(e.piv) {
      if i !in e.piv {
        assert i in u;
        var t :| 0 <= t < |u| && u[t] == i;
        KernelPrivate(e, u, ker, w, t);
      }
    }
  }

  lemma KernelComplete(e: Outcome, u: seq<nat>, ker: seq<set<nat>>, v: set<nat>)
    requires IsKernelOf(e, u, ker) && v <= Indices(|e.m|) && Comb(e.m, v) == {}
    ensures InSpan(v, ker, Indices(|ker|))
  {
    var w := Positions(u, v);
    var x := Comb(ker, w);
    forall t | 0 <= t < |ker| ensures Comb(e.m, ker[t]) == {} {
      KernelSound(e, u, ker, t);
    }
    AllNull(e.m, ker, w);
    CombXor(e.m, v, x);
    assert Comb(e.m, Xor(v, x)) == {};
    KernelDifference(e, u, ker, v);
    e.UsedIsBasis();
    assert Xor(v, x) == {};
    XorEmpty(v, x);
    assert w <= Indices(|ker|);
  }

  lemma KernelIsBasis(e: Outcome, u: seq<nat>, ker: seq<set<nat>>)
    requires IsKernelOf(e, u, ker)
    ensures IsKernelBasis(e.m, ker)
  {
    forall t | 0 <= t < |ker| ensures ker[t] <= Indices(|e.m|) && Comb(e.m, ker[t]) == {} {
      KernelSound(e, u, ker, t);
    }
    forall w: set<nat> | w <= Indices(|ker|) && Comb(ker, w) == {} ensures w == {} {
      if t :| t in w {
        KernelPrivate(e, u, ker, w, t);
      }
    }
    forall v: set<nat> | v <= Indices(|e.m|) && Comb(e.m, v) == {} ensures InSpan(v, ker, Indices(|ker|)) {
      KernelComplete(e, u, ker, v);
    }
  }

  ghost function Elements(u: seq<nat>): set<nat> {
    set i | i in u
  }

  lemma {:induction false} DistinctCount(u: seq<nat>)
    requires forall s, t :: 0 <= s < t < |u| ==> u[s] < u[t]
    ensures |Elements(u)| == |u|
    decreases |u|
  {
    if u != [] {
      var k := |u| - 1;
      DistinctCount(u[..k]);
      assert u == u[..k] + [u[k]];
      assert Elements(u) == Elements(u[..k]) + {u[k]};
      assert u[k] !in u[..k];
    }
  }

  /** The used rows are a basis, so the rank is the number of rows less the number of unused ones. */
  lemma RankFromUnused(e: Outcome, u: seq<nat>)
    requires e.Valid() && ListsUnused(u, e.piv, |e.m|)
    ensures |u| <= |e.m| && HasRank(e.m, |e.m| - |u|)
  {
    e.UsedIsBasis();
    DistinctCount(u);
    UnionCount(Used(e.piv), Elements(u));
    forall i: nat ensures i in Indices(|e.m|) <==> i in Used(e.piv) + Elements(u) {
    }
    assert Indices(|e.m|) == Used(e.piv) + Elements(u);
  }

  /** The null vector of row i: i itself, and the pivots of the columns where the row holds a mark. */
  method ReadKernelVector(row: Row, i: nat, setPivot: seq<int>, ghost l: set<nat>) returns (v: set<nat>)
    requires forall j :: 0 <= j < |setPivot| && j in row ==> setPivot[j] >= 0
    requires forall q :: q in l <==> q == i || (exists j :: 0 <= j < |setPivot| && j in row && setPivot[j] == q)
    ensures v == l
  {
    v := {i};
    for j := 0 to |setPivot|
      invariant v <= l
      invariant forall k :: 0 <= k < j && k in row ==> setPivot[k] in v
      invariant i in v
    {
      if j in row {
        v := v + {setPivot[j] as nat};
      }
    }
  }

  /** Reads the null vectors back from the eliminated matrix; when only the dimension is wanted, ker stays empty. */
  method Kernel(mat: array<Row>, ncols: nat, wantKer: bool) returns (dim: nat, ker: seq<set<nat>>)
    requires forall i :: 0 <= i < mat.Length ==> mat[i] <= Indices(ncols)
    modifies mat
    ensures dim <= mat.Length && HasRank(old(mat[..]), mat.Length - dim)
    ensures wantKer ==> |ker| == dim && IsKernelBasis(old(mat[..]), ker)
  {
    hide Eliminated, HasRank, IsKernelBasis, ListsUnused;
    var setPivot, setUsed;
    ghost var l;
    setPivot, setUsed, l := GaussianElimination(mat, null, ncols);
    ghost var e := Outcome(old(mat[..]), mat[..], l, setPivot);
    OutcomeSizes(e);
    ghost var u: seq<nat> := [];
    NoUnusedYet(setPivot);
    var rank := mat.Length;
    ker := [];
    for i := 0 to mat.Length
      invariant mat[..] == e.rows && e.Valid() && |l| == |e.m| == mat.Length
      invariant ListsUnused(u, setPivot, i) && rank == mat.Length - |u| && |u| <= i
      invariant wantKer ==> Reads(ker, u, l)
    {
      UnusedGrows(u, setPivot, i);
      if !setUsed[i] {
        rank := rank - 1;
        if wantKer {
          e.UnusedIsNull(i);
          PendingMarks(e, i);
          var v := ReadKernelVector(mat[i], i, setPivot, l[i]);
          ker := ker + [v];
        }
        u := u + [i];
      }
    }
    dim := mat.Length - rank;
    RankFromUnused(e, u);
    if wantKer {
      KernelIsBasis(e, u, ker);
    }
  }

  lemma OutcomeSizes(e: Outcome)
    requires e.Valid()
    ensures |e.l| == |e.rows| == |e.m|
  {
  }

  lemma NoUnusedYet(piv: seq<int>)
    ensures ListsUnused([], piv, 0)
  {
  }

  lemma UnusedGrows(u: seq<nat>, piv: seq<int>, i: nat)
    requires ListsUnused(u, piv, i)
    ensures ListsUnused(if i in piv then u else u + [i], piv, i + 1)
  {
    forall s | 0 <= s < |u| ensures u[s] < i {
      assert u[s] in u;
    }
  }

  lemma PendingMarks(e: Outcome, i: nat)
    requires e.Valid() && i < |e.m| && i !in e.piv
    ensures forall j :: 0 <= j < |e.piv| && j in e.rows[i] ==> e.piv[j] >= 0
  {
    assert Pending(e.m, i, e.rows[i], e.l[i], e.piv, |e.piv|);
  }

  // ---------- spanned_basis ----------

  /** order and pos are inverse permutations of the rows. */
  ghost predicate ArePermutations(order: seq<nat>, pos: seq<nat>, n: nat) {
    && |order| == |pos| == n
    && (forall t :: 0 <= t < n ==> order[t] < n && pos[order[t]] == t)
    && (forall k :: 0 <= k < n ==> pos[k] < n && order[pos[k]] == k)
  }

  ghost function Image(order: seq<nat>, w: set<nat>): set<nat> {
    set t | t in Indices(|order|) && t in w :: order[t]
  }

  lemma ImageLast(order: seq<nat>, w: set<nat>)
    requires order != [] && forall s, t :: 0 <= s < t < |order| ==> order[s] != order[t]
    ensures var k := |order| - 1;
      Image(order, w) == Xor(Image(order[..k], w), if k in w then {order[k]} else {})
  {
    var k := |order| - 1;
    forall x | x in Image(order, w) ensures x in Image(order[..k], w) || (k in w && x == order[k]) {
      var t :| t in Indices(|order|) && t in w && order[t] == x;
      assert t != k ==> order[..k][t] == x && t in Indices(k);
    }
    forall x | x in Image(order[..k], w) ensures x in Image(order, w) && x != order[k] {
      var t :| t in Indices(k) && t in w && order[..k][t] == x;
      assert t in Indices(|order|) && order[t] == x;
    }
    assert k in w ==> order[k] in Image(order, w) by {
      assert k in Indices(|order|);
    }
  }

  lemma {:induction false} CombReorder(l: seq<set<nat>>, lmat: seq<set<nat>>, order: seq<nat>, w: set<nat>)
    requires |lmat| == |order| && forall t :: 0 <= t < |lmat| ==> order[t] < |l| && lmat[t] == l[order[t]]
    requires forall s, t :: 0 <= s < t < |order| ==> order[s] != order[t]
    ensures Comb(lmat, w) == Comb(l, Image(order, w))
    decreases |lmat|
  {
    hide Image;
    CombEmpty(l);
    if lmat == [] {
      ImageNone(w);
    } else {
      var k := |lmat| - 1;
      CombReorder(l, lmat[..k], order[..k], w);
      ImageLast(order, w);
      CombXor(l, Image(order[..k], w), if k in w then {order[k]} else {});
      CombUnit(l, order[k]);
    }
  }

  lemma ImageNone(w: set<nat>)
    ensures Image([], w) == {}
  {
  }

  /** lmat is invertible: its rows are independent and every unit vector is a sum of them. */
  ghost predicate IsInvertible(lmat: seq<set<nat>>) {
    && Independent(lmat, Indices(|lmat|))
    && forall i: nat :: i < |lmat| ==> InSpan({i}, lmat, Indices(|lmat|))
  }

  ghost function Product(lmat: seq<set<nat>>, m: seq<Row>): seq<Row> {
    seq(|lmat|, t requires 0 <= t < |lmat| => Comb(m, lmat[t]))
  }

  /** The first r rows of lmat * m are a basis of the row space of m, and the others are zero. */
  ghost predicate IsSpannedBasis(lmat: seq<set<nat>>, m: seq<Row>, r: nat) {
    var prod := Product(lmat, m);
    && |lmat| == |m| && r <= |m|
    && Independent(prod, Indices(r))
    && (forall i :: 0 <= i < |m| ==> InSpan(m[i], prod, Indices(r)))
    && (forall t :: r <= t < |m| ==> prod[t] == {})
  }

  /** lmat holds the transform of e with the used rows first. */
  ghost predicate IsArranged(e: Outcome, lmat: seq<set<nat>>, r: nat, order: seq<nat>, pos: seq<nat>) {
    && e.Valid() && |lmat| == |e.m| && r <= |e.m| && ArePermutations(order, pos, |e.m|)
    && forall t :: 0 <= t < |lmat| ==> lmat[t] == e.l[order[t]] && (t < r <==> order[t] in e.piv)
  }

  lemma ArrangedIndependent(e: Outcome, lmat: seq<set<nat>>, r: nat, order: seq<nat>, pos: seq<nat>, w: set<nat>)
    requires IsArranged(e, lmat, r, order, pos) && w <= Indices(|lmat|) && Comb(lmat, w) == {}
    ensures w == {}
  {
    CombReorder(e.l, lmat, order, w);
    e.TransformIndependent(Image(order, w));
    forall t | t in w ensures order[t] in Image(order, w) {
    }
  }

  lemma ArrangedSpans(e: Outcome, lmat: seq<set<nat>>, r: nat, order: seq<nat>, pos: seq<nat>, i: nat)
    requires IsArranged(e, lmat, r, order, pos) && i < |lmat|
    ensures InSpan({i}, lmat, Indices(|lmat|))
  {
    e.TransformSpans(i);
    var v: set<nat> :| v <= Indices(|lmat|) && Comb(e.l, v) == {i};
    var w := Positions(order, v);
    CombReorder(e.l, lmat, order, w);
    forall k | k in v ensures k in Image(order, w) {
      assert pos[k] in w && order[pos[k]] == k;
    }
    assert Image(order, w) == v;
    assert w <= Indices(|lmat|);
  }

  lemma ArrangedInvertible(e: Outcome, lmat: seq<set<nat>>, r: nat, order: seq<nat>, pos: seq<nat>)
    requires IsArranged(e, lmat, r, order, pos)
    ensures IsInvertible(lmat)
  {
    forall w: set<nat> | w <= Indices(|lmat|) && Comb(lmat, w) == {} ensures w == {} {
      ArrangedIndependent(e, lmat, r, order, pos, w);
    }
    forall i: nat | i < |lmat| ensures InSpan({i}, lmat, Indices(|lmat|)) {
      ArrangedSpans(e, lmat, r, order, pos, i);
    }
  }

  lemma ZeroRows(e: Outcome, lmat: seq<set<nat>>, r: nat, order: seq<nat>, pos: seq<nat>, t: nat)
    requires IsArranged(e, lmat, r, order, pos) && t < |lmat|
    ensures t >= r ==> Comb(e.m, lmat[t]) == {}
    ensures t < r ==> lmat[t] <= Used(e.piv)
  {
    if t >= r {
      e.UnusedIsNull(order[t]);
    } else {
      var k :| 0 <= k < |e.piv| && e.piv[k] == order[t];
      assert PivotSum(e.m, k, e.l[order[t]], e.piv);
    }
  }

  lemma ProductIndependent(e: Outcome, lmat: seq<set<nat>>, r: nat, order: seq<nat>, pos: seq<nat>, w: set<nat>)
    requires IsArranged(e, lmat, r, order, pos) && w <= Indices(r) && Comb(Product(lmat, e.m), w) == {}
    ensures w == {}
  {
    CombComb(e.m, lmat, Product(lmat, e.m), w);
    forall t | 0 <= t < |lmat| && t in w ensures lmat[t] <= Used(e.piv) {
      ZeroRows(e, lmat, r, order, pos, t);
    }
    CombWithin(lmat, w, Used(e.piv));
    e.UsedIsBasis();
    assert Comb(lmat, w) == {};
    ArrangedIndependent(e, lmat, r, order, pos, w);
  }

  lemma ProductSpans(e: Outcome, lmat: seq<set<nat>>, r: nat, order: seq<nat>, pos: seq<nat>, i: nat)
    requires IsArranged(e, lmat, r, order, pos) && i < |e.m|
    ensures InSpan(e.m[i], Product(lmat, e.m), Indices(r))
  {
    var prod := Product(lmat, e.m);
    ArrangedSpans(e, lmat, r, order, pos, i);
    var w: set<nat> :| w <= Indices(|lmat|) && Comb(lmat, w) == {i};
    CombComb(e.m, lmat, prod, w);
    CombUnit(e.m, i);
    var w1, w2 := w * Indices(r), w - Indices(r);
    assert Xor(w1, w2) == w;
    CombXor(prod, w1, w2);
    forall t | 0 <= t < |prod| && t in w2 ensures prod[t] <= {} {
      ZeroRows(e, lmat, r, order, pos, t);
    }
    CombWithin(prod, w2, {});
    assert Comb(prod, w1) == e.m[i];
  }

  lemma ArrangedIsBasis(e: Outcome, lmat: seq<set<nat>>, r: nat, order: seq<nat>, pos: seq<nat>)
    requires IsArranged(e, lmat, r, order, pos)
    ensures IsSpannedBasis(lmat, e.m, r)
  {
    var prod := Product(lmat, e.m);
    forall w: set<nat> | w <= Indices(r) && Comb(prod, w) == {} ensures w == {} {
      ProductIndependent(e, lmat, r, order, pos, w);
    }
    forall i | 0 <= i < |e.m| ensures InSpan(e.m[i], prod, Indices(r)) {
      ProductSpans(e, lmat, r, order, pos, i);
    }
    forall t | r <= t < |e.m| ensures prod[t] == {} {
      ZeroRows(e, lmat, r, order, pos, t);
    }
  }

  /** Rows below i are placed: the used ones in 0..r, the unused ones in h..n, each at pos. */
  ghost predicate Placed(l: seq<set<nat>>, piv: seq<int>, lmat: seq<set<nat>>, order: seq<nat>, pos: seq<nat>,
                         i: nat, r: nat, h: nat) {
    var n := |l|;
    && |lmat| == |order| == |pos| == n && r + (n - h) == i && r <= h <= n
    && (forall t :: 0 <= t < n && (t < r || h <= t) ==>
          order[t] < i && pos[order[t]] == t && lmat[t] == l[order[t]] && (t < r <==> order[t] in piv))
    && (forall k :: 0 <= k < i ==> pos[k] < n && (pos[k] < r || h <= pos[k]) && order[pos[k]] == k)
  }

  lemma PlaceNext(l: seq<set<nat>>, piv: seq<int>, lmat: seq<set<nat>>, order: seq<nat>, pos: seq<nat>,
                  i: nat, r: nat, h: nat)
    requires Placed(l, piv, lmat, order, pos, i, r, h) && i < |l|
    ensures r < h
    ensures i in piv ==> Placed(l, piv, lmat[r := l[i]], order[r := i], pos[i := r], i + 1, r + 1, h)
    ensures i !in piv ==> Placed(l, piv, lmat[h - 1 := l[i]], order[h - 1 := i], pos[i := h - 1], i + 1, r, h - 1)
  {
  }

  lemma PlacedAll(e: Outcome, lmat: seq<set<nat>>, order: seq<nat>, pos: seq<nat>, r: nat, h: nat)
    requires e.Valid() && Placed(e.l, e.piv, lmat, order, pos, |e.m|, r, h)
    ensures IsArranged(e, lmat, r, order, pos)
  {
  }

  /** Puts in lmat an invertible matrix such that lmat * mat starts with a basis of the row span and ends with zeros. */
  method SpannedBasis(mat: array<Row>, ncols: nat) returns (r: nat, lmat: seq<set<nat>>)
    requires forall i :: 0 <= i < mat.Length ==> mat[i] <= Indices(ncols)
    modifies mat
    ensures IsInvertible(lmat) && IsSpannedBasis(lmat, old(mat[..]), r)
  {
    hide Eliminated, IsInvertible, IsSpannedBasis, Placed;
    var n := mat.Length;
    var lmat2 := new Row[n](i => {i});
    var setPivot, setUsed;
    ghost var l;
    setPivot, setUsed, l := GaussianElimination(mat, lmat2, ncols);
    ghost var e := Outcome(old(mat[..]), mat[..], l, setPivot);
    OutcomeSizes(e);
    lmat := seq(n, _ => {});
    ghost var order: seq<nat>, pos: seq<nat> := seq(n, _ => 0), seq(n, _ => 0);
    r := 0;
    var h := n;
    PlacedNone(l, setPivot, lmat, order, pos);
    for i := 0 to n
      invariant |lmat| == |order| == |pos| == |l| == n == lmat2.Length && lmat2[..] == l
      invariant 0 <= r <= h <= n && Placed(l, setPivot, lmat, order, pos, i, r, h)
      invariant e.Valid()
    {
      PlaceNext(l, setPivot, lmat, order, pos, i, r, h);
      if setUsed[i] {
        lmat := lmat[r := lmat2[i]];
        order, pos := order[r := i], pos[i := r];
        r := r + 1;
      } else {
        h := h - 1;
        lmat := lmat[h := lmat2[i]];
        order, pos := order[h := i], pos[i := h];
      }
    }
    PlacedAll(e, lmat, order, pos, r, h);
    ArrangedInvertible(e, lmat, r, order, pos);
    ArrangedIsBasis(e, lmat, r, order, pos);
  }

  lemma PlacedNone(l: seq<set<nat>>, piv: seq<int>, lmat: seq<set<nat>>, order: seq<nat>, pos: seq<nat>)
    requires |lmat| == |order| == |pos| == |l|
    ensures Placed(l, piv, lmat, order, pos, 0, 0, |l|)
  {
  }
}
