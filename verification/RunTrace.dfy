/** filter/merge_mono.c, mergeOneByOne: what each step of a run does to the rows, the index and the history. */
module RunTrace {
  import opened MergeIndex
  import opened SparseRows
  import opened History
  import opened MergeTree
  import opened FilterMatrix
  import opened MergeColumn

  // ---------- Rows that are deleted with a line each ----------

  function WithoutRows(rows: seq<Option<seq<nat>>>, del: seq<nat>): (r: seq<Option<seq<nat>>>)
    ensures |r| == |rows|
  {
    seq(|rows|, i requires 0 <= i < |rows| => if i in del then None else rows[i])
  }

  function Singles(del: seq<nat>): seq<seq<int>> {
    seq(|del|, k requires 0 <= k < |del| => [del[k]])
  }

  /** The rows of del are there, and no row is twice in del. */
  ghost predicate Deletable(rows: seq<Option<seq<nat>>>, del: seq<nat>) {
    && (forall k :: 0 <= k < |del| ==> del[k] < |rows| && rows[del[k]].Some?)
    && forall k, l :: 0 <= k < l < |del| ==> del[k] != del[l]
  }

  /** The rows of del are deleted in this order. */
  ghost predicate Removed(s: Snapshot, s': Snapshot, del: seq<nat>) {
    && Deletable(s.rows, del) && s'.rows == WithoutRows(s.rows, del) && s'.lines == s.lines + Singles(del)
    && s'.rem_nrows == s.rem_nrows - |del| && s'.rem_ncols == s.rem_ncols
  }

  lemma RemovedNone(s: Snapshot)
    ensures Removed(s, s, [])
  {
  }

  lemma RemovedMore(s: Snapshot, s1: Snapshot, s2: Snapshot, del: seq<nat>, i: nat)
    requires Removed(s, s1, del) && i < |s1.rows| && s1.rows[i].Some? && s2.rows == s1.rows[i := None]
    requires s2.lines == s1.lines + [[i]] && s2.rem_nrows == s1.rem_nrows - 1 && s2.rem_ncols == s1.rem_ncols
    ensures Removed(s, s2, del + [i])
  {
    assert i !in del;
    assert Singles(del + [i]) == Singles(del) + [[i]];
    assert WithoutRows(s.rows, del + [i]) == WithoutRows(s.rows, del)[i := None];
  }

  lemma {:induction false} RemovedCount(rows: seq<Option<seq<nat>>>, del: seq<nat>)
    requires Deletable(rows, del)
    ensures |Present(Values(WithoutRows(rows, del)))| == |Present(Values(rows))| - |del|
    decreases |del|
  {
    if del == [] {
      assert WithoutRows(rows, del) == rows;
    } else {
      var k := |del| - 1;
      var i, r := del[k], WithoutRows(rows, del[..k]);
      RemovedCount(rows, del[..k]);
      assert del == del[..k] + [i] && i !in del[..k];
      assert WithoutRows(rows, del) == r[i := None];
      assert Present(Values(r[i := None])) == Present(Values(r)) - {i};
      OneFewer(Present(Values(r)), i);
    }
  }

  // ---------- deleteSuperfluousRows ----------

  /** The rows of tmp from place k on that are there, the last one first */
  function Met(rows: seq<Option<seq<nat>>>, tmp: seq<nat>, k: nat): seq<nat>
    decreases |tmp| - k
  {
    if k >= |tmp| then [] else
      var del := Met(rows, tmp, k + 1);
      if tmp[k] < |rows| && rows[tmp[k]].Some? && tmp[k] !in del then del + [tmp[k]] else del
  }

  lemma {:induction false} MetHas(rows: seq<Option<seq<nat>>>, tmp: seq<nat>, k: nat)
    ensures forall l :: k <= l < |tmp| && tmp[l] < |rows| && rows[tmp[l]].Some? ==> tmp[l] in Met(rows, tmp, k)
    ensures forall x :: x in Met(rows, tmp, k) ==> x in tmp
    decreases |tmp| - k
  {
    if k < |tmp| {
      MetHas(rows, tmp, k + 1);
    }
  }

  /** The rows met up to place k are deleted. The deletions end when there are n of them, when the excess is at most keep, or
      when all rows of tmp are done, and not before. */
  ghost predicate SuperfluousTo(s: Snapshot, s': Snapshot, tmp: seq<nat>, n: int, keep: int, k: nat) {
    var del := Met(s.rows, tmp, k);
    && Removed(s, s', del) && (del == [] || (|del| <= n && s'.Excess() >= keep))
    && (|del| >= n || s'.Excess() <= keep || k == 0)
  }

  ghost predicate DidSuperfluous(s: Snapshot, s': Snapshot, tmp: seq<nat>, n: int, keep: int) {
    exists k: nat :: SuperfluousTo(s, s', tmp, n, keep, k)
  }

  /** What this means: either n rows went, or the excess is at most keep, or all rows of tmp are gone; only rows of tmp went. */
  lemma SuperfluousMeans(s: Snapshot, s': Snapshot, tmp: seq<nat>, n: int, keep: int)
    requires DidSuperfluous(s, s', tmp, n, keep)
    ensures s'.Count() == s.Count() - (s.rem_nrows - s'.rem_nrows) && |s'.rows| == |s.rows|
    ensures s.rem_nrows - s'.rem_nrows >= n || s'.Excess() <= keep || forall i :: i in tmp && i < |s.rows| ==> s'.rows[i].None?
    ensures s.rem_nrows == s'.rem_nrows || (s.rem_nrows - s'.rem_nrows <= n && s'.Excess() >= keep)
    ensures forall i: nat :: i < |s.rows| && i !in tmp ==> s'.rows[i] == s.rows[i]
  {
    hide Present;
    var k: nat :| SuperfluousTo(s, s', tmp, n, keep, k);
    var del := Met(s.rows, tmp, k);
    RemovedCount(s.rows, del);
    MetHas(s.rows, tmp, k);
    if k == 0 {
      forall i | i in tmp && i < |s.rows| ensures s'.rows[i].None? {
        var l :| 0 <= l < |tmp| && tmp[l] == i;
        assert s.rows[i].Some? ==> tmp[l] in del;
      }
    }
  }

  // ---------- inspectRowWeight ----------

  /** The rows before k that have more than rwmax entries */
  function LongRows(rows: seq<Option<seq<nat>>>, rwmax: nat, k: nat): seq<nat>
    requires k <= |rows|
  {
    if k == 0 then [] else
      LongRows(rows, rwmax, k - 1) + if rows[k - 1].Some? && |rows[k - 1].value| > rwmax then [k - 1] else []
  }

  lemma {:induction false} LongHas(rows: seq<Option<seq<nat>>>, rwmax: nat, k: nat)
    requires k <= |rows|
    ensures forall i: nat :: i in LongRows(rows, rwmax, k) <==> i < k && rows[i].Some? && |rows[i].value| > rwmax
    decreases k
  {
    if k > 0 {
      LongHas(rows, rwmax, k - 1);
    }
  }

  lemma LongNext(rows: seq<Option<seq<nat>>>, rwmax: nat, k: nat)
    requires k < |rows|
    ensures LongRows(rows, rwmax, k + 1)
         == if rows[k].Some? && |rows[k].value| > rwmax then LongRows(rows, rwmax, k) + [k] else LongRows(rows, rwmax, k)
    ensures k !in LongRows(rows, rwmax, k)
  {
    LongHas(rows, rwmax, k);
  }

  /** The long rows before k are deleted, 129 at most. With ended, the excess was at most keep at row k, and the call is over. */
  ghost predicate LongTo(s: Snapshot, s': Snapshot, keep: int, rwmax: nat, ended: bool, k: nat) {
    && k <= |s.rows|
    && var del := LongRows(s.rows, rwmax, k);
      && Removed(s, s', del) && |del| <= 129 && (del == [] || s'.Excess() >= keep)
      && if ended then k < |s.rows| && |del| < 129 && s'.Excess() <= keep else k == |s.rows| || |del| == 129
  }

  ghost predicate DidLong(s: Snapshot, s': Snapshot, keep: int, rwmax: nat, ended: bool) {
    exists k: nat :: LongTo(s, s', keep, rwmax, ended, k)
  }

  /** All columns of the row are heavy. */
  ghost predicate AllHeavy(row: seq<nat>, wt: seq<int>) {
    forall j :: j in row ==> j < |wt| && wt[j] < 0
  }

  /** The rows that are not useless */
  ghost function UsefulRows(rows: seq<Option<seq<nat>>>, wt: seq<int>): seq<Option<seq<nat>>> {
    seq(|rows|, i requires 0 <= i < |rows| => if rows[i].Some? && AllHeavy(rows[i].value, wt) then None else rows[i])
  }

  /** The useless rows are dropped without a line; they still count in rem_nrows. */
  ghost predicate DidDrop(s: Snapshot, s': Snapshot) {
    s'.rows == UsefulRows(s.rows, s.ix.wt) && s'.lines == s.lines && s'.rem_nrows == s.rem_nrows && s'.rem_ncols == s.rem_ncols
  }

  /** First the long rows, and then, unless the call is over, the useless ones */
  ghost predicate InspectVia(s: Snapshot, mid: Snapshot, s': Snapshot, keep: int, rwmax: nat, ended: bool) {
    DidLong(s, mid, keep, rwmax, ended) && if ended then s' == mid else DidDrop(mid, s')
  }

  ghost predicate DidInspect(s: Snapshot, s': Snapshot, keep: int, rwmax: nat) {
    exists mid: Snapshot, ended: bool :: InspectVia(s, mid, s', keep, rwmax, ended)
  }

  /** What this means: unless the excess is at most keep or 129 rows went, no long row is left; a row that went was long or
      had only heavy columns. */
  lemma InspectMeans(s: Snapshot, s': Snapshot, keep: int, rwmax: nat)
    requires DidInspect(s, s', keep, rwmax)
    ensures |s'.rows| == |s.rows| && s.rem_nrows - s'.rem_nrows <= 129 && s'.rem_ncols == s.rem_ncols
    ensures s'.Excess() <= keep || s.rem_nrows - s'.rem_nrows == 129 ||
      forall i: nat :: i < |s.rows| && s'.rows[i].Some? ==> |s'.rows[i].value| <= rwmax
    ensures s.rem_nrows == s'.rem_nrows || s'.Excess() >= keep
    ensures forall i: nat :: i < |s.rows| ==> s'.rows[i] == s.rows[i] || s'.rows[i].None?
  {
    hide AllHeavy;
    var mid: Snapshot, ended: bool :| InspectVia(s, mid, s', keep, rwmax, ended);
    LongMeans(s, mid, keep, rwmax, ended);
  }

  lemma LongMeans(s: Snapshot, s': Snapshot, keep: int, rwmax: nat, ended: bool)
    requires DidLong(s, s', keep, rwmax, ended)
    ensures |s'.rows| == |s.rows| && s.rem_nrows - s'.rem_nrows <= 129 && s'.rem_ncols == s.rem_ncols
    ensures s'.Count() == s.Count() - (s.rem_nrows - s'.rem_nrows)
    ensures s'.Excess() <= keep || s.rem_nrows - s'.rem_nrows == 129 ||
      forall i: nat :: i < |s.rows| && s'.rows[i].Some? ==> |s'.rows[i].value| <= rwmax
    ensures s.rem_nrows == s'.rem_nrows || s'.Excess() >= keep
    ensures forall i: nat :: i < |s.rows| ==>
      s'.rows[i] == s.rows[i] || (s'.rows[i].None? && s.rows[i].Some? && |s.rows[i].value| > rwmax)
  {
    hide Present;
    var k: nat :| LongTo(s, s', keep, rwmax, ended, k);
    RemovedCount(s.rows, LongRows(s.rows, rwmax, k));
    LongHas(s.rows, rwmax, k);
  }

  // ---------- Merges ----------

  /** m is the least weight of a column that is followed. */
  predicate LeastWeight(ix: Index, m: nat) {
    |ix.S| == ix.cwmax + 2 && 1 <= m <= ix.cwmax && ix.S[m] != [] && forall w :: 1 <= w < m ==> ix.S[w] == []
  }

  /** doOneMerge: the columns of K are merged, all singletons, all columns of weight 2 (or maxdo of them), or one column. */
  ghost predicate DidMerge(s: Snapshot, s': Snapshot, m: nat, maxdo: int, useMST: bool, K: set<nat>) {
    && LeastWeight(s.ix, m) && |s'.ix.S| == |s.ix.S| && |s'.rows| == |s.rows|
    && Merges(Values(s.rows), Values(s'.rows), s.ix, s'.ix, K) && K != {} && Extends(s.lines, s'.lines, m)
    && s'.rem_nrows == s.rem_nrows - |K| && s'.rem_ncols == s.rem_ncols - |K|
    && (if m >= 3 then K == {s.ix.S[m][0]}
        else if m == 2 && maxdo > 0 then |K| <= maxdo && (|K| == maxdo || s'.ix.S[m] == [])
        else s'.ix.S[m] == [])
    && MergedFrom(s, s', m, useMST, K)
  }

  /** How the rows and lines come about: singletons go with their rows, which have a line each; the other columns are merged
      one after the other. */
  ghost predicate MergedFrom(s: Snapshot, s': Snapshot, m: nat, useMST: bool, K: set<nat>) {
    if m == 1 then RowsKept(s.rows, s'.rows) && LinesFor(s.lines, s'.lines, GoneRows(s.rows, s'.rows))
    else if m == 2 then exists states: seq<Snapshot> :: ColumnTurns(states, m, K) && states[0] == s && states[|K|] == s'
    else ColumnTurn(s, s', m, useMST)
  }

  /** deleteEmptyColumns */
  ghost predicate DidEmpty(s: Snapshot, s': Snapshot) {
    && s'.rows == s.rows && s'.lines == s.lines && s'.rem_nrows == s.rem_nrows
    && |s'.ix.S| == |s.ix.S| >= 1 && s'.ix.S[0] == [] && (forall w :: 1 <= w < |s.ix.S| ==> s'.ix.S[w] == s.ix.S[w])
    && s'.rem_ncols == s.rem_ncols - |s.ix.S[0]| && OneWay(s.ix, s'.ix) && Followed(s'.ix.A) <= Followed(s.ix.A)
  }

  ghost predicate MergeVia(s: Snapshot, mid: Snapshot, s': Snapshot, m: nat, K: set<nat>) {
    DidMerge(s, mid, m, 0, true, K) && DidEmpty(mid, s')
  }

  // ---------- Runs ----------

  /** Deletions of rows, as the costs and the order of the rows by weight decide */
  datatype Deletion = Superfluous(tmp: seq<nat>, niremmax: int) | Inspect

  /** What is deleted at the end of a round, and whether the run stops there */
  datatype Round = Round(deletions: seq<Deletion>, stop: bool)

  /** A step of a run: merges for the weight m, or deletions */
  datatype Act = MergeAct(m: nat) | DeleteAct(d: Deletion)

  ghost predicate Did(s: Snapshot, a: Act, s': Snapshot, keep: int, rwmax: nat) {
    match a
    case MergeAct(m) => exists mid: Snapshot, K: set<nat> :: MergeVia(s, mid, s', m, K)
    case DeleteAct(Superfluous(tmp, n)) => DidSuperfluous(s, s', tmp, n, keep)
    case DeleteAct(Inspect) => DidInspect(s, s', keep, rwmax)
  }

  function Deletes(d: seq<Deletion>): seq<Act> {
    seq(|d|, k requires 0 <= k < |d| => DeleteAct(d[k]))
  }

  /** The steps of the rounds for the weights in ms */
  function Acts(ms: seq<nat>, rounds: nat -> Round): seq<Act>
    decreases |ms|
  {
    if ms == [] then [] else
      var k := |ms| - 1;
      Acts(ms[..k], rounds) + [MergeAct(ms[k])] + Deletes(rounds(k).deletions)
  }

  /** The steps of a run, and the states before, between and after them */
  datatype Run = Run(states: seq<Snapshot>, acts: seq<Act>) {
    ghost predicate Follows(keep: int, rwmax: nat) {
      |states| == |acts| + 1 && forall k :: 0 <= k < |acts| ==> Did(states[k], acts[k], states[k + 1], keep, rwmax)
    }

    function Then(a: Act, s: Snapshot): Run {
      Run(states + [s], acts + [a])
    }

    lemma FollowsMore(a: Act, s: Snapshot, keep: int, rwmax: nat)
      requires Follows(keep, rwmax) && Did(states[|acts|], a, s, keep, rwmax)
      ensures Then(a, s).Follows(keep, rwmax)
    {
      hide Did;
      var r := Then(a, s);
      forall k | 0 <= k < |r.acts| ensures Did(r.states[k], r.acts[k], r.states[k + 1], keep, rwmax) {
        assert k < |acts| ==> Did(states[k], acts[k], states[k + 1], keep, rwmax);
      }
    }
  }

  /** How many rows the deletions among the first n steps take */
  ghost function RowsLost(run: Run, n: nat): int
    requires n <= |run.acts| && |run.states| == |run.acts| + 1
  {
    if n == 0 then 0 else
      RowsLost(run, n - 1) + if run.acts[n - 1].DeleteAct? then run.states[n - 1].Count() - run.states[n].Count() else 0
  }

  lemma {:induction false} LostSame(run: Run, a: Act, s: Snapshot, n: nat)
    requires n <= |run.acts| && |run.states| == |run.acts| + 1
    ensures RowsLost(run.Then(a, s), n) == RowsLost(run, n)
    decreases n
  {
    if n > 0 {
      LostSame(run, a, s, n - 1);
    }
  }

  lemma LostMore(run: Run, a: Act, s: Snapshot)
    requires |run.states| == |run.acts| + 1
    ensures var n := |run.acts|;
      RowsLost(run.Then(a, s), n + 1) == RowsLost(run, n) + if a.DeleteAct? then run.states[n].Count() - s.Count() else 0
  {
    LostSame(run, a, s, |run.acts|);
  }

  /** The run has led to the state now, and its deletions have taken as many rows as are in lost. */
  ghost predicate Traced(run: Run, now: Snapshot, lost: seq<set<nat>>, keep: int, rwmax: nat) {
    run.Follows(keep, rwmax) && run.states[|run.acts|] == now && |lost| == RowsLost(run, |run.acts|)
  }

  lemma TraceStart(now: Snapshot, keep: int, rwmax: nat)
    ensures Traced(Run([now], []), now, [], keep, rwmax)
  {
  }

  lemma TraceMore(run: Run, now: Snapshot, lost: seq<set<nat>>, a: Act, now': Snapshot, lost': seq<set<nat>>, keep: int, rwmax: nat)
    requires Traced(run, now, lost, keep, rwmax) && Did(now, a, now', keep, rwmax)
    requires |lost'| == |lost| + if a.DeleteAct? then now.Count() - now'.Count() else 0
    ensures Traced(run.Then(a, now'), now', lost', keep, rwmax)
    ensures run.states <= run.Then(a, now').states && run.Then(a, now').acts == run.acts + [a]
  {
    hide Did;
    run.FollowsMore(a, now', keep, rwmax);
    LostMore(run, a, now');
  }

  lemma TraceMerge(run: Run, now: Snapshot, lost: seq<set<nat>>, m: nat, K: set<nat>, mid: Snapshot, now': Snapshot, lost': seq<set<nat>>,
                   keep: int, rwmax: nat)
    requires Traced(run, now, lost, keep, rwmax) && DidMerge(now, mid, m, 0, true, K) && DidEmpty(mid, now') && |lost'| == |lost|
    ensures Traced(run.Then(MergeAct(m), now'), now', lost', keep, rwmax)
    ensures run.states <= run.Then(MergeAct(m), now').states && run.Then(MergeAct(m), now').acts == run.acts + [MergeAct(m)]
  {
    hide Traced, DidMerge, DidEmpty;
    assert MergeVia(now, mid, now', m, K);
    TraceMore(run, now, lost, MergeAct(m), now', lost', keep, rwmax);
  }

  lemma DeletesMore(d: seq<Deletion>, k: nat)
    requires k < |d|
    ensures Deletes(d[..k + 1]) == Deletes(d[..k]) + [DeleteAct(d[k])]
  {
  }

  lemma ActsMore(ms: seq<nat>, m: nat, rounds: nat -> Round)
    ensures Acts(ms + [m], rounds) == Acts(ms, rounds) + [MergeAct(m)] + Deletes(rounds(|ms|).deletions)
  {
    assert (ms + [m])[..|ms|] == ms;
  }

  /** No column of a weight up to maxlevel is left. */
  predicate NoMergeLeft(ix: Index, maxlevel: int) {
    forall w :: 1 <= w <= ix.cwmax && w <= maxlevel && w < |ix.S| ==> ix.S[w] == []
  }

  /** What a whole run is: rounds for the weights in ms up to maxlevel, then the deletions at the end. It stops at the end of the
      first round that says so, or when there is nothing left to merge. */
  ghost predicate WholeRun(run: Run, ms: seq<nat>, rounds: nat -> Round, last: seq<Deletion>, maxlevel: int, keep: int, rwmax: nat) {
    && run.Follows(keep, rwmax) && run.acts == Acts(ms, rounds) + Deletes(last)
    && (forall k :: 0 <= k < |ms| ==> ms[k] <= maxlevel) && (forall k :: 0 <= k < |ms| - 1 ==> !rounds(k).stop)
    && ((|ms| > 0 && rounds(|ms| - 1).stop) || NoMergeLeft(run.states[|Acts(ms, rounds)|].ix, maxlevel))
  }
}
