/** filter/merge_mono.c: what deleting rows costs, before and between merges. */
module LostRows {
  import opened Gf2
  import opened MergeIndex
  import opened History
  import opened MergeTree

  // ---------- What deletions cost ----------

  /** From V to V' the columns of J were merged and some rows were deleted. With one more row for each of them, none of which
      has a column of J, the span is exactly that of V without these columns. Every merged column costs one row. */
  ghost predicate MergedBut(V: Rowset, V': Rowset, J: set<nat>, lost: seq<set<nat>>) {
    && ColumnsMerged(V, WithRows(V', lost), J)
    && |Present(V')| + |J| + |lost| == |Present(V)|
  }

  ghost function WithRows(V: Rowset, lost: seq<set<nat>>): (r: Rowset)
    ensures |r| == |V| + |lost|
  {
    V + seq(|lost|, k requires 0 <= k < |lost| => Some(lost[k]))
  }

  lemma WithNone(V: Rowset)
    ensures WithRows(V, []) == V
  {
  }

  lemma WithMore(V: Rowset, lost: seq<set<nat>>, d: set<nat>)
    ensures WithRows(V, lost + [d]) == WithRows(V, lost) + [Some(d)]
  {
  }

  lemma {:induction false} CombOfRows(V: Rowset, W: Rowset, w: set<nat>, n: nat)
    requires n <= |V| && forall i: nat :: i < |V| && V[i].Some? ==> InRowSpan(V[i].value, W)
    ensures InRowSpan(Comb(Sets(V)[..n], w), W)
    decreases n
  {
    hide InSpan, Xor;
    SpanEmpty(Sets(W), Indices(|W|));
    if n > 0 {
      hide Comb;
      CombOfRows(V, W, w, n - 1);
      CombPrefix(Sets(V), w, n - 1);
      SpanXor(Sets(W), Indices(|W|), Comb(Sets(V)[..n - 1], w), if n - 1 in w then Sets(V)[n - 1] else {});
    }
  }

  lemma SpanOfRows(V: Rowset, W: Rowset, x: set<nat>)
    requires InRowSpan(x, V) && forall i: nat :: i < |V| && V[i].Some? ==> InRowSpan(V[i].value, W)
    ensures InRowSpan(x, W)
  {
    var w: set<nat> :| w <= Indices(|V|) && Comb(Sets(V), w) == x;
    assert Sets(V)[..|V|] == Sets(V);
    CombOfRows(V, W, w, |V|);
  }

  /** Only which rows there are matters for the span. */
  lemma SameSpan(V: Rowset, W: Rowset, x: set<nat>)
    requires forall r: set<nat> :: Some(r) in V <==> Some(r) in W
    ensures InRowSpan(x, V) <==> InRowSpan(x, W)
  {
    RowsInSpan(V, W);
    RowsInSpan(W, V);
    if InRowSpan(x, V) {
      SpanOfRows(V, W, x);
    }
    if InRowSpan(x, W) {
      SpanOfRows(W, V, x);
    }
  }

  lemma RowsInSpan(V: Rowset, W: Rowset)
    requires forall r: set<nat> :: Some(r) in V ==> Some(r) in W
    ensures forall i: nat :: i < |V| && V[i].Some? ==> InRowSpan(V[i].value, W)
  {
    hide InRowSpan;
    forall i: nat | i < |V| && V[i].Some? ensures InRowSpan(V[i].value, W) {
      assert Some(V[i].value) in V;
      var k :| 0 <= k < |W| && W[k] == Some(V[i].value);
      RowInSpan(W, k);
    }
  }

  /** The span with one more row */
  lemma OneMoreRow(U: Rowset, d: set<nat>, x: set<nat>)
    ensures InRowSpan(x, U + [Some(d)]) <==> InRowSpan(x, U) || InRowSpan(Xor(x, d), U)
  {
    hide Xor;
    var W, n := U + [Some(d)], |U|;
    assert Sets(W)[..n] == Sets(U) && Sets(W)[n] == d;
    if InRowSpan(x, W) {
      var w: set<nat> :| w <= Indices(n + 1) && Comb(Sets(W), w) == x;
      CombAgree(Sets(U), w, w - {n});
      assert w - {n} <= Indices(n);
      assert InRowSpan(Comb(Sets(U), w), U);
      XorBack(Comb(Sets(U), w), d);
    }
    OldSpan(U, d);
    if InRowSpan(x, U) {
      SpanOfRows(U, W, x);
    }
    if InRowSpan(Xor(x, d), U) {
      SpanOfRows(U, W, Xor(x, d));
      RowInSpan(W, n);
      SpanXor(Sets(W), Indices(n + 1), Xor(x, d), d);
      XorBack(x, d);
    }
  }

  lemma OldSpan(U: Rowset, d: set<nat>)
    ensures forall i: nat :: i < |U| && U[i].Some? ==> InRowSpan(U[i].value, U + [Some(d)])
  {
    hide InRowSpan;
    forall i: nat | i < |U| && U[i].Some? ensures InRowSpan(U[i].value, U + [Some(d)]) {
      RowInSpan(U + [Some(d)], i);
    }
  }

  lemma XorBack(a: set<nat>, d: set<nat>)
    ensures Xor(Xor(a, d), d) == a && Xor(a, {}) == a
  {
  }

  // ---------- A deleted row during later merges ----------

  /** The row that takes the place of d when the columns of J are merged: d plus a sum of the other rows that cancels these
      columns, if there is one. */
  ghost function Cleaned(U: Rowset, J: set<nat>, d: set<nat>): set<nat> {
    if u: set<nat> :| InRowSpan(u, U) && Xor(u, d) !! J then Xor(u, d) else {}
  }

  lemma CleanedMerged(U: Rowset, U': Rowset, J: set<nat>, d: set<nat>)
    requires ColumnsMerged(U, U', J)
    ensures ColumnsMerged(U + [Some(d)], U' + [Some(Cleaned(U, J, d))], J)
  {
    hide InRowSpan, Xor;
    var d' := Cleaned(U, J, d);
    var W, W' := U + [Some(d)], U' + [Some(d')];
    assert d' !! J;
    assert forall j :: j in J ==> ColumnGone(W', j);
    forall x: set<nat> ensures InRowSpan(x, W') <==> InRowSpan(x, W) && x !! J {
      OneMoreRow(U, d, x);
      OneMoreRow(U', d', x);
      if InRowSpan(x, W') {
        CleanedIn(U, U', J, d, x);
      }
      if InRowSpan(x, W) && x !! J {
        CleanedOut(U, U', J, d, x);
      }
    }
  }

  lemma CleanedIn(U: Rowset, U': Rowset, J: set<nat>, d: set<nat>, x: set<nat>)
    requires ColumnsMerged(U, U', J) && (InRowSpan(x, U') || InRowSpan(Xor(x, Cleaned(U, J, d)), U'))
    ensures x !! J && (InRowSpan(x, U) || InRowSpan(Xor(x, d), U))
  {
    hide InRowSpan, ColumnGone;
    var d' := Cleaned(U, J, d);
    if !InRowSpan(x, U') {
      XorBack(x, d');
      Disjoint(Xor(x, d'), d', J);
      var u: set<nat> :| InRowSpan(u, U) && Xor(u, d) !! J && d' == Xor(u, d);
      SpanSum(U, Xor(x, d'), u);
      XorShift(x, u, d);
    }
  }

  lemma CleanedOut(U: Rowset, U': Rowset, J: set<nat>, d: set<nat>, x: set<nat>)
    requires ColumnsMerged(U, U', J) && x !! J && (InRowSpan(x, U) || InRowSpan(Xor(x, d), U))
    ensures InRowSpan(x, U') || InRowSpan(Xor(x, Cleaned(U, J, d)), U')
  {
    hide InRowSpan, ColumnGone;
    var d' := Cleaned(U, J, d);
    if !InRowSpan(x, U) {
      XorBack(x, d);
      assert InRowSpan(Xor(x, d), U) && Xor(Xor(x, d), d) !! J;
      var u: set<nat> :| InRowSpan(u, U) && Xor(u, d) !! J && d' == Xor(u, d);
      SpanSum(U, Xor(x, d), u);
      XorShift(x, d, u);
      Disjoint(x, d', J);
    }
  }

  lemma SpanSum(U: Rowset, x: set<nat>, y: set<nat>)
    requires InRowSpan(x, U) && InRowSpan(y, U)
    ensures InRowSpan(Xor(x, y), U)
  {
    SpanXor(Sets(U), Indices(|U|), x, y);
  }

  lemma XorShift(x: set<nat>, u: set<nat>, d: set<nat>)
    ensures Xor(Xor(x, Xor(u, d)), u) == Xor(x, d)
    ensures Xor(Xor(x, u), d) == Xor(x, Xor(d, u)) == Xor(x, Xor(u, d))
  {
  }

  lemma Disjoint(x: set<nat>, y: set<nat>, J: set<nat>)
    requires x !! J && y !! J
    ensures Xor(x, y) !! J
  {
  }

  lemma {:induction false} LostMerged(U: Rowset, U': Rowset, J: set<nat>, lost: seq<set<nat>>) returns (lost': seq<set<nat>>)
    requires ColumnsMerged(U, U', J)
    ensures |lost'| == |lost| && ColumnsMerged(WithRows(U, lost), WithRows(U', lost'), J)
    decreases |lost|
  {
    hide ColumnsMerged;
    if lost == [] {
      lost' := [];
      WithNone(U);
      WithNone(U');
    } else {
      var k := |lost| - 1;
      lost' := LostMerged(U, U', J, lost[..k]);
      var W, W', d := WithRows(U, lost[..k]), WithRows(U', lost'), lost[k];
      CleanedMerged(W, W', J, d);
      WithMore(U, lost[..k], d);
      assert lost == lost[..k] + [d];
      WithMore(U', lost', Cleaned(W, J, d));
      lost' := lost' + [Cleaned(W, J, d)];
    }
  }

  lemma MergedTwice(V: Rowset, V': Rowset, V'': Rowset, J: set<nat>, K: set<nat>)
    requires ColumnsMerged(V, V', J) && ColumnsMerged(V', V'', K)
    ensures ColumnsMerged(V, V'', J + K)
  {
    hide InRowSpan;
    forall x: set<nat> ensures InRowSpan(x, V'') <==> InRowSpan(x, V) && x !! J + K {
      assert x !! J + K <==> x !! J && x !! K;
    }
    forall k | k in J + K ensures ColumnGone(V'', k) {
      forall i: nat | i < |V''| && V''[i].Some? ensures k !in V''[i].value {
        RowInSpan(V'', i);
      }
    }
  }

  /** Merges after the deletions */
  lemma ThenMerged(V: Rowset, V': Rowset, V'': Rowset, J: set<nat>, K: set<nat>, lost: seq<set<nat>>) returns (lost': seq<set<nat>>)
    requires MergedBut(V, V', J, lost) && ColumnsMerged(V', V'', K) && J !! K && |Present(V'')| + |K| == |Present(V')|
    ensures MergedBut(V, V'', J + K, lost') && |lost'| == |lost|
  {
    hide ColumnsMerged;
    lost' := LostMerged(V', V'', K, lost);
    MergedTwice(V, WithRows(V', lost), WithRows(V'', lost'), J, K);
  }

  /** One more row is deleted. */
  lemma ThenDeleted(V: Rowset, V': Rowset, J: set<nat>, lost: seq<set<nat>>, i: nat)
    requires MergedBut(V, V', J, lost) && i < |V'| && V'[i].Some?
    ensures MergedBut(V, V'[i := None], J, lost + [V'[i].value])
  {
    hide InRowSpan;
    var W, W' := WithRows(V', lost), WithRows(V'[i := None], lost + [V'[i].value]);
    SameRowsAgain(V', lost, i);
    forall x: set<nat> ensures InRowSpan(x, W') <==> InRowSpan(x, W) {
      SameSpan(W', W, x);
    }
    forall j | j in J ensures ColumnGone(W', j) {
      forall k: nat | k < |W'| && W'[k].Some? ensures j !in W'[k].value {
        assert Some(W'[k].value) in W';
      }
    }
    OneFewer(Present(V'), i);
    assert Present(V'[i := None]) == Present(V') - {i};
  }

  lemma SameRowsAgain(V: Rowset, lost: seq<set<nat>>, i: nat)
    requires i < |V| && V[i].Some?
    ensures var W, W' := WithRows(V, lost), WithRows(V[i := None], lost + [V[i].value]);
      forall r: set<nat> :: Some(r) in W' <==> Some(r) in W
  {
    var W, W' := WithRows(V, lost), WithRows(V[i := None], lost + [V[i].value]);
    forall r: set<nat> | Some(r) in W' ensures Some(r) in W {
      var k :| 0 <= k < |W'| && W'[k] == Some(r);
      assert W[if k == |W| then i else k] == Some(r);
    }
    forall r: set<nat> | Some(r) in W ensures Some(r) in W' {
      var k :| 0 <= k < |W| && W[k] == Some(r);
      assert W'[if k == i then |W| else k] == Some(r);
    }
  }

  lemma NothingLost(V: Rowset)
    ensures MergedBut(V, V, {}, [])
  {
    WithNone(V);
    NoneMerged(V);
  }
}
