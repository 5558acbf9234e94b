/** filter/merge_mono.c: what a merge does to the rows of a column, and the lines that record it. */
module MergeTree {
  import opened Gf2
  import opened MergeIndex
  import opened History

  // ---------- A merge removes a column and nothing else ----------

  /** The rows of s are replaced: each one but the root has its father added to it, the root is dropped.
      The rank of a father is smaller, so that fathers form a tree. */
  ghost predicate Combines(V: Rowset, V': Rowset, s: set<nat>, root: nat, father: map<nat, nat>, rank: map<nat, nat>) {
    && |V'| == |V| && root in s && father.Keys == s && rank.Keys == s
    && (forall i :: i in s ==> i < |V| && V[i].Some? && V'[i] == CombinedRow(V, root, father, i))
    && (forall i :: i in s && i != root ==> father[i] in s && rank[father[i]] < rank[i])
    && (forall i: nat :: i < |V| && i !in s ==> V'[i] == V[i])
  }

  ghost function CombinedRow(V: Rowset, root: nat, father: map<nat, nat>, i: nat): Option<set<nat>> {
    if i == root || i !in father || i >= |V| || father[i] >= |V| || V[i].None? || V[father[i]].None? then None
    else Some(Xor(V[i].value, V[father[i]].value))
  }

  /** s is the set of the live rows that contain j. */
  ghost predicate RowsWith(V: Rowset, j: nat, s: set<nat>) {
    forall i: nat :: i in s <==> i < |V| && V[i].Some? && j in V[i].value
  }

  ghost predicate ColumnGone(V: Rowset, j: nat) {
    forall i :: 0 <= i < |V| && V[i].Some? ==> j !in V[i].value
  }

  ghost predicate InRowSpan(x: set<nat>, V: Rowset) {
    InSpan(x, Sets(V), Indices(|V|))
  }

  lemma RowInSpan(V: Rowset, i: nat)
    requires i < |V| && V[i].Some?
    ensures InRowSpan(V[i].value, V)
  {
    SpanRow(Sets(V), Indices(|V|), i);
  }

  lemma CombinesGone(V: Rowset, V': Rowset, s: set<nat>, root: nat, father: map<nat, nat>, rank: map<nat, nat>, j: nat)
    requires Combines(V, V', s, root, father, rank) && RowsWith(V, j, s)
    ensures ColumnGone(V', j)
  {
    forall i: nat | i < |V'| && V'[i].Some? ensures j !in V'[i].value {
      if i in s && i != root {
        assert V'[i] == CombinedRow(V, root, father, i);
        assert father[i] in s;
      }
    }
  }

  lemma XorVia(a: set<nat>, b: set<nat>, c: set<nat>)
    ensures Xor(Xor(a, b), Xor(b, c)) == Xor(a, c) && Xor(a, a) == {}
    ensures Xor(Xor(a, b), c) == Xor(Xor(a, c), b) && Xor(a, Xor(b, c)) == Xor(Xor(a, b), c)
    ensures Xor(Xor(a, c), Xor(b, c)) == Xor(a, b)
  {
  }

  /** Every row of a tree is the root plus a sum of new rows. */
  lemma {:induction false} OldRow(V: Rowset, V': Rowset, s: set<nat>, root: nat, father: map<nat, nat>, rank: map<nat, nat>, i: nat)
    requires Combines(V, V', s, root, father, rank) && i in s
    ensures i < |V| && V[i].Some? && root < |V| && V[root].Some? && InRowSpan(Xor(V[i].value, V[root].value), V')
    decreases rank[i]
  {
    hide InSpan, Xor, Sets;
    if i == root {
      SpanEmpty(Sets(V'), Indices(|V'|));
      XorVia(V[i].value, V[i].value, V[i].value);
    } else {
      var f := father[i];
      OldRow(V, V', s, root, father, rank, f);
      assert V'[i] == CombinedRow(V, root, father, i);
      RowInSpan(V', i);
      SpanXor(Sets(V'), Indices(|V'|), V'[i].value, Xor(V[f].value, V[root].value));
      XorVia(V[i].value, V[f].value, V[root].value);
    }
  }

  /** x or x plus the root is in the new span. */
  ghost predicate NearSpan(x: set<nat>, r: set<nat>, V': Rowset) {
    InRowSpan(x, V') || InRowSpan(Xor(x, r), V')
  }

  lemma NearXor(x: set<nat>, y: set<nat>, r: set<nat>, V': Rowset)
    requires NearSpan(x, r, V') && NearSpan(y, r, V')
    ensures NearSpan(Xor(x, y), r, V')
  {
    hide InSpan, Xor, Sets;
    var b := Indices(|V'|);
    var x', y' := if InRowSpan(x, V') then x else Xor(x, r), if InRowSpan(y, V') then y else Xor(y, r);
    SpanXor(Sets(V'), b, x', y');
    XorVia(x, y, r);
    XorVia(x, r, y);
  }

  lemma CombPrefix(m: seq<set<nat>>, w: set<nat>, n: nat)
    requires n < |m|
    ensures Comb(m[..n + 1], w) == Xor(Comb(m[..n], w), if n in w then m[n] else {})
  {
    assert m[..n + 1][..n] == m[..n];
  }

  lemma NearRow(V: Rowset, V': Rowset, s: set<nat>, root: nat, father: map<nat, nat>, rank: map<nat, nat>, i: nat)
    requires Combines(V, V', s, root, father, rank) && i < |V| && root < |V| && V[root].Some?
    ensures NearSpan(Sets(V)[i], V[root].value, V')
  {
    hide InSpan, Xor;
    if V[i].None? {
      SpanEmpty(Sets(V'), Indices(|V'|));
    } else if i in s {
      OldRow(V, V', s, root, father, rank, i);
    } else {
      RowInSpan(V', i);
    }
  }

  lemma {:induction false} NearComb(V: Rowset, V': Rowset, s: set<nat>, root: nat, father: map<nat, nat>, rank: map<nat, nat>,
                                    w: set<nat>, n: nat)
    requires Combines(V, V', s, root, father, rank) && n <= |V| && root < |V| && V[root].Some?
    ensures NearSpan(Comb(Sets(V)[..n], w), V[root].value, V')
    decreases n
  {
    hide InSpan, Xor, Combines;
    SpanEmpty(Sets(V'), Indices(|V'|));
    if n > 0 {
      hide Comb;
      NearComb(V, V', s, root, father, rank, w, n - 1);
      CombPrefix(Sets(V), w, n - 1);
      NearRow(V, V', s, root, father, rank, n - 1);
      NearXor(Comb(Sets(V)[..n - 1], w), if n - 1 in w then Sets(V)[n - 1] else {}, V[root].value, V');
    }
  }

  lemma SpanMisses(V: Rowset, j: nat, x: set<nat>)
    requires ColumnGone(V, j) && InRowSpan(x, V)
    ensures j !in x
  {
    var w: set<nat> :| w <= Indices(|V|) && Comb(Sets(V), w) == x;
    CombMisses(Sets(V), w, j);
  }

  lemma NewRowInOld(V: Rowset, V': Rowset, s: set<nat>, root: nat, father: map<nat, nat>, rank: map<nat, nat>, i: nat)
    requires Combines(V, V', s, root, father, rank) && i < |V'|
    ensures InSpan(Sets(V')[i], Sets(V), Indices(|V|))
  {
    if V'[i].None? {
      SpanEmpty(Sets(V), Indices(|V|));
    } else if i in s {
      assert V'[i] == CombinedRow(V, root, father, i);
      assert father[i] in s;
      RowInSpan(V, i);
      RowInSpan(V, father[i]);
      SpanXor(Sets(V), Indices(|V|), V[i].value, V[father[i]].value);
    } else {
      RowInSpan(V, i);
    }
  }

  lemma {:induction false} CombInOld(V: Rowset, V': Rowset, s: set<nat>, root: nat, father: map<nat, nat>, rank: map<nat, nat>,
                                     w: set<nat>, n: nat)
    requires Combines(V, V', s, root, father, rank) && n <= |V'|
    ensures InRowSpan(Comb(Sets(V')[..n], w), V)
    decreases n
  {
    hide InSpan, Xor, Combines;
    SpanEmpty(Sets(V), Indices(|V|));
    if n > 0 {
      hide Comb;
      CombInOld(V, V', s, root, father, rank, w, n - 1);
      CombPrefix(Sets(V'), w, n - 1);
      NewRowInOld(V, V', s, root, father, rank, n - 1);
      SpanXor(Sets(V), Indices(|V|), Comb(Sets(V')[..n - 1], w), if n - 1 in w then Sets(V')[n - 1] else {});
    }
  }

  /** The new rows span exactly the vectors of the old span that are zero in column j. */
  lemma MergeSpan(V: Rowset, V': Rowset, s: set<nat>, root: nat, father: map<nat, nat>, rank: map<nat, nat>, j: nat, x: set<nat>)
    requires Combines(V, V', s, root, father, rank) && RowsWith(V, j, s)
    ensures InRowSpan(x, V') <==> InRowSpan(x, V) && j !in x
  {
    CombinesGone(V, V', s, root, father, rank, j);
    if InRowSpan(x, V') {
      SpanMisses(V', j, x);
      var w: set<nat> :| w <= Indices(|V'|) && Comb(Sets(V'), w) == x;
      CombInOld(V, V', s, root, father, rank, w, |V'|);
      assert Sets(V')[..|V'|] == Sets(V');
    }
    if InRowSpan(x, V) && j !in x {
      var w: set<nat> :| w <= Indices(|V|) && Comb(Sets(V), w) == x;
      NearComb(V, V', s, root, father, rank, w, |V|);
      assert Sets(V)[..|V|] == Sets(V);
      assert root in s && j in V[root].value;
      if !InRowSpan(x, V') {
        SpanMisses(V', j, Xor(x, V[root].value));
      }
    }
  }

  // ---------- Runs ----------

  /** What a merge for column j does: nothing but the column is lost. */
  ghost predicate ColumnMerged(V: Rowset, V': Rowset, j: nat) {
    ColumnGone(V', j) && forall x: set<nat> :: InRowSpan(x, V') <==> InRowSpan(x, V) && j !in x
  }

  lemma CombinesMerges(V: Rowset, V': Rowset, s: set<nat>, root: nat, father: map<nat, nat>, rank: map<nat, nat>, j: nat)
    requires Combines(V, V', s, root, father, rank) && RowsWith(V, j, s)
    ensures ColumnMerged(V, V', j)
  {
    hide Combines, InRowSpan;
    CombinesGone(V, V', s, root, father, rank, j);
    forall x: set<nat> ensures InRowSpan(x, V') <==> InRowSpan(x, V) && j !in x {
      MergeSpan(V, V', s, root, father, rank, j, x);
    }
  }

  /** The rows that are there */
  ghost function Present(V: Rowset): set<nat> {
    set i: nat | i < |V| && V[i].Some?
  }

  lemma OneFewer(s: set<nat>, i: nat)
    requires i in s
    ensures |s - {i}| == |s| - 1
  {
  }

  /** A combination costs just one row. */
  lemma CombinesPresent(V: Rowset, V': Rowset, s: set<nat>, root: nat, father: map<nat, nat>, rank: map<nat, nat>)
    requires Combines(V, V', s, root, father, rank)
    ensures |Present(V')| == |Present(V)| - 1
  {
    forall i: nat ensures i in Present(V') <==> i in Present(V) - {root} {
      if i in s && i != root {
        assert V'[i] == CombinedRow(V, root, father, i) && father[i] in s;
      }
    }
    OneFewer(Present(V), root);
    assert Present(V') == Present(V) - {root};
  }

  /** Deleting the only row with a column is a merge of one row. */
  lemma SingletonMerges(V: Rowset, V': Rowset, i: nat, j: nat)
    requires i < |V| == |V'| && V[i].Some? && V' == V[i := None] && RowsWith(V, j, {i})
    ensures ColumnMerged(V, V', j) && |Present(V')| == |Present(V)| - 1
  {
    CombinesPresent(V, V', {i}, i, map[i := i], map[i := 0]);
    assert Combines(V, V', {i}, i, map[i := i], map[i := 0]);
    CombinesMerges(V, V', {i}, i, map[i := i], map[i := 0], j);
  }

  /** What a run of merges for the columns of J does: nothing but these columns is lost. */
  ghost predicate ColumnsMerged(V: Rowset, V': Rowset, J: set<nat>) {
    && (forall j :: j in J ==> ColumnGone(V', j))
    && forall x: set<nat> :: InRowSpan(x, V') <==> InRowSpan(x, V) && x !! J
  }

  lemma MergedMore(V: Rowset, V': Rowset, V'': Rowset, J: set<nat>, j: nat)
    requires ColumnsMerged(V, V', J) && ColumnMerged(V', V'', j)
    ensures ColumnsMerged(V, V'', J + {j})
  {
    hide InRowSpan;
    forall x: set<nat> ensures InRowSpan(x, V'') <==> InRowSpan(x, V) && x !! J + {j} {
      assert x !! J + {j} <==> x !! J && j !in x;
    }
    forall k | k in J + {j} ensures ColumnGone(V'', k) {
      forall i: nat | i < |V''| && V''[i].Some? ensures k !in V''[i].value {
        RowInSpan(V'', i);
      }
    }
  }

  lemma NoneMerged(V: Rowset)
    ensures ColumnsMerged(V, V, {})
  {
  }

  /** Every row is as before, or gone. */
  ghost predicate RowsKept<T>(rows: seq<Option<T>>, rows': seq<Option<T>>) {
    |rows'| == |rows| && forall i :: 0 <= i < |rows| ==> rows'[i] == rows[i] || rows'[i].None?
  }

  lemma KeptTwice<T>(a: seq<Option<T>>, b: seq<Option<T>>, c: seq<Option<T>>)
    requires RowsKept(a, b) && RowsKept(b, c)
    ensures RowsKept(a, c)
  {
  }
}
