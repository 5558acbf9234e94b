/** filter/replay.c: from the lists of old rows to the rows of the small matrix. */
module SmallMatrix {
  import opened Gf2
  import opened SparseRows
  import opened MergeIndex
  import opened History

  type Lists = seq<Option<seq<nat>>>

  // ---------- newrows and oldrows ----------

  /** The number of the new row that row i becomes, if it is there: how many rows before it are there */
  function Rank(newrows: Lists, i: nat): nat
    requires i <= |newrows|
  {
    if i == 0 then 0 else Rank(newrows, i - 1) + if newrows[i - 1].Some? then 1 else 0
  }

  lemma {:induction false} RankGrows(newrows: Lists, i: nat, k: nat)
    requires i < k <= |newrows|
    ensures Rank(newrows, i) <= Rank(newrows, k) && (newrows[i].Some? ==> Rank(newrows, i) < Rank(newrows, k))
    decreases k
  {
    if i < k - 1 {
      RankGrows(newrows, i, k - 1);
    }
  }

  lemma RankDiffers(newrows: Lists, i: nat, k: nat)
    requires i < |newrows| && k < |newrows| && newrows[i].Some? && newrows[k].Some?
    ensures Rank(newrows, i) == Rank(newrows, k) <==> i == k
  {
    if i < k {
      RankGrows(newrows, i, k);
    } else if k < i {
      RankGrows(newrows, k, i);
    }
  }

  /** The new rows among the first i to which the old row ind belongs */
  function Takes(newrows: Lists, ind: nat, i: nat): seq<nat>
    requires i <= |newrows|
  {
    if i == 0 then [] else
      Takes(newrows, ind, i - 1) + if newrows[i - 1].Some? && ind in newrows[i - 1].value then [Rank(newrows, i - 1)] else []
  }

  lemma {:induction false} TakesBelow(newrows: Lists, ind: nat, i: nat)
    requires i <= |newrows|
    ensures forall x :: x in Takes(newrows, ind, i) ==> x < Rank(newrows, i)
    decreases i
  {
    if i > 0 {
      TakesBelow(newrows, ind, i - 1);
    }
  }

  lemma {:induction false} TakesSorted(newrows: Lists, ind: nat, i: nat)
    requires i <= |newrows|
    ensures Sorted(Takes(newrows, ind, i))
    decreases i
  {
    if i > 0 {
      TakesSorted(newrows, ind, i - 1);
      TakesBelow(newrows, ind, i - 1);
      SortedMore(Takes(newrows, ind, i - 1), Rank(newrows, i - 1));
    }
  }

  lemma SortedMore(t: seq<nat>, x: nat)
    requires Sorted(t) && forall y :: y in t ==> y < x
    ensures Sorted(t + [x]) && Sorted(t + [])
  {
    assert t + [] == t && forall k :: 0 <= k < |t| ==> t[k] in t;
  }

  lemma {:induction false} TakesHas(newrows: Lists, ind: nat, i: nat, r: nat)
    requires r < i <= |newrows| && newrows[r].Some?
    ensures Rank(newrows, r) in Takes(newrows, ind, i) <==> ind in newrows[r].value
    decreases i
  {
    if r == i - 1 {
      TakesBelow(newrows, ind, i - 1);
    } else {
      TakesHas(newrows, ind, i - 1, r);
      RankGrows(newrows, r, i - 1);
    }
  }

  lemma TakesAre(newrows: Lists, ind: nat, i: nat)
    requires i <= |newrows|
    ensures Sorted(Takes(newrows, ind, i)) && forall x :: x in Takes(newrows, ind, i) ==> x < Rank(newrows, i)
    ensures forall r: nat :: r < i && newrows[r].Some? ==>
      (Rank(newrows, r) in Takes(newrows, ind, i) <==> ind in newrows[r].value)
  {
    hide Takes, Rank;
    TakesSorted(newrows, ind, i);
    TakesBelow(newrows, ind, i);
    forall r: nat | r < i && newrows[r].Some? ensures Rank(newrows, r) in Takes(newrows, ind, i) <==> ind in newrows[r].value {
      TakesHas(newrows, ind, i, r);
    }
  }

  /** Every list is increasing and names old rows. */
  ghost predicate OldRows(newrows: Lists) {
    RowsSorted(newrows) && forall i, x :: 0 <= i < |newrows| && newrows[i].Some? && x in newrows[i].value ==> x < |newrows|
  }

  lemma Snoc(l: seq<nat>, j: nat, x: nat)
    requires Sorted(l) && j < |l|
    ensures (x in l[..j + 1] <==> x in l[..j] || x == l[j]) && l[j] !in l[..j]
  {
    assert l[..j + 1] == l[..j] + [l[j]];
  }

  /** "Filling oldrows": for every old row, the new rows to which it belongs */
  method InvertRows(newrows: Lists) returns (oldrows: seq<seq<nat>>, nb: nat)
    requires OldRows(newrows)
    ensures |oldrows| == |newrows| && nb == Rank(newrows, |newrows|)
    ensures forall ind :: 0 <= ind < |oldrows| ==> oldrows[ind] == Takes(newrows, ind, |newrows|)
  {
    var n := |newrows|;
    oldrows, nb := seq(n, _ => []), 0;
    var i := 0;
    while i < n
      invariant i <= n == |oldrows| && nb == Rank(newrows, i)
      invariant forall ind :: 0 <= ind < n ==> oldrows[ind] == Takes(newrows, ind, i)
    {
      if newrows[i].Some? {
        oldrows := EnterList(oldrows, newrows, i, nb);
        nb := nb + 1;
      } else {
        assert forall ind: nat :: Takes(newrows, ind, i + 1) == Takes(newrows, ind, i) + [];
      }
      i := i + 1;
    }
  }

  method EnterList(oldrows0: seq<seq<nat>>, newrows: Lists, i: nat, nb: nat) returns (oldrows: seq<seq<nat>>)
    requires OldRows(newrows) && i < |newrows| == |oldrows0| && newrows[i].Some? && nb == Rank(newrows, i)
    requires forall ind :: 0 <= ind < |newrows| ==> oldrows0[ind] == Takes(newrows, ind, i)
    ensures |oldrows| == |newrows| && forall ind :: 0 <= ind < |newrows| ==> oldrows[ind] == Takes(newrows, ind, i + 1)
  {
    var l, j := newrows[i].value, 0;
    oldrows := oldrows0;
    while j < |l|
      invariant j <= |l| && |oldrows| == |newrows|
      invariant forall ind :: 0 <= ind < |newrows| ==>
        oldrows[ind] == if ind in l[..j] then Takes(newrows, ind, i) + [nb] else Takes(newrows, ind, i)
    {
      var ind := l[j];
      assert ind in l;
      forall x: nat ensures x in l[..j + 1] <==> x in l[..j] || x == ind {
        Snoc(l, j, x);
      }
      Snoc(l, j, ind);
      oldrows := oldrows[ind := oldrows[ind] + [nb]];
      j := j + 1;
    }
    assert l[..j] == l;
    forall ind: nat | ind < |newrows|
      ensures Takes(newrows, ind, i + 1) == if ind in l then Takes(newrows, ind, i) + [nb] else Takes(newrows, ind, i)
    {
    }
  }

  // ---------- The small matrix ----------

  /** The columns of row i, none if it is not there */
  ghost function ColsAt(rows: Lists, i: nat): set<nat>
    requires i < |rows|
  {
    match rows[i]
    case None => {}
    case Some(r) => Cols(r)
  }

  /** How many of the first n rows contain j */
  ghost function Tally(rows: Lists, j: nat, n: nat): nat
    requires n <= |rows|
  {
    if n == 0 then 0 else Tally(rows, j, n - 1) + if j in ColsAt(rows, n - 1) then 1 else 0
  }

  lemma {:induction false} TallyPut(rows: Lists, i: nat, r: Option<seq<nat>>, j: nat, n: nat)
    requires i < |rows| && n <= |rows|
    ensures Tally(rows[i := r], j, n) == Tally(rows, j, n)
      + (if i < n && r.Some? && j in r.value then 1 else 0) - (if i < n && j in ColsAt(rows, i) then 1 else 0)
    decreases n
  {
    if n > 0 {
      TallyPut(rows, i, r, j, n - 1);
    }
  }

  class Small {
    var rows: Lists
    var colweight: seq<int>

    /** Rows are increasing, and the weights of the columns are exact. */
    ghost predicate Valid()
      reads this
    {
      && RowsSorted(rows)
      && (forall i, j :: 0 <= i < |rows| && rows[i].Some? && j in rows[i].value ==> j < |colweight|)
      && forall j: nat :: j < |colweight| ==> colweight[j] == Tally(rows, j, |rows|)
    }

    constructor (nrows: nat, ncols: nat)
      ensures Valid() && |rows| == nrows && |colweight| == ncols && forall i: nat :: i < nrows ==> ColsAt(rows, i) == {}
    {
      rows, colweight := seq(nrows, _ => None), seq(ncols, _ => 0);
      new;
      forall j: nat ensures Tally(rows, j, |rows|) == 0 {
        NoTally(rows, j, |rows|);
      }
    }

    /** The weights of the columns of a row change by d. */
    method Reweigh(r: seq<nat>, d: int)
      requires Sorted(r) && forall j :: j in r ==> j < |colweight|
      modifies this`colweight
      ensures |colweight| == |old(colweight)|
      ensures forall j: nat :: j < |colweight| ==> colweight[j] == old(colweight)[j] + if j in r then d else 0
    {
      var k := 0;
      while k < |r|
        invariant k <= |r| && |colweight| == |old(colweight)|
        invariant forall j: nat :: j < |colweight| ==> colweight[j] == old(colweight)[j] + if j in r[..k] then d else 0
      {
        var c := r[k];
        assert c in r;
        forall x: nat ensures x in r[..k + 1] <==> x in r[..k] || x == c {
          Snoc(r, k, x);
        }
        Snoc(r, k, c);
        colweight := colweight[c := colweight[c] + d];
        k := k + 1;
      }
      assert r[..k] == r;
    }

    /** addrel: a relation is added to row i. */
    method AddRel(buf: seq<nat>, i: nat)
      requires Valid() && i < |rows| && Sorted(buf) && forall j :: j in buf ==> j < |colweight|
      modifies this
      ensures Valid() && |rows| == |old(rows)| && |colweight| == |old(colweight)|
      ensures ColsAt(rows, i) == Xor(ColsAt(old(rows), i), Cols(buf))
      ensures forall k: nat :: k < |rows| && k != i ==> rows[k] == old(rows)[k]
    {
      var r := buf;
      if rows[i].None? {
        Reweigh(buf, 1);
        assert Xor({}, Cols(buf)) == Cols(buf);
      } else {
        Reweigh(rows[i].value, -1);
        r := AddRows(rows[i].value, buf, -1);
        assert forall j :: j in r ==> j in Cols(r) && (j in Cols(rows[i].value) || j in Cols(buf));
        Reweigh(r, 1);
      }
      forall j: nat ensures Tally(rows[i := Some(r)], j, |rows|) == Tally(rows, j, |rows|)
        + (if j in r then 1 else 0) - (if j in ColsAt(rows, i) then 1 else 0)
      {
        TallyPut(rows, i, Some(r), j, |rows|);
      }
      rows := rows[i := Some(r)];
    }

    /** The relation is added to all new rows to which it belongs. */
    method AddToAll(buf: seq<nat>, targets: seq<nat>)
      requires Valid() && Sorted(buf) && (forall j :: j in buf ==> j < |colweight|)
      requires Sorted(targets) && forall n :: n in targets ==> n < |rows|
      modifies this
      ensures Valid() && |rows| == |old(rows)| && |colweight| == |old(colweight)|
      ensures forall n: nat :: n < |rows| ==>
        ColsAt(rows, n) == if n in targets then Xor(ColsAt(old(rows), n), Cols(buf)) else ColsAt(old(rows), n)
    {
      var k := 0;
      while k < |targets|
        invariant k <= |targets| && Valid() && |rows| == |old(rows)| && |colweight| == |old(colweight)|
        invariant forall n: nat :: n < |rows| ==>
          ColsAt(rows, n) == if n in targets[..k] then Xor(ColsAt(old(rows), n), Cols(buf)) else ColsAt(old(rows), n)
      {
        forall x: nat ensures x in targets[..k + 1] <==> x in targets[..k] || x == targets[k] {
          Snoc(targets, k, x);
        }
        Snoc(targets, k, targets[k]);
        assert targets[k] in targets;
        AddRel(buf, targets[k]);
        k := k + 1;
      }
      assert targets[..k] == targets;
    }
  }

  lemma {:induction false} NoTally(rows: Lists, j: nat, n: nat)
    requires n <= |rows| && forall i :: 0 <= i < |rows| ==> rows[i].None?
    ensures Tally(rows, j, n) == 0
    decreases n
  {
    if n > 0 {
      NoTally(rows, j, n - 1);
    }
  }

  function AsSets(rels: seq<seq<nat>>): (s: seq<set<nat>>)
    ensures |s| == |rels|
  {
    seq(|rels|, i requires 0 <= i < |rels| => Cols(rels[i]))
  }

  /** Every new row is the sum of the old rows of its list, as far as they have been read. */
  ghost predicate SumsUpTo(rows: Lists, newrows: Lists, rels: seq<seq<nat>>, i: nat)
    requires |rels| == |newrows| && i <= |rels|
  {
    forall r: nat :: r < |newrows| && newrows[r].Some? ==>
      Rank(newrows, r) < |rows| && ColsAt(rows, Rank(newrows, r)) == Comb(AsSets(rels)[..i], Cols(newrows[r].value))
  }

  lemma SumsStep(rows: Lists, rows': Lists, newrows: Lists, rels: seq<seq<nat>>, i: nat)
    requires |rels| == |newrows| && i < |rels| && SumsUpTo(rows, newrows, rels, i) && |rows'| == |rows|
    requires var t := Takes(newrows, i, |newrows|); forall n: nat :: n < |rows| ==>
      ColsAt(rows', n) == if n in t then Xor(ColsAt(rows, n), Cols(rels[i])) else ColsAt(rows, n)
    ensures SumsUpTo(rows', newrows, rels, i + 1)
  {
    hide Takes;
    var s := AsSets(rels);
    TakesAre(newrows, i, |newrows|);
    forall r: nat | r < |newrows| && newrows[r].Some?
      ensures Comb(s[..i + 1], Cols(newrows[r].value))
           == Xor(Comb(s[..i], Cols(newrows[r].value)), if i in newrows[r].value then Cols(rels[i]) else {})
    {
      assert s[..i + 1][..i] == s[..i];
    }
  }

  lemma XorNothing(a: set<nat>)
    ensures Xor(a, {}) == a
  {
  }

  /** makeSparse: the relations are read one by one. */
  method MakeSparse(rels: seq<seq<nat>>, ncols: nat, oldrows: seq<seq<nat>>, nrows: nat, ghost newrows: Lists) returns (m: Small)
    requires OldRows(newrows) && |rels| == |newrows| == |oldrows| && nrows == Rank(newrows, |newrows|)
    requires forall ind :: 0 <= ind < |oldrows| ==> oldrows[ind] == Takes(newrows, ind, |newrows|)
    requires forall i :: 0 <= i < |rels| ==> Sorted(rels[i]) && forall j :: j in rels[i] ==> j < ncols
    ensures fresh(m) && m.Valid() && |m.rows| == nrows && SumsUpTo(m.rows, newrows, rels, |rels|)
  {
    hide Takes;
    m := new Small(nrows, ncols);
    SumsStart(m.rows, newrows, rels);
    var i := 0;
    while i < |rels|
      invariant i <= |rels| && fresh(m) && m.Valid() && |m.rows| == nrows && |m.colweight| == ncols
      invariant SumsUpTo(m.rows, newrows, rels, i)
    {
      ghost var rows := m.rows;
      TakesAre(newrows, i, |newrows|);
      if rels[i] != [] {
        m.AddToAll(rels[i], oldrows[i]);
      } else {
        assert Cols(rels[i]) == {};
        forall n: nat | n < |rows| ensures Xor(ColsAt(rows, n), Cols(rels[i])) == ColsAt(rows, n) {
          XorNothing(ColsAt(rows, n));
        }
      }
      SumsStep(rows, m.rows, newrows, rels, i);
      i := i + 1;
    }
  }

  // ---------- Where the sums are those of another matrix ----------

  lemma {:induction false} CombOn(m: seq<set<nat>>, m': seq<set<nat>>, v: set<nat>, K: set<nat>)
    requires |m| == |m'| && forall i :: 0 <= i < |m| ==> m[i] * K == m'[i] * K
    ensures Comb(m, v) * K == Comb(m', v) * K
    decreases |m|
  {
    if m != [] {
      var k := |m| - 1;
      CombOn(m[..k], m'[..k], v, K);
      XorOn(Comb(m[..k], v), if k in v then m[k] else {}, K);
      XorOn(Comb(m'[..k], v), if k in v then m'[k] else {}, K);
    }
  }

  lemma XorOn(a: set<nat>, b: set<nat>, K: set<nat>)
    ensures Xor(a, b) * K == Xor(a * K, b * K)
  {
  }

  // ---------- Replaying makes lists of old rows ----------

  ghost predicate AllBelow(N: Rowset, n: nat) {
    forall i, x :: 0 <= i < |N| && N[i].Some? && x in N[i].value ==> x < n
  }

  lemma {:induction false} AddAllBelow(N: Rowset, src: nat, targets: seq<int>, n: nat)
    requires AllBelow(N, n)
    ensures AllBelow(AddAll(N, src, targets), n)
    decreases |targets|
  {
    if targets != [] {
      AddAllBelow(N, src, targets[..|targets| - 1], n);
    }
  }

  lemma {:induction false} DoLinesBelow(N: Rowset, lines: seq<seq<int>>, n: nat)
    requires AllBelow(N, n)
    ensures AllBelow(DoLines(N, lines), n)
    decreases |lines|
  {
    if lines != [] {
      var k := |lines| - 1;
      DoLinesBelow(N, lines[..k], n);
      if lines[k] != [] {
        AddAllBelow(DoLines(N, lines[..k]), Source(lines[k]), lines[k][1..], n);
      }
    }
  }

  lemma ReplayedRows(newrows: Lists, lines: seq<seq<int>>)
    requires RowsSorted(newrows) && Values(newrows) == DoLines(Units(|newrows|), lines)
    ensures OldRows(newrows)
  {
    hide DoLines;
    DoLinesBelow(Units(|newrows|), lines, |newrows|);
    forall i, x | 0 <= i < |newrows| && newrows[i].Some? && x in newrows[i].value ensures x < |newrows| {
      assert x in Values(newrows)[i].value;
    }
  }

  lemma SumsStart(rows: Lists, newrows: Lists, rels: seq<seq<nat>>)
    requires |rels| == |newrows| && |rows| == Rank(newrows, |newrows|) && forall n: nat :: n < |rows| ==> ColsAt(rows, n) == {}
    ensures SumsUpTo(rows, newrows, rels, 0)
  {
    forall r: nat | r < |newrows| && newrows[r].Some? ensures Rank(newrows, r) < |rows| {
      RankGrows(newrows, r, |newrows|);
    }
  }
}
