/** filter/sparse.c and weightSum of filter/filter_matrix.c: rows as increasing lists of column numbers. */
module SparseRows {
  import opened Gf2

  ghost predicate Sorted(r: seq<nat>) {
    forall k, l :: 0 <= k < l < |r| ==> r[k] < r[l]
  }

  function Cols(r: seq<nat>): set<nat> {
    set j | j in r
  }

  lemma {:induction false} SortedSize(r: seq<nat>)
    requires Sorted(r)
    ensures |Cols(r)| == |r|
    decreases |r|
  {
    if r != [] {
      var k := |r| - 1;
      SortedSize(r[..k]);
      assert r == r[..k] + [r[k]];
      assert Cols(r) == Cols(r[..k]) + {r[k]};
      assert r[k] !in Cols(r[..k]);
    }
  }

  /** c is the sum of the first k1 entries of a and the first k2 of b, all smaller than what is left. */
  ghost predicate Merged(a: seq<nat>, b: seq<nat>, k1: nat, k2: nat, c: seq<nat>) {
    && k1 <= |a| && k2 <= |b| && Sorted(c)
    && Cols(c) == Xor(Cols(a[..k1]), Cols(b[..k2]))
    && (forall x, k :: x in c && k1 <= k < |a| ==> x < a[k])
    && (forall x, k :: x in c && k2 <= k < |b| ==> x < b[k])
    && (forall x, k :: x in a[..k1] && k2 <= k < |b| ==> x < b[k])
    && (forall x, k :: x in b[..k2] && k1 <= k < |a| ==> x < a[k])
  }

  lemma ColsSnoc(a: seq<nat>, k: nat)
    requires k < |a|
    ensures Cols(a[..k + 1]) == Cols(a[..k]) + {a[k]}
  {
    assert a[..k + 1] == a[..k] + [a[k]];
  }

  lemma MergedSwap(a: seq<nat>, b: seq<nat>, k1: nat, k2: nat, c: seq<nat>)
    requires Merged(a, b, k1, k2, c)
    ensures Merged(b, a, k2, k1, c)
  {
    hide Cols;
  }

  lemma MergeSmaller(a: seq<nat>, b: seq<nat>, k1: nat, k2: nat, c: seq<nat>)
    requires Sorted(a) && Sorted(b) && Merged(a, b, k1, k2, c) && k1 < |a|
    requires k2 < |b| ==> a[k1] < b[k2]
    ensures Merged(a, b, k1 + 1, k2, c + [a[k1]])
  {
    var c' := c + [a[k1]];
    assert Cols(c') == Cols(c) + {a[k1]};
    ColsSnoc(a, k1);
    assert a[..k1 + 1] == a[..k1] + [a[k1]];
    assert a[k1] !in Cols(a[..k1]) && a[k1] !in Cols(b[..k2]);
    forall k | k2 <= k < |b| ensures a[k1] < b[k] {
      assert b[k2] <= b[k];
    }
    forall k | 0 <= k < |c| ensures c[k] < a[k1] {
      assert c[k] in c;
    }
    assert Sorted(c');
    assert Cols(c') == Xor(Cols(a[..k1 + 1]), Cols(b[..k2]));
    assert forall x :: x in c' <==> x in c || x == a[k1];
    assert forall x :: x in a[..k1 + 1] <==> x in a[..k1] || x == a[k1];
  }

  lemma MergeEqual(a: seq<nat>, b: seq<nat>, k1: nat, k2: nat, c: seq<nat>)
    requires Sorted(a) && Sorted(b) && Merged(a, b, k1, k2, c) && k1 < |a| && k2 < |b| && a[k1] == b[k2]
    ensures Merged(a, b, k1 + 1, k2 + 1, c)
  {
    ColsSnoc(a, k1);
    ColsSnoc(b, k2);
    assert a[..k1 + 1] == a[..k1] + [a[k1]] && b[..k2 + 1] == b[..k2] + [b[k2]];
    assert a[k1] !in Cols(a[..k1]) && b[k2] !in Cols(b[..k2]);
  }

  lemma MergedAll(a: seq<nat>, b: seq<nat>, c: seq<nat>)
    requires Merged(a, b, |a|, |b|, c)
    ensures Sorted(c) && Cols(c) == Xor(Cols(a), Cols(b)) && |c| == |Xor(Cols(a), Cols(b))|
  {
    assert a[..|a|] == a && b[..|b|] == b;
    SortedSize(c);
  }

  /** The sum of two rows. A caller that passes len != -1 promises that it is the length of the sum. */
  method AddRows(a: seq<nat>, b: seq<nat>, len0: int) returns (tmp: seq<nat>)
    requires Sorted(a) && Sorted(b) && (len0 == -1 || len0 == |Xor(Cols(a), Cols(b))|)
    ensures Sorted(tmp) && Cols(tmp) == Xor(Cols(a), Cols(b))
    ensures |tmp| <= (if len0 != -1 then len0 else |a| + |b|) && (len0 != -1 ==> |tmp| == len0)
  {
    hide Merged, Sorted, Cols;
    tmp := [];
    var k1, k2 := 0, 0;
    MergedNone(a, b);
    while k1 < |a| && k2 < |b|
      invariant k1 <= |a| && k2 <= |b| && Merged(a, b, k1, k2, tmp) && |tmp| <= k1 + k2
    {
      if a[k1] < b[k2] {
        MergeSmaller(a, b, k1, k2, tmp);
        tmp, k1 := tmp + [a[k1]], k1 + 1;
      } else if a[k1] > b[k2] {
        MergedSwap(a, b, k1, k2, tmp);
        MergeSmaller(b, a, k2, k1, tmp);
        MergedSwap(b, a, k2 + 1, k1, tmp + [b[k2]]);
        tmp, k2 := tmp + [b[k2]], k2 + 1;
      } else {
        MergeEqual(a, b, k1, k2, tmp);
        k1, k2 := k1 + 1, k2 + 1;
      }
    }
    while k1 < |a|
      invariant k1 <= |a| && k2 <= |b| && (k1 < |a| ==> k2 == |b|) && Merged(a, b, k1, k2, tmp) && |tmp| <= k1 + k2
    {
      MergeSmaller(a, b, k1, k2, tmp);
      tmp, k1 := tmp + [a[k1]], k1 + 1;
    }
    while k2 < |b|
      invariant k2 <= |b| && Merged(a, b, k1, k2, tmp) && |tmp| <= k1 + k2
    {
      MergedSwap(a, b, k1, k2, tmp);
      MergeSmaller(b, a, k2, k1, tmp);
      MergedSwap(b, a, k2 + 1, k1, tmp + [b[k2]]);
      tmp, k2 := tmp + [b[k2]], k2 + 1;
    }
    MergedAll(a, b, tmp);
  }

  lemma MergedNone(a: seq<nat>, b: seq<nat>)
    ensures Merged(a, b, 0, 0, [])
  {
  }

  /** The weight of the sum of two rows whose buried parts have estimated weights wb1 and wb2. */
  method WeightSum(a: seq<nat>, b: seq<nat>, wb1: nat, wb2: nat, nburied: nat) returns (w: int)
    requires Sorted(a) && Sorted(b)
    ensures w == Buried(wb1, wb2, nburied) + |Xor(Cols(a), Cols(b))|
  {
    hide Merged, Sorted, Cols;
    w := wb1 + wb2;
    if w > nburied {
      w := nburied;
    }
    ghost var w0: nat, c := w, [];
    var k1, k2 := 0, 0;
    MergedNone(a, b);
    while k1 < |a| && k2 < |b|
      invariant k1 <= |a| && k2 <= |b| && Merged(a, b, k1, k2, c) && w == w0 + |c|
    {
      if a[k1] < b[k2] {
        MergeSmaller(a, b, k1, k2, c);
        c := c + [a[k1]];
        k1, w := k1 + 1, w + 1;
      } else if a[k1] > b[k2] {
        MergedSwap(a, b, k1, k2, c);
        MergeSmaller(b, a, k2, k1, c);
        MergedSwap(b, a, k2 + 1, k1, c + [b[k2]]);
        c := c + [b[k2]];
        k2, w := k2 + 1, w + 1;
      } else {
        MergeEqual(a, b, k1, k2, c);
        k1, k2 := k1 + 1, k2 + 1;
      }
    }
    RestSize(a, b, k1, k2, c);
    w := w + (if k1 >= |a| then 0 else |a| - k1);
    w := w + (if k2 >= |b| then 0 else |b| - k2);
  }

  /** The estimate for the buried part of a sum: the sum of the estimates, or the number of buried columns if that is less */
  function Buried(wb1: nat, wb2: nat, nburied: nat): (b: nat)
    ensures b <= nburied && b <= wb1 + wb2 && (b == nburied || b == wb1 + wb2)
  {
    if wb1 + wb2 > nburied then nburied else wb1 + wb2
  }

  lemma {:induction false} RestSize(a: seq<nat>, b: seq<nat>, k1: nat, k2: nat, c: seq<nat>)
    requires Sorted(a) && Sorted(b) && Merged(a, b, k1, k2, c) && k1 <= |a| && k2 <= |b| && (k1 == |a| || k2 == |b|)
    ensures |Xor(Cols(a), Cols(b))| == |c| + (|a| - k1) + (|b| - k2)
    decreases |a| - k1 + |b| - k2
  {
    hide Merged, Sorted, Cols;
    if k1 < |a| {
      MergeSmaller(a, b, k1, k2, c);
      RestSize(a, b, k1 + 1, k2, c + [a[k1]]);
    } else if k2 < |b| {
      MergedSwap(a, b, k1, k2, c);
      MergeSmaller(b, a, k2, k1, c);
      MergedSwap(b, a, k2 + 1, k1, c + [b[k2]]);
      RestSize(a, b, k1, k2 + 1, c + [b[k2]]);
    } else {
      MergedAll(a, b, c);
    }
  }
}
