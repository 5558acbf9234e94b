/** polyselect/polyselect2.c, hash_add and hash_grow: open addressing finds every pair of primes with the same i. */
module Collisions {
  import opened Arith

  type Entry = (nat, int)

  /** A call of match for two primes and their common i */
  datatype Call = Call(p1: nat, p2: nat, i: int)

  // ---------- Cells ----------

  /** i modulo the size of the table, also for negative i */
  function Hash(i: int, n: nat): (h: nat)
    requires n > 0
    ensures h < n
  {
    i % n
  }

  /** The cell k places after h, cyclically */
  function Cell(h: nat, k: nat, n: nat): nat {
    if h + k < n then h + k else h + k - n
  }

  function Distance(h: nat, c: nat, n: nat): int {
    if c >= h then c - h else c + n - h
  }

  /** The entries in the cells lo..hi; a cell with p = 0 is free. */
  ghost function Items(p: seq<nat>, i: seq<int>, lo: nat, hi: nat): multiset<Entry>
    requires lo <= hi <= |p| == |i|
  {
    if lo == hi then multiset{} else
      Items(p, i, lo, hi - 1) + ItemAt(p[hi - 1], i[hi - 1])
  }

  /** The primes in the cells lo..hi that collide with the entry (q, j) */
  ghost function Partners(p: seq<nat>, i: seq<int>, q: nat, j: int, lo: nat, hi: nat): multiset<nat>
    requires lo <= hi <= |p| == |i|
  {
    if lo == hi then multiset{} else
      Partners(p, i, q, j, lo, hi - 1) + PartnerAt(p[hi - 1], i[hi - 1], q, j)
  }

  function ItemAt(p: nat, i: int): multiset<Entry> {
    if p != 0 then multiset{(p, i)} else multiset{}
  }

  function PartnerAt(p: nat, i: int, q: nat, j: int): multiset<nat> {
    if p != 0 && i == j && p != q then multiset{p} else multiset{}
  }

  lemma PartnerIsItem(p: nat, i: int, q: nat, j: int, x: nat)
    ensures PartnerAt(p, i, q, j)[x] == if x != q then ItemAt(p, i)[(x, j)] else 0
  {
  }

  lemma {:induction false} PartnersOf(p: seq<nat>, i: seq<int>, q: nat, j: int, lo: nat, hi: nat, x: nat)
    requires lo <= hi <= |p| == |i|
    ensures Partners(p, i, q, j, lo, hi)[x] == if x != q then Items(p, i, lo, hi)[(x, j)] else 0
    decreases hi
  {
    hide ItemAt, PartnerAt;
    if lo < hi {
      PartnersOf(p, i, q, j, lo, hi - 1, x);
      PartnerIsItem(p[hi - 1], i[hi - 1], q, j, x);
    }
  }

  lemma {:induction false} ItemsSplit(p: seq<nat>, i: seq<int>, lo: nat, mid: nat, hi: nat)
    requires lo <= mid <= hi <= |p| == |i|
    ensures Items(p, i, lo, hi) == Items(p, i, lo, mid) + Items(p, i, mid, hi)
    decreases hi
  {
    if mid < hi {
      ItemsSplit(p, i, lo, mid, hi - 1);
    }
  }

  lemma {:induction false} ItemsSame(p: seq<nat>, i: seq<int>, p': seq<nat>, i': seq<int>, lo: nat, hi: nat)
    requires lo <= hi <= |p| == |i| && hi <= |p'| == |i'|
    requires forall c: nat :: lo <= c < hi ==> p'[c] == p[c] && i'[c] == i[c]
    ensures Items(p', i', lo, hi) == Items(p, i, lo, hi)
    decreases hi
  {
    if lo < hi {
      ItemsSame(p, i, p', i', lo, hi - 1);
    }
  }

  /** Filling the free cell c */
  lemma ItemsFill(p: seq<nat>, i: seq<int>, c: nat, q: nat, j: int)
    requires c < |p| == |i| && p[c] == 0 && q != 0
    ensures Items(p[c := q], i[c := j], 0, |p|) == Items(p, i, 0, |p|) + multiset{(q, j)}
  {
    hide Items;
    var p', i', n := p[c := q], i[c := j], |p|;
    OneItem(p, i, c);
    OneItem(p', i', c);
    ItemsSplit(p, i, 0, c, n);
    ItemsSplit(p, i, c, c + 1, n);
    ItemsSplit(p', i', 0, c, n);
    ItemsSplit(p', i', c, c + 1, n);
    ItemsSame(p, i, p', i', 0, c);
    ItemsSame(p, i, p', i', c + 1, n);
    Insertion(Items(p, i, 0, c), Items(p, i, c + 1, n), (q, j));
  }

  lemma Insertion(a: multiset<Entry>, b: multiset<Entry>, e: Entry)
    ensures a + (multiset{e} + b) == a + (multiset{} + b) + multiset{e}
  {
  }

  lemma OneItem(p: seq<nat>, i: seq<int>, c: nat)
    requires c < |p| == |i|
    ensures Items(p, i, c, c + 1) == if p[c] != 0 then multiset{(p[c], i[c])} else multiset{}
  {
    assert Items(p, i, c, c) == multiset{};
  }

  lemma {:induction false} PartnersSplit(p: seq<nat>, i: seq<int>, q: nat, j: int, lo: nat, mid: nat, hi: nat)
    requires lo <= mid <= hi <= |p| == |i|
    ensures Partners(p, i, q, j, lo, hi) == Partners(p, i, q, j, lo, mid) + Partners(p, i, q, j, mid, hi)
    decreases hi
  {
    if mid < hi {
      PartnersSplit(p, i, q, j, lo, mid, hi - 1);
    }
  }

  lemma {:induction false} NoPartners(p: seq<nat>, i: seq<int>, q: nat, j: int, lo: nat, hi: nat)
    requires lo <= hi <= |p| == |i|
    requires forall c: nat :: lo <= c < hi && p[c] != 0 ==> i[c] != j
    ensures Partners(p, i, q, j, lo, hi) == multiset{}
    decreases hi
  {
    if lo < hi {
      NoPartners(p, i, q, j, lo, hi - 1);
    }
  }

  // ---------- Probing ----------

  /** The partners in the first k cells from h on */
  ghost function Found(p: seq<nat>, i: seq<int>, q: nat, j: int, h: nat, k: nat): multiset<nat>
    requires h < |p| == |i| && k <= |p|
  {
    var n := |p|;
    if h + k <= n then Partners(p, i, q, j, h, h + k)
    else Partners(p, i, q, j, h, n) + Partners(p, i, q, j, 0, h + k - n)
  }

  lemma FoundNext(p: seq<nat>, i: seq<int>, q: nat, j: int, h: nat, k: nat)
    requires h < |p| == |i| && k < |p| && p[Cell(h, k, |p|)] != 0
    ensures var c := Cell(h, k, |p|);
      Found(p, i, q, j, h, k + 1) == Found(p, i, q, j, h, k) + PartnerAt(p[c], i[c], q, j)
  {
    var n := |p|;
    if h + k == n {
      assert Partners(p, i, q, j, 0, 0) == multiset{};
    }
  }

  /** Every entry is reached from the cell of its hash without crossing a free cell. */
  ghost predicate Probed(p: seq<nat>, i: seq<int>) {
    && |p| == |i| > 0
    && forall c: nat, k: nat :: c < |p| && p[c] != 0 && k < Distance(Hash(i[c], |p|), c, |p|) ==>
         Occupied(p, Hash(i[c], |p|), k)
  }

  ghost predicate Occupied(p: seq<nat>, h: nat, k: nat) {
    Cell(h, k, |p|) < |p| && p[Cell(h, k, |p|)] != 0
  }

  lemma Reach(h: nat, c: nat, n: nat)
    requires h < n && c < n
    ensures 0 <= Distance(h, c, n) < n && Cell(h, Distance(h, c, n), n) == c
  {
  }

  /** When the probe meets a free cell, it has met all partners. */
  lemma FoundAll(p: seq<nat>, i: seq<int>, q: nat, j: int, k: nat)
    requires Probed(p, i) && |p| == |i| && k < |p| && p[Cell(Hash(j, |p|), k, |p|)] == 0
    ensures Found(p, i, q, j, Hash(j, |p|), k) == Partners(p, i, q, j, 0, |p|)
  {
    hide Probed, Partners, Hash;
    var n, h := |p|, Hash(j, |p|);
    forall c: nat | c < n && p[c] != 0 && i[c] == j ensures Distance(h, c, n) < k {
      Met(p, i, j, k, c);
    }
    if h + k <= n {
      PartnersSplit(p, i, q, j, 0, h, n);
      PartnersSplit(p, i, q, j, h, h + k, n);
      NoPartners(p, i, q, j, 0, h);
      NoPartners(p, i, q, j, h + k, n);
    } else {
      PartnersSplit(p, i, q, j, 0, h + k - n, n);
      PartnersSplit(p, i, q, j, h + k - n, h, n);
      NoPartners(p, i, q, j, h + k - n, h);
    }
  }

  lemma Met(p: seq<nat>, i: seq<int>, j: int, k: nat, c: nat)
    requires Probed(p, i) && k < |p| && p[Cell(Hash(j, |p|), k, |p|)] == 0 && c < |p| && p[c] != 0 && i[c] == j
    ensures Distance(Hash(j, |p|), c, |p|) < k
  {
    var n, h := |p|, Hash(j, |p|);
    Reach(h, c, n);
    var free := Occupied(p, h, k);
  }

  /** Filling the free cell that ends the probe keeps all entries reachable. */
  lemma FillProbed(p: seq<nat>, i: seq<int>, q: nat, j: int, k: nat)
    requires Probed(p, i) && q != 0 && k < |p| && p[Cell(Hash(j, |p|), k, |p|)] == 0
    requires forall l: nat :: l < k ==> Occupied(p, Hash(j, |p|), l)
    ensures Probed(p[Cell(Hash(j, |p|), k, |p|) := q], i[Cell(Hash(j, |p|), k, |p|) := j])
  {
    var n, h := |p|, Hash(j, |p|);
    var c0 := Cell(h, k, n);
    var p', i' := p[c0 := q], i[c0 := j];
    Reach(h, c0, n);
    forall c: nat, l: nat | c < n && p'[c] != 0 && l < Distance(Hash(i'[c], n), c, n) ensures Occupied(p', Hash(i'[c], n), l) {
      if c == c0 {
        SameDistance(h, k, n);
        assert Occupied(p, h, l);
      } else {
        assert Occupied(p, Hash(i[c], n), l);
      }
    }
  }

  lemma SameDistance(h: nat, k: nat, n: nat)
    requires h < n && k < n
    ensures Distance(h, Cell(h, k, n), n) == k
  {
  }

  /** k cells have been probed: all are occupied, and the partners in them have been called. */
  ghost predicate Probing(p: seq<nat>, i: seq<int>, q: nat, j: int, k: nat, calls: seq<nat>, known: bool)
    requires 0 < |p| == |i| && k <= |p|
  {
    && (forall l: nat :: l < k ==> Occupied(p, Hash(j, |p|), l))
    && (if known then multiset(calls) == Found(p, i, q, j, Hash(j, |p|), k) else calls == [])
  }

  lemma ProbeStart(p: seq<nat>, i: seq<int>, q: nat, j: int, known: bool)
    requires 0 < |p| == |i|
    ensures Probing(p, i, q, j, 0, [], known)
    ensures Cell(Hash(j, |p|), 0, |p|) == Hash(j, |p|)
  {
  }

  lemma ProbeNext(p: seq<nat>, i: seq<int>, q: nat, j: int, k: nat, calls: seq<nat>, known: bool)
    requires 0 < |p| == |i| && k < |p| && Probing(p, i, q, j, k, calls, known) && p[Cell(Hash(j, |p|), k, |p|)] != 0
    ensures var c := Cell(Hash(j, |p|), k, |p|);
      Probing(p, i, q, j, k + 1, if known && i[c] == j && p[c] != q then calls + [p[c]] else calls, known)
  {
    hide Found, Hash;
    FoundNext(p, i, q, j, Hash(j, |p|), k);
  }

  lemma ProbeEnd(p: seq<nat>, i: seq<int>, q: nat, j: int, k: nat, calls: seq<nat>, known: bool)
    requires Probed(p, i) && |p| == |i| && q != 0 && k < |p| && Probing(p, i, q, j, k, calls, known)
    requires p[Cell(Hash(j, |p|), k, |p|)] == 0
    ensures var h := Cell(Hash(j, |p|), k, |p|); Probed(p[h := q], i[h := j])
    ensures if known then multiset(calls) == Partners(p, i, q, j, 0, |p|) else calls == []
  {
    hide Found, Hash, Probed, Partners;
    FillProbed(p, i, q, j, k);
    FoundAll(p, i, q, j, k);
  }

  // ---------- The table ----------

  /** The number of used cells */
  ghost function UsedCells(p: seq<nat>, n: nat): nat
    requires n <= |p|
  {
    if n == 0 then 0 else UsedCells(p, n - 1) + if p[n - 1] != 0 then 1 else 0
  }

  lemma {:induction false} UsedIsItems(p: seq<nat>, i: seq<int>, n: nat)
    requires n <= |p| == |i|
    ensures UsedCells(p, n) == |Items(p, i, 0, n)|
    decreases n
  {
    if n > 0 {
      UsedIsItems(p, i, n - 1);
    }
  }

  lemma {:induction false} FreeCell(p: seq<nat>, n: nat) returns (c: nat)
    requires n <= |p| && UsedCells(p, n) < n
    ensures c < n && p[c] == 0
    decreases n
  {
    if p[n - 1] == 0 {
      c := n - 1;
    } else {
      c := FreeCell(p, n - 1);
    }
  }

  class Table {
    var p: seq<nat>
    var i: seq<int>
    var size: nat

    ghost function Contents(): multiset<Entry>
      requires |p| == |i|
      reads this
    {
      Items(p, i, 0, |p|)
    }

    ghost predicate Valid()
      reads this
    {
      |p| == |i| > 0 && Probed(p, i) && size == |Contents()| && size <= |p|
    }

    constructor ()
      ensures Valid() && Contents() == multiset{}
    {
      p, i, size := [0], [0], 0;
      new;
      assert Items(p, i, 0, 1) == Items(p, i, 0, 0);
    }

    /** The probe: the calls are the primes that match is called with. It always ends at a free cell. */
    method Probe(q: nat, j: int, known: bool) returns (h: nat, calls: seq<nat>)
      requires Valid() && size < |p| && q != 0
      ensures h < |p| && p[h] == 0 && Probed(p[h := q], i[h := j])
      ensures known ==> multiset(calls) == Partners(p, i, q, j, 0, |p|)
      ensures !known ==> calls == []
    {
      hide Probed, Partners, Items, Hash, Found, PartnerAt, Probing;
      var n := |p|;
      UsedIsItems(p, i, n);
      ghost var free := FreeCell(p, n);
      h := HashCell(j, n);
      calls := [];
      ghost var k: nat := 0;
      ProbeStart(p, i, q, j, known);
      Reach(Hash(j, n), free, n);
      while p[h] != 0
        invariant k <= Distance(Hash(j, n), free, n) && h == Cell(Hash(j, n), k, n) && h < n
        invariant Probing(p, i, q, j, k, calls, known)
        decreases Distance(Hash(j, n), free, n) - k
      {
        ProbeNext(p, i, q, j, k, calls, known);
        if known && i[h] == j && p[h] != q {
          calls := calls + [p[h]];
        }
        h := h + 1;
        if h == n {
          h := 0;
        }
        k := k + 1;
      }
      ProbeEnd(p, i, q, j, k, calls, known);
    }

    method Put(q: nat, j: int, known: bool) returns (calls: seq<nat>)
      requires Valid() && size < |p| && q != 0
      modifies this
      ensures Valid() && |p| == |old(p)| && Contents() == old(Contents()) + multiset{(q, j)}
      ensures known ==> multiset(calls) == Partners(old(p), old(i), q, j, 0, |old(p)|)
      ensures !known ==> calls == []
    {
      hide Probed, Partners, Items;
      var h;
      h, calls := Probe(q, j, known);
      ItemsFill(p, i, h, q, j);
      p, i := p[h := q], i[h := j];
      size := size + 1;
    }

    /** hash_grow: the entries move to a table of twice the size. */
    method Grow()
      requires Valid()
      modifies this
      ensures Valid() && Contents() == old(Contents()) && |p| == 2 * |old(p)| && size == old(size)
    {
      hide Probed, Items, ItemAt;
      var oldP, oldI := p, i;
      p, i, size := seq(2 * |p|, _ => 0), seq(2 * |p|, _ => 0), 0;
      Empty(p, i);
      MoveAll(oldP, oldI);
    }

    method MoveAll(oldP: seq<nat>, oldI: seq<int>)
      requires Valid() && |oldP| == |oldI| && |p| == 2 * |oldP| && Contents() == multiset{}
      modifies this
      ensures Valid() && |p| == |old(p)| && Contents() == Items(oldP, oldI, 0, |oldP|)
    {
      hide Probed, Items;
      var j := 0;
      NoItems(oldP, oldI);
      while j < |oldP|
        invariant j <= |oldP| && Valid() && |p| == 2 * |oldP| && size <= j && Contents() == Items(oldP, oldI, 0, j)
      {
        ItemsStep(oldP, oldI, j);
        if oldP[j] != 0 {
          var calls := Put(oldP[j], oldI[j], false);
        }
        j := j + 1;
      }
    }

    /** hash_add: every entry with the same i and another prime is matched once. */
    method Add(q: nat, j: int) returns (calls: seq<nat>)
      requires Valid() && q != 0
      modifies this
      ensures Valid() && Contents() == old(Contents()) + multiset{(q, j)}
      ensures forall x: nat :: multiset(calls)[x] == if x != q then old(Contents())[(x, j)] else 0
    {
      hide Probed, Items, Partners;
      if size >= |p| {
        Grow();
      }
      forall x: nat ensures Partners(p, i, q, j, 0, |p|)[x] == if x != q then Contents()[(x, j)] else 0 {
        PartnersOf(p, i, q, j, 0, |p|, x);
      }
      calls := Put(q, j, true);
    }
  }

  /** The start of the probe, as the code computes it */
  method HashCell(j: int, alloc: nat) returns (h: nat)
    requires alloc > 0
    ensures h == Hash(j, alloc) < alloc
  {
    if j >= 0 {
      h := j % alloc;
    } else {
      var r := (-j) % alloc;
      h := alloc - r;
      NegativeMod(j, alloc);
      if h == alloc {
        h := 0;
      }
    }
  }

  lemma NegativeMod(j: int, n: int)
    requires n > 0
    ensures j % n == if (-j) % n == 0 then 0 else n - (-j) % n
  {
    var q, r := (-j) / n, (-j) % n;
    assert -j == q * n + r;
    if r == 0 {
      assert j == (-q) * n + 0;
      DivModUnique(j, n, -q, 0);
    } else {
      assert j == (-q - 1) * n + (n - r);
      DivModUnique(j, n, -q - 1, n - r);
    }
  }

  lemma Empty(p: seq<nat>, i: seq<int>)
    requires |p| == |i| > 0 && forall c :: 0 <= c < |p| ==> p[c] == 0
    ensures Probed(p, i) && Items(p, i, 0, |p|) == multiset{}
  {
    EmptyItems(p, i, |p|);
  }

  lemma {:induction false} EmptyItems(p: seq<nat>, i: seq<int>, n: nat)
    requires n <= |p| == |i| && forall c :: 0 <= c < |p| ==> p[c] == 0
    ensures Items(p, i, 0, n) == multiset{}
    decreases n
  {
    if n > 0 {
      EmptyItems(p, i, n - 1);
    }
  }

  lemma NoItems(p: seq<nat>, i: seq<int>)
    requires |p| == |i|
    ensures Items(p, i, 0, 0) == multiset{}
  {
  }

  lemma ItemsStep(p: seq<nat>, i: seq<int>, j: nat)
    requires j < |p| == |i|
    ensures Items(p, i, 0, j + 1) == Items(p, i, 0, j) + ItemAt(p[j], i[j])
  {
  }

  // ---------- All insertions ----------

  /** How often a later one of the first n entries meets an earlier one that has the same i and another prime */
  ghost function Pairs(entries: seq<Entry>, n: nat, x: nat, y: nat, j: int): nat
    requires n <= |entries|
  {
    if n == 0 then 0 else
      Pairs(entries, n - 1, x, y, j)
      + if entries[n - 1] == (y, j) && x != y then multiset(entries[..n - 1])[(x, j)] else 0
  }

  /** The calls of match for a sequence of insertions: those of an all-pairs comparison */
  method AddEach(entries: seq<Entry>) returns (calls: seq<Call>)
    requires forall k :: 0 <= k < |entries| ==> entries[k].0 != 0
    ensures forall x: nat, y: nat, j: int :: multiset(calls)[Call(x, y, j)] == Pairs(entries, |entries|, x, y, j)
  {
    var table := new Table();
    calls := [];
    var n := 0;
    hide Pairs, Probed, Items, Tagged, AllPairs;
    FirstPairs(entries);
    assert entries[..0] == [];
    while n < |entries|
      invariant n <= |entries| && fresh(table) && table.Valid() && table.Contents() == multiset(entries[..n])
      invariant AllPairs(entries, n, calls)
    {
      var e := entries[n];
      var found := table.Add(e.0, e.1);
      NextPairs(entries, n, calls, found);
      calls := calls + Tagged(found, e.0, e.1);
      assert entries[..n + 1] == entries[..n] + [e];
      n := n + 1;
    }
    PairsAtEnd(entries, calls);
  }

  ghost predicate AllPairs(entries: seq<Entry>, n: nat, calls: seq<Call>) {
    n <= |entries| && forall x: nat, y: nat, j: int :: multiset(calls)[Call(x, y, j)] == Pairs(entries, n, x, y, j)
  }

  lemma FirstPairs(entries: seq<Entry>)
    ensures AllPairs(entries, 0, [])
  {
  }

  lemma PairsAtEnd(entries: seq<Entry>, calls: seq<Call>)
    requires AllPairs(entries, |entries|, calls)
    ensures forall x: nat, y: nat, j: int :: multiset(calls)[Call(x, y, j)] == Pairs(entries, |entries|, x, y, j)
  {
  }

  lemma NextPairs(entries: seq<Entry>, n: nat, calls: seq<Call>, found: seq<nat>)
    requires n < |entries| && AllPairs(entries, n, calls)
    requires forall x: nat :: multiset(found)[x] == if x != entries[n].0 then multiset(entries[..n])[(x, entries[n].1)] else 0
    ensures AllPairs(entries, n + 1, calls + Tagged(found, entries[n].0, entries[n].1))
  {
    hide Tagged;
    var e := entries[n];
    var more := Tagged(found, e.0, e.1);
    forall x: nat, y: nat, j: int ensures multiset(calls + more)[Call(x, y, j)] == Pairs(entries, n + 1, x, y, j) {
      TaggedCount(found, e.0, e.1, x, y, j);
      assert multiset(calls + more)[Call(x, y, j)] == multiset(calls)[Call(x, y, j)] + multiset(more)[Call(x, y, j)];
    }
  }

  function Tagged(found: seq<nat>, y: nat, j: int): seq<Call> {
    if found == [] then [] else [Call(found[0], y, j)] + Tagged(found[1..], y, j)
  }

  lemma {:induction false} TaggedCount(found: seq<nat>, y: nat, j: int, x: nat, y': nat, j': int)
    ensures multiset(Tagged(found, y, j))[Call(x, y', j')] == if y' == y && j' == j then multiset(found)[x] else 0
    decreases |found|
  {
    if found != [] {
      TaggedCount(found[1..], y, j, x, y', j');
      assert found == [found[0]] + found[1..];
    }
  }
}
