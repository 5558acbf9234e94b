/** filter/purge.c: relations that contain an ideal which no other relation contains are deleted. */
module Purge {
  import opened Components

  /** Some ideal of relation i occurs only once. */
  ghost predicate SingletonAt(rels: seq<seq<nat>>, used: seq<bool>, i: nat)
    requires i < |rels|
  {
    exists k :: 0 <= k < |rels[i]| && Count(rels, used, rels[i][k]) == 1
  }

  /** The relations that are left of the first n and the others after a pass over the first n */
  ghost function OnePass(rels: seq<seq<nat>>, used: seq<bool>, n: nat): seq<bool>
    requires n <= |rels|
  {
    if n == 0 then used else
      var u := OnePass(rels, used, n - 1);
      if n - 1 < |u| && u[n - 1] && SingletonAt(rels, u, n - 1) then u[n - 1 := false] else u
  }

  /** The ideals below n that occur, and how many more relations there are than ideals */
  ghost function Ideals(rels: seq<seq<nat>>, used: seq<bool>, n: nat): set<nat> {
    set h: nat | h < n && Count(rels, used, h) > 0
  }

  ghost function Excess(rels: seq<seq<nat>>, used: seq<bool>, n: nat): int {
    |UsedSet(used)| - |Ideals(rels, used, n)|
  }

  /** The ideals that still occur */
  ghost function Present(hashcount: seq<nat>): set<nat> {
    set h: nat | h < |hashcount| && hashcount[h] > 0
  }

  /** Every relation of the set has only ideals that occur at least twice in the set. */
  ghost predicate NoSingleton(rels: seq<seq<nat>>, used: seq<bool>) {
    |used| == |rels| && forall i, h: nat :: 0 <= i < |rels| && used[i] && h in rels[i] ==> Count(rels, used, h) != 1
  }

  ghost predicate Within(u: seq<bool>, v: seq<bool>) {
    |u| == |v| && forall i :: 0 <= i < |u| && u[i] ==> v[i]
  }

  /** v contains every set without singletons that is within start. */
  ghost predicate KeepsCores(rels: seq<seq<nat>>, start: seq<bool>, v: seq<bool>) {
    Within(v, start) && forall u: seq<bool> :: Within(u, start) && NoSingleton(rels, u) ==> Within(u, v)
  }

  lemma {:induction false} OccurrencesDrop(rels: seq<seq<nat>>, used: seq<bool>, i: nat, h: nat, n: nat)
    requires |used| == |rels| && i < |rels| && used[i] && n <= |rels|
    ensures Occurrences(rels, used[i := false], h, n) == Occurrences(rels, used, h, n) - if i < n then multiset(rels[i])[h] else 0
    decreases n
  {
    if n > 0 {
      OccurrencesDrop(rels, used, i, h, n - 1);
    }
  }

  lemma {:induction false} OccurrencesMonotone(rels: seq<seq<nat>>, u: seq<bool>, v: seq<bool>, h: nat, n: nat)
    requires Within(u, v) && |u| == |rels| && n <= |rels|
    ensures Occurrences(rels, u, h, n) <= Occurrences(rels, v, h, n)
    decreases n
  {
    if n > 0 {
      OccurrencesMonotone(rels, u, v, h, n - 1);
    }
  }

  lemma {:induction false} OccursAtLeast(rels: seq<seq<nat>>, u: seq<bool>, i: nat, h: nat, n: nat)
    requires |u| == |rels| && i < n <= |rels| && u[i]
    ensures Occurrences(rels, u, h, n) >= multiset(rels[i])[h]
    decreases n
  {
    if i < n - 1 {
      OccursAtLeast(rels, u, i, h, n - 1);
    }
  }

  /** A relation with a singleton is in no set without singletons. */
  lemma SingletonGoes(rels: seq<seq<nat>>, start: seq<bool>, v: seq<bool>, i: nat, h: nat)
    requires KeepsCores(rels, start, v) && |v| == |rels| && i < |rels| && v[i] && h in rels[i] && Count(rels, v, h) == 1
    ensures KeepsCores(rels, start, v[i := false])
  {
    forall u: seq<bool> | Within(u, start) && NoSingleton(rels, u) ensures Within(u, v[i := false]) {
      assert Within(u, v);
      NotInCore(rels, u, v, i, h);
    }
  }

  lemma NotInCore(rels: seq<seq<nat>>, u: seq<bool>, v: seq<bool>, i: nat, h: nat)
    requires Within(u, v) && NoSingleton(rels, u) && i < |rels| && h in rels[i] && Count(rels, v, h) == 1
    ensures !u[i]
  {
    var c := Count(rels, u, h);
    OccurrencesMonotone(rels, u, v, h, |rels|);
    if u[i] {
      OccursAtLeast(rels, u, i, h, |rels|);
    }
  }

  lemma FewerUsed(used: seq<bool>, i: nat)
    requires i < |used| && used[i]
    ensures UsedSet(used[i := false]) == UsedSet(used) - {i} && |UsedSet(used[i := false])| == |UsedSet(used)| - 1
  {
    assert UsedSet(used[i := false]) == UsedSet(used) - {i};
    assert i in UsedSet(used);
  }

  /** One occurrence of h less */
  lemma PresentDrop(hashcount: seq<nat>, h: nat)
    requires h < |hashcount| && hashcount[h] >= 1
    ensures var c := hashcount[h := hashcount[h] - 1];
      |Present(c)| == |Present(hashcount)| - if hashcount[h] == 1 then 1 else 0
  {
    var c := hashcount[h := hashcount[h] - 1];
    if hashcount[h] == 1 {
      assert Present(c) == Present(hashcount) - {h};
      assert h in Present(hashcount);
    } else {
      assert Present(c) == Present(hashcount);
    }
  }

  lemma CountSnoc(tab: seq<nat>, j: nat, h: nat)
    requires j < |tab|
    ensures multiset(tab[..j + 1])[h] == multiset(tab[..j])[h] + if tab[j] == h then 1 else 0
    ensures multiset(tab[..j + 1])[h] <= multiset(tab)[h]
  {
    assert tab[..j + 1] == tab[..j] + [tab[j]];
    assert tab == tab[..j + 1] + tab[j + 1..];
  }

  class Relations {
    const rels: seq<seq<nat>>
    var used: seq<bool>
    var hashcount: seq<nat>
    var nrel: int
    var nprimes: int

    /** The counts are exact. */
    ghost predicate Valid()
      reads this
    {
      && |used| == |rels|
      && (forall i, k :: 0 <= i < |rels| && 0 <= k < |rels[i]| ==> rels[i][k] < |hashcount|)
      && (forall h: nat :: h < |hashcount| ==> hashcount[h] == Count(rels, used, h))
      && nrel == |UsedSet(used)| && nprimes == |Present(hashcount)|
    }

    method HasSingleton(tab: seq<nat>) returns (b: bool)
      requires forall k :: 0 <= k < |tab| ==> tab[k] < |hashcount|
      ensures b <==> exists k :: 0 <= k < |tab| && hashcount[tab[k]] == 1
    {
      var j := 0;
      while j < |tab|
        invariant j <= |tab| && forall k :: 0 <= k < j ==> hashcount[tab[k]] != 1
      {
        if hashcount[tab[j]] == 1 {
          return true;
        }
        j := j + 1;
      }
      return false;
    }

    method DeleteRelation(i: nat)
      requires Valid() && i < |rels| && used[i]
      modifies this`used, this`hashcount, this`nprimes
      ensures used == old(used)[i := false] && |hashcount| == |old(hashcount)| && nprimes == |Present(hashcount)|
      ensures forall h: nat :: h < |hashcount| ==> hashcount[h] == Count(rels, used, h)
    {
      hide Count;
      var tab := rels[i];
      EnoughCounted(i);
      var j := 0;
      while j < |tab|
        invariant j <= |tab| && |hashcount| == |old(hashcount)| && nprimes == |Present(hashcount)| && used == old(used)
        invariant forall h: nat :: h < |hashcount| ==> hashcount[h] + multiset(tab[..j])[h] == old(hashcount)[h]
      {
        var h := tab[j];
        forall x: nat ensures multiset(tab[..j + 1])[x] == multiset(tab[..j])[x] + if h == x then 1 else 0 {
          CountSnoc(tab, j, x);
        }
        CountSnoc(tab, j, h);
        PresentDrop(hashcount, h);
        hashcount := hashcount[h := hashcount[h] - 1];
        nprimes := nprimes - (if hashcount[h] == 0 then 1 else 0);
        j := j + 1;
      }
      assert tab[..j] == tab;
      forall h: nat | h < |hashcount| ensures hashcount[h] == Count(rels, used[i := false], h) {
        CountDrop(rels, used, i, h);
      }
      used := used[i := false];
    }

    lemma EnoughCounted(i: nat)
      requires Valid() && i < |rels| && used[i]
      ensures forall h: nat :: h < |hashcount| ==> hashcount[h] >= multiset(rels[i])[h]
    {
      forall h: nat | h < |hashcount| ensures hashcount[h] >= multiset(rels[i])[h] {
        OccursAtLeast(rels, used, i, h, |rels|);
      }
    }

    method OnepassSingletonRemoval(ghost start: seq<bool>)
      requires Valid()
      modifies this
      ensures Valid() && |hashcount| == |old(hashcount)| && Within(used, old(used)) && nrel <= old(nrel)
      ensures used == OnePass(rels, old(used), |rels|)
      ensures nrel == old(nrel) ==> used == old(used) && NoSingleton(rels, used) && nprimes == old(nprimes)
      ensures old(KeepsCores(rels, start, used)) ==> KeepsCores(rels, start, used)
    {
      hide Count, KeepsCores, Present, UsedSet, SingletonAt;
      var i := 0;
      while i < |rels|
        invariant i <= |rels| && used == OnePass(rels, old(used), i)
        invariant Valid() && |hashcount| == |old(hashcount)| && Within(used, old(used)) && nrel <= old(nrel)
        invariant nrel == old(nrel) ==> used == old(used) && NoneBefore(rels, used, i) && nprimes == old(nprimes)
        invariant old(KeepsCores(rels, start, used)) ==> KeepsCores(rels, start, used)
      {
        if used[i] {
          var single := HasSingleton(rels[i]);
          SingletonIs(i);
          if single {
            ghost var k :| 0 <= k < |rels[i]| && hashcount[rels[i][k]] == 1;
            if KeepsCores(rels, start, used) {
              SingletonGoes(rels, start, used, i, rels[i][k]);
            }
            FewerUsed(used, i);
            DeleteRelation(i);
            nrel := nrel - 1;
          }
        }
        i := i + 1;
      }
      NoneAtAll(rels, used);
    }

    lemma SingletonIs(i: nat)
      requires Valid() && i < |rels|
      ensures SingletonAt(rels, used, i) <==> exists k :: 0 <= k < |rels[i]| && hashcount[rels[i][k]] == 1
    {
      hide Count;
    }

    /** The difference of the two counts is the excess. */
    lemma ExcessIs()
      requires Valid()
      ensures nrel - nprimes == Excess(rels, used, |hashcount|)
    {
      hide Count, UsedSet;
      assert Present(hashcount) == Ideals(rels, used, |hashcount|);
    }

    // ---------- Components ----------

    /** sum[h] is the sum of the numbers of the two relations with the ideal h of weight 2. */
    ghost predicate Summed(sum: seq<nat>)
      reads this
    {
      |sum| == |hashcount| && forall h: nat :: h < |sum| && hashcount[h] == 2 ==> sum[h] == IndexSum(rels, used, h, |rels|)
    }

    /** The sums, the number of relations and the number of ideals in them */
    method CollectSums() returns (sum: seq<nat>, N: nat, W: nat)
      requires Valid()
      ensures Summed(sum) && N == nrel && W == Weight(rels, used, |rels|)
    {
      sum, N, W := seq(|hashcount|, _ => 0), 0, 0;
      var i := 0;
      assert UsedSet(used[..0]) == {};
      while i < |rels|
        invariant i <= |rels| && |sum| == |hashcount| && N == |UsedSet(used[..i])| && W == Weight(rels, used, i)
        invariant forall h: nat :: h < |sum| && hashcount[h] == 2 ==> sum[h] == IndexSum(rels, used, h, i)
      {
        OneMore(used, i);
        if used[i] {
          sum := AddIndex(sum, i);
          N, W := N + 1, W + |rels[i]|;
        }
        i := i + 1;
      }
      assert used[..i] == used;
    }

    method AddIndex(sum0: seq<nat>, i: nat) returns (sum: seq<nat>)
      requires Valid() && i < |rels| && |sum0| == |hashcount|
      ensures |sum| == |sum0|
      ensures forall h: nat :: h < |sum| && hashcount[h] == 2 ==> sum[h] == sum0[h] + multiset(rels[i])[h] * i
    {
      hide Count, Present, UsedSet;
      var tab := rels[i];
      sum := sum0;
      var j := 0;
      while j < |tab|
        invariant j <= |tab| && |sum| == |sum0|
        invariant forall h: nat :: h < |sum| && hashcount[h] == 2 ==> sum[h] == sum0[h] + multiset(tab[..j])[h] * i
      {
        forall x: nat
          ensures multiset(tab[..j + 1])[x] * i == multiset(tab[..j])[x] * i + if tab[j] == x then i else 0
        {
          CountSnoc(tab, j, x);
        }
        if hashcount[tab[j]] == 2 {
          sum := sum[tab[j] := sum[tab[j]] + i];
        }
        j := j + 1;
      }
      assert tab[..j] == tab;
    }

    /** compute_connected_component: marks what is connected with i through unmarked relations. */
    method ComputeConnectedComponent(T: array<bool>, i: nat, w0: nat, sum: seq<nat>) returns (n: nat, w: nat)
      requires Valid() && T.Length == |rels| && Summed(sum) && i < |rels| && used[i] && !T[i]
      modifies T
      ensures Explores(rels, used, UsedSet(old(T[..])), UsedSet(T[..]), i)
      ensures n == |UsedSet(T[..])| - |UsedSet(old(T[..]))|
      ensures w + Weight(rels, old(T[..]), |rels|) == w0 + Weight(rels, T[..], |rels|)
      decreases UsedSet(used) - UsedSet(T[..])
    {
      hide Count, Present, Connected, Linked, Exploring, Explores, IndexSum, Weight, UsedSet;
      ghost var m0 := T[..];
      n := 1;
      MarkSet(m0, i);
      WeightMark(rels, m0, i, |rels|);
      T[i] := true;
      assert T[..] == m0[i := true];
      IsUsed(used, i);
      ExploreStart(rels, used, UsedSet(m0), i);
      w := w0;
      var j := 0;
      while j < |rels[i]|
        invariant j <= |rels[i]| && Exploring(rels, used, UsedSet(m0), UsedSet(T[..]), i, j)
        invariant n == |UsedSet(T[..])| - |UsedSet(m0)|
        invariant w + Weight(rels, m0, |rels|) + |rels[i]| == w0 + Weight(rels, T[..], |rels|)
      {
        var h := rels[i][j];
        ghost var M := UsedSet(T[..]);
        if hashcount[h] == 2 {
          Neighbour(i, h);
          var k := sum[h] - i;
          IsUsed(T[..], k);
          IsUsed(T[..], i);
          if !T[k] {
            ExploringHas(rels, used, UsedSet(m0), M, i, j);
            SmallerRest(UsedSet(used), UsedSet(m0), M, i);
            var n', w' := ComputeConnectedComponent(T, k, w, sum);
            ExploreSon(rels, used, UsedSet(m0), M, UsedSet(T[..]), i, j, k);
            n, w := n + n', w';
          } else {
            ExploreSeen(rels, used, UsedSet(m0), M, i, j, k);
          }
        } else {
          ExploreSkip(rels, used, UsedSet(m0), M, i, j);
        }
        j := j + 1;
      }
      ExploreEnd(rels, used, UsedSet(m0), UsedSet(T[..]), i);
      w := w + |rels[i]|;
    }

    lemma Neighbour(i: nat, h: nat)
      requires Valid() && i < |rels| && used[i] && h in rels[i] && h < |hashcount| && hashcount[h] == 2
      ensures var k := IndexSum(rels, used, h, |rels|) - i; 0 <= k < |rels| && used[k] && IsOther(rels, used, i, h, k)
    {
      OtherRow(rels, used, h, i);
    }

    /** The list of components: the size of each one, and its first relation */
    method FindComponents() returns (list: seq<Component>)
      requires Valid()
      ensures Representatives(rels, used, list) && InOrder(rels, used, list)
    {
      hide Count, Present, Connected, Linked, Explores, IndexSum, Weight, UsedSet, Listed, ComponentOf, Summed;
      var sum, N, W := CollectSums();
      var T := new bool[|rels|](_ => false);
      list := [];
      NoneListed(rels, used, T[..]);
      var i := 0;
      while i < |rels|
        invariant i <= |rels| && T.Length == |rels| && fresh(T) && Listed(rels, used, UsedSet(T[..]), list)
        invariant forall x: nat :: x < i && used[x] ==> x in UsedSet(T[..])
        invariant InOrder(rels, used, list) && forall k :: 0 <= k < |list| ==> list[k].i < i
      {
        IsUsed(T[..], i);
        ghost var M := UsedSet(T[..]);
        if used[i] && !T[i] {
          IsUsed(used, i);
          var n, w := ComputeConnectedComponent(T, i, 0, sum);
          StillMarked(rels, used, M, UsedSet(T[..]), i);
          ListedMore(rels, used, M, UsedSet(T[..]), list, i, n);
          LeastUnmarked(rels, used, M, list, i);
          list := list + [Component(n, i)];
        }
        i := i + 1;
      }
      AllAreListed(rels, used, UsedSet(T[..]), list);
    }

    // ---------- Deleting components ----------

    /** Deletes the relations of the first components of tmp, until the excess is at most the target. */
    method DeleteFirst(tmp: seq<Component>, target: int) returns (ghost D: set<nat>)
      requires Valid() && (forall k :: 0 <= k < |tmp| ==> tmp[k].i < |used| && used[tmp[k].i])
      requires forall k, l :: 0 <= k < l < |tmp| ==> tmp[k].i != tmp[l].i
      modifies this
      ensures Valid() && |hashcount| == |old(hashcount)| && used == Minus(old(used), D) && nrel == old(nrel) - |D|
      ensures nrel == old(nrel) ==> nprimes == old(nprimes)
      ensures D == {} <==> tmp == [] || old(nrel) - old(nprimes) <= target
      ensures TakesFirst(rels, old(used), |old(hashcount)|, tmp, target, D)
    {
      hide Count, Present, Excess, UsedSet, FirstOf, Minus;
      D := {};
      MinusNone(used);
      NoFirst(tmp);
      var i := 0;
      while i < |tmp| && nrel - nprimes > target
        invariant i <= |tmp| && Valid() && |hashcount| == |old(hashcount)| && used == Minus(old(used), D)
        invariant nrel == old(nrel) - i && |D| == i && D == FirstOf(tmp, i)
        invariant i == 0 ==> nprimes == old(nprimes) && D == {}
        invariant i > 0 ==> old(nrel) - old(nprimes) > target
        invariant forall k :: 0 <= k < i ==> Excess(rels, Minus(old(used), FirstOf(tmp, k)), |old(hashcount)|) > target
      {
        ExcessIs();
        FirstMore(tmp, i);
        NotMinus(old(used), D, tmp[i].i);
        FewerUsed(used, tmp[i].i);
        DeleteRelation(tmp[i].i);
        MinusMore(old(used), D, tmp[i].i);
        D := D + {tmp[i].i};
        nrel := nrel - 1;
        i := i + 1;
      }
      ExcessIs();
    }

    /** Deletes one relation of each of the first components, until half of the excess above keep is gone.
        sort stands for qsort with the comparison of costs; D is the set of the deleted relations. */
    method DeleteHeavierRows(keep: int, sort: seq<Component> -> seq<Component>) returns (ghost D: set<nat>)
      requires Valid() && forall list :: multiset(sort(list)) == multiset(list)
      modifies this
      ensures Valid() && |hashcount| == |old(hashcount)| && used == Minus(old(used), D) && nrel == old(nrel) - |D|
      ensures D <= UsedSet(old(used)) && forall a, b :: a in D && b in D && a != b ==> !Connected(rels, old(used), a, b)
      ensures nrel == old(nrel) ==> nprimes == old(nprimes)
      ensures D == {} <==> Settled(old(nrel), old(nprimes), keep)
      ensures Heavier(rels, old(used), |old(hashcount)|, keep, sort, D)
    {
      hide Count, Present, Connected, Representatives, Excess, InOrder, UsedSet, FirstOf, Minus, TakesFirst, IsHalf, HalfTowardsZero;
      D := {};
      MinusNone(used);
      ExcessIs();
      ghost var x := nrel - nprimes + keep;
      if nrel - nprimes <= keep {
        NoneOf(used);
        return;
      }
      var list := FindComponents();
      var tmp := sort(list);
      Permuted(rels, used, list, tmp);
      RepresentativesAre(rels, used, tmp);
      var target := HalfTowardsZero(nrel - nprimes + keep);
      D := DeleteFirst(tmp, target);
      NothingToDelete(old(nrel), old(nprimes), keep);
      TakenApart(rels, old(used), |old(hashcount)|, tmp, target, D);
      IsTheHalf(x);
    }

    /** D is the set of the relations that are deleted for their cost. What remains is the greatest set without
        singletons that avoids D. The rounds are listed in hist and Ds. */
    method RemoveSingletons(keep: int, final: bool, sort: seq<Component> -> seq<Component>)
      returns (ghost D: set<nat>, ghost hist: seq<seq<bool>>, ghost Ds: seq<set<nat>>)
      requires Valid() && forall list :: multiset(sort(list)) == multiset(list)
      modifies this
      ensures Valid() && |hashcount| == |old(hashcount)| && NoSingleton(rels, used)
      ensures KeepsCores(rels, Minus(old(used), D), used)
      ensures !final ==> D == {} && Minus(old(used), D) == old(used)
      ensures final ==> Settled(nrel, nprimes, keep)
      ensures Rounds(rels, |hashcount|, keep, final, sort, hist, Ds) && hist[0] == old(used) && hist[|Ds|] == used && D == UnionOf(Ds)
      ensures Ds != [] && forall k :: 0 <= k < |Ds| ==> (hist[k + 1] == hist[k] <==> k == |Ds| - 1)
    {
      hide Count, Present, NoSingleton, UsedSet, KeepsCores, Connected, Heavier, OnePass;
      D, hist, Ds := {}, [used], [];
      MinusNone(used);
      AllCores(rels, used);
      var more := true;
      while more
        invariant Valid() && |hashcount| == |old(hashcount)|
        invariant KeepsCores(rels, Minus(old(used), D), used) && (!final ==> D == {})
        invariant !more ==> NoSingleton(rels, used) && (final ==> Settled(nrel, nprimes, keep))
        invariant Rounds(rels, |hashcount|, keep, final, sort, hist, Ds) && hist[0] == old(used) && hist[|Ds|] == used && D == UnionOf(Ds)
        invariant (!more ==> Ds != []) && forall k :: 0 <= k < |Ds| ==> (hist[k + 1] == hist[k] <==> !more && k == |Ds| - 1)
        decreases more, nrel
      {
        var last := nrel;
        ghost var before, E := used, {};
        MinusNone(used);
        if final {
          E := DeleteHeavierRows(keep, sort);
          CoresWithout(rels, old(used), D, before, E);
          D := D + E;
        }
        OnepassSingletonRemoval(Minus(old(used), D));
        more := nrel != last;
        SameCount(before, used);
        RoundsMore(rels, |hashcount|, keep, final, sort, hist, Ds, used, E);
        hist, Ds := hist + [used], Ds + [E];
      }
    }
  }

  lemma SameCount(u: seq<bool>, v: seq<bool>)
    ensures u == v ==> |UsedSet(u)| == |UsedSet(v)|
  {
  }

  ghost function UnionOf(Ds: seq<set<nat>>): set<nat> {
    set k, x | 0 <= k < |Ds| && x in Ds[k] :: x
  }

  /** The rounds of remove_singletons: relations are deleted for their cost, if this is the final call, and then one pass is made. */
  ghost predicate Rounds(rels: seq<seq<nat>>, n: nat, keep: int, final: bool, sort: seq<Component> -> seq<Component>,
                         hist: seq<seq<bool>>, Ds: seq<set<nat>>) {
    |hist| == |Ds| + 1 && forall k :: 0 <= k < |Ds| ==> IsRound(rels, n, keep, final, sort, hist[k], Ds[k], hist[k + 1])
  }

  ghost predicate IsRound(rels: seq<seq<nat>>, n: nat, keep: int, final: bool, sort: seq<Component> -> seq<Component>,
                          u: seq<bool>, E: set<nat>, v: seq<bool>) {
    (if final then Heavier(rels, u, n, keep, sort, E) else E == {}) && v == OnePass(rels, Minus(u, E), |rels|)
  }

  lemma RoundsMore(rels: seq<seq<nat>>, n: nat, keep: int, final: bool, sort: seq<Component> -> seq<Component>,
                   hist: seq<seq<bool>>, Ds: seq<set<nat>>, used: seq<bool>, E: set<nat>)
    requires Rounds(rels, n, keep, final, sort, hist, Ds)
    requires if final then Heavier(rels, hist[|Ds|], n, keep, sort, E) else E == {}
    requires used == OnePass(rels, Minus(hist[|Ds|], E), |rels|)
    ensures Rounds(rels, n, keep, final, sort, hist + [used], Ds + [E]) && UnionOf(Ds + [E]) == UnionOf(Ds) + E
  {
    hide IsRound, UnionOf;
    UnionMore(Ds, E);
    assert IsRound(rels, n, keep, final, sort, hist[|Ds|], E, used) by {
      RoundIs(rels, n, keep, final, sort, hist[|Ds|], E, used);
    }
    var hist', Ds' := hist + [used], Ds + [E];
    forall k | 0 <= k < |Ds'| ensures IsRound(rels, n, keep, final, sort, hist'[k], Ds'[k], hist'[k + 1]) {
      assert k < |Ds| ==> IsRound(rels, n, keep, final, sort, hist[k], Ds[k], hist[k + 1]);
    }
  }

  lemma RoundIs(rels: seq<seq<nat>>, n: nat, keep: int, final: bool, sort: seq<Component> -> seq<Component>, u: seq<bool>, E: set<nat>, v: seq<bool>)
    requires (if final then Heavier(rels, u, n, keep, sort, E) else E == {}) && v == OnePass(rels, Minus(u, E), |rels|)
    ensures IsRound(rels, n, keep, final, sort, u, E, v)
  {
  }

  lemma UnionMore(Ds: seq<set<nat>>, E: set<nat>)
    ensures UnionOf(Ds + [E]) == UnionOf(Ds) + E
  {
    var Ds' := Ds + [E];
    forall x ensures x in UnionOf(Ds') <==> x in UnionOf(Ds) + E {
      if x in UnionOf(Ds) {
        var k :| 0 <= k < |Ds| && x in Ds[k];
        assert x in Ds'[k];
      }
      if x in E {
        assert x in Ds'[|Ds|];
      }
    }
  }

  // ---------- Which relations are deleted for their cost ----------

  /** The relations of the first k components */
  ghost function FirstOf(tmp: seq<Component>, k: nat): set<nat> {
    set x | 0 <= x < k && x < |tmp| :: tmp[x].i
  }

  lemma FirstMore(tmp: seq<Component>, k: nat)
    requires k < |tmp| && forall l :: 0 <= l < k ==> tmp[l].i != tmp[k].i
    ensures FirstOf(tmp, k + 1) == FirstOf(tmp, k) + {tmp[k].i} && tmp[k].i !in FirstOf(tmp, k)
  {
  }

  lemma NoFirst(tmp: seq<Component>)
    ensures FirstOf(tmp, 0) == {}
  {
  }

  lemma NoneOf(used: seq<bool>)
    ensures {} <= UsedSet(used)
  {
  }

  lemma NotMinus(used: seq<bool>, D: set<nat>, i: nat)
    requires i < |used| && used[i] && i !in D
    ensures |Minus(used, D)| == |used| && Minus(used, D)[i]
  {
  }

  /** The deleted relations are in different components. */
  lemma TakenApart(rels: seq<seq<nat>>, used: seq<bool>, n: nat, tmp: seq<Component>, target: int, D: set<nat>)
    requires TakesFirst(rels, used, n, tmp, target, D) && Representatives(rels, used, tmp)
    ensures D <= UsedSet(used) && forall a, b :: a in D && b in D && a != b ==> !Connected(rels, used, a, b)
  {
    hide Connected, ComponentOf, Excess, Minus;
    RepresentativesAre(rels, used, tmp);
  }

  /** t is half of x, rounded towards zero. */
  ghost predicate IsHalf(x: int, t: int) {
    if x >= 0 then 2 * t <= x <= 2 * t + 1 else 2 * t - 1 <= x <= 2 * t
  }

  lemma IsTheHalf(x: int)
    ensures IsHalf(x, HalfTowardsZero(x))
  {
  }

  /** D has the relations of the first components of tmp. Before each deletion the excess was above the target; now it is not,
      or every component has lost a relation. */
  ghost predicate TakesFirst(rels: seq<seq<nat>>, used: seq<bool>, n: nat, tmp: seq<Component>, target: int, D: set<nat>) {
    && |D| <= |tmp| && D == FirstOf(tmp, |D|)
    && (forall k :: 0 <= k < |D| ==> Excess(rels, Minus(used, FirstOf(tmp, k)), n) > target)
    && (|D| == |tmp| || Excess(rels, Minus(used, D), n) <= target)
  }

  /** What deleteHeavierRows deletes, with n ideals */
  ghost predicate Heavier(rels: seq<seq<nat>>, used: seq<bool>, n: nat, keep: int, sort: seq<Component> -> seq<Component>, D: set<nat>) {
    if Excess(rels, used, n) <= keep then D == {}
    else exists list: seq<Component>, target: int ::
      && Representatives(rels, used, list) && InOrder(rels, used, list)
      && IsHalf(Excess(rels, used, n) + keep, target) && TakesFirst(rels, used, n, sort(list), target, D)
  }

  lemma SameComponent(rels: seq<seq<nat>>, used: seq<bool>, a: nat, b: nat)
    requires Connected(rels, used, a, b)
    ensures ComponentOf(rels, used, a) == ComponentOf(rels, used, b)
  {
    hide Connected;
    ConnectedSwap(rels, used, a, b);
    forall x ensures x in ComponentOf(rels, used, a) <==> x in ComponentOf(rels, used, b) {
      if Connected(rels, used, a, x) {
        ConnectedTrans(rels, used, b, a, x);
      }
      if Connected(rels, used, b, x) {
        ConnectedTrans(rels, used, a, b, x);
      }
    }
  }

  ghost predicate LargestFirst(tmp: seq<Component>) {
    forall k, l :: 0 <= k < l < |tmp| ==> tmp[k].n >= tmp[l].n
  }

  /** If the components are sorted by size, those that lose no relation are not larger than those that do. */
  lemma LargestGo(rels: seq<seq<nat>>, used: seq<bool>, tmp: seq<Component>, d: nat, a: nat, b: nat)
    requires Representatives(rels, used, tmp) && LargestFirst(tmp) && a in FirstOf(tmp, d)
    requires b in UsedSet(used) && forall c :: c in FirstOf(tmp, d) ==> !Connected(rels, used, c, b)
    ensures |ComponentOf(rels, used, b)| <= |ComponentOf(rels, used, a)|
  {
    hide Connected, ComponentOf;
    var l :| 0 <= l < |tmp| && Connected(rels, used, tmp[l].i, b);
    SameComponent(rels, used, tmp[l].i, b);
    var k :| 0 <= k < d && k < |tmp| && tmp[k].i == a;
    FirstHas(tmp, d, l);
  }

  lemma FirstHas(tmp: seq<Component>, d: nat, l: nat)
    ensures l < d && l < |tmp| ==> tmp[l].i in FirstOf(tmp, d)
  {
  }

  lemma OneMore(used: seq<bool>, i: nat)
    requires i < |used|
    ensures |UsedSet(used[..i + 1])| == |UsedSet(used[..i])| + if used[i] then 1 else 0
  {
    if used[i] {
      assert UsedSet(used[..i + 1]) == UsedSet(used[..i]) + {i};
    } else {
      assert UsedSet(used[..i + 1]) == UsedSet(used[..i]);
    }
  }

  lemma IsUsed(used: seq<bool>, i: nat)
    requires i < |used|
    ensures i in UsedSet(used) <==> used[i]
  {
  }

  // ---------- The search for a component ----------

  /** k is connected with i by h, and h is in no relation but these two. */
  ghost predicate IsOther(rels: seq<seq<nat>>, used: seq<bool>, i: nat, h: nat, k: nat) {
    Linked(rels, used, i, k) && forall b: nat :: Holds(rels, used, b, h) ==> b == i || b == k
  }

  /** What a search from i marks besides m: relations connected with i, and all that they are linked with */
  ghost predicate Explores(rels: seq<seq<nat>>, used: seq<bool>, m: set<nat>, m': set<nat>, i: nat) {
    && m + {i} <= m'
    && (forall x :: x in m' && x !in m ==> Connected(rels, used, i, x))
    && (forall x, y :: x in m' && x !in m && Linked(rels, used, x, y) ==> y in m')
  }

  /** The same in the middle of the search, when the first j ideals of i are done */
  ghost predicate Exploring(rels: seq<seq<nat>>, used: seq<bool>, m: set<nat>, m': set<nat>, i: nat, j: nat) {
    && i < |rels| && j <= |rels[i]| && i !in m && m + {i} <= m'
    && (forall x :: x in m' && x !in m ==> Connected(rels, used, i, x))
    && (forall x, y :: x in m' && x !in m && x != i && Linked(rels, used, x, y) ==> y in m')
    && (forall l, y: nat :: 0 <= l < j && Count(rels, used, rels[i][l]) == 2 && Holds(rels, used, y, rels[i][l]) ==> y in m')
  }

  lemma ExploreStart(rels: seq<seq<nat>>, used: seq<bool>, m: set<nat>, i: nat)
    requires i < |rels| && i in UsedSet(used) && i !in m
    ensures Exploring(rels, used, m, m + {i}, i, 0)
  {
    ConnectedSelf(rels, used, i);
  }

  lemma ExploringHas(rels: seq<seq<nat>>, used: seq<bool>, m: set<nat>, m': set<nat>, i: nat, j: nat)
    requires Exploring(rels, used, m, m', i, j)
    ensures i !in m && i in m' && m <= m'
  {
  }

  lemma SmallerRest(u: set<nat>, m: set<nat>, m': set<nat>, i: nat)
    requires i in u && i !in m && i in m' && m <= m'
    ensures u - m' < u - m
  {
    assert i in u - m;
  }

  lemma ExploreSkip(rels: seq<seq<nat>>, used: seq<bool>, m: set<nat>, m': set<nat>, i: nat, j: nat)
    requires Exploring(rels, used, m, m', i, j) && j < |rels[i]| && Count(rels, used, rels[i][j]) != 2
    ensures Exploring(rels, used, m, m', i, j + 1)
  {
    hide Count, Connected, Linked, Holds;
  }

  lemma ExploreSeen(rels: seq<seq<nat>>, used: seq<bool>, m: set<nat>, m': set<nat>, i: nat, j: nat, k: nat)
    requires Exploring(rels, used, m, m', i, j) && j < |rels[i]| && IsOther(rels, used, i, rels[i][j], k) && k in m'
    ensures Exploring(rels, used, m, m', i, j + 1)
  {
    hide Count, Connected, Linked, Holds;
  }

  lemma ExploreSon(rels: seq<seq<nat>>, used: seq<bool>, m: set<nat>, m': set<nat>, m'': set<nat>, i: nat, j: nat, k: nat)
    requires Exploring(rels, used, m, m', i, j) && j < |rels[i]| && IsOther(rels, used, i, rels[i][j], k)
    requires i in UsedSet(used) && Explores(rels, used, m', m'', k)
    ensures Exploring(rels, used, m, m'', i, j + 1)
  {
    hide Count, Connected, Linked, Holds;
    ConnectedSelf(rels, used, i);
    ConnectedNext(rels, used, i, i, k);
    forall x | x in m'' && x !in m ensures Connected(rels, used, i, x) {
      if x !in m' {
        ConnectedTrans(rels, used, i, k, x);
      }
    }
  }

  lemma ExploreEnd(rels: seq<seq<nat>>, used: seq<bool>, m: set<nat>, m': set<nat>, i: nat)
    requires i < |rels| && Exploring(rels, used, m, m', i, |rels[i]|)
    ensures Explores(rels, used, m, m', i)
  {
    hide Count, Connected;
    forall y: nat | Linked(rels, used, i, y) ensures y in m' {
      var h: nat :| Holds(rels, used, i, h) && Holds(rels, used, y, h) && Count(rels, used, h) == 2;
      var l :| 0 <= l < |rels[i]| && rels[i][l] == h;
    }
  }

  // ---------- The list of components ----------

  /** comp_t: how many relations are in a component, and one of them */
  datatype Component = Component(n: nat, i: nat)

  ghost function ComponentOf(rels: seq<seq<nat>>, used: seq<bool>, i: nat): set<nat> {
    set x | x in UsedSet(used) && Connected(rels, used, i, x)
  }

  /** The relations of the list are in m, and come with the sizes of their components. */
  ghost predicate Sized(rels: seq<seq<nat>>, used: seq<bool>, m: set<nat>, list: seq<Component>) {
    forall k :: 0 <= k < |list| ==> list[k].i in m && list[k].n == |ComponentOf(rels, used, list[k].i)|
  }

  /** They are in different components. */
  ghost predicate Apart(rels: seq<seq<nat>>, used: seq<bool>, list: seq<Component>) {
    forall k, l :: 0 <= k < |list| && 0 <= l < |list| && k != l ==> !Connected(rels, used, list[k].i, list[l].i)
  }

  /** Every relation of m is in the component of one of them. */
  ghost predicate Covers(rels: seq<seq<nat>>, used: seq<bool>, m: set<nat>, list: seq<Component>) {
    forall x :: x in m ==> exists k :: 0 <= k < |list| && Connected(rels, used, list[k].i, x)
  }

  /** The list holds one relation of each component, with the size of the component. */
  ghost predicate Representatives(rels: seq<seq<nat>>, used: seq<bool>, list: seq<Component>) {
    Sized(rels, used, UsedSet(used), list) && Apart(rels, used, list) && Covers(rels, used, UsedSet(used), list)
  }

  /** The same for the components that are marked */
  ghost predicate Listed(rels: seq<seq<nat>>, used: seq<bool>, m: set<nat>, list: seq<Component>) {
    && m <= UsedSet(used) && Closed(rels, used, m)
    && Sized(rels, used, m, list) && Apart(rels, used, list) && Covers(rels, used, m, list)
  }

  lemma NoneListed(rels: seq<seq<nat>>, used: seq<bool>, marks: seq<bool>)
    requires forall k :: 0 <= k < |marks| ==> !marks[k]
    ensures Listed(rels, used, UsedSet(marks), [])
  {
    assert UsedSet(marks) == {};
  }

  lemma AllAreListed(rels: seq<seq<nat>>, used: seq<bool>, m: set<nat>, list: seq<Component>)
    requires Listed(rels, used, m, list) && |used| == |rels| && forall x: nat :: x < |rels| && used[x] ==> x in m
    ensures Representatives(rels, used, list)
  {
    hide Connected, Closed, ComponentOf;
    assert m == UsedSet(used);
  }

  /** A search from an unmarked relation marks its component. */
  lemma MarksComponent(rels: seq<seq<nat>>, used: seq<bool>, m: set<nat>, m': set<nat>, i: nat)
    requires m <= UsedSet(used) && Closed(rels, used, m) && Explores(rels, used, m, m', i) && i !in m && i in UsedSet(used)
    ensures Closed(rels, used, m') && m' <= UsedSet(used) && m' - m == ComponentOf(rels, used, i)
  {
    hide Linked;
    assert Closed(rels, used, m');
    forall x ensures x in m' - m <==> x in ComponentOf(rels, used, i) {
      if x in ComponentOf(rels, used, i) && x in m {
        ConnectedSwap(rels, used, i, x);
      }
    }
  }

  lemma ListedMore(rels: seq<seq<nat>>, used: seq<bool>, m: set<nat>, m': set<nat>, list: seq<Component>, i: nat, n: nat)
    requires Listed(rels, used, m, list) && Explores(rels, used, m, m', i) && i !in m && i in UsedSet(used) && n == |m'| - |m|
    ensures Listed(rels, used, m', list + [Component(n, i)])
  {
    MarksComponent(rels, used, m, m', i);
    NotAcross(rels, used, m, list, i);
    assert m <= m' by {
      StillMarked(rels, used, m, m', i);
    }
    assert |m'| == |m| + |m' - m| by {
      assert m' == m + (m' - m);
    }
    ComponentAdded(rels, used, m, m', list, i, n);
  }

  /** The list goes through the relations in order, and has the first one of each component. */
  ghost predicate InOrder(rels: seq<seq<nat>>, used: seq<bool>, list: seq<Component>) {
    && (forall k, l :: 0 <= k < l < |list| ==> list[k].i < list[l].i)
    && forall k, x: nat :: 0 <= k < |list| && Connected(rels, used, list[k].i, x) ==> list[k].i <= x
  }

  /** If all relations before i are marked, i is the first one of its component. */
  lemma LeastUnmarked(rels: seq<seq<nat>>, used: seq<bool>, m: set<nat>, list: seq<Component>, i: nat)
    requires Listed(rels, used, m, list) && i !in m && i in UsedSet(used)
    requires forall x: nat :: x < i && x < |used| && used[x] ==> x in m
    ensures forall x: nat :: Connected(rels, used, i, x) ==> i <= x
  {
    hide Linked, ComponentOf, Sized, Apart, Covers;
    forall x: nat | Connected(rels, used, i, x) ensures i <= x {
      if x < i {
        ConnectedSwap(rels, used, i, x);
      }
    }
  }

  lemma StillMarked(rels: seq<seq<nat>>, used: seq<bool>, m: set<nat>, m': set<nat>, i: nat)
    requires Explores(rels, used, m, m', i)
    ensures m <= m' && i in m'
  {
  }

  /** Nothing marked is connected with an unmarked relation. */
  lemma NotAcross(rels: seq<seq<nat>>, used: seq<bool>, m: set<nat>, list: seq<Component>, i: nat)
    requires Listed(rels, used, m, list) && i !in m
    ensures forall k :: 0 <= k < |list| ==> !Connected(rels, used, list[k].i, i) && !Connected(rels, used, i, list[k].i)
  {
    hide Linked, ComponentOf;
    forall k | 0 <= k < |list| ensures !Connected(rels, used, list[k].i, i) && !Connected(rels, used, i, list[k].i) {
      if Connected(rels, used, i, list[k].i) {
        ConnectedSwap(rels, used, i, list[k].i);
      }
    }
  }

  lemma ComponentAdded(rels: seq<seq<nat>>, used: seq<bool>, m: set<nat>, m': set<nat>, list: seq<Component>, i: nat, n: nat)
    requires Listed(rels, used, m, list) && m <= m' <= UsedSet(used) && Closed(rels, used, m') && i in m'
    requires m' - m == ComponentOf(rels, used, i) && n == |m' - m|
    requires forall k :: 0 <= k < |list| ==> !Connected(rels, used, list[k].i, i) && !Connected(rels, used, i, list[k].i)
    ensures Listed(rels, used, m', list + [Component(n, i)])
  {
    hide Connected, Closed, ComponentOf, UsedSet, Apart, Covers;
    ApartMore(rels, used, list, Component(n, i));
    CoversMore(rels, used, m, m', list, Component(n, i));
  }

  lemma ApartMore(rels: seq<seq<nat>>, used: seq<bool>, list: seq<Component>, c: Component)
    requires Apart(rels, used, list)
    requires forall k :: 0 <= k < |list| ==> !Connected(rels, used, list[k].i, c.i) && !Connected(rels, used, c.i, list[k].i)
    ensures Apart(rels, used, list + [c])
  {
    hide Connected;
  }

  lemma CoversMore(rels: seq<seq<nat>>, used: seq<bool>, m: set<nat>, m': set<nat>, list: seq<Component>, c: Component)
    requires Covers(rels, used, m, list) && m' - m == ComponentOf(rels, used, c.i)
    ensures Covers(rels, used, m', list + [c])
  {
    hide Connected;
    var more := list + [c];
    forall x | x in m' ensures exists k :: 0 <= k < |more| && Connected(rels, used, more[k].i, x) {
      if x in m {
        var k :| 0 <= k < |list| && Connected(rels, used, list[k].i, x);
        assert more[k] == list[k];
      } else {
        assert x in ComponentOf(rels, used, c.i);
        assert more[|list|] == c;
      }
    }
  }

  lemma {:induction false} TwoPlaces<X>(s: seq<X>, k: nat, l: nat)
    requires k < l < |s| && s[k] == s[l]
    ensures multiset(s)[s[k]] >= 2
  {
    assert s == s[..l] + s[l..];
    assert s[k] in multiset(s[..l]) by {
      assert s[..l][k] == s[k];
    }
    assert s[l] in multiset(s[l..]) by {
      assert s[l..][0] == s[l];
    }
  }

  lemma {:induction false} PlacesOf<X>(s: seq<X>, x: X) returns (k: nat, l: nat)
    requires multiset(s)[x] >= 2
    ensures k < l < |s| && s[k] == x == s[l]
    decreases |s|
  {
    var n := |s| - 1;
    assert s == s[..n] + [s[n]];
    if s[n] == x {
      l := n;
      assert x in s[..n];
      k :| 0 <= k < n && s[..n][k] == x;
    } else {
      k, l := PlacesOf(s[..n], x);
    }
  }

  /** Sorting does not matter. */
  lemma Permuted(rels: seq<seq<nat>>, used: seq<bool>, list: seq<Component>, tmp: seq<Component>)
    requires Representatives(rels, used, list) && multiset(tmp) == multiset(list)
    ensures Representatives(rels, used, tmp)
  {
    hide Connected, ComponentOf;
    forall k | 0 <= k < |tmp| ensures tmp[k] in list {
      assert tmp[k] in multiset(tmp);
    }
    forall k, l | 0 <= k < |tmp| && 0 <= l < |tmp| && k != l ensures !Connected(rels, used, tmp[k].i, tmp[l].i) {
      PairPermuted(rels, used, list, tmp, k, l);
    }
    forall x | x in UsedSet(used) ensures exists k :: 0 <= k < |tmp| && Connected(rels, used, tmp[k].i, x) {
      var k :| 0 <= k < |list| && Connected(rels, used, list[k].i, x);
      assert list[k] in multiset(list);
      var l :| 0 <= l < |tmp| && tmp[l] == list[k];
    }
  }

  lemma PairPermuted(rels: seq<seq<nat>>, used: seq<bool>, list: seq<Component>, tmp: seq<Component>, k: nat, l: nat)
    requires Representatives(rels, used, list) && multiset(tmp) == multiset(list) && k < |tmp| && l < |tmp| && k != l
    ensures !Connected(rels, used, tmp[k].i, tmp[l].i)
  {
    hide Connected, ComponentOf;
    assert tmp[k] in multiset(tmp) && tmp[l] in multiset(tmp);
    if tmp[k] == tmp[l] {
      TwoPlaces(tmp, if k < l then k else l, if k < l then l else k);
      var k', l' := PlacesOf(list, tmp[k]);
    } else {
      var k' :| 0 <= k' < |list| && list[k'] == tmp[k];
      var l' :| 0 <= l' < |list| && list[l'] == tmp[l];
    }
  }

  lemma RepresentativesAre(rels: seq<seq<nat>>, used: seq<bool>, list: seq<Component>)
    requires Representatives(rels, used, list)
    ensures forall k :: 0 <= k < |list| ==> list[k].i < |used| && used[list[k].i]
    ensures forall k, l :: 0 <= k < |list| && 0 <= l < |list| && k != l ==>
      list[k].i != list[l].i && !Connected(rels, used, list[k].i, list[l].i)
    ensures list == [] <==> |UsedSet(used)| == 0
  {
    hide Connected, ComponentOf;
    forall k, l | 0 <= k < |list| && 0 <= l < |list| && k != l ensures list[k].i != list[l].i {
      ConnectedSelf(rels, used, list[k].i);
    }
    if list != [] {
      assert list[0].i in UsedSet(used);
    } else {
      assert forall x :: x !in UsedSet(used);
      assert UsedSet(used) == {};
    }
  }

  // ---------- What deleting a relation does to its component ----------

  /** used without the relations of D */
  ghost function Minus(used: seq<bool>, D: set<nat>): seq<bool> {
    seq(|used|, i requires 0 <= i < |used| => used[i] && i !in D)
  }

  lemma MinusNone(used: seq<bool>)
    ensures Minus(used, {}) == used
  {
  }

  lemma MinusMore(used: seq<bool>, D: set<nat>, i: nat)
    requires i < |used|
    ensures Minus(used, D)[i := false] == Minus(used, D + {i})
  {
  }

  /** A set without singletons that avoids a relation avoids its whole component. So deleting one relation of each
      component is enough. */
  lemma ComponentGoes(rels: seq<seq<nat>>, used: seq<bool>, u: seq<bool>, a: nat, b: nat)
    requires |used| == |rels| && Within(u, used) && NoSingleton(rels, u) && Connected(rels, used, a, b) && !u[a]
    ensures !u[b]
  {
    var s := UsedSet(used) - UsedSet(u);
    forall x, y | x in s && Linked(rels, used, x, y) ensures y in s {
      LinkGoes(rels, used, u, x, y);
    }
    assert Closed(rels, used, s);
  }

  lemma LinkGoes(rels: seq<seq<nat>>, used: seq<bool>, u: seq<bool>, a: nat, b: nat)
    requires |used| == |rels| && Within(u, used) && NoSingleton(rels, u) && Linked(rels, used, a, b) && !u[a]
    ensures b < |u| && !u[b] && used[b]
  {
    var h: nat :| Holds(rels, used, a, h) && Holds(rels, used, b, h) && Count(rels, used, h) == 2;
    if u[b] {
      CountLeft(rels, used, u, a, b, h);
    }
  }

  /** Of an ideal of weight 2, one occurrence is left. */
  lemma CountLeft(rels: seq<seq<nat>>, used: seq<bool>, u: seq<bool>, a: nat, b: nat, h: nat)
    requires |used| == |rels| && Within(u, used) && Holds(rels, used, a, h) && Holds(rels, used, b, h)
    requires Count(rels, used, h) == 2 && !u[a] && u[b]
    ensures h in rels[b] && Count(rels, u, h) == 1
  {
    OccurrencesMonotone(rels, u, used[a := false], h, |rels|);
    CountDrop(rels, used, a, h);
    OccursAtLeast(rels, u, b, h, |rels|);
    assert multiset(rels[a])[h] >= 1 && multiset(rels[b])[h] >= 1;
  }

  /** The greatest set without singletons, when some more relations are to be avoided */
  lemma CoresWithout(rels: seq<seq<nat>>, start: seq<bool>, D: set<nat>, used: seq<bool>, E: set<nat>)
    requires KeepsCores(rels, Minus(start, D), used)
    ensures KeepsCores(rels, Minus(start, D + E), Minus(used, E))
  {
    hide NoSingleton;
    assert Within(Minus(used, E), Minus(start, D + E));
    forall u: seq<bool> | Within(u, Minus(start, D + E)) && NoSingleton(rels, u) ensures Within(u, Minus(used, E)) {
      assert Within(u, Minus(start, D));
      assert Within(u, used);
    }
  }

  /** One pass over the relations need not find them all: when relation 0 is deleted, relation 1 is passed before
      relation 2 goes, and then relation 1 has a singleton. */
  lemma OnePassLeaves()
    ensures var rels := [[0], [1], [0, 1]];
      && NoSingleton(rels, [true, true, true])
      && Count(rels, [false, true, true], 1) == 2 && Count(rels, [false, true, true], 0) == 1
      && Count(rels, [false, true, false], 1) == 1
  {
    var rels: seq<seq<nat>> := [[0], [1], [0, 1]];
    forall used: seq<bool>, h: nat | |used| == 3
      ensures Count(rels, used, h) == (if used[0] && h == 0 then 1 else 0) + (if used[1] && h == 1 then 1 else 0)
        + (if used[2] && h <= 1 then 1 else 0)
    {
      CountOfThree(used, h);
    }
  }

  lemma CountOfThree(used: seq<bool>, h: nat)
    requires |used| == 3
    ensures Count([[0], [1], [0, 1]], used, h) == (if used[0] && h == 0 then 1 else 0) + (if used[1] && h == 1 then 1 else 0)
      + (if used[2] && h <= 1 then 1 else 0)
  {
    var rels: seq<seq<nat>> := [[0], [1], [0, 1]];
    assert Occurrences(rels, used, h, 1) == if used[0] && h == 0 then 1 else 0;
    assert Occurrences(rels, used, h, 2) == Occurrences(rels, used, h, 1) + if used[1] && h == 1 then 1 else 0;
    assert multiset(rels[2]) == multiset{0, 1};
    assert Occurrences(rels, used, h, 3) == Occurrences(rels, used, h, 2) + if used[2] && h <= 1 then 1 else 0;
  }

  /** The greatest set without singletons does not depend on the order of deletions. */
  lemma GreatestCore(rels: seq<seq<nat>>, start: seq<bool>, u: seq<bool>, v: seq<bool>)
    requires NoSingleton(rels, u) && KeepsCores(rels, start, u) && NoSingleton(rels, v) && KeepsCores(rels, start, v)
    ensures u == v
  {
    assert Within(u, v) && Within(v, u);
  }

  lemma AllCores(rels: seq<seq<nat>>, used: seq<bool>)
    ensures KeepsCores(rels, used, used)
  {
  }

  /** When the loop over the components deletes nothing, although the excess is above keep */
  lemma NothingToDelete(nrel: int, nprimes: int, keep: int)
    requires nrel - nprimes > keep
    ensures nrel - nprimes <= HalfTowardsZero(nrel - nprimes + keep) <==> keep < 0 && nrel - nprimes == keep + 1
  {
  }

  /** With keep = -2 and an excess of -1 the target is -1, so that nothing is deleted. */
  lemma RoundingLeaves()
    ensures HalfTowardsZero(-1 + -2) == -1 && Settled(1, 2, -2) && !(1 - 2 <= -2)
  {
  }

  /** Nothing is deleted: the excess is at most keep. For a negative keep the target is rounded up, so that
      an excess of keep + 1 also stays, and there may be no relation left. */
  predicate Settled(nrel: int, nprimes: int, keep: int) {
    nrel - nprimes <= keep || (keep < 0 && (nrel - nprimes == keep + 1 || nrel == 0))
  }

  /** The quotient of C, which rounds towards zero */
  function HalfTowardsZero(x: int): int {
    if x >= 0 then x / 2 else -((-x) / 2)
  }

  lemma CountDrop(rels: seq<seq<nat>>, used: seq<bool>, i: nat, h: nat)
    requires |used| == |rels| && i < |rels| && used[i]
    ensures Count(rels, used[i := false], h) == Count(rels, used, h) - multiset(rels[i])[h]
  {
    OccurrencesDrop(rels, used, i, h, |rels|);
  }

  ghost predicate NoneBefore(rels: seq<seq<nat>>, used: seq<bool>, n: nat) {
    |used| == |rels| && forall i, h: nat :: 0 <= i < n && i < |rels| && used[i] && h in rels[i] ==> Count(rels, used, h) != 1
  }

  lemma NoneAtAll(rels: seq<seq<nat>>, used: seq<bool>)
    ensures NoneBefore(rels, used, |rels|) ==> NoSingleton(rels, used)
  {
  }
}
