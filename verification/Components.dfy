/** filter/purge.c: relations that share an ideal of weight 2 are connected. */
module Components {

  /** How often ideal h occurs in the used relations among the first n */
  ghost function Occurrences(rels: seq<seq<nat>>, used: seq<bool>, h: nat, n: nat): nat {
    if n == 0 || n > |rels| || n > |used| then 0
    else Occurrences(rels, used, h, n - 1) + if used[n - 1] then multiset(rels[n - 1])[h] else 0
  }

  ghost function Count(rels: seq<seq<nat>>, used: seq<bool>, h: nat): nat {
    Occurrences(rels, used, h, |rels|)
  }

  ghost function UsedSet(used: seq<bool>): set<nat> {
    set i: nat | i < |used| && used[i]
  }

  // ---------- The relation ----------

  ghost predicate Holds(rels: seq<seq<nat>>, used: seq<bool>, a: nat, h: nat) {
    a < |rels| == |used| && used[a] && h in rels[a]
  }

  /** a and b are used and contain a common ideal of weight 2. */
  ghost predicate Linked(rels: seq<seq<nat>>, used: seq<bool>, a: nat, b: nat) {
    exists h: nat :: Holds(rels, used, a, h) && Holds(rels, used, b, h) && Count(rels, used, h) == 2
  }

  ghost predicate Closed(rels: seq<seq<nat>>, used: seq<bool>, s: set<nat>) {
    forall a, b :: a in s && Linked(rels, used, a, b) ==> b in s
  }

  /** b is in every closed set that contains a: a and b are in one component. */
  ghost predicate Connected(rels: seq<seq<nat>>, used: seq<bool>, a: nat, b: nat) {
    a in UsedSet(used) && b in UsedSet(used) && forall s: set<nat> :: a in s && Closed(rels, used, s) ==> b in s
  }

  lemma ConnectedSelf(rels: seq<seq<nat>>, used: seq<bool>, a: nat)
    requires a in UsedSet(used)
    ensures Connected(rels, used, a, a)
  {
  }

  lemma ConnectedNext(rels: seq<seq<nat>>, used: seq<bool>, a: nat, b: nat, c: nat)
    requires Connected(rels, used, a, b) && Linked(rels, used, b, c)
    ensures Connected(rels, used, a, c)
  {
  }

  lemma ConnectedTrans(rels: seq<seq<nat>>, used: seq<bool>, a: nat, b: nat, c: nat)
    requires Connected(rels, used, a, b) && Connected(rels, used, b, c)
    ensures Connected(rels, used, a, c)
  {
  }

  lemma LinkedSwap(rels: seq<seq<nat>>, used: seq<bool>, a: nat, b: nat)
    requires Linked(rels, used, a, b)
    ensures Linked(rels, used, b, a) && a in UsedSet(used) && b in UsedSet(used)
  {
  }

  /** What is outside of a closed set is closed, too. */
  lemma ConnectedSwap(rels: seq<seq<nat>>, used: seq<bool>, a: nat, b: nat)
    requires Connected(rels, used, a, b)
    ensures Connected(rels, used, b, a)
  {
    hide Linked;
    forall s: set<nat> | b in s && Closed(rels, used, s) ensures a in s {
      var t := UsedSet(used) - s;
      forall x, y | x in t && Linked(rels, used, x, y) ensures y in t {
        LinkedSwap(rels, used, x, y);
      }
      assert Closed(rels, used, t);
    }
  }

  // ---------- Sums of row numbers ----------

  /** The sum of the numbers of the used relations among the first n that contain h, with multiplicity */
  ghost function IndexSum(rels: seq<seq<nat>>, used: seq<bool>, h: nat, n: nat): nat {
    if n == 0 || n > |rels| || n > |used| then 0
    else IndexSum(rels, used, h, n - 1) + if used[n - 1] then multiset(rels[n - 1])[h] * (n - 1) else 0
  }

  /** An ideal of weight 2 is in the relations x and y, and in no others. */
  lemma {:induction false} TwoRows(rels: seq<seq<nat>>, used: seq<bool>, h: nat, n: nat) returns (x: nat, y: nat)
    requires |used| == |rels| && n <= |rels| && Occurrences(rels, used, h, n) <= 2
    ensures Occurrences(rels, used, h, n) == 0 ==>
      IndexSum(rels, used, h, n) == 0 && forall i: nat :: i < n ==> !Holds(rels, used, i, h)
    ensures Occurrences(rels, used, h, n) == 1 ==>
      IndexSum(rels, used, h, n) == x && forall i: nat :: i < n ==> (Holds(rels, used, i, h) <==> i == x)
    ensures Occurrences(rels, used, h, n) >= 1 ==> x < n
    ensures Occurrences(rels, used, h, n) == 2 ==>
      y < n && IndexSum(rels, used, h, n) == x + y && forall i: nat :: i < n ==> (Holds(rels, used, i, h) <==> i == x || i == y)
    decreases n
  {
    x, y := 0, 0;
    if n > 0 {
      x, y := TwoRows(rels, used, h, n - 1);
      if Holds(rels, used, n - 1, h) {
        assert multiset(rels[n - 1])[h] >= 1;
        var c := multiset(rels[n - 1])[h];
        if Occurrences(rels, used, h, n - 1) == 1 {
          y := n - 1;
        } else if c == 2 {
          x, y := n - 1, n - 1;
        } else {
          x := n - 1;
        }
      } else if used[n - 1] {
        assert multiset(rels[n - 1])[h] == 0;
      }
    }
  }

  /** sum[h] - i is the other relation with h. */
  lemma OtherRow(rels: seq<seq<nat>>, used: seq<bool>, h: nat, i: nat)
    requires |used| == |rels| && Holds(rels, used, i, h) && Count(rels, used, h) == 2
    ensures var k := IndexSum(rels, used, h, |rels|) - i;
      k >= 0 && Linked(rels, used, i, k) && forall b: nat :: Holds(rels, used, b, h) ==> b == i || b == k
  {
    var x, y := TwoRows(rels, used, h, |rels|);
    assert Holds(rels, used, x, h) && Holds(rels, used, y, h);
  }

  /** The number of ideals in the marked relations among the first n */
  ghost function Weight(rels: seq<seq<nat>>, marks: seq<bool>, n: nat): nat {
    if n == 0 || n > |rels| || n > |marks| then 0
    else Weight(rels, marks, n - 1) + if marks[n - 1] then |rels[n - 1]| else 0
  }

  lemma {:induction false} WeightMark(rels: seq<seq<nat>>, marks: seq<bool>, i: nat, n: nat)
    requires |marks| == |rels| && n <= |rels| && i < |rels| && !marks[i]
    ensures Weight(rels, marks[i := true], n) == Weight(rels, marks, n) + if i < n then |rels[i]| else 0
    decreases n
  {
    if n > 0 {
      WeightMark(rels, marks, i, n - 1);
    }
  }

  lemma MarkSet(marks: seq<bool>, i: nat)
    requires i < |marks| && !marks[i]
    ensures UsedSet(marks[i := true]) == UsedSet(marks) + {i} && |UsedSet(marks[i := true])| == |UsedSet(marks)| + 1
  {
    assert UsedSet(marks[i := true]) == UsedSet(marks) + {i};
  }
}
