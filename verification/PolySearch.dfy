/** polyselect/polyselect2.c, newAlgo: the collisions in the hash tables are the polynomial pairs near m0. */
module PolySearch {
  import opened Congruence
  import opened Collisions
  import opened Kleinjung

  /** N, the degree, the leading coefficient, and the centre of the search */
  datatype Setting = Setting(N: int, d: nat, ad: int, m0: int) {
    ghost predicate Sound() {
      d >= 2 && ad >= 1
    }

    /** d^d ad^(d-1) N */
    ghost function Target(): int
      requires Sound()
    {
      Ntilde(N, d, ad)
    }

    /** p and q that divide d ad are skipped. */
    predicate Usable(p: int) {
      p > 0 && (d * ad) % p != 0
    }

    /** r lists the roots of x^d = Ntilde modulo the prime p, unless p is skipped. */
    ghost predicate GoodPrime(p: int, r: seq<int>)
      requires Sound()
    {
      Prime(p) && Coprime(N, p) && (Usable(p) ==> IsRootList(r, Target(), d, p))
    }

    /** The entries (p, i) of the hash table for q and its root rq: all hits between -p^2 and p^2 - 1 */
    ghost predicate Wanted(primes: seq<nat>, q: int, rq: int, e: Entry)
      requires Sound()
    {
      e.0 in primes && Usable(e.0) && InSquare(e.1, e.0) && IsHit(e.0, e.1, q, rq, m0, d, Target())
    }

    /** mtilde is so near to m0 that it is looked at for p and q, with k = p q. */
    ghost predicate Near(mtilde: int, k: int) {
      InSquare(mtilde - m0, k)
    }

    /** What is searched: mtilde near m0 such that l^2 divides mtilde^d - Ntilde for l = p1 p2 q */
    ghost predicate Candidate(primes: seq<nat>, p1: nat, p2: nat, q: nat, mtilde: int)
      requires Sound()
    {
      && p1 in primes && p2 in primes && p1 != p2 && Usable(p1) && Usable(p2)
      && Near(mtilde, p1 * q) && Near(mtilde, p2 * q)
      && Cong(Pow(mtilde, d), Target(), (p1 * p2 * q) * (p1 * p2 * q))
    }

    /** A polynomial of degree d with leading coefficient ad that has the root m/l modulo N; m comes from mtilde. Its other
        coefficients are as near as possible to what is left of N, and so they are small. */
    ghost predicate IsPair(r: Found) {
      && |r.f| == d + 1 && d >= 1 && r.f[d] == ad && r.l == r.p1 * r.p2 * r.q && Coprime(r.m, r.l)
      && Splits(r.m, r.f[d - 1], r.l, d, ad, r.mtilde) && Expands(r.f, r.m, r.l, N)
      && r.m != 0 && CloseFrom(r.f, r.m, r.l, N, 1) && Bounded(r.f, r.m, r.l)
    }
  }

  ghost predicate InSquare(i: int, k: int) {
    -(k * k) <= i < k * k
  }

  /** A polynomial, l x - m, and the collision that they come from */
  datatype Found = Found(f: seq<int>, m: int, l: int, p1: nat, p2: nat, q: nat, mtilde: int)

  ghost predicate Has(found: seq<Found>, p1: nat, p2: nat, q: nat, mtilde: int) {
    exists k :: 0 <= k < |found| && Comes(found[k], p1, p2, q, mtilde)
  }

  ghost predicate Comes(r: Found, p1: nat, p2: nat, q: nat, mtilde: int) {
    r.q == q && r.mtilde == mtilde && ((r.p1 == p1 && r.p2 == p2) || (r.p1 == p2 && r.p2 == p1))
  }

  lemma HasMore(found: seq<Found>, more: seq<Found>, p1: nat, p2: nat, q: nat, mtilde: int)
    requires Has(found, p1, p2, q, mtilde) || Has(more, p1, p2, q, mtilde)
    ensures Has(found + more, p1, p2, q, mtilde)
  {
    if Has(found, p1, p2, q, mtilde) {
      var k :| 0 <= k < |found| && Comes(found[k], p1, p2, q, mtilde);
      assert Comes((found + more)[k], p1, p2, q, mtilde);
    } else {
      var k :| 0 <= k < |more| && Comes(more[k], p1, p2, q, mtilde);
      assert Comes((found + more)[|found| + k], p1, p2, q, mtilde);
    }
  }

  // ---------- Numbers ----------

  lemma UsableGood(s: Setting, p: int)
    requires s.Sound() && Prime(p) && Coprime(s.N, p) && s.Usable(p)
    ensures p > 1 && GoodFactor(p, s.N, s.d, s.ad) && Coprime(s.Target(), p)
  {
    hide Coprime, Divides, Pow, Ntilde;
    DividesMod(p, s.d * s.ad);
    PrimeCoprime(p, s.d * s.ad);
    CoprimeFactor(s.d, s.ad, p);
    NtildeCoprime(s.N, s.d, s.ad, p);
  }

  lemma PrimesCoprime(p: int, q: int)
    requires Prime(p) && Prime(q) && p != q
    ensures Coprime(p, q)
  {
    if Divides(q, p) {
      DividesMod(q, p);
      if q > p {
        SmallMultiple(q, p);
      }
    } else {
      PrimeCoprime(q, p);
    }
  }

  lemma PrimeAboveOne(p: int)
    requires Prime(p)
    ensures p > 1
  {
  }

  lemma SquareLess(q: nat, p: nat)
    requires q < p
    ensures q * q < p * p
  {
    assert p * p == (p - q) * (p + q) + q * q;
    assert (p - q) * (p + q) > 0;
  }

  /** Two numbers between -pp and pp - 1 and one between 0 and pp - 1, congruent modulo pp */
  lemma SameResidue(i: int, u: int, pp: int)
    requires pp > 0 && -pp <= i < pp && 0 <= u < pp && Cong(i, u, pp)
    ensures i == u || i == u - pp
  {
    if i >= 0 {
      CongResidues(i, u, pp);
    } else {
      DividesBy(pp, pp, 1);
      DividesPlus(pp, i - u, pp);
      SmallMultiple(pp, (i - u) + pp);
    }
  }

  // ---------- Roots modulo p^2, and the first hash table ----------

  /** R->p and R->roots: a prime and the roots of (m0 + r)^d = Ntilde modulo p^2 */
  datatype PrimeRoots = PrimeRoots(p: nat, roots: seq<int>)

  ghost predicate Kept(R: seq<PrimeRoots>, p: nat, y: int) {
    exists k :: 0 <= k < |R| && R[k].p == p && y in R[k].roots
  }

  /** R keeps all roots for all primes that are not skipped. */
  ghost predicate KeepsAll(R: seq<PrimeRoots>, s: Setting, primes: seq<nat>)
    requires s.Sound()
  {
    forall p: nat, y: int :: Kept(R, p, y) <==> p in primes && s.Usable(p) && IsLifted(y, s.Target(), s.d, s.m0, p)
  }

  lemma KeptMore(R: seq<PrimeRoots>, p: nat, lifted: seq<int>, p': nat, y: int)
    ensures Kept(R + [PrimeRoots(p, lifted)], p', y) <==> Kept(R, p', y) || (p' == p && y in lifted)
  {
    var R' := R + [PrimeRoots(p, lifted)];
    if Kept(R, p', y) {
      var k :| 0 <= k < |R| && R[k].p == p' && y in R[k].roots;
      assert R'[k].p == p' && y in R'[k].roots;
    }
    if p' == p && y in lifted {
      assert R'[|R|].p == p' && y in R'[|R|].roots;
    }
  }

  lemma KeepsMore(R: seq<PrimeRoots>, s: Setting, primes: seq<nat>, p: nat, lifted: seq<int>)
    requires s.Sound() && KeepsAll(R, s, primes)
    requires if s.Usable(p) then forall y :: y in lifted <==> IsLifted(y, s.Target(), s.d, s.m0, p) else lifted == []
    ensures KeepsAll(if lifted == [] then R else R + [PrimeRoots(p, lifted)], s, primes + [p])
  {
    hide IsLifted, Ntilde, Kept, Setting.Usable;
    var R' := if lifted == [] then R else R + [PrimeRoots(p, lifted)];
    forall p': nat, y: int
      ensures Kept(R', p', y) <==> p' in primes + [p] && s.Usable(p') && IsLifted(y, s.Target(), s.d, s.m0, p')
    {
      KeptMore(R, p, lifted, p', y);
      assert Kept(R, p', y) <==> p' in primes && s.Usable(p') && IsLifted(y, s.Target(), s.d, s.m0, p');
    }
  }

  /** The entries are those that are wanted for the primes. */
  ghost predicate Enters(entries: seq<Entry>, s: Setting, primes: seq<nat>, q: int, rq: int)
    requires s.Sound()
  {
    forall e: Entry :: e in entries <==> s.Wanted(primes, q, rq, e)
  }

  /** i is a hit for q = 1 if it is a root, up to a multiple of p^2. */
  lemma FirstHit(s: Setting, p: nat, i: int, y: int)
    requires s.Sound() && p > 0 && InSquare(i, p) && (i == y || i == y - p * p)
    ensures IsLifted(y, s.Target(), s.d, s.m0, p) ==> IsHit(p, i, 1, 0, s.m0, s.d, s.Target())
  {
    if IsLifted(y, s.Target(), s.d, s.m0, p) {
      hide Pow, Ntilde;
      var pp := p * p;
      assert s.m0 + 0 + i * (1 * 1) == s.m0 + i;
      DividesBy(pp, pp, 1);
      DividesBy(pp, (s.m0 + i) - (s.m0 + y), if i == y then 0 else -1);
      CongPow(s.m0 + i, s.m0 + y, s.d, pp);
      CongTrans(Pow(s.m0 + i, s.d), Pow(s.m0 + y, s.d), s.Target(), pp);
    }
  }

  /** A hit for q = 1 is a root or a root minus p^2. */
  lemma FirstRoot(s: Setting, p: nat, i: int) returns (y: int)
    requires s.Sound() && p > 0 && InSquare(i, p) && IsHit(p, i, 1, 0, s.m0, s.d, s.Target())
    ensures IsLifted(y, s.Target(), s.d, s.m0, p) && (i == y || i == y - p * p)
  {
    hide Pow, Ntilde;
    var pp := p * p;
    y := if i >= 0 then i else i + pp;
    assert s.m0 + 0 + i * (1 * 1) == s.m0 + i;
    DividesBy(pp, (s.m0 + y) - (s.m0 + i), if i == y then 0 else 1);
    CongPow(s.m0 + y, s.m0 + i, s.d, pp);
    CongTrans(Pow(s.m0 + y, s.d), Pow(s.m0 + i, s.d), s.Target(), pp);
  }

  lemma RepeatsMore<T>(l: seq<T>, more: seq<T>)
    requires NoRepeats(l) && NoRepeats(more) && forall x :: x in more ==> x !in l
    ensures NoRepeats(l + more)
  {
    var both := l + more;
    forall j, k | 0 <= j < k < |both| ensures both[j] != both[k] {
      if j < |l| <= k {
        assert both[j] in l && both[k] in more;
      }
    }
  }

  lemma TwoEntries(p: nat, x: int, entries: seq<Entry>)
    requires p > 0 && NoRepeats(entries) && (p, x) !in entries && (p, x - p * p) !in entries
    ensures NoRepeats(entries + [(p, x), (p, x - p * p)])
  {
    var more: seq<Entry> := [(p, x), (p, x - p * p)];
    assert p * p > 0;
    forall e | e in more ensures e !in entries {
      assert e == more[0] || e == more[1];
    }
    RepeatsMore(entries, more);
  }

  /** Roots modulo p^2 */
  ghost predicate Residues2(lifted: seq<int>, p: nat) {
    forall y :: y in lifted ==> 0 <= y < p * p
  }

  lemma NewEntries(p: nat, lifted: seq<int>, j: nat, entries: seq<Entry>)
    requires p > 0 && j < |lifted| && NoRepeats(lifted) && Residues2(lifted, p) && NoRepeats(entries)
    requires forall e: Entry :: e in entries <==> e.0 == p && (e.1 in lifted[..j] || e.1 + p * p in lifted[..j])
    ensures NoRepeats(entries + [(p, lifted[j]), (p, lifted[j] - p * p)])
  {
    var x := lifted[j];
    assert x in lifted;
    assert x !in lifted[..j];
    assert x + p * p !in lifted[..j] && x - p * p !in lifted[..j] by {
      assert forall y :: y in lifted[..j] ==> y in lifted;
    }
    TwoEntries(p, x, entries);
  }

  /** Each root and the root minus p^2 are entered. */
  method EnterRoots(p: nat, lifted: seq<int>) returns (entries: seq<Entry>)
    ensures p > 0 && NoRepeats(lifted) && Residues2(lifted, p) ==> NoRepeats(entries)
    ensures forall e: Entry :: e in entries <==> e.0 == p && (e.1 in lifted || e.1 + p * p in lifted)
  {
    entries := [];
    var j := 0;
    while j < |lifted|
      invariant j <= |lifted|
      invariant forall e: Entry :: e in entries <==> e.0 == p && (e.1 in lifted[..j] || e.1 + p * p in lifted[..j])
      invariant p > 0 && NoRepeats(lifted) && Residues2(lifted, p) ==> NoRepeats(entries)
    {
      if p > 0 && NoRepeats(lifted) && Residues2(lifted, p) {
        NewEntries(p, lifted, j, entries);
      }
      assert lifted[..j + 1] == lifted[..j] + [lifted[j]];
      entries := entries + [(p, lifted[j]), (p, lifted[j] - p * p)];
      j := j + 1;
    }
    assert lifted[..j] == lifted;
  }

  /** The entries of one prime */
  lemma EntersMore(entries: seq<Entry>, more: seq<Entry>, s: Setting, primes: seq<nat>, p: nat, q: int, rq: int)
    requires s.Sound() && Enters(entries, s, primes, q, rq)
    requires forall e: Entry :: e in more <==> e.0 == p && s.Wanted([p], q, rq, e)
    ensures Enters(entries + more, s, primes + [p], q, rq)
  {
    hide IsHit, Ntilde, InSquare;
  }

  lemma RootEntries(s: Setting, p: nat, lifted: seq<int>, e: Entry)
    requires s.Sound() && s.Usable(p) && e.0 == p
    requires forall y :: y in lifted <==> IsLifted(y, s.Target(), s.d, s.m0, p)
    ensures (e.1 in lifted || e.1 + p * p in lifted) <==> s.Wanted([p], 1, 0, e)
  {
    hide IsHit, Ntilde;
    if e.1 in lifted {
      FirstHit(s, p, e.1, e.1);
    }
    if e.1 + p * p in lifted {
      FirstHit(s, p, e.1, e.1 + p * p);
    }
    if s.Wanted([p], 1, 0, e) {
      var y := FirstRoot(s, p, e.1);
    }
  }

  method LiftPrime(s: Setting, p: nat, r: seq<int>) returns (lifted: seq<int>)
    requires s.Sound() && s.GoodPrime(p, r) && s.Usable(p)
    ensures forall y :: y in lifted <==> IsLifted(y, s.Target(), s.d, s.m0, p)
    ensures p > 0 && Residues2(lifted, p) && (RootsApart(r, p) ==> NoRepeats(lifted))
  {
    hide Cong, Coprime, Pow, Ntilde, Prime, GoodFactor, IsLifted, RootsApart, NoRepeats;
    UsableGood(s, p);
    GoodDegree(s, p);
    lifted := RootsLift(r, Ntilde(s.N, s.d, s.ad), s.d, s.m0, p);
    forall y ensures y in lifted <==> IsLifted(y, s.Target(), s.d, s.m0, p) {
      LiftsAreAll(lifted, r, s.Target(), s.d, s.m0, p, y);
    }
    if RootsApart(r, p) {
      LiftsApart(lifted, r, s.Target(), s.d, s.m0, p);
    }
    forall y | y in lifted ensures 0 <= y < p * p {
      LiftedRange(y, s.Target(), s.d, s.m0, p);
    }
  }

  lemma LiftedRange(y: int, Nt: int, d: nat, m0: int, p: int)
    requires IsLifted(y, Nt, d, m0, p)
    ensures 0 <= y < p * p
  {
  }

  /** No prime is given twice, and no root. */
  ghost predicate NoneTwice(primes: seq<nat>, rootsOf: nat -> seq<int>) {
    NoRepeats(primes) && forall p :: p in primes ==> RootsApart(rootsOf(p), p)
  }

  /** Every prime and every root is kept once. */
  ghost predicate KeptOnce(R: seq<PrimeRoots>, primes: seq<nat>) {
    && (forall k :: 0 <= k < |R| ==> R[k].p in primes && NoRepeats(R[k].roots))
    && forall k, l :: 0 <= k < l < |R| ==> R[k].p != R[l].p
  }

  lemma OnceMore(R: seq<PrimeRoots>, primes: seq<nat>, p: nat, lifted: seq<int>)
    requires KeptOnce(R, primes) && p !in primes && NoRepeats(lifted)
    ensures KeptOnce(if lifted == [] then R else R + [PrimeRoots(p, lifted)], primes + [p])
  {
    hide NoRepeats;
    var R' := R + [PrimeRoots(p, lifted)];
    forall k | 0 <= k < |R'| ensures R'[k].p in primes + [p] && NoRepeats(R'[k].roots) {
      assert k < |R| ==> R'[k] == R[k];
    }
    forall k | 0 <= k < |R| ensures R[k].p in primes + [p] && NoRepeats(R[k].roots) {
    }
  }

  lemma OtherPrime(s: Setting, primes: seq<nat>, q: int, rq: int, p: nat, entries: seq<Entry>, more: seq<Entry>)
    requires s.Sound() && Enters(entries, s, primes, q, rq) && p !in primes && (forall e: Entry :: e in more ==> e.0 == p)
    requires NoRepeats(entries) && NoRepeats(more)
    ensures NoRepeats(entries + more)
  {
    hide IsHit, Ntilde, InSquare, NoRepeats;
    RepeatsMore(entries, more);
  }

  lemma NextPrime(primes: seq<nat>, rootsOf: nat -> seq<int>, n: nat)
    requires n < |primes| && NoneTwice(primes, rootsOf)
    ensures primes[n] !in primes[..n] && RootsApart(rootsOf(primes[n]), primes[n])
  {
    hide RootsApart;
    assert primes[n] in primes;
  }

  lemma GoodDegree(s: Setting, p: int)
    requires GoodFactor(p, s.N, s.d, s.ad)
    ensures Coprime(s.d, p)
  {
  }

  /** The loop over Primes */
  method FirstTable(s: Setting, primes: seq<nat>, rootsOf: nat -> seq<int>) returns (R: seq<PrimeRoots>, entries: seq<Entry>)
    requires s.Sound() && forall p :: p in primes ==> s.GoodPrime(p, rootsOf(p))
    ensures KeepsAll(R, s, primes) && Enters(entries, s, primes, 1, 0)
    ensures NoneTwice(primes, rootsOf) ==> KeptOnce(R, primes) && NoRepeats(entries)
  {
    hide Setting.GoodPrime, Setting.Usable, IsLifted, Setting.Wanted, Ntilde, Enters, KeepsAll, NoneTwice, KeptOnce, NoRepeats, RootsApart,
      Residues2;
    assert KeptOnce([], []) && NoRepeats<Entry>([]) && NoRepeats<int>([]) by {
      NothingTwice();
    }
    R, entries := [], [];
    NothingYet(s, 1, 0);
    var n := 0;
    while n < |primes|
      invariant n <= |primes| && KeepsAll(R, s, primes[..n]) && Enters(entries, s, primes[..n], 1, 0)
      invariant NoneTwice(primes, rootsOf) ==> KeptOnce(R, primes[..n]) && NoRepeats(entries)
    {
      var p := primes[n];
      assert primes[..n + 1] == primes[..n] + [p];
      var lifted: seq<int> := [];
      if s.Usable(p) {
        lifted := LiftPrime(s, p, rootsOf(p));
      }
      KeepsMore(R, s, primes[..n], p, lifted);
      if NoneTwice(primes, rootsOf) {
        NextPrime(primes, rootsOf, n);
        OnceMore(R, primes[..n], p, lifted);
      }
      if lifted != [] {
        R := R + [PrimeRoots(p, lifted)];
      }
      var more := EnterRoots(p, lifted);
      forall e: Entry ensures e in more <==> e.0 == p && s.Wanted([p], 1, 0, e) {
        if s.Usable(p) && e.0 == p {
          RootEntries(s, p, lifted, e);
        } else {
          SkippedEntry(s, p, 1, 0, e);
        }
      }
      EntersMore(entries, more, s, primes[..n], p, 1, 0);
      if NoneTwice(primes, rootsOf) {
        NoRootsYet(p, lifted, more);
        OtherPrime(s, primes[..n], 1, 0, p, entries, more);
      }
      entries := entries + more;
      n := n + 1;
    }
    assert primes[..n] == primes;
  }

  lemma NothingTwice()
    ensures KeptOnce([], []) && NoRepeats<Entry>([]) && NoRepeats<int>([])
  {
  }

  lemma NoRootsYet(p: nat, lifted: seq<int>, more: seq<Entry>)
    requires forall e: Entry :: e in more <==> e.0 == p && (e.1 in lifted || e.1 + p * p in lifted)
    ensures lifted == [] ==> NoRepeats(more)
  {
    HasEntry(more);
  }

  lemma HasEntry(more: seq<Entry>)
    ensures more == [] || exists e: Entry :: e in more
  {
    if more != [] {
      assert more[0] in more;
    }
  }

  lemma SkippedEntry(s: Setting, p: nat, q: int, rq: int, e: Entry)
    requires s.Sound() && (!s.Usable(p) || e.0 != p)
    ensures !s.Wanted([p], q, rq, e)
  {
  }

  lemma NothingYet(s: Setting, q: int, rq: int)
    requires s.Sound()
    ensures KeepsAll([], s, []) && Enters([], s, [], q, rq)
  {
  }

  // ---------- Hash tables for special q ----------

  /** (p, i) belongs to the root rj of p: rq + i q^2 = rj modulo p^2. */
  ghost predicate FromRoot(q: int, rq: int, p: nat, rj: int, e: Entry) {
    e.0 == p && InSquare(e.1, p) && Cong(rq + e.1 * (q * q), rj, p * p)
  }

  /** The two entries made for a root are all that belong to it. */
  lemma SpecialExact(q: int, rq: int, p: nat, rj: int, u: int, e: Entry)
    requires p > 1 && Coprime(q, p) && 0 <= u < p * p && Cong(rq + u * (q * q), rj, p * p)
    ensures FromRoot(q, rq, p, rj, e) <==> e == (p, u) || e == (p, u - p * p)
  {
    hide Cong, Coprime;
    var pp, qq := p * p, q * q;
    if FromRoot(q, rq, p, rj, e) {
      CongSwap(rq + u * qq, rj, pp);
      CongTrans(rq + e.1 * qq, rj, rq + u * qq, pp);
      CongSame(rq, pp);
      CongPlus(rq + e.1 * qq, rq + u * qq, rq, rq, pp);
      assert (rq + e.1 * qq) - rq == qq * e.1 && (rq + u * qq) - rq == qq * u;
      SquaresCoprime(q, p);
      CongCancel(qq, e.1, u, pp);
      SameResidue(e.1, u, pp);
    } else if e == (p, u - pp) {
      HitBefore(rq, u, qq, pp, rj);
    }
  }

  /** Some root of the prime gives the entry. */
  ghost predicate Produces(R: PrimeRoots, q: int, rq: int, e: Entry) {
    exists j :: 0 <= j < |R.roots| && FromRoot(q, rq, R.p, R.roots[j], e)
  }

  ghost predicate Produced(R: seq<PrimeRoots>, q: int, rq: int, e: Entry) {
    exists k :: 0 <= k < |R| && Produces(R[k], q, rq, e)
  }

  lemma ProducesMore(p: nat, roots: seq<int>, j: nat, q: int, rq: int, e: Entry)
    requires j < |roots|
    ensures Produces(PrimeRoots(p, roots[..j + 1]), q, rq, e)
      <==> Produces(PrimeRoots(p, roots[..j]), q, rq, e) || FromRoot(q, rq, p, roots[j], e)
  {
    hide FromRoot;
    var r, r' := roots[..j], roots[..j + 1];
    if Produces(PrimeRoots(p, r), q, rq, e) {
      var l :| 0 <= l < |r| && FromRoot(q, rq, p, r[l], e);
      assert r'[l] == r[l];
    }
    if FromRoot(q, rq, p, roots[j], e) {
      assert r'[j] == roots[j];
    }
    if Produces(PrimeRoots(p, r'), q, rq, e) {
      var l :| 0 <= l < |r'| && FromRoot(q, rq, p, r'[l], e);
      if l < j {
        assert r[l] == r'[l];
      }
    }
  }

  /** The loop over the roots of one prime */
  method SpecialPrime(s: Setting, R: PrimeRoots, q: int, rq: int) returns (entries: seq<Entry>)
    requires s.Sound() && (R.roots != [] ==> R.p > 1 && Coprime(q, R.p) && 0 <= rq < R.p * R.p)
    requires forall j :: 0 <= j < |R.roots| ==> IsLifted(R.roots[j], s.Target(), s.d, s.m0, R.p)
    ensures forall e: Entry :: e in entries <==> Produces(R, q, rq, e)
    ensures NoRepeats(R.roots) ==> NoRepeats(entries)
  {
    hide Cong, Coprime, Pow, Ntilde, IsLifted, IsHit, FromRoot, Produces, NoRepeats;
    assert NoRepeats<Entry>([]) by {
      NothingTwice();
    }
    var p, roots := R.p, R.roots;
    entries := [];
    var j := 0;
    assert forall e: Entry :: !Produces(PrimeRoots(p, roots[..0]), q, rq, e) by {
      NoneProduced(p, roots[..0], q, rq);
    }
    while j < |roots|
      invariant j <= |roots| && forall e: Entry :: e in entries <==> Produces(PrimeRoots(p, roots[..j]), q, rq, e)
      invariant NoRepeats(roots) ==> NoRepeats(entries)
    {
      var u := SpecialQ(roots[j], rq, q, p, s.m0, s.d, s.Target());
      var more: seq<Entry> := [(p, u), (p, u - p * p)];
      forall e: Entry
        ensures Produces(PrimeRoots(p, roots[..j + 1]), q, rq, e) <==> e in entries || e in more
      {
        ProducesMore(p, roots, j, q, rq, e);
        SpecialExact(q, rq, p, roots[j], u, e);
        assert e in more <==> e == more[0] || e == more[1];
      }
      if NoRepeats(roots) {
        forall e: Entry | e == (p, u) || e == (p, u - p * p) ensures e !in entries {
          SpecialExact(q, rq, p, roots[j], u, e);
          OneRoot(s, p, roots, j, q, rq, e);
        }
        TwoEntries(p, u, entries);
      }
      entries := entries + more;
      j := j + 1;
    }
    assert roots[..j] == roots;
  }

  /** An entry belongs to one root only. */
  lemma OneRoot(s: Setting, p: nat, roots: seq<int>, j: nat, q: int, rq: int, e: Entry)
    requires s.Sound() && j < |roots| && NoRepeats(roots) && FromRoot(q, rq, p, roots[j], e) && p > 0
    requires forall k :: 0 <= k < |roots| ==> IsLifted(roots[k], s.Target(), s.d, s.m0, p)
    ensures !Produces(PrimeRoots(p, roots[..j]), q, rq, e)
  {
    hide Cong, Ntilde, Pow;
    if Produces(PrimeRoots(p, roots[..j]), q, rq, e) {
      var l :| 0 <= l < j && FromRoot(q, rq, p, roots[..j][l], e);
      var x := rq + e.1 * (q * q);
      CongSwap(x, roots[l], p * p);
      CongTrans(roots[l], x, roots[j], p * p);
      CongResidues(roots[l], roots[j], p * p);
    }
  }

  lemma NoneProduced(p: nat, roots: seq<int>, q: int, rq: int)
    requires roots == []
    ensures forall e: Entry :: !Produces(PrimeRoots(p, roots), q, rq, e)
  {
  }

  lemma ProducedMore(R: seq<PrimeRoots>, n: nat, q: int, rq: int, e: Entry)
    requires n < |R|
    ensures Produced(R[..n + 1], q, rq, e) <==> Produced(R[..n], q, rq, e) || Produces(R[n], q, rq, e)
  {
    hide Produces;
    if Produced(R[..n], q, rq, e) {
      var k :| 0 <= k < n && Produces(R[..n][k], q, rq, e);
      assert R[..n + 1][k] == R[..n][k];
    }
    if Produces(R[n], q, rq, e) {
      assert R[..n + 1][n] == R[n];
    }
    if Produced(R[..n + 1], q, rq, e) {
      var k :| 0 <= k < n + 1 && Produces(R[..n + 1][k], q, rq, e);
      if k < n {
        assert R[..n][k] == R[..n + 1][k];
      }
    }
  }

  /** What is produced from the roots of all primes is what is wanted. */
  lemma ProducedWanted(s: Setting, R: seq<PrimeRoots>, primes: seq<nat>, q: int, rq: int, e: Entry)
    requires s.Sound() && KeepsAll(R, s, primes)
    ensures Produced(R, q, rq, e) <==> s.Wanted(primes, q, rq, e)
  {
    hide Cong, Coprime, Pow, Ntilde, InSquare;
    var p, i := e.0, e.1;
    if Produced(R, q, rq, e) {
      var k :| 0 <= k < |R| && Produces(R[k], q, rq, e);
      var j :| 0 <= j < |R[k].roots| && FromRoot(q, rq, R[k].p, R[k].roots[j], e);
      assert Kept(R, p, R[k].roots[j]);
      HitIs(p, i, q, rq, s.m0, s.d, s.Target(), R[k].roots[j]);
    }
    if s.Wanted(primes, q, rq, e) {
      var y := HitRoot(s, p, i, q, rq);
      assert Kept(R, p, y);
      var k :| 0 <= k < |R| && R[k].p == p && y in R[k].roots;
      var j :| 0 <= j < |R[k].roots| && R[k].roots[j] == y;
      assert FromRoot(q, rq, R[k].p, R[k].roots[j], e);
      assert Produces(R[k], q, rq, e);
    }
  }

  /** A hit belongs to a root. */
  lemma HitRoot(s: Setting, p: nat, i: int, q: int, rq: int) returns (y: int)
    requires s.Sound() && p > 0 && IsHit(p, i, q, rq, s.m0, s.d, s.Target())
    ensures IsLifted(y, s.Target(), s.d, s.m0, p) && Cong(rq + i * (q * q), y, p * p)
  {
    hide Cong, Pow, Ntilde;
    var pp, x := p * p, rq + i * (q * q);
    y := x % pp;
    CongMod(x, pp);
    CongSame(s.m0, pp);
    CongPlus(s.m0, s.m0, y, x, pp);
    CongPow(s.m0 + y, s.m0 + x, s.d, pp);
    assert s.m0 + x == s.m0 + rq + i * (q * q);
    CongTrans(Pow(s.m0 + y, s.d), Pow(s.m0 + x, s.d), s.Target(), pp);
  }

  /** All primes are coprime to q, and rq is below their squares. */
  ghost predicate Beyond(primes: seq<nat>, q: int, rq: int) {
    forall p :: p in primes ==> p > 1 && Coprime(q, p) && 0 <= rq < p * p
  }

  /** The loop over the primes for one root rq of q */
  method SpecialTable(s: Setting, R: seq<PrimeRoots>, ghost primes: seq<nat>, q: int, rq: int) returns (entries: seq<Entry>)
    requires s.Sound() && KeepsAll(R, s, primes) && Beyond(primes, q, rq)
    ensures Enters(entries, s, primes, q, rq)
    ensures KeptOnce(R, primes) ==> NoRepeats(entries)
  {
    hide Coprime, IsLifted, Setting.Wanted, Ntilde, KeepsAll, Produces, Beyond, NoRepeats, KeptOnce;
    entries := [];
    assert NoRepeats(entries) by {
      NothingTwice();
    }
    var n := 0;
    while n < |R|
      invariant n <= |R| && forall e: Entry :: e in entries <==> Produced(R[..n], q, rq, e)
      invariant KeptOnce(R, primes) ==> NoRepeats(entries)
    {
      RecordReady(s, R, primes, q, rq, n);
      var more := SpecialPrime(s, R[n], q, rq);
      forall e: Entry ensures Produced(R[..n + 1], q, rq, e) <==> e in entries || e in more {
        ProducedMore(R, n, q, rq, e);
      }
      if KeptOnce(R, primes) {
        forall e: Entry | e in more ensures e !in entries {
          OtherRecord(R, primes, n, q, rq, e);
        }
        assert NoRepeats(R[n].roots) by {
          RecordOnce(R, primes, n);
        }
        RepeatsMore(entries, more);
      }
      entries := entries + more;
      n := n + 1;
    }
    assert R[..n] == R;
    forall e: Entry ensures e in entries <==> s.Wanted(primes, q, rq, e) {
      ProducedWanted(s, R, primes, q, rq, e);
    }
  }

  lemma RecordOnce(R: seq<PrimeRoots>, primes: seq<nat>, n: nat)
    requires KeptOnce(R, primes) && n < |R|
    ensures NoRepeats(R[n].roots)
  {
  }

  lemma OtherRecord(R: seq<PrimeRoots>, primes: seq<nat>, n: nat, q: int, rq: int, e: Entry)
    requires KeptOnce(R, primes) && n < |R| && Produces(R[n], q, rq, e)
    ensures !Produced(R[..n], q, rq, e)
  {
    hide Cong, NoRepeats;
  }

  lemma RecordReady(s: Setting, R: seq<PrimeRoots>, primes: seq<nat>, q: int, rq: int, n: nat)
    requires s.Sound() && KeepsAll(R, s, primes) && Beyond(primes, q, rq) && n < |R|
    ensures R[n].roots != [] ==> R[n].p > 1 && Coprime(q, R[n].p) && 0 <= rq < R[n].p * R[n].p
    ensures forall j :: 0 <= j < |R[n].roots| ==> IsLifted(R[n].roots[j], s.Target(), s.d, s.m0, R[n].p)
  {
    hide Coprime, IsLifted, Ntilde;
    forall j | 0 <= j < |R[n].roots|
      ensures R[n].p in primes && IsLifted(R[n].roots[j], s.Target(), s.d, s.m0, R[n].p)
    {
      assert Kept(R, R[n].p, R[n].roots[j]);
    }
    if R[n].roots != [] {
      assert R[n].roots[0] in R[n].roots;
    }
  }

  // ---------- Collisions ----------

  lemma {:induction false} PairMembers(entries: seq<Entry>, n: nat, x: nat, y: nat, j: int)
    requires n <= |entries| && Pairs(entries, n, x, y, j) > 0
    ensures x != y && (x, j) in entries && (y, j) in entries
    decreases n
  {
    if entries[n - 1] == (y, j) && x != y && multiset(entries[..n - 1])[(x, j)] > 0 {
      assert (x, j) in entries[..n - 1];
    } else {
      PairMembers(entries, n - 1, x, y, j);
    }
  }

  /** Two entries with the same i and different primes meet, the later one finding the earlier one. */
  lemma {:induction false} PairMeets(entries: seq<Entry>, n: nat, x: nat, y: nat, j: int)
    requires n <= |entries| && x != y && (x, j) in entries[..n] && (y, j) in entries[..n]
    ensures Pairs(entries, n, x, y, j) > 0 || Pairs(entries, n, y, x, j) > 0
    decreases n
  {
    var e := entries[n - 1];
    assert entries[..n] == entries[..n - 1] + [e];
    if e == (y, j) {
      assert (x, j) in multiset(entries[..n - 1]);
    } else if e == (x, j) {
      assert (y, j) in multiset(entries[..n - 1]);
    } else {
      PairMeets(entries, n - 1, x, y, j);
    }
  }

  /** If no entry is there twice, two entries meet once. */
  lemma {:induction false} PairsOnce(entries: seq<Entry>, n: nat, x: nat, y: nat, j: int)
    requires n <= |entries| && NoRepeats(entries)
    ensures Pairs(entries, n, x, y, j) + Pairs(entries, n, y, x, j) <= 1
    ensures (x, j) !in entries[..n] || (y, j) !in entries[..n] ==> Pairs(entries, n, x, y, j) + Pairs(entries, n, y, x, j) == 0
    decreases n
  {
    if n > 0 {
      var e := entries[n - 1];
      PairsOnce(entries, n - 1, x, y, j);
      assert entries[..n] == entries[..n - 1] + [e];
      assert e !in entries[..n - 1];
      OnceIn(entries, n - 1, (x, j));
      OnceIn(entries, n - 1, (y, j));
    }
  }

  lemma {:induction false} OnceIn(entries: seq<Entry>, n: nat, e: Entry)
    requires n <= |entries| && NoRepeats(entries)
    ensures multiset(entries[..n])[e] <= 1 && (e !in entries[..n] ==> multiset(entries[..n])[e] == 0)
    decreases n
  {
    if n > 0 {
      OnceIn(entries, n - 1, e);
      assert entries[..n] == entries[..n - 1] + [entries[n - 1]];
      assert entries[n - 1] !in entries[..n - 1];
    }
  }

  /** q and its root rq: q is 1 or a prime like the others. */
  ghost predicate GoodSpecial(s: Setting, q: nat, rq: int)
    requires s.Sound()
  {
    GoodFactor(q, s.N, s.d, s.ad) && IsLifted(rq, s.Target(), s.d, s.m0, q)
  }

  ghost predicate GoodPrimes(s: Setting, primes: seq<nat>, q: nat) {
    forall p :: p in primes ==> Prime(p) && Coprime(s.N, p) && Coprime(p, q)
  }

  /** What a collision at i means for mtilde = m0 + rq + i q^2 */
  lemma CollisionIs(s: Setting, primes: seq<nat>, q: nat, rq: int, p1: nat, p2: nat, i: int)
    requires s.Sound() && GoodPrimes(s, primes, q) && GoodSpecial(s, q, rq) && p1 != p2
    requires s.Wanted(primes, q, rq, (p1, i)) && s.Wanted(primes, q, rq, (p2, i))
    ensures p1 > 1 && p2 > 1 && GoodFactor(p1, s.N, s.d, s.ad) && GoodFactor(p2, s.N, s.d, s.ad)
    ensures Coprime(p1, p2) && Coprime(p1, q) && Coprime(p2, q) && Cong(Pow(s.m0 + rq, s.d), s.Target(), q * q)
    ensures var l := p1 * p2 * q; Cong(Pow(s.m0 + rq + i * (q * q), s.d), s.Target(), l * l)
  {
    hide Cong, Coprime, Pow, Ntilde, GoodFactor, IsHit, Prime;
    UsableGood(s, p1);
    UsableGood(s, p2);
    PrimesCoprime(p1, p2);
    CollisionDivides(p1, p2, q, s.N, s.d, s.ad, i, rq, s.m0);
  }

  /** i is between -p^2 and p^2 - 1 exactly if mtilde is near m0. */
  lemma Window(i: int, p: nat, q: nat, rq: int)
    requires q > 0 && 0 <= rq < q * q
    ensures InSquare(i, p) <==> InSquare(rq + i * (q * q), p * q)
  {
    var pp, qq := p * p, q * q;
    SwapFactors(p, q, p, q);
    assert (p * q) * (p * q) == pp * qq;
    WindowArith(i, pp, qq, rq);
  }

  lemma WindowArith(i: int, pp: int, qq: int, rq: int)
    requires 0 <= rq < qq
    ensures -pp <= i < pp <==> -(pp * qq) <= rq + i * qq < pp * qq
  {
    BelowArith(i, pp, qq, rq);
    BelowArith(i, -pp, qq, rq);
    assert (-pp) * qq == -(pp * qq);
  }

  lemma BelowArith(i: int, x: int, qq: int, rq: int)
    requires 0 <= rq < qq
    ensures i < x <==> rq + i * qq < x * qq
  {
    MultipleSize(x - i, qq);
    assert (x - i) * qq == x * qq - i * qq;
  }

  lemma HitFromSquare(s: Setting, p: nat, l: int, q: nat, rq: int, i: int, mtilde: int)
    requires s.Sound() && Divides(p, l) && mtilde == s.m0 + rq + i * (q * q) && Cong(Pow(mtilde, s.d), s.Target(), l * l)
    ensures IsHit(p, i, q, rq, s.m0, s.d, s.Target())
  {
    hide Cong, Divides, Pow, Ntilde;
    SquareDivides(p, l);
    CongCoarser(Pow(mtilde, s.d), s.Target(), p * p, l * l);
  }

  lemma FactorsOf(p1: int, p2: int, q: int)
    ensures Divides(p1, p1 * p2 * q) && Divides(p2, p1 * p2 * q) && Divides(q, p1 * p2 * q)
  {
    DividesBy(p1, p1 * p2, p2);
    DividesBy(p2, p1 * p2, p1);
    DividesTimes(p1, p1 * p2, q);
    DividesTimes(p2, p1 * p2, q);
    DividesBy(q, p1 * p2 * q, p1 * p2);
  }

  /** Every candidate is a pair of wanted entries. */
  lemma CandidateWanted(s: Setting, primes: seq<nat>, q: nat, rq: int, p1: nat, p2: nat, mtilde: int) returns (i: int)
    requires s.Sound() && q > 0 && 0 <= rq < q * q && s.Candidate(primes, p1, p2, q, mtilde) && Cong(mtilde, s.m0 + rq, q * q)
    ensures mtilde == s.m0 + rq + i * (q * q)
    ensures s.Wanted(primes, q, rq, (p1, i)) && s.Wanted(primes, q, rq, (p2, i))
  {
    hide Cong, Pow, Ntilde, IsHit, InSquare;
    CongMeans(mtilde, s.m0 + rq, q * q);
    i := Factor(q * q, mtilde - (s.m0 + rq));
    Window(i, p1, q, rq);
    Window(i, p2, q, rq);
    FactorsOf(p1, p2, q);
    HitFromSquare(s, p1, p1 * p2 * q, q, rq, i, mtilde);
    HitFromSquare(s, p2, p1 * p2 * q, q, rq, i, mtilde);
  }

  /** The call of match for a collision */
  method MatchCall(s: Setting, ghost primes: seq<nat>, q: nat, rq: int, p1: nat, p2: nat, i: int) returns (r: Found)
    requires s.Sound() && GoodPrimes(s, primes, q) && GoodSpecial(s, q, rq) && p1 != p2
    requires s.Wanted(primes, q, rq, (p1, i)) && s.Wanted(primes, q, rq, (p2, i))
    ensures s.IsPair(r) && r.p1 == p1 && r.p2 == p2 && r.q == q && r.mtilde == s.m0 + rq + i * (q * q)
    ensures s.Candidate(primes, p1, p2, q, r.mtilde)
  {
    hide CloseFrom, Bounded, Cong, Coprime, Divides, Pow, Ntilde, GoodFactor, IsHit, Expands, Prime, InSquare, Splits;
    CollisionIs(s, primes, q, rq, p1, p2, i);
    SpecialFacts(s, q, rq);
    Window(i, p1, q, rq);
    Window(i, p2, q, rq);
    var f, m, l := Match(p1, p2, i, s.m0, s.ad, s.d, s.N, q, rq);
    r := Found(f, m, l, p1, p2, q, s.m0 + rq + i * (q * q));
  }

  /** mtilde determines m and the second coefficient. */
  lemma SplitUnique(m: int, a: int, m': int, a': int, l: int, d: nat, ad: int, mtilde: int)
    requires d >= 1 && ad >= 1 && Coprime(ad * d, l) && Splits(m, a, l, d, ad, mtilde) && Splits(m', a', l, d, ad, mtilde)
    ensures m == m' && a == a'
  {
    hide Coprime, Divides, Cong;
    var D := ad * d;
    assert D >= 1;
    assert (a - a') * l == (m' - m) * D by {
      assert (a - a') * l == a * l - a' * l;
      assert (m' - m) * D == D * m' - D * m;
    }
    DividesBy(D, (a - a') * l, m' - m);
    CoprimeSwap(D, l);
    Cancel(l, a - a', D);
    NearMultiple(a - a', D);
    assert D * m == D * m';
    SameQuotient(m, m', D);
  }

  /** A collision has only one pair: mtilde and l determine it. */
  lemma PairUnique(s: Setting, r: Found, r': Found)
    requires s.Sound() && s.IsPair(r) && s.IsPair(r') && r.l == r'.l > 1 && r.mtilde == r'.mtilde && Coprime(s.ad * s.d, r.l)
    ensures r.f == r'.f && r.m == r'.m
  {
    hide Coprime, Expands, CloseFrom, Bounded, Splits;
    SplitUnique(r.m, r.f[s.d - 1], r'.m, r'.f[s.d - 1], r.l, s.d, s.ad, r.mtilde);
    ExpansionUnique(r.f, r'.f, r.m, r.l, s.N, 0);
    assert r.f[0..] == r.f && r'.f[0..] == r'.f;
  }

  lemma SpecialFacts(s: Setting, q: nat, rq: int)
    requires s.Sound() && GoodSpecial(s, q, rq)
    ensures q >= 1 && 0 <= rq < q * q && GoodFactor(q, s.N, s.d, s.ad)
  {
  }

  /** No pair is found twice, also not with p1 and p2 exchanged. */
  ghost predicate FoundOnce(found: seq<Found>) {
    forall k, l :: 0 <= k < l < |found| ==> !Comes(found[l], found[k].p1, found[k].p2, found[k].q, found[k].mtilde)
  }

  /** All that is found comes from the root rq of q. */
  ghost predicate FoundFrom(s: Setting, q: nat, rq: int, found: seq<Found>) {
    forall k :: 0 <= k < |found| ==> found[k].q == q && Cong(found[k].mtilde, s.m0 + rq, q * q)
  }

  lemma CallTwice(calls: seq<Call>, k: nat, l: nat)
    requires k < l < |calls|
    ensures calls[k] == calls[l] ==> multiset(calls)[calls[k]] >= 2
    ensures calls[k] in multiset(calls) && calls[l] in multiset(calls)
  {
    assert calls == calls[..l] + calls[l..];
    assert calls[..l][k] == calls[k] && calls[l..][0] == calls[l];
    assert calls[k] in multiset(calls[..l]) && calls[l] in multiset(calls[l..]);
  }

  lemma SearchOnce(s: Setting, primes: seq<nat>, q: nat, rq: int, entries: seq<Entry>, calls: seq<Call>, found: seq<Found>)
    requires s.Sound() && q > 0 && NoRepeats(entries) && FoundRight(s, primes, q, rq, found, calls) && |found| == |calls|
    requires forall x: nat, y: nat, j: int :: multiset(calls)[Call(x, y, j)] == Pairs(entries, |entries|, x, y, j)
    ensures FoundOnce(found)
  {
    hide Setting.Candidate, Setting.IsPair, Pairs, NoRepeats;
    forall k, l | 0 <= k < l < |found| ensures !Comes(found[l], found[k].p1, found[k].p2, found[k].q, found[k].mtilde) {
      var c, e := calls[k], calls[l];
      assert FoundAt(s, primes, q, rq, found[k], c) && FoundAt(s, primes, q, rq, found[l], e);
      CallTwice(calls, k, l);
      PairsOnce(entries, |entries|, c.p1, c.p2, c.i);
      assert c == Call(c.p1, c.p2, c.i) && e == Call(e.p1, e.p2, e.i);
      if found[k].mtilde == found[l].mtilde {
        SameFactor(c.i, e.i, q * q);
      }
    }
  }

  lemma SameFactor(i: int, j: int, m: int)
    requires m > 0 && i * m == j * m
    ensures i == j
  {
    SameQuotient(i, j, m);
  }

  lemma FoundFromRoot(s: Setting, primes: seq<nat>, q: nat, rq: int, found: seq<Found>, calls: seq<Call>)
    requires s.Sound() && FoundRight(s, primes, q, rq, found, calls)
    ensures FoundFrom(s, q, rq, found)
  {
    hide Setting.Candidate, Setting.IsPair;
    forall k | 0 <= k < |found| ensures found[k].q == q && Cong(found[k].mtilde, s.m0 + rq, q * q) {
      assert FoundAt(s, primes, q, rq, found[k], calls[k]);
      DividesBy(q * q, calls[k].i * (q * q), calls[k].i);
    }
  }

  /** What comes from different roots of q is different. */
  lemma OnceMoreFound(s: Setting, q: nat, rqs: seq<int>, i: nat, found: seq<Found>, more: seq<Found>)
    requires i < |rqs| && NoRepeats(rqs) && (forall y :: y in rqs ==> 0 <= y < q * q)
    requires FoundOnce(found) && FoundOnce(more) && FoundFrom(s, q, rqs[i], more)
    requires forall k :: 0 <= k < |found| ==> FromOne(s, q, rqs, i, found[k])
    ensures FoundOnce(found + more)
  {
    hide Cong;
    var all := found + more;
    forall k, l | 0 <= k < l < |all| ensures !Comes(all[l], all[k].p1, all[k].p2, all[k].q, all[k].mtilde) {
      if k < |found| <= l && all[k].mtilde == all[l].mtilde {
        assert FromOne(s, q, rqs, i, all[k]);
        var j :| 0 <= j < i && Cong(all[k].mtilde, s.m0 + rqs[j], q * q);
        assert rqs[j] in rqs && rqs[i] in rqs;
        assert Cong(more[l - |found|].mtilde, s.m0 + rqs[i], q * q);
        DifferentRoots(s.m0, rqs[j], rqs[i], all[k].mtilde, q * q);
      }
    }
  }

  lemma DifferentRoots(m0: int, x: int, y: int, mtilde: int, qq: int)
    requires 0 <= x < qq && 0 <= y < qq && Cong(mtilde, m0 + x, qq) && Cong(mtilde, m0 + y, qq)
    ensures x == y
  {
    hide Cong;
    CongSwap(mtilde, m0 + x, qq);
    CongTrans(m0 + x, mtilde, m0 + y, qq);
    CongSame(m0, qq);
    CongPlus(m0 + x, m0 + y, m0, m0, qq);
    assert (m0 + x) - m0 == x && (m0 + y) - m0 == y;
    CongResidues(x, y, qq);
  }

  ghost predicate FromOne(s: Setting, q: nat, rqs: seq<int>, i: nat, r: Found)
    requires i <= |rqs|
  {
    r.q == q && exists j :: 0 <= j < i && Cong(r.mtilde, s.m0 + rqs[j], q * q)
  }

  lemma FromMore(s: Setting, q: nat, rqs: seq<int>, i: nat, found: seq<Found>, more: seq<Found>)
    requires i < |rqs| && FoundFrom(s, q, rqs[i], more) && forall k :: 0 <= k < |found| ==> FromOne(s, q, rqs, i, found[k])
    ensures forall k :: 0 <= k < |found + more| ==> FromOne(s, q, rqs, i + 1, (found + more)[k])
  {
    hide Cong;
    forall k | 0 <= k < |found + more| ensures FromOne(s, q, rqs, i + 1, (found + more)[k]) {
      if k < |found| {
        assert FromOne(s, q, rqs, i, found[k]);
      } else {
        assert Cong(more[k - |found|].mtilde, s.m0 + rqs[i], q * q);
      }
    }
  }

  /** Every found pair is right, and comes from the call at the same place. */
  ghost predicate FoundRight(s: Setting, primes: seq<nat>, q: nat, rq: int, found: seq<Found>, calls: seq<Call>)
    requires s.Sound()
  {
    && |found| <= |calls|
    && forall k :: 0 <= k < |found| ==> FoundAt(s, primes, q, rq, found[k], calls[k])
  }

  ghost predicate FoundAt(s: Setting, primes: seq<nat>, q: nat, rq: int, r: Found, c: Call)
    requires s.Sound()
  {
    && s.IsPair(r) && r.p1 == c.p1 && r.p2 == c.p2 && r.q == q && r.mtilde == s.m0 + rq + c.i * (q * q)
    && s.Candidate(primes, c.p1, c.p2, q, r.mtilde)
  }

  /** All pairs found for q are right. */
  ghost predicate AllRight(s: Setting, primes: seq<nat>, q: nat, found: seq<Found>)
    requires s.Sound()
  {
    forall k :: 0 <= k < |found| ==> Right(s, primes, q, found[k])
  }

  ghost predicate Right(s: Setting, primes: seq<nat>, q: nat, r: Found)
    requires s.Sound()
  {
    s.IsPair(r) && r.q == q && s.Candidate(primes, r.p1, r.p2, q, r.mtilde)
  }

  /** All candidates for q and rq are found. */
  ghost predicate FindsAll(s: Setting, primes: seq<nat>, q: nat, rq: int, found: seq<Found>)
    requires s.Sound()
  {
    forall p1: nat, p2: nat, mtilde: int :: s.Candidate(primes, p1, p2, q, mtilde) && Cong(mtilde, s.m0 + rq, q * q)
      ==> Has(found, p1, p2, q, mtilde)
  }

  /** All entries are inserted, and match is called for each collision. */
  method Search(s: Setting, ghost primes: seq<nat>, q: nat, rq: int, entries: seq<Entry>) returns (found: seq<Found>)
    requires s.Sound() && GoodPrimes(s, primes, q) && GoodSpecial(s, q, rq) && Enters(entries, s, primes, q, rq)
    ensures AllRight(s, primes, q, found) && FindsAll(s, primes, q, rq, found)
    ensures FoundFrom(s, q, rq, found) && (NoRepeats(entries) ==> FoundOnce(found))
  {
    hide Setting.Wanted, Setting.Candidate, Setting.IsPair, GoodPrimes, GoodSpecial, Pairs, Has, FoundAt, AllRight, FindsAll, FoundOnce,
      FoundFrom, NoRepeats;
    forall k | 0 <= k < |entries| ensures entries[k].0 != 0 {
      WantedPositive(s, primes, q, rq, entries[k]);
    }
    var calls := AddEach(entries);
    found := [];
    var k := 0;
    while k < |calls|
      invariant k <= |calls| && |found| == k && FoundRight(s, primes, q, rq, found, calls)
    {
      var c := calls[k];
      CallMembers(calls, k, entries);
      var r := MatchCall(s, primes, q, rq, c.p1, c.p2, c.i);
      assert FoundAt(s, primes, q, rq, r, c) by {
        FoundIs(s, primes, q, rq, r, c);
      }
      found := found + [r];
      k := k + 1;
    }
    SearchDone(s, primes, q, rq, entries, calls, found);
    FoundFromRoot(s, primes, q, rq, found, calls);
    SpecialFacts(s, q, rq);
    if NoRepeats(entries) {
      SearchOnce(s, primes, q, rq, entries, calls, found);
    }
  }

  lemma FoundIs(s: Setting, primes: seq<nat>, q: nat, rq: int, r: Found, c: Call)
    requires s.Sound() && s.IsPair(r) && r.p1 == c.p1 && r.p2 == c.p2 && r.q == q && r.mtilde == s.m0 + rq + c.i * (q * q)
    requires s.Candidate(primes, c.p1, c.p2, q, r.mtilde)
    ensures FoundAt(s, primes, q, rq, r, c)
  {
  }

  lemma WantedPositive(s: Setting, primes: seq<nat>, q: int, rq: int, e: Entry)
    requires s.Sound() && s.Wanted(primes, q, rq, e)
    ensures e.0 != 0
  {
  }

  lemma CallMembers(calls: seq<Call>, k: nat, entries: seq<Entry>)
    requires k < |calls|
    requires forall x: nat, y: nat, j: int :: multiset(calls)[Call(x, y, j)] == Pairs(entries, |entries|, x, y, j)
    ensures var c := calls[k]; c.p1 != c.p2 && (c.p1, c.i) in entries && (c.p2, c.i) in entries
  {
    hide Pairs;
    var c := calls[k];
    assert c in multiset(calls);
    assert c == Call(c.p1, c.p2, c.i);
    PairMembers(entries, |entries|, c.p1, c.p2, c.i);
  }

  lemma SearchDone(s: Setting, primes: seq<nat>, q: nat, rq: int, entries: seq<Entry>, calls: seq<Call>, found: seq<Found>)
    requires s.Sound() && GoodSpecial(s, q, rq) && Enters(entries, s, primes, q, rq)
    requires forall x: nat, y: nat, j: int :: multiset(calls)[Call(x, y, j)] == Pairs(entries, |entries|, x, y, j)
    requires FoundRight(s, primes, q, rq, found, calls) && |found| == |calls|
    ensures AllRight(s, primes, q, found) && FindsAll(s, primes, q, rq, found)
  {
    hide Setting.Wanted, Setting.Candidate, Setting.IsPair, GoodSpecial, Pairs, Cong;
    forall p1: nat, p2: nat, mtilde: int | s.Candidate(primes, p1, p2, q, mtilde) && Cong(mtilde, s.m0 + rq, q * q)
      ensures Has(found, p1, p2, q, mtilde)
    {
      SpecialFacts(s, q, rq);
      var i := CandidateWanted(s, primes, q, rq, p1, p2, mtilde);
      DifferentPrimes(s, primes, p1, p2, q, mtilde);
      assert entries[..|entries|] == entries;
      PairMeets(entries, |entries|, p1, p2, i);
      var c := if Pairs(entries, |entries|, p1, p2, i) > 0 then Call(p1, p2, i) else Call(p2, p1, i);
      assert c in multiset(calls);
      var k :| 0 <= k < |calls| && calls[k] == c;
      assert FoundAt(s, primes, q, rq, found[k], calls[k]);
      assert Comes(found[k], p1, p2, q, mtilde);
    }
    forall k | 0 <= k < |found| ensures Right(s, primes, q, found[k]) {
      assert FoundAt(s, primes, q, rq, found[k], calls[k]);
    }
  }

  lemma DifferentPrimes(s: Setting, primes: seq<nat>, p1: nat, p2: nat, q: nat, mtilde: int)
    requires s.Sound() && s.Candidate(primes, p1, p2, q, mtilde)
    ensures p1 != p2
  {
  }

  // ---------- The whole search ----------

  /** All candidates for q are found. */
  ghost predicate FindsEvery(s: Setting, primes: seq<nat>, q: nat, found: seq<Found>)
    requires s.Sound()
  {
    forall p1: nat, p2: nat, mtilde: int :: s.Candidate(primes, p1, p2, q, mtilde) ==> Has(found, p1, p2, q, mtilde)
  }

  /** The roots of q are all that a candidate needs. */
  lemma EveryRoot(s: Setting, primes: seq<nat>, q: nat, rqs: seq<int>, found: seq<Found>)
    requires s.Sound() && q > 0 && (forall y :: y in rqs <==> IsLifted(y, s.Target(), s.d, s.m0, q))
    requires forall k :: 0 <= k < |rqs| ==> FindsAll(s, primes, q, rqs[k], found)
    ensures FindsEvery(s, primes, q, found)
  {
    hide Cong, Divides, Pow, Ntilde, Has;
    forall p1: nat, p2: nat, mtilde: int | s.Candidate(primes, p1, p2, q, mtilde) ensures Has(found, p1, p2, q, mtilde) {
      var qq, l := q * q, p1 * p2 * q;
      FactorsOf(p1, p2, q);
      SquareDivides(q, l);
      CongCoarser(Pow(mtilde, s.d), s.Target(), qq, l * l);
      var y := (mtilde - s.m0) % qq;
      CongMod(mtilde - s.m0, qq);
      CongSame(s.m0, qq);
      CongPlus(s.m0, s.m0, y, mtilde - s.m0, qq);
      CongPlus(s.m0, s.m0, mtilde - s.m0, y, qq);
      CongPow(s.m0 + y, mtilde, s.d, qq);
      CongTrans(Pow(s.m0 + y, s.d), Pow(mtilde, s.d), s.Target(), qq);
      assert IsLifted(y, s.Target(), s.d, s.m0, q);
      var k :| 0 <= k < |rqs| && rqs[k] == y;
      assert FindsAll(s, primes, q, rqs[k], found);
    }
  }

  lemma FindsMore(s: Setting, primes: seq<nat>, q: nat, rq: int, found: seq<Found>, more: seq<Found>)
    requires s.Sound() && (FindsAll(s, primes, q, rq, found) || FindsAll(s, primes, q, rq, more))
    ensures FindsAll(s, primes, q, rq, found + more)
  {
    hide Has, Setting.Candidate, Cong;
    forall p1: nat, p2: nat, mtilde: int | s.Candidate(primes, p1, p2, q, mtilde) && Cong(mtilde, s.m0 + rq, q * q)
      ensures Has(found + more, p1, p2, q, mtilde)
    {
      HasMore(found, more, p1, p2, q, mtilde);
    }
  }

  lemma RightMore(s: Setting, primes: seq<nat>, q: nat, found: seq<Found>, more: seq<Found>)
    requires s.Sound() && AllRight(s, primes, q, found) && AllRight(s, primes, q, more)
    ensures AllRight(s, primes, q, found + more)
  {
    hide Right;
  }

  /** The primes to search, and q, which is smaller than all of them */
  ghost predicate Ready(s: Setting, primes: seq<nat>, q: nat)
    requires s.Sound()
  {
    && Prime(q) && Coprime(s.N, q) && s.Usable(q)
    && forall p :: p in primes ==> Prime(p) && Coprime(s.N, p) && q < p
  }

  lemma SpecialReady(s: Setting, primes: seq<nat>, q: nat, rq: int)
    requires s.Sound() && Ready(s, primes, q) && IsLifted(rq, s.Target(), s.d, s.m0, q)
    ensures GoodPrimes(s, primes, q) && GoodSpecial(s, q, rq) && Beyond(primes, q, rq)
  {
    hide Coprime, Prime, Ntilde, GoodFactor, Cong, Pow;
    UsableGood(s, q);
    forall p | p in primes ensures Coprime(p, q) && p > 1 && Coprime(q, p) && rq < p * p {
      PrimesCoprime(p, q);
      PrimesCoprime(q, p);
      SquareLess(q, p);
      PrimeAboveOne(p);
    }
  }

  /** The loop over the roots of q */
  method SearchSpecial(s: Setting, R: seq<PrimeRoots>, ghost primes: seq<nat>, q: nat, rqs: seq<int>) returns (found: seq<Found>)
    requires s.Sound() && KeepsAll(R, s, primes) && Ready(s, primes, q)
    requires forall y :: y in rqs <==> IsLifted(y, s.Target(), s.d, s.m0, q)
    ensures AllRight(s, primes, q, found) && FindsEvery(s, primes, q, found)
    ensures KeptOnce(R, primes) && NoRepeats(rqs) ==> FoundOnce(found)
  {
    hide IsLifted, Ntilde, KeepsAll, Ready, AllRight, FindsAll, FindsEvery, Enters, GoodPrimes, GoodSpecial, Beyond, FoundOnce, FoundFrom,
      NoRepeats, KeptOnce, FromOne;
    found := [];
    assert FoundOnce(found) by {
      NoneOnce();
    }
    assert AllRight(s, primes, q, []) by {
      NoneFound(s, primes, q);
    }
    var i := 0;
    while i < |rqs|
      invariant i <= |rqs| && AllRight(s, primes, q, found)
      invariant forall k :: 0 <= k < i ==> FindsAll(s, primes, q, rqs[k], found)
      invariant forall k :: 0 <= k < |found| ==> FromOne(s, q, rqs, i, found[k])
      invariant KeptOnce(R, primes) && NoRepeats(rqs) ==> FoundOnce(found)
    {
      SpecialReady(s, primes, q, rqs[i]);
      var entries := SpecialTable(s, R, primes, q, rqs[i]);
      var more := Search(s, primes, q, rqs[i], entries);
      forall k | 0 <= k < i + 1 ensures FindsAll(s, primes, q, rqs[k], found + more) {
        FindsMore(s, primes, q, rqs[k], found, more);
      }
      RightMore(s, primes, q, found, more);
      if KeptOnce(R, primes) && NoRepeats(rqs) {
        forall y | y in rqs ensures 0 <= y < q * q {
          LiftedRange(y, s.Target(), s.d, s.m0, q);
        }
        OnceMoreFound(s, q, rqs, i, found, more);
      }
      FromMore(s, q, rqs, i, found, more);
      found := found + more;
      i := i + 1;
    }
    ReadyPositive(s, primes, q);
    EveryRoot(s, primes, q, rqs, found);
  }

  lemma NoneOnce()
    ensures FoundOnce([])
  {
  }

  lemma NoneFound(s: Setting, primes: seq<nat>, q: nat)
    requires s.Sound()
    ensures AllRight(s, primes, q, [])
  {
  }

  lemma ReadyPositive(s: Setting, primes: seq<nat>, q: nat)
    requires s.Sound() && Ready(s, primes, q)
    ensures q > 0
  {
  }

  /** q = 1 with its root 0 */
  lemma OneReady(s: Setting, primes: seq<nat>)
    requires s.Sound() && forall p :: p in primes ==> Prime(p) && Coprime(s.N, p)
    ensures GoodPrimes(s, primes, 1) && GoodSpecial(s, 1, 0)
    ensures forall y :: y in [0] <==> IsLifted(y, s.Target(), s.d, s.m0, 1)
  {
    hide Cong, Coprime, Prime, Ntilde, Pow;
    CoprimeToOne(s.d);
    CoprimeToOne(s.ad);
    CoprimeToOne(s.N);
    forall p | p in primes ensures Coprime(p, 1) {
      CoprimeToOne(p);
    }
    CongModOne(Pow(s.m0 + 0, s.d), s.Target());
  }

  lemma CoprimeToOne(a: int)
    ensures Coprime(a, 1)
  {
    CoprimeBy(a, 1, 0, 1);
  }

  /** The special q that are searched, 1 among them */
  predicate Searched(s: Setting, qs: seq<nat>, q: nat) {
    q == 1 || (q in qs && s.Usable(q))
  }

  ghost predicate FindsFor(s: Setting, primes: seq<nat>, qs: seq<nat>, found: seq<Found>)
    requires s.Sound()
  {
    forall q: nat :: Searched(s, qs, q) ==> FindsEvery(s, primes, q, found)
  }

  ghost predicate RightFor(s: Setting, primes: seq<nat>, qs: seq<nat>, found: seq<Found>)
    requires s.Sound()
  {
    forall k :: 0 <= k < |found| ==> Searched(s, qs, found[k].q) && Right(s, primes, found[k].q, found[k])
  }

  lemma EveryMore(s: Setting, primes: seq<nat>, q: nat, found: seq<Found>, more: seq<Found>)
    requires s.Sound() && (FindsEvery(s, primes, q, found) || FindsEvery(s, primes, q, more))
    ensures FindsEvery(s, primes, q, found + more)
  {
    hide Has, Setting.Candidate;
    forall p1: nat, p2: nat, mtilde: int | s.Candidate(primes, p1, p2, q, mtilde) ensures Has(found + more, p1, p2, q, mtilde) {
      HasMore(found, more, p1, p2, q, mtilde);
    }
  }

  /** One more q, skipped or searched */
  lemma NextSpecial(s: Setting, primes: seq<nat>, qs: seq<nat>, q: nat, found: seq<Found>, more: seq<Found>)
    requires s.Sound() && FindsFor(s, primes, qs, found) && RightFor(s, primes, qs, found)
    requires if s.Usable(q) then AllRight(s, primes, q, more) && FindsEvery(s, primes, q, more) else more == []
    ensures FindsFor(s, primes, qs + [q], found + more) && RightFor(s, primes, qs + [q], found + more)
  {
    hide FindsEvery, Right, Setting.Usable;
    forall q': nat | Searched(s, qs + [q], q') ensures FindsEvery(s, primes, q', found + more) {
      EveryMore(s, primes, q', found, more);
    }
    forall k | 0 <= k < |found + more|
      ensures var r := (found + more)[k]; Searched(s, qs + [q], r.q) && Right(s, primes, r.q, r)
    {
      if k >= |found| {
        RightNumber(s, primes, q, more, k - |found|);
      }
    }
  }

  lemma RightNumber(s: Setting, primes: seq<nat>, q: nat, more: seq<Found>, k: nat)
    requires s.Sound() && AllRight(s, primes, q, more) && k < |more|
    ensures more[k].q == q && Right(s, primes, q, more[k])
  {
    assert Right(s, primes, q, more[k]);
  }

  /** newAlgo: what is found is exactly what there is to find. rootsOf stands for poly_roots_ulong. */
  method NewAlgo(s: Setting, primes: seq<nat>, qs: seq<nat>, rootsOf: nat -> seq<int>) returns (found: seq<Found>)
    requires s.Sound()
    requires forall p :: p in primes || p in qs ==> s.GoodPrime(p, rootsOf(p))
    requires forall p, q :: p in primes && q in qs ==> q < p
    ensures RightFor(s, primes, qs, found) && FindsFor(s, primes, qs, found)
    ensures NoneTwice(primes, rootsOf) && NoneTwice(qs, rootsOf) ==> FoundOnce(found)
  {
    hide IsLifted, Setting.Usable, Setting.GoodPrime, Ntilde, KeepsAll, AllRight, FindsAll, FindsEvery, Enters,
      GoodPrimes, GoodSpecial, FindsFor, RightFor, NoneTwice, FoundOnce, KeptOnce, NoRepeats, FoundFrom, RootsApart;
    var R, entries := FirstTable(s, primes, rootsOf);
    forall p | p in primes ensures Prime(p) && Coprime(s.N, p) {
      GoodFacts(s, p, rootsOf(p));
    }
    OneReady(s, primes);
    found := Search(s, primes, 1, 0, entries);
    EveryRoot(s, primes, 1, [0], found);
    FirstDone(s, primes, found);
    var k := 0;
    while k < |qs|
      invariant k <= |qs| && FindsFor(s, primes, qs[..k], found) && RightFor(s, primes, qs[..k], found)
      invariant NoneTwice(primes, rootsOf) && NoneTwice(qs, rootsOf) ==> FoundOnce(found)
    {
      var q := qs[k];
      assert q in qs;
      var more := [];
      if s.Usable(q) {
        GoodFacts(s, q, rootsOf(q));
        var rqs := LiftPrime(s, q, rootsOf(q));
        more := SearchSpecial(s, R, primes, q, rqs);
        if NoneTwice(primes, rootsOf) && NoneTwice(qs, rootsOf) {
          NextPrime(qs, rootsOf, k);
          OtherSpecial(s, primes, qs[..k], q, found, more);
        }
      } else {
        assert found + more == found;
      }
      NextSpecial(s, primes, qs[..k], q, found, more);
      assert qs[..k + 1] == qs[..k] + [q];
      found := found + more;
      k := k + 1;
    }
    assert qs[..k] == qs;
  }

  lemma OtherSpecial(s: Setting, primes: seq<nat>, qs: seq<nat>, q: nat, found: seq<Found>, more: seq<Found>)
    requires s.Sound() && RightFor(s, primes, qs, found) && AllRight(s, primes, q, more) && q !in qs && q > 1
    requires FoundOnce(found) && FoundOnce(more)
    ensures FoundOnce(found + more)
  {
    hide Setting.Candidate, Setting.IsPair, Setting.Usable;
    var all := found + more;
    forall k, l | 0 <= k < l < |all| ensures !Comes(all[l], all[k].p1, all[k].p2, all[k].q, all[k].mtilde) {
      if k < |found| <= l {
        assert Right(s, primes, q, more[l - |found|]);
        assert Searched(s, qs, found[k].q);
      }
    }
  }

  lemma GoodFacts(s: Setting, p: nat, r: seq<int>)
    requires s.Sound() && s.GoodPrime(p, r)
    ensures Prime(p) && Coprime(s.N, p)
  {
  }

  lemma FirstDone(s: Setting, primes: seq<nat>, found: seq<Found>)
    requires s.Sound() && AllRight(s, primes, 1, found) && FindsEvery(s, primes, 1, found)
    ensures FindsFor(s, primes, [], found) && RightFor(s, primes, [], found)
  {
    hide FindsEvery, Right;
    forall k | 0 <= k < |found| ensures found[k].q == 1 && Right(s, primes, 1, found[k]) {
      RightNumber(s, primes, 1, found, k);
    }
  }
}
