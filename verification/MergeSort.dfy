/** What the bottom-up merge sort of HASH_SRT computes, as functions on sequences,
    and why the result is sorted, stable and a permutation. */
module MergeSort {

  import opened Bits

  type Cmp<!T> = (T, T) -> int

  // Two runs merged; on a tie the element of the left run goes first.
  function Merge<T>(cmp: Cmp<T>, p: seq<T>, q: seq<T>): seq<T>
    decreases |p| + |q|
  {
    if p == [] then q
    else if q == [] then p
    else if cmp(p[0], q[0]) <= 0 then [p[0]] + Merge(cmp, p[1..], q)
    else [q[0]] + Merge(cmp, p, q[1..])
  }

  // One pass over the list: neighbouring runs of k elements merged two by two.
  function Pass<T>(cmp: Cmp<T>, s: seq<T>, k: nat): seq<T>
    requires k > 0
    decreases |s|
  {
    if s == [] then []
    else
      var m, n := Min(k, |s|), Min(2 * k, |s|);
      Merge(cmp, s[..m], s[m..n]) + Pass(cmp, s[n..], k)
  }

  // Passes with doubled run length until one merge covers the list.
  function Passes<T>(cmp: Cmp<T>, s: seq<T>, k: nat): seq<T>
    requires k > 0
    decreases |s| - k
  {
    PassLength(cmp, s, k);
    if |s| <= 2 * k then Pass(cmp, s, k) else Passes(cmp, Pass(cmp, s, k), 2 * k)
  }

  function Sort<T>(cmp: Cmp<T>, s: seq<T>): seq<T> {
    Passes(cmp, s, 1)
  }

  // -- permutation

  lemma {:induction false} MergePermutes<T>(cmp: Cmp<T>, p: seq<T>, q: seq<T>)
    ensures multiset(Merge(cmp, p, q)) == multiset(p) + multiset(q)
    decreases |p| + |q|
  {
    if p != [] && q != [] {
      assert p == [p[0]] + p[1..] && q == [q[0]] + q[1..];
      if cmp(p[0], q[0]) <= 0 {
        MergePermutes(cmp, p[1..], q);
      } else {
        MergePermutes(cmp, p, q[1..]);
      }
    }
  }

  lemma {:induction false} PassPermutes<T>(cmp: Cmp<T>, s: seq<T>, k: nat)
    requires k > 0
    ensures multiset(Pass(cmp, s, k)) == multiset(s)
    decreases |s|
  {
    if s != [] {
      var m, n := Min(k, |s|), Min(2 * k, |s|);
      MergePermutes(cmp, s[..m], s[m..n]);
      PassPermutes(cmp, s[n..], k);
      Cut(s, m, n);
    }
  }

  lemma Cut<T>(s: seq<T>, m: nat, n: nat)
    requires m <= n <= |s|
    ensures multiset(s) == multiset(s[..m]) + multiset(s[m..n]) + multiset(s[n..])
  {
    assert s == s[..m] + s[m..n] + s[n..];
  }

  lemma PassLength<T>(cmp: Cmp<T>, s: seq<T>, k: nat)
    requires k > 0
    ensures |Pass(cmp, s, k)| == |s|
  {
    PassPermutes(cmp, s, k);
    assert |multiset(Pass(cmp, s, k))| == |multiset(s)|;
  }

  lemma {:induction false} PassesPermute<T>(cmp: Cmp<T>, s: seq<T>, k: nat)
    requires k > 0
    ensures multiset(Passes(cmp, s, k)) == multiset(s)
    decreases |s| - k
  {
    PassPermutes(cmp, s, k);
    PassLength(cmp, s, k);
    if |s| > 2 * k {
      PassesPermute(cmp, Pass(cmp, s, k), 2 * k);
    }
  }

  // -- order

  ghost predicate TotalPreorder<T>(cmp: Cmp<T>, u: set<T>) {
    && (forall a, b :: a in u && b in u ==> cmp(a, b) <= 0 || cmp(b, a) <= 0)
    && (forall a, b, c :: a in u && b in u && c in u && cmp(a, b) <= 0 && cmp(b, c) <= 0 ==> cmp(a, c) <= 0)
  }

  // The order a stable sort must produce: by cmp, and among ties by rank.
  ghost predicate Before<T>(cmp: Cmp<T>, rank: T -> int, a: T, b: T) {
    cmp(a, b) <= 0 && (cmp(b, a) <= 0 ==> rank(a) < rank(b))
  }

  ghost predicate Ordered<T>(cmp: Cmp<T>, rank: T -> int, s: seq<T>) {
    forall i, j :: 0 <= i < j < |s| ==> Before(cmp, rank, s[i], s[j])
  }

  ghost predicate InRange<T>(rank: T -> int, s: seq<T>, lo: int, hi: int) {
    forall e :: e in s ==> lo <= rank(e) < hi
  }

  // Runs of k elements, each in order, and each with its own range of ranks.
  ghost predicate Runs<T>(cmp: Cmp<T>, rank: T -> int, s: seq<T>, k: nat, base: int)
    requires k > 0
    decreases |s|
  {
    var m := Min(k, |s|);
    && Ordered(cmp, rank, s[..m])
    && InRange(rank, s[..m], base, base + k)
    && (|s| > k ==> Runs(cmp, rank, s[k..], k, base + k))
  }

  lemma BeforeTransitive<T>(cmp: Cmp<T>, rank: T -> int, u: set<T>, a: T, b: T, c: T)
    requires TotalPreorder(cmp, u) && a in u && b in u && c in u
    requires Before(cmp, rank, a, b) && Before(cmp, rank, b, c)
    ensures Before(cmp, rank, a, c)
  {
  }

  lemma MergeElements<T>(cmp: Cmp<T>, p: seq<T>, q: seq<T>, e: T)
    requires e in Merge(cmp, p, q)
    ensures e in p || e in q
  {
    MergePermutes(cmp, p, q);
    assert e in multiset(Merge(cmp, p, q));
  }

  lemma {:induction false} MergeOrdered<T>(cmp: Cmp<T>, rank: T -> int, u: set<T>, p: seq<T>, q: seq<T>)
    requires TotalPreorder(cmp, u) && (forall e :: e in p || e in q ==> e in u)
    requires Ordered(cmp, rank, p) && Ordered(cmp, rank, q)
    requires forall a, b :: a in p && b in q ==> rank(a) < rank(b)
    ensures Ordered(cmp, rank, Merge(cmp, p, q))
    decreases |p| + |q|
  {
    hide Before, TotalPreorder;
    if p != [] && q != [] {
      var left := cmp(p[0], q[0]) <= 0;
      var x, p', q' := if left then p[0] else q[0], if left then p[1..] else p, if left then q else q[1..];
      assert forall e :: e in p' ==> e in p;
      assert forall e :: e in q' ==> e in q;
      MergeOrdered(cmp, rank, u, p', q');
      Pick(cmp, rank, u, p[0], q[0]);
      var m := Merge(cmp, p', q');
      forall e | e in m
        ensures Before(cmp, rank, x, e)
      {
        MergeElements(cmp, p', q', e);
        if e in p' {
          HeadBefore(cmp, rank, u, x, p, e);
        } else {
          HeadBefore(cmp, rank, u, x, q, e);
        }
      }
      OrderedCons(cmp, rank, x, m);
    }
  }

  // Of two heads, the one that the merge picks goes before the other.
  lemma Pick<T>(cmp: Cmp<T>, rank: T -> int, u: set<T>, a: T, b: T)
    requires TotalPreorder(cmp, u) && a in u && b in u && rank(a) < rank(b)
    ensures if cmp(a, b) <= 0 then Before(cmp, rank, a, b) else Before(cmp, rank, b, a)
  {
  }

  lemma OrderedCons<T>(cmp: Cmp<T>, rank: T -> int, x: T, s: seq<T>)
    requires Ordered(cmp, rank, s) && forall e :: e in s ==> Before(cmp, rank, x, e)
    ensures Ordered(cmp, rank, [x] + s)
  {
  }

  // An element that is before the head of a run, or that is the head, is before the rest.
  lemma HeadBefore<T>(cmp: Cmp<T>, rank: T -> int, u: set<T>, x: T, s: seq<T>, e: T)
    requires TotalPreorder(cmp, u) && x in u && (forall a :: a in s ==> a in u)
    requires Ordered(cmp, rank, s) && s != []
    requires (x == s[0] && e in s[1..]) || (Before(cmp, rank, x, s[0]) && e in s)
    ensures Before(cmp, rank, x, e)
  {
    if x == s[0] && e in s[1..] {
      var i :| 0 <= i < |s[1..]| && s[1..][i] == e;
      assert s[i + 1] == e;
    } else if e != s[0] {
      var i :| 0 < i < |s| && s[i] == e;
      BeforeTransitive(cmp, rank, u, x, s[0], e);
    }
  }

  // A pass turns runs of k into runs of 2k.
  lemma {:induction false} PassRuns<T>(cmp: Cmp<T>, rank: T -> int, u: set<T>, s: seq<T>, k: nat, base: int)
    requires k > 0 && TotalPreorder(cmp, u) && (forall e :: e in s ==> e in u)
    requires Runs(cmp, rank, s, k, base)
    ensures Runs(cmp, rank, Pass(cmp, s, k), 2 * k, base)
    decreases |s|
  {
    hide Ordered, TotalPreorder, InRange, Merge, Runs;
    if s != [] {
      var m, n := Min(k, |s|), Min(2 * k, |s|);
      var p, q, r := s[..m], s[m..n], s[n..];
      TwoRuns(cmp, rank, s, k, base);
      MergeOrderedRuns(cmp, rank, u, p, q, base + k, base, base + 2 * k);
      PassRuns(cmp, rank, u, r, k, base + 2 * k);
      PassLength(cmp, r, k);
      RunsCons(cmp, rank, Merge(cmp, p, q), Pass(cmp, r, k), 2 * k, base);
    } else {
      NoRuns(cmp, rank, 2 * k, base);
    }
  }

  lemma MergeOrderedRuns<T>(cmp: Cmp<T>, rank: T -> int, u: set<T>, p: seq<T>, q: seq<T>, mid: int, lo: int, hi: int)
    requires TotalPreorder(cmp, u) && (forall e :: e in p || e in q ==> e in u) && lo <= mid <= hi
    requires Ordered(cmp, rank, p) && InRange(rank, p, lo, mid)
    requires Ordered(cmp, rank, q) && InRange(rank, q, mid, hi)
    ensures Ordered(cmp, rank, Merge(cmp, p, q)) && InRange(rank, Merge(cmp, p, q), lo, hi)
    ensures |Merge(cmp, p, q)| == |p| + |q|
  {
    MergeOrdered(cmp, rank, u, p, q);
    MergePermutes(cmp, p, q);
    assert |multiset(Merge(cmp, p, q))| == |multiset(p)| + |multiset(q)|;
    forall e | e in Merge(cmp, p, q)
      ensures lo <= rank(e) < hi
    {
      MergeElements(cmp, p, q, e);
    }
  }

  lemma NoRuns<T>(cmp: Cmp<T>, rank: T -> int, k: nat, base: int)
    requires k > 0
    ensures Ordered(cmp, rank, []) && InRange(rank, [], base, base + k) && Runs(cmp, rank, [], k, base)
  {
  }

  lemma RunsCons<T>(cmp: Cmp<T>, rank: T -> int, run: seq<T>, rest: seq<T>, k: nat, base: int)
    requires |run| <= k && k > 0 && (rest != [] ==> |run| == k)
    requires Ordered(cmp, rank, run) && InRange(rank, run, base, base + k) && Runs(cmp, rank, rest, k, base + k)
    ensures Runs(cmp, rank, run + rest, k, base)
  {
    var s := run + rest;
    if rest == [] {
      assert s[..Min(k, |s|)] == run;
    } else {
      assert s[..k] == run && s[k..] == rest;
    }
  }

  lemma TwoRuns<T>(cmp: Cmp<T>, rank: T -> int, s: seq<T>, k: nat, base: int)
    requires k > 0 && Runs(cmp, rank, s, k, base)
    ensures var m, n := Min(k, |s|), Min(2 * k, |s|);
            && Ordered(cmp, rank, s[..m]) && InRange(rank, s[..m], base, base + k)
            && Ordered(cmp, rank, s[m..n]) && InRange(rank, s[m..n], base + k, base + 2 * k)
            && Runs(cmp, rank, s[n..], k, base + 2 * k)
  {
    hide Ordered, InRange;
    NoRuns(cmp, rank, k, base + k);
    NoRuns(cmp, rank, k, base + 2 * k);
    if |s| > k {
      var t := s[k..];
      var n := Min(2 * k, |s|);
      assert s[k..n] == t[..Min(k, |t|)] && s[n..] == t[Min(k, |t|)..];
      if |t| <= k {
        assert s[n..] == [];
      }
    } else {
      assert s[Min(k, |s|)..Min(2 * k, |s|)] == [] && s[Min(2 * k, |s|)..] == [];
    }
  }

  lemma {:induction false} PassesOrdered<T>(cmp: Cmp<T>, rank: T -> int, u: set<T>, s: seq<T>, k: nat)
    requires k > 0 && TotalPreorder(cmp, u) && (forall e :: e in s ==> e in u)
    requires Runs(cmp, rank, s, k, 0)
    ensures Ordered(cmp, rank, Passes(cmp, s, k))
    decreases |s| - k
  {
    var s' := Pass(cmp, s, k);
    PassLength(cmp, s, k);
    PassPermutes(cmp, s, k);
    PassRuns(cmp, rank, u, s, k, 0);
    if |s| <= 2 * k {
      assert s'[..Min(2 * k, |s'|)] == s';
    } else {
      forall e | e in s'
        ensures e in u
      {
        assert e in multiset(s');
      }
      PassesOrdered(cmp, rank, u, s', 2 * k);
    }
  }

  // The position of e in s, or |s|.
  function Index<T(==)>(s: seq<T>, e: T): (i: nat)
    ensures e in s ==> i < |s| && s[i] == e
  {
    if s == [] || s[0] == e then 0 else 1 + Index(s[1..], e)
  }

  lemma {:induction false} SingletonRuns<T>(cmp: Cmp<T>, rank: T -> int, s: seq<T>, base: int)
    requires forall i :: 0 <= i < |s| ==> rank(s[i]) == base + i
    ensures Runs(cmp, rank, s, 1, base)
    decreases |s|
  {
    if |s| > 1 {
      SingletonRuns(cmp, rank, s[1..], base + 1);
    }
  }

  // HASH_SRT for any total preorder: the result is a permutation, sorted, and stable.
  lemma SortCorrect<T>(cmp: Cmp<T>, s: seq<T>)
    requires forall i, j :: 0 <= i < j < |s| ==> s[i] != s[j]
    requires TotalPreorder(cmp, set e | e in s)
    ensures multiset(Sort(cmp, s)) == multiset(s)
    ensures forall i, j :: 0 <= i < j < |Sort(cmp, s)| ==>
              var a, b := Sort(cmp, s)[i], Sort(cmp, s)[j];
              cmp(a, b) <= 0 && (cmp(b, a) <= 0 ==> Index(s, a) < Index(s, b))
  {
    var rank := e => Index(s, e);
    forall i | 0 <= i < |s|
      ensures rank(s[i]) == i
    {
      assert s[i] in s;
    }
    SingletonRuns(cmp, rank, s, 0);
    var u := set e | e in s;
    PassesOrdered(cmp, rank, u, s, 1);
    PassesPermute(cmp, s, 1);
  }
}
