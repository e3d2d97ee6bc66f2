/** HASH_SRT of include/uthash.h: the bottom-up merge sort of the application-order list, in
    place. Every step of the link surgery follows the sequence functions of MergeSort. */
module HashSort {
  import opened Bits
  import opened DataStructs
  import opened UtHash
  import opened PeerHashes
  import M = MergeSort

  type PeerCmp = M.Cmp<Peer>

  // What a comparison may look at: every field of an element that the sort does not write.
  datatype View = View(id: string, msg: Message?, tbl: Table?, hashv: nat, hhPrev: Peer?, hhNext: Peer?)

  type ViewCmp = (View, View) -> int

  function ViewOf(p: Peer): View
    reads p`msg, p`tbl, p`hashv, p`hhPrev, p`hhNext
  {
    View(p.id, p.msg, p.tbl, p.hashv, p.hhPrev, p.hhNext)
  }

  // cmp is what the comparison of views says about the elements as they are now.
  ghost predicate Agrees(key: ViewCmp, cmp: PeerCmp, all: set<Peer>)
    reads all`msg, all`tbl, all`hashv, all`hhPrev, all`hhNext
  {
    forall a, b :: a in all && b in all ==> cmp(a, b) == key(ViewOf(a), ViewOf(b))
  }

  lemma AgreesAt(key: ViewCmp, cmp: PeerCmp, all: set<Peer>, a: Peer, b: Peer)
    requires Agrees(key, cmp, all) && a in all && b in all
    ensures cmp(a, b) == key(ViewOf(a), ViewOf(b))
  {
  }

  lemma Comparison(key: ViewCmp, all: set<Peer>) returns (cmp: PeerCmp)
    ensures Agrees(key, cmp, all)
  {
    var views := map p | p in all :: ViewOf(p);
    cmp := (a, b) => if a in views && b in views then key(views[a], views[b]) else 0;
  }

  // The list built so far: linked both ways, except that the last `next` is stale.
  ghost predicate OutLinks(out: seq<Peer>)
    reads out`prev, out`next
  {
    && (forall i {:trigger out[i].prev} :: 0 <= i < |out| ==> out[i].prev == At(out, i - 1))
    && (forall i {:trigger out[i].next} :: 0 <= i < |out| - 1 ==> out[i].next == out[i + 1])
  }

  // A run that is being consumed: linked inside.
  ghost predicate RunLinks(p: seq<Peer>)
    reads p`next
  {
    forall i {:trigger p[i].next} :: 0 <= i < |p| - 1 ==> p[i].next == p[i + 1]
  }

  // The part of the old list that starts at q, down to its null.
  ghost predicate RestLinks(t: seq<Peer>)
    reads t`next
  {
    forall i {:trigger t[i].next} :: 0 <= i < |t| ==> t[i].next == At(t, i + 1)
  }

  ghost predicate Apart(out: seq<Peer>, p: seq<Peer>, t: seq<Peer>) {
    && Distinct(out) && Distinct(p) && Distinct(t)
    && (forall e :: e in p ==> e !in out && e !in t)
    && (forall e :: e in t ==> e !in out)
  }

  // Puts e behind the last element of the new list.
  method Emit(e: Peer, list: Peer?, tail: Peer?, ghost out: seq<Peer>) returns (list': Peer)
    requires OutLinks(out) && Distinct(out) && e !in out
    requires list == At(out, 0) && tail == At(out, |out| - 1)
    modifies e`prev, out`next
    ensures OutLinks(out + [e]) && list' == (out + [e])[0]
  {
    if tail != null {
      tail.next := e;
      list' := list;
    } else {
      list' := e;
    }
    e.prev := tail;
  }

  lemma ApartParts(out: seq<Peer>, e: Peer, p: seq<Peer>, t: seq<Peer>)
    requires Apart(out + [e], p, t)
    ensures Distinct(out) && e !in out
    ensures forall i :: 0 <= i < |p| ==> p[i] !in out
    ensures forall i :: 0 <= i < |t| ==> t[i] !in out
  {
    var out' := out + [e];
    assert out'[|out|] == e;
    forall i, j | 0 <= i < j < |out|
      ensures out[i] != out[j]
    {
      assert out'[i] == out[i] && out'[j] == out[j];
    }
    forall i | 0 <= i < |out|
      ensures out[i] in out' && out[i] != e && out[i] !in p && out[i] !in t
    {
      assert out'[i] == out[i];
    }
  }

  // ... which disturbs neither of the runs that are still to be merged.
  method EmitApart(e: Peer, list: Peer?, tail: Peer?, ghost out: seq<Peer>, ghost p: seq<Peer>, ghost t: seq<Peer>)
    returns (list': Peer)
    requires OutLinks(out) && Apart(out + [e], p, t) && RunLinks(p) && RestLinks(t)
    requires list == At(out, 0) && tail == At(out, |out| - 1)
    modifies e`prev, out`next
    ensures OutLinks(out + [e]) && list' == At(out + [e], 0) && RunLinks(p) && RestLinks(t)
  {
    ApartParts(out, e, p, t);
    list' := Emit(e, list, tail, out);
  }

  lemma TakeFromLeft(out: seq<Peer>, p: seq<Peer>, t: seq<Peer>)
    requires Apart(out, p, t) && RunLinks(p) && p != []
    ensures Apart(out + [p[0]], p[1..], t) && RunLinks(p[1..])
    ensures |p| > 1 ==> p[0].next == p[1..][0]
  {
    assert p[0] in p && p == [p[0]] + p[1..];
  }

  lemma TakeFromRight(out: seq<Peer>, p: seq<Peer>, t: seq<Peer>)
    requires Apart(out, p, t) && RestLinks(t) && t != []
    ensures Apart(out + [t[0]], p, t[1..]) && RestLinks(t[1..])
    ensures t[0].next == At(t[1..], 0)
  {
    assert t[0] in t && t == [t[0]] + t[1..];
  }

  // The first n elements of what follows q, and what is behind them.
  ghost function Front(t: seq<Peer>, n: nat): seq<Peer> {
    t[..Min(n, |t|)]
  }

  ghost function Back(t: seq<Peer>, n: nat): seq<Peer> {
    t[Min(n, |t|)..]
  }

  // The choice that the merge loop makes is the one of M.Merge.
  lemma MergeStep(cmp: PeerCmp, p: seq<Peer>, t: seq<Peer>, n: nat, right: bool)
    requires right ==> t != [] && n > 0 && (p == [] || cmp(p[0], t[0]) > 0)
    requires !right ==> p != [] && (n == 0 || t == [] || cmp(p[0], t[0]) <= 0)
    ensures right ==> M.Merge(cmp, p, Front(t, n)) == [t[0]] + M.Merge(cmp, p, Front(t[1..], n - 1))
    ensures right ==> Back(t, n) == Back(t[1..], n - 1)
    ensures !right ==> M.Merge(cmp, p, Front(t, n)) == [p[0]] + M.Merge(cmp, p[1..], Front(t, n))
  {
    if right {
      assert Front(t, n)[1..] == Front(t[1..], n - 1);
      if p == [] {
        assert Front(t, n) == [t[0]] + Front(t[1..], n - 1);
      }
    } else if Front(t, n) == [] {
      assert p == [p[0]] + p[1..];
    }
  }

  lemma MergeDone(cmp: PeerCmp, t: seq<Peer>, n: nat)
    requires n == 0 || t == []
    ensures M.Merge(cmp, [], Front(t, n)) == [] && Back(t, n) == t
  {
  }

  // The merge loop: P is the run at p, and the run at q is the front of T.
  method MergeRuns(key: ViewCmp, p0: Peer, psize0: nat, q0: Peer?, insize: nat, list0: Peer?, tail0: Peer?,
                   ghost cmp: PeerCmp, ghost P0: seq<Peer>, ghost T0: seq<Peer>, ghost out0: seq<Peer>,
                   ghost all: set<Peer>)
    returns (q: Peer?, list: Peer?, tail: Peer?, ghost out: seq<Peer>)
    requires P0 != [] && |P0| == psize0 && p0 == P0[0] && q0 == At(T0, 0) && Agrees(key, cmp, all)
    requires Apart(out0, P0, T0) && forall e :: e in out0 || e in P0 || e in T0 ==> e in all
    requires OutLinks(out0) && RunLinks(P0) && RestLinks(T0)
    requires list0 == At(out0, 0) && tail0 == At(out0, |out0| - 1)
    modifies all`next, all`prev
    ensures out == out0 + M.Merge(cmp, P0, Front(T0, insize)) && out != []
    ensures OutLinks(out) && list == At(out, 0) && tail == At(out, |out| - 1)
    ensures q == At(Back(T0, insize), 0) && RestLinks(Back(T0, insize))
    ensures Apart(out, [], Back(T0, insize)) && forall e :: e in out ==> e in all
    ensures Agrees(key, cmp, all)
  {
    hide Apart, OutLinks, RunLinks, RestLinks, M.Merge, Front, Back, Agrees, ViewOf;
    var p: Peer?, psize, qsize := p0, psize0, insize;
    q, list, tail := q0, list0, tail0;
    ghost var P, T := P0, T0;
    out := out0;
    while psize > 0 || (qsize > 0 && q != null)
      invariant |P| == psize && (P != [] ==> p == P[0]) && q == At(T, 0)
      invariant Apart(out, P, T) && Agrees(key, cmp, all)
      invariant forall e :: e in out || e in P || e in T ==> e in all
      invariant OutLinks(out) && RunLinks(P) && RestLinks(T)
      invariant list == At(out, 0) && tail == At(out, |out| - 1)
      invariant out + M.Merge(cmp, P, Front(T, qsize)) == out0 + M.Merge(cmp, P0, Front(T0, insize))
      invariant Back(T, qsize) == Back(T0, insize)
      invariant out != [] || P != []
      decreases |P| + |T|
    {
      var e: Peer;
      if psize > 0 && q != null {
        AgreesAt(key, cmp, all, p, q);
      }
      var right := psize == 0 || (qsize > 0 && q != null && key(ViewOf(p), ViewOf(q)) > 0);
      MergeStep(cmp, P, T, qsize, right);
      if right {
        TakeFromRight(out, P, T);
        e := q;
        q := q.next;
        qsize := qsize - 1;
        T := T[1..];
      } else {
        TakeFromLeft(out, P, T);
        e := p;
        p := p.next;
        psize := psize - 1;
        P := P[1..];
      }
      list := EmitApart(e, list, tail, out, P, T);
      out := out + [e];
      tail := e;
    }
    MergeDone(cmp, T, qsize);
  }

  // The loop that steps over the left run, to find where the right one starts.
  method SkipRun(p: Peer, insize: nat, ghost R: seq<Peer>) returns (q: Peer?, psize: nat)
    requires R != [] && p == R[0] && RestLinks(R) && insize > 0
    ensures psize == |Front(R, insize)| > 0 && q == At(Back(R, insize), 0)
  {
    q, psize := p, 0;
    for i := 0 to insize
      invariant psize == i < |R| && q == R[i]
    {
      psize := psize + 1;
      q := q.next;
      if q == null {
        break;
      }
    }
  }

  lemma SplitRuns(out: seq<Peer>, R: seq<Peer>, k: nat)
    requires Apart(out, [], R) && RestLinks(R) && R != [] && k > 0
    ensures Apart(out, Front(R, k), Back(R, k)) && RunLinks(Front(R, k)) && RestLinks(Back(R, k))
    ensures Front(R, k) != [] && Front(R, k)[0] == R[0]
    ensures forall e :: e in Front(R, k) || e in Back(R, k) ==> e in R
  {
    var p, t := Front(R, k), Back(R, k);
    forall e | e in t
      ensures e in R && e !in p
    {
      var i :| 0 <= i < |t| && t[i] == e;
      assert R[|p| + i] == e;
    }
  }

  lemma PassStep(cmp: PeerCmp, R: seq<Peer>, k: nat)
    requires R != [] && k > 0
    ensures M.Pass(cmp, R, k)
         == M.Merge(cmp, Front(R, k), Front(Back(R, k), k)) + M.Pass(cmp, Back(Back(R, k), k), k)
    ensures Back(Back(R, k), k) == Back(R, 2 * k) && |Back(R, 2 * k)| < |R|
  {
    var m, n := Min(k, |R|), Min(2 * k, |R|);
    assert Front(Back(R, k), k) == R[m..n] && Back(Back(R, k), k) == R[n..];
  }

  // One turn of the pass loop: the two runs at p, merged onto the new list.
  method MergeNext(key: ViewCmp, p0: Peer, insize: nat, list0: Peer?, tail0: Peer?,
                   ghost cmp: PeerCmp, ghost R: seq<Peer>, ghost out0: seq<Peer>, ghost all: set<Peer>)
    returns (p: Peer?, list: Peer?, tail: Peer?, ghost out: seq<Peer>)
    requires R != [] && p0 == R[0] && RestLinks(R) && insize > 0 && Agrees(key, cmp, all)
    requires Apart(out0, [], R) && OutLinks(out0) && forall e :: e in out0 || e in R ==> e in all
    requires list0 == At(out0, 0) && tail0 == At(out0, |out0| - 1)
    modifies all`next, all`prev
    ensures out + M.Pass(cmp, Back(R, 2 * insize), insize) == out0 + M.Pass(cmp, R, insize)
    ensures p == At(Back(R, 2 * insize), 0) && RestLinks(Back(R, 2 * insize)) && |Back(R, 2 * insize)| < |R|
    ensures Apart(out, [], Back(R, 2 * insize)) && OutLinks(out) && out != []
    ensures list == At(out, 0) && tail == At(out, |out| - 1)
    ensures forall e :: e in out || e in Back(R, 2 * insize) ==> e in all
    ensures Agrees(key, cmp, all)
  {
    hide Apart, OutLinks, RunLinks, RestLinks, M.Merge, M.Pass, Agrees;
    SplitRuns(out0, R, insize);
    PassStep(cmp, R, insize);
    var q, psize := SkipRun(p0, insize, R);
    p, list, tail, out := MergeRuns(key, p0, psize, q, insize, list0, tail0,
                                    cmp, Front(R, insize), Back(R, insize), out0, all);
  }

  // One pass over the list: merges the runs of insize elements two by two.
  method SortPass(key: ViewCmp, list0: Peer, insize: nat, ghost cmp: PeerCmp, ghost L: seq<Peer>, ghost all: set<Peer>)
    returns (list: Peer?, tail: Peer?, nmerges: nat, ghost out: seq<Peer>)
    requires L != [] && list0 == L[0] && Distinct(L) && RestLinks(L) && insize > 0
    requires Agrees(key, cmp, all) && forall e :: e in L ==> e in all
    modifies all`next, all`prev
    ensures Agrees(key, cmp, all)
    ensures out == M.Pass(cmp, L, insize)
    ensures AppList(list, tail, out) && forall e :: e in out ==> e in all
    ensures nmerges <= 1 <==> |L| <= 2 * insize
  {
    hide Apart, OutLinks, RunLinks, RestLinks, M.Merge, M.Pass, AppList, Distinct, Agrees;
    var p: Peer? := list0;
    list, tail, nmerges, out := null, null, 0, [];
    ghost var R := L;
    StartPass(L);
    while p != null
      invariant p == At(R, 0) && RestLinks(R) && Apart(out, [], R) && OutLinks(out) && Agrees(key, cmp, all)
      invariant list == At(out, 0) && tail == At(out, |out| - 1)
      invariant forall e :: e in out || e in R ==> e in all
      invariant out + M.Pass(cmp, R, insize) == M.Pass(cmp, L, insize)
      invariant nmerges == 0 ==> R == L
      invariant nmerges == 1 ==> R == Back(L, 2 * insize)
      invariant nmerges >= 2 ==> |L| > 2 * insize
      invariant nmerges > 0 ==> out != []
      decreases |R|
    {
      nmerges := nmerges + 1;
      p, list, tail, out := MergeNext(key, p, insize, list, tail, cmp, R, out, all);
      R := Back(R, 2 * insize);
    }
    EndPass(cmp, insize);
    Close(list, tail, out);
  }

  lemma StartPass(L: seq<Peer>)
    requires Distinct(L)
    ensures Apart([], [], L) && OutLinks([])
  {
  }

  lemma EndPass(cmp: PeerCmp, k: nat)
    requires k > 0
    ensures M.Pass(cmp, [], k) == []
  {
  }

  // Once the stale `next` of the last element is cleared, the new list is complete.
  method Close(list: Peer?, tail: Peer?, ghost out: seq<Peer>)
    requires Apart(out, [], []) && OutLinks(out) && out != []
    requires list == At(out, 0) && tail == At(out, |out| - 1)
    modifies tail`next
    ensures AppList(list, tail, out)
  {
    if tail != null {
      tail.next := null;
    }
  }

  // The passes, until a single merge has covered the list.
  method SortList(key: ViewCmp, head: Peer, ghost cmp: PeerCmp, ghost s: seq<Peer>) returns (head': Peer?, tail: Peer?)
    requires Agrees(key, cmp, Elems(s)) && s != [] && head == s[0] && Distinct(s) && AppLinks(s)
    modifies s`next, s`prev
    ensures AppList(head', tail, M.Sort(cmp, s)) && Agrees(key, cmp, Elems(s))
  {
    hide AppList, AppLinks, RestLinks, Distinct, M.Pass, Agrees;
    var insize, looping := 1, true;
    ghost var L := s;
    head', tail := head, null;
    ToRest(s);
    while looping
      invariant insize > 0 && |L| == |s| && (looping ==> head' == L[0] && Distinct(L) && RestLinks(L))
      invariant Agrees(key, cmp, Elems(s)) && forall e :: e in L ==> e in Elems(s)
      invariant looping ==> M.Passes(cmp, L, insize) == M.Sort(cmp, s)
      invariant !looping ==> AppList(head', tail, M.Sort(cmp, s))
      decreases looping, |s| - insize
    {
      M.PassLength(cmp, L, insize);
      var nmerges;
      head', tail, nmerges, L := SortPass(key, head', insize, cmp, L, Elems(s));
      ListToRest(head', tail, L);
      if nmerges <= 1 {
        looping := false;
      }
      insize := insize * 2;
    }
  }

  lemma ToRest(s: seq<Peer>)
    requires AppLinks(s)
    ensures RestLinks(s)
  {
  }

  lemma ListToRest(head: Peer?, tail: Peer?, s: seq<Peer>)
    requires AppList(head, tail, s)
    ensures s != [] && head == s[0] && Distinct(s) && RestLinks(s)
  {
  }

  // Any two of the elements compare, and transitively.
  ghost predicate Orders(key: ViewCmp, all: set<Peer>)
    reads all`msg, all`tbl, all`hashv, all`hhPrev, all`hhNext
  {
    && (forall a, b :: a in all && b in all ==> key(ViewOf(a), ViewOf(b)) <= 0 || key(ViewOf(b), ViewOf(a)) <= 0)
    && (forall a, b, c ::
          a in all && b in all && c in all && key(ViewOf(a), ViewOf(b)) <= 0 && key(ViewOf(b), ViewOf(c)) <= 0
          ==> key(ViewOf(a), ViewOf(c)) <= 0)
  }

  // t is ascending, and its ties are in the order of s.
  ghost predicate Ascending(key: ViewCmp, s: seq<Peer>, t: seq<Peer>)
    reads t`msg, t`tbl, t`hashv, t`hhPrev, t`hhNext
  {
    forall i, j :: 0 <= i < j < |t| ==>
      && key(ViewOf(t[i]), ViewOf(t[j])) <= 0
      && (key(ViewOf(t[j]), ViewOf(t[i])) <= 0 ==> M.Index(s, t[i]) < M.Index(s, t[j]))
  }

  lemma OrdersAgrees(key: ViewCmp, cmp: PeerCmp, all: set<Peer>)
    requires Agrees(key, cmp, all) && Orders(key, all)
    ensures M.TotalPreorder(cmp, all)
  {
  }

  // What SortCorrect says about the comparison of elements, said about the key.
  lemma SortAscends(key: ViewCmp, cmp: PeerCmp, s: seq<Peer>)
    requires Agrees(key, cmp, Elems(s)) && Distinct(s)
    ensures multiset(M.Sort(cmp, s)) == multiset(s)
    ensures Orders(key, Elems(s)) ==> Ascending(key, s, M.Sort(cmp, s))
  {
    hide Orders, M.TotalPreorder, M.Passes;
    var t := M.Sort(cmp, s);
    M.PassesPermute(cmp, s, 1);
    if Orders(key, Elems(s)) {
      OrdersAgrees(key, cmp, Elems(s));
      M.SortCorrect(cmp, s);
      forall e | e in t
        ensures e in Elems(s)
      {
        assert e in multiset(t);
      }
    }
  }

  // HASH_SRT: the list becomes the sorted one; the table and its chains are not touched. The ghost
  // cmp is the comparison of elements that the key makes.
  method Sort(h: PeerHash, key: ViewCmp) returns (ghost cmp: PeerCmp)
    requires h.Valid()
    modifies h`head, h`items, h.Tables()`tail, h.items`next, h.items`prev
    ensures Agrees(key, cmp, Elems(h.items))
    ensures h.Valid() && h.items == M.Sort(cmp, old(h.items)) && multiset(h.items) == multiset(old(h.items))
    ensures old(Orders(key, Elems(h.items))) ==> Ascending(key, old(h.items), h.items)
  {
    hide Orders, Ascending, Agrees, M.Sort, AppList, AppLinks, Distinct, Owned, KeysDistinct, Stored;
    cmp := Comparison(key, Elems(h.items));
    ghost var s, t := h.items, M.Sort(cmp, h.items);
    if h.head != null {
      ListHead(h.head, h.t, h.hash, s);
      ListParts(h.head, h.t.tail, s);
      SortAscends(key, cmp, s);
      assert Orders(key, Elems(s)) ==> Ascending(key, s, t);
      SortSome(h, key, cmp);
      assert old(Orders(key, Elems(s))) ==> Ascending(key, s, t);
    } else {
      NothingToSort(key, cmp);
    }
  }

  lemma NothingToSort(key: ViewCmp, cmp: PeerCmp)
    ensures M.Sort(cmp, []) == [] && Ascending(key, [], [])
  {
  }

  method SortSome(h: PeerHash, key: ViewCmp, ghost cmp: PeerCmp)
    requires h.Valid() && h.t != null && Agrees(key, cmp, Elems(h.items))
    modifies h`head, h`items, h.t`tail, h.items`next, h.items`prev
    ensures h.Valid() && h.items == M.Sort(cmp, old(h.items)) && Agrees(key, cmp, Elems(h.items))
  {
    hide Agrees, AppList, AppLinks, Distinct, Owned, KeysDistinct, Stored;
    ghost var s := M.Sort(cmp, h.items);
    ListHead(h.head, h.t, h.hash, h.items);
    ListParts(h.head, h.t.tail, h.items);
    var list, tail := SortList(key, h.head, cmp, h.items);
    ListParts(list, tail, s);
    SamePeers(h.t, h.hash, h.items, s, cmp);
    StoredSame(h.t, h.hash, h.bloom, h.items, s);
    h.head.tbl.tail := tail;
    h.head := list;
    h.items := s;
    assert AppList(h.head, h.t.tail, s) && Owned(h.t, h.hash, s) && Stored(h.t, h.hash, h.bloom, s);
  }

  lemma StoredSame(t: Table, hash: HashFn, bloom: Option<nat>, s: seq<Peer>, s': seq<Peer>)
    requires Stored(t, hash, bloom, s) && Elems(s') == Elems(s) && |s'| == |s|
    ensures Stored(t, hash, bloom, s')
  {
    hide Placed, Heads, SizedOk, BoundedOk, BloomOk;
  }

  lemma ListParts(head: Peer?, tail: Peer?, s: seq<Peer>)
    requires AppList(head, tail, s)
    ensures s != [] && head == s[0] && Distinct(s) && AppLinks(s)
  {
  }

  lemma SamePeers(t: Table, hash: HashFn, s: seq<Peer>, s': seq<Peer>, cmp: PeerCmp)
    requires s' == M.Sort(cmp, s) && Owned(t, hash, s) && KeysDistinct(s) && Distinct(s')
    ensures Elems(s') == Elems(s) && |s'| == |s| && Owned(t, hash, s') && KeysDistinct(s')
  {
    M.PassesPermute(cmp, s, 1);
    assert |multiset(s')| == |multiset(s)|;
    forall p
      ensures p in s <==> p in s'
    {
      assert p in multiset(s) <==> p in multiset(s');
    }
    forall i, j | 0 <= i < j < |s'|
      ensures s'[i].id != s'[j].id
    {
      assert s'[i] in s && s'[j] in s;
      var a :| 0 <= a < |s| && s[a] == s'[i];
      var b :| 0 <= b < |s| && s[b] == s'[j];
      assert a < b || b < a;
    }
  }
}
