/** include/iol.c: scatter/gather lists, their check, and their copy into an iovec array. */
module IoLists {

  type byte = x: int | 0 <= x < 256

  // struct iovec: len bytes from index off of base on.
  datatype IoVec = IoVec(base: array<byte>, off: nat, len: nat) {
    predicate Fits() {
      off + len <= base.Length
    }
  }

  // struct iolist; iol_rsvd is the mark that iol_check leaves on the nodes it has seen.
  class IoList {
    var buf: IoVec
    var next: IoList?
    var rsvd: bool

    constructor (buf: IoVec, next: IoList?)
      ensures this.buf == buf && this.next == next && !rsvd
    {
      this.buf, this.next, rsvd := buf, next, false;
    }
  }

  // Nodes that follow each other along `next`, from the first one on.
  ghost predicate Path(s: seq<IoList>, first: IoList)
    reads s`next
  {
    && s != [] && s[0] == first
    && forall i {:trigger s[i].next} :: 0 <= i < |s| - 1 ==> s[i].next == s[i + 1]
  }

  // s is the whole list from first to last: last is where it ends.
  ghost predicate ListOf(s: seq<IoList>, first: IoList, last: IoList)
    reads s`next
  {
    && Path(s, first)
    && s[|s| - 1] == last && last.next == null
  }

  ghost predicate Closed(u: set<IoList>)
    reads u`next
  {
    forall n :: n in u && n.next != null ==> n.next in u
  }

  ghost function TotalLen(s: seq<IoList>): nat
    reads s`buf
  {
    if s == [] then 0 else TotalLen(s[..|s| - 1]) + s[|s| - 1].buf.len
  }

  lemma {:induction false} SamePath(s: seq<IoList>, v: seq<IoList>, first: IoList, i: nat)
    requires Path(s, first) && Path(v, first) && i < |s| && i < |v|
    ensures s[i] == v[i]
  {
    if i > 0 {
      SamePath(s, v, first, i - 1);
      assert s[i - 1].next == s[i] && v[i - 1].next == v[i];
    }
  }

  // A list that ends visits no node twice.
  lemma {:induction false} EndingListRepeatsNothing(s: seq<IoList>, first: IoList, i: nat, j: nat)
    requires Path(s, first) && s[|s| - 1].next == null && i < j < |s|
    ensures s[i] != s[j]
    decreases |s| - j
  {
    assert s[i].next == s[i + 1];
    if j + 1 < |s| {
      assert s[j].next == s[j + 1];
      EndingListRepeatsNothing(s, first, i + 1, j + 1);
    }
  }

  // Why the error exits of iol_check are right: v are the nodes marked so far, `it` the next.
  lemma NoList(s: seq<IoList>, v: seq<IoList>, first: IoList, last: IoList, it: IoList)
    requires Path(v + [it], first)
    requires it in v || (it.next == null && it != last)
    ensures !ListOf(s, first, last)
  {
    if ListOf(s, first, last) {
      var w := v + [it];
      var n := |v|;
      if |s| <= n {
        assert w[|s| - 1].next == w[|s|];
        SamePath(s, w, first, |s| - 1);
      } else {
        assert n < |s| - 1 ==> s[n].next == s[n + 1];
        SamePath(s, w, first, n);
        if it in v {
          var i :| 0 <= i < n && v[i] == it;
          assert w[i] == v[i];
          SamePath(s, w, first, i);
          EndingListRepeatsNothing(s, first, i, n);
        }
      }
    }
  }

  // A list is determined by its ends.
  lemma OneList(s: seq<IoList>, v: seq<IoList>, first: IoList, last: IoList)
    requires ListOf(s, first, last) && ListOf(v, first, last)
    ensures s == v
  {
    NoLonger(s, v, first, last);
    NoLonger(v, s, first, last);
    forall i | 0 <= i < |s|
      ensures s[i] == v[i]
    {
      SamePath(s, v, first, i);
    }
  }

  lemma NoLonger(s: seq<IoList>, v: seq<IoList>, first: IoList, last: IoList)
    requires ListOf(s, first, last) && Path(v, first)
    ensures |v| <= |s|
  {
    if |s| < |v| {
      var n := |s| - 1;
      assert v[n].next == v[n + 1];
      SamePath(s, v, first, n);
    }
  }

  // The nodes of the path after those of v, as far as iol_check has come.
  ghost predicate Ahead(v: seq<IoList>, it: IoList?, first: IoList)
    reads v`next
  {
    if v == [] then it == first else Path(v, first) && v[|v| - 1].next == it
  }

  lemma AheadStep(v: seq<IoList>, it: IoList, first: IoList)
    requires Ahead(v, it, first)
    ensures Path(v + [it], first)
  {
    var w := v + [it];
    forall i | 0 <= i < |w| - 1
      ensures w[i].next == w[i + 1]
    {
      if i < |v| - 1 {
        assert v[i].next == v[i + 1];
      }
    }
  }

  lemma OneLonger(v: seq<IoList>, it: IoList)
    ensures TotalLen([]) == 0 && TotalLen(v + [it]) == TotalLen(v) + it.buf.len
  {
    assert (v + [it])[..|v + [it]| - 1] == v;
  }

  // Walks from `it` to the end, marking: the first loop of iol_check. Stops at the node where it
  // gives up, or at null. v lists the nodes marked.
  method Mark(first: IoList, last: IoList, ghost u: set<IoList>)
    returns (stop: IoList?, nbufs: nat, nbytes: nat, ghost v: seq<IoList>)
    requires Closed(u) && first in u && last.next == null
    modifies u`rsvd
    ensures Ahead(v, stop, first) && Path(v + (if stop == null then [] else [stop]), first)
    ensures stop != null ==> stop in u && ((stop.next == null && stop != last) || old(stop.rsvd) || stop in v)
    ensures stop == null ==> ListOf(v, first, last)
    ensures forall n :: n in v ==> n in u && !old(n.rsvd)
    ensures forall n :: n in u ==> n.rsvd == (old(n.rsvd) || n in v)
    ensures nbufs == |v| && nbytes == TotalLen(v)
    ensures forall i, j :: 0 <= i < j < |v| ==> v[i] != v[j]
  {
    hide TotalLen;
    OneLonger([], first);
    var it: IoList? := first;
    ghost var unseen := u;
    nbufs, nbytes, v := 0, 0, [];
    while it != null
      invariant Ahead(v, it, first) && (it != null ==> it in u)
      invariant it == null ==> v != [] && v[|v| - 1] == last
      invariant forall n :: n in v ==> n in u && !old(n.rsvd)
      invariant forall n :: n in u ==> n.rsvd == (old(n.rsvd) || n in v)
      invariant nbufs == |v| && nbytes == TotalLen(v)
      invariant forall i, j :: 0 <= i < j < |v| ==> v[i] != v[j]
      invariant forall n :: n in u ==> (n in unseen <==> n !in v)
      decreases unseen
    {
      AheadStep(v, it, first);
      if it.rsvd || (it.next == null && it != last) {
        return it, nbufs, nbytes, v;
      }
      it.rsvd := true;
      nbufs, nbytes := nbufs + 1, nbytes + it.buf.len;
      ghost var w := v + [it];
      OneLonger(v, it);
      assert it in unseen;
      unseen := unseen - {it};
      v := w;
      it := it.next;
    }
    assert v + [] == v;
    stop := null;
  }

  // Walks the list again and clears the marks: the second loop of iol_check.
  method Unmark(first: IoList, last: IoList, ghost u: set<IoList>, ghost v: seq<IoList>)
    requires ListOf(v, first, last) && forall i :: 0 <= i < |v| ==> v[i] in u
    modifies u`rsvd
    ensures forall n :: n in u ==> n.rsvd == (old(n.rsvd) && n !in v)
  {
    var it: IoList? := first;
    ghost var i := 0;
    while it != null
      invariant 0 <= i <= |v| && it == (if i == |v| then null else v[i])
      invariant forall n :: n in u ==> n.rsvd == (old(n.rsvd) && n !in v[..i])
      decreases |v| - i
    {
      assert v[..i + 1] == v[..i] + [it];
      it.rsvd := false;
      it, i := it.next, i + 1;
    }
  }

  // The exit for bad lists: it walks up to the node where the check stopped, but clears that
  // node's mark at every step, not the marks of the nodes it walks over.
  method Abandon(first: IoList, it: IoList, ghost v: seq<IoList>)
    requires Path(v + [it], first)
    modifies it`rsvd
    ensures it.rsvd == (old(it.rsvd) && it == first)
  {
    var it2: IoList := first;
    ghost var i := 0;
    ghost var w := v + [it];
    while it2 != it
      invariant 0 <= i < |w| && it2 == w[i]
      invariant it.rsvd == (old(it.rsvd) && (i == 0 || it == first))
      invariant i > 0 ==> it != first
      decreases |v| - i
    {
      it.rsvd := false;
      assert w[i].next == w[i + 1];
      it2, i := it2.next, i + 1;
    }
  }

  // An ending list from first on goes through every node that the walk has come to.
  lemma OnTheWay(s: seq<IoList>, v: seq<IoList>, first: IoList, last: IoList, it: IoList)
    requires ListOf(s, first, last) && Path(v + [it], first)
    ensures it in s
  {
    var w, n := v + [it], |v|;
    NoLonger(s, w, first, last);
    SamePath(s, w, first, n);
  }

  lemma {:induction false} Inside(s: seq<IoList>, first: IoList, u: set<IoList>, i: nat)
    requires Path(s, first) && Closed(u) && first in u && i < |s|
    ensures s[i] in u
  {
    if i > 0 {
      Inside(s, first, u, i - 1);
      assert s[i - 1].next == s[i];
    }
  }

  // A list from first to last, all of whose nodes are in the set.
  ghost predicate Within(s: seq<IoList>, first: IoList?, last: IoList?, clear: set<IoList>)
    reads s`next, clear`next
  {
    first != null && last != null && ListOf(s, first, last) && forall i :: 0 <= i < |s| ==> s[i] in clear
  }

  // What stops the check before it marks anything.
  predicate RefusedAtOnce(first: IoList?, last: IoList?)
    reads first, last
  {
    first == null || last == null || last.next != null || first.rsvd || (first.next == null && first != last)
  }

  // The nodes of u that carry no mark.
  ghost function Clear(u: set<IoList>): set<IoList>
    reads u`rsvd
  {
    set n | n in u && !n.rsvd
  }

  /** iol_check. The ghost set u holds the nodes that can be reached, v those it came past, and
      `stop` the node at which it gave up. It succeeds exactly when there is a list from first to
      last without a mark on it; and a failure leaves the marks as they were exactly when it was
      refused at once. */
  method Check(first: IoList?, last: IoList?, ghost u: set<IoList>)
    returns (ok: bool, nbufs: nat, nbytes: nat, ghost v: seq<IoList>, ghost stop: IoList?)
    requires Closed(u) && (first != null ==> first in u)
    modifies u`rsvd
    ensures ok <==> exists s :: Within(s, first, last, old(Clear(u)))
    ensures ok ==> Within(v, first, last, old(Clear(u))) && nbufs == |v| && nbytes == TotalLen(v)
    ensures ok ==> forall n :: n in u ==> n.rsvd == old(n.rsvd)
    ensures !ok ==> ((forall n :: n in u ==> n.rsvd == old(n.rsvd)) <==> old(RefusedAtOnce(first, last)))
    ensures !ok && !old(RefusedAtOnce(first, last)) ==>
              && v != [] && stop != null && Path(v + [stop], first) && (forall n :: n in v ==> n in old(Clear(u)))
              && (forall i, j :: 0 <= i < j < |v| ==> v[i] != v[j])
              && (stop !in old(Clear(u)) || stop in v || (stop.next == null && stop != last))
              && (forall n :: n in u ==> n.rsvd == ((old(n.rsvd) || n in v) && (n == stop ==> n == first)))
              && first.rsvd
  {
    ok, nbufs, nbytes, v, stop := false, 0, 0, [], null;
    if first == null || last == null || last.next != null {
      return;
    }
    var it;
    it, nbufs, nbytes, v := Mark(first, last, u);
    stop := it;
    if it == null {
      Unmark(first, last, u, v);
      ok := true;
      assert Within(v, first, last, old(Clear(u)));
    } else {
      Abandon(first, it, v);
      ghost var w := v + [it];
      assert v != [] ==> v[0] == w[0] == first && w[0].next == w[1] && first in v;
      assert v == [] ==> w[0] == it == first;
      forall s: seq<IoList>
        ensures !Within(s, first, last, old(Clear(u)))
      {
        if ListOf(s, first, last) {
          OnTheWay(s, v, first, last, it);
          if it in v || (it.next == null && it != last) {
            NoList(s, v, first, last, it);
          }
        }
      }
    }
  }

  // One marked node on a list, and the next check of it fails.
  lemma OneMarkIsEnough(s: seq<IoList>, first: IoList, last: IoList, n: IoList, clear: set<IoList>)
    requires ListOf(s, first, last) && n in s && n !in clear
    ensures !exists v :: Within(v, first, last, clear)
  {
    if v :| Within(v, first, last, clear) {
      OneList(s, v, first, last);
    }
  }

  ghost predicate Unmarked(s: seq<IoList>)
    reads s`rsvd
  {
    forall n :: n in s ==> !n.rsvd
  }

  lemma UnmarkedClear(s: seq<IoList>, first: IoList, last: IoList, u: set<IoList>)
    requires ListOf(s, first, last) && Closed(u) && first in u
    ensures Unmarked(s) <==> forall n :: n in s ==> n in Clear(u)
  {
    forall i | 0 <= i < |s|
      ensures s[i] in u
    {
      Inside(s, first, u, i);
    }
  }

  // A list without a mark on it passes, and no other does.
  lemma ClearPasses(s: seq<IoList>, first: IoList, last: IoList, clear: set<IoList>)
    requires ListOf(s, first, last)
    ensures (exists v :: Within(v, first, last, clear)) <==> forall n :: n in s ==> n in clear
  {
    if forall n :: n in s ==> n in clear {
      assert Within(s, first, last, clear);
    } else {
      var n :| n in s && n !in clear;
      OneMarkIsEnough(s, first, last, n, clear);
    }
  }

  // What iol_check makes of a list that is in order.
  method CheckList(first: IoList, last: IoList, ghost u: set<IoList>, ghost s: seq<IoList>) returns (ok: bool, n: nat)
    requires Closed(u) && first in u && ListOf(s, first, last)
    modifies u`rsvd
    ensures ok <==> old(Unmarked(s))
    ensures ok ==> n == |s|
  {
    hide ListOf, Closed, Unmarked, Clear;
    UnmarkedClear(s, first, last, u);
    ghost var clear := Clear(u);
    var nbytes;
    ghost var stop, v;
    ok, n, nbytes, v, stop := Check(first, last, u);
    ClearPasses(s, first, last, clear);
    if ok {
      OneList(s, v, first, last);
    }
  }

  // A list that never comes to its announced end fails the check.
  lemma NeverThere(first: IoList, last: IoList, reach: set<IoList>, clear: set<IoList>)
    requires Closed(reach) && first in reach && last !in reach
    ensures !exists v :: Within(v, first, last, clear)
  {
    if v :| Within(v, first, last, clear) {
      Inside(v, first, reach, |v| - 1);
    }
  }

  // The check of the list from a to b against an end that is not its own.
  method WrongEnd(a: IoList, b: IoList) returns (ok: bool)
    requires a.next == b && b.next == null && !a.rsvd && !b.rsvd
    modifies a`rsvd, b`rsvd
    ensures !ok && a.rsvd && !b.rsvd
  {
    hide TotalLen;
    var c := new IoList(a.buf, null);
    ghost var n, m, v, stop;
    NeverThere(a, c, {a, b}, Clear({a, b, c}));
    ok, n, m, v, stop := Check(a, c, {a, b, c});
    TwoNodes(a, b, v + [stop]);
  }

  // The check of the list from a to b, without a mark on it.
  method RightEnd(a: IoList, b: IoList) returns (ok: bool)
    requires a.next == b && b.next == null && !a.rsvd && !b.rsvd
    modifies a`rsvd, b`rsvd
    ensures ok && !a.rsvd && !b.rsvd
  {
    ghost var clear, n, m, v, stop := Clear({a, b}), 0, 0, [], null;
    ok, n, m, v, stop := Check(a, b, {a, b});
    assert Within([a, b], a, b, clear);
  }

  // The check of the list from x by way of a to b, with a mark on a.
  method PastTheMark(x: IoList, a: IoList, b: IoList) returns (ok: bool)
    requires x.next == a && a.next == b && b.next == null && !x.rsvd && a.rsvd && !b.rsvd
    modifies x`rsvd, a`rsvd, b`rsvd
    ensures !ok && x.rsvd && !a.rsvd && !b.rsvd
  {
    hide TotalLen;
    ghost var s, clear, n, m, v, stop := [x, a, b], Clear({x, a, b}), 0, 0, [], null;
    assert s[1] == a && s[0] == x;
    OneMarkIsEnough(s, x, b, a, clear);
    ok, n, m, v, stop := Check(x, b, {x, a, b});
    FirstMark(s, x, b, 1, v, stop, clear);
  }

  /** Two nodes, checked with an end that is not theirs, and then with the right one: the first
      check leaves its mark on a, and so the second one fails on a list that is in order. */
  method DeadEnd(buf: IoVec) returns (wrong: bool, right: bool, a: IoList, b: IoList)
    ensures fresh(a) && fresh(b) && ListOf([a, b], a, b)
    ensures !wrong && !right && a.rsvd && !b.rsvd
  {
    b := new IoList(buf, null);
    a := new IoList(buf, b);
    wrong := WrongEnd(a, b);
    OneMarkIsEnough([a, b], a, b, a, Clear({a, b}));
    ghost var n, m, v, stop;
    right, n, m, v, stop := Check(a, b, {a, b});
  }

  // What a walk over a and b has seen when it is at the end of it.
  lemma TwoNodes(a: IoList, b: IoList, w: seq<IoList>)
    requires Path(w, a) && a.next == b && b.next == null && |w| > 1
    ensures w == [a, b]
  {
    NoLonger([a, b], w, a, b);
    assert w[0].next == w[1];
  }

  /** Where the check gives up on a list that is in order but for a mark: at its first marked
      node, past exactly the nodes before that one. */
  lemma FirstMark(s: seq<IoList>, first: IoList, last: IoList, k: nat, v: seq<IoList>, stop: IoList,
                  clear: set<IoList>)
    requires ListOf(s, first, last) && k < |s| && s[k] !in clear && forall i :: 0 <= i < k ==> s[i] in clear
    requires Path(v + [stop], first) && forall n :: n in v ==> n in clear
    requires stop !in clear || stop in v || (stop.next == null && stop != last)
    ensures v == s[..k] && stop == s[k]
  {
    var w, n := v + [stop], |v|;
    NoLonger(s, w, first, last);
    forall i | 0 <= i < |w|
      ensures w[i] == s[i] && (i < n ==> s[i] in clear)
    {
      SamePath(s, w, first, i);
    }
    if n < k {
      assert s[n].next == s[n + 1];
      NoList(s, v, first, last, stop);
    }
  }

  /** A failure clears a mark, too: that of the node at which it gives up. The first check, against
      a wrong end, leaves its mark on a; so the check of the whole list from x to b fails at a, and
      then that of the list from a to b succeeds. But now it is x that is marked. */
  method MarkMoves(buf: IoVec) returns (wrong: bool, whole: bool, part: bool, x: IoList, a: IoList, b: IoList)
    ensures fresh(x) && fresh(a) && fresh(b) && ListOf([x, a, b], x, b)
    ensures !wrong && !whole && part && x.rsvd && !a.rsvd && !b.rsvd
  {
    hide TotalLen;
    b := new IoList(buf, null);
    a := new IoList(buf, b);
    x := new IoList(buf, a);
    wrong := WrongEnd(a, b);
    whole := PastTheMark(x, a, b);
    part := RightEnd(a, b);
  }

  // A walk that has left a is at b for good.
  lemma {:induction false} AroundTheLoop(a: IoList, b: IoList, w: seq<IoList>, i: nat)
    requires Path(w, a) && a.next == b && b.next == b && 0 < i < |w|
    ensures w[i] == b
  {
    if i > 1 {
      AroundTheLoop(a, b, w, i - 1);
    }
    assert w[i - 1].next == w[i];
  }

  // A lasso: a leads to b, and b to itself. Its first node stays marked, too.
  method Lasso(buf: IoVec) returns (ok: bool, a: IoList, b: IoList)
    ensures fresh(a) && fresh(b) && a.next == b && b.next == b
    ensures !ok && a.rsvd && !b.rsvd
  {
    hide ListOf, TotalLen;
    b := new IoList(buf, null);
    b.next := b;
    a := new IoList(buf, b);
    var c := new IoList(buf, null);
    ghost var n, m, v, stop;
    NeverThere(a, c, {a, b}, Clear({a, b, c}));
    ok, n, m, v, stop := Check(a, c, {a, b, c});
    AroundTheLoop(a, b, v + [stop], |v|);
  }

  // iol_toiov into an array of as many entries as Check counts.
  method ToIov(first: IoList, last: IoList, iov: array<IoVec>, ghost s: seq<IoList>)
    requires ListOf(s, first, last) && iov.Length == |s|
    modifies iov
    ensures forall i :: 0 <= i < |s| ==> iov[i] == s[i].buf
  {
    var it: IoList? := first;
    var i := 0;
    while it != null
      invariant 0 <= i <= |s| && it == (if i == |s| then null else s[i])
      invariant forall k :: 0 <= k < i ==> iov[k] == s[k].buf
      decreases |s| - i
    {
      iov[i] := it.buf;
      it, i := it.next, i + 1;
    }
  }
}
