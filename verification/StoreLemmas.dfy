/** How the peers and message queues in memory stand for a state of the store. */
module StoreLemmas {
  import opened DataStructs
  import opened UtHash
  import opened PeerHashes
  import opened StoreSpec

  type Queues = map<Peer, seq<Message>>

  function AsMsg(m: Message): Msg {
    Msg(m.content, m.date, m.cmd)
  }

  function Contents(q: seq<Message>): seq<Msg> {
    seq(|q|, i requires 0 <= i < |q| => AsMsg(q[i]))
  }

  ghost predicate Covered(items: seq<Peer>, queues: Queues) {
    forall p :: p in items ==> p in queues
  }

  ghost function AbsOf(items: seq<Peer>, queues: Queues): (s: State)
    requires Covered(items, queues)
  {
    seq(|items|, i requires 0 <= i < |items| =>
      assert items[i] in items;
      Entry(items[i].id, Contents(queues[items[i]])))
  }

  // The queue that the table holds for a key.
  lemma QueueIs(items: seq<Peer>, queues: Queues, key: string)
    requires KeysDistinct(items) && Covered(items, queues)
    ensures Queue(AbsOf(items, queues), key) ==
            var p := Lookup(items, key); if p == null then [] else Contents(queues[p])
  {
    var s, p := AbsOf(items, queues), Lookup(items, key);
    if p == null {
      assert forall i :: 0 <= i < |s| ==> items[i] in items && s[i].id == items[i].id;
      QueueAbsent(s, key);
    } else {
      var i :| 0 <= i < |items| && items[i] == p;
      QueueAt(s, i);
    }
  }

  lemma PresentLookup(items: seq<Peer>, queues: Queues, key: string)
    requires Covered(items, queues)
    ensures Present(AbsOf(items, queues), key) <==> Lookup(items, key) != null
  {
    var s, p := AbsOf(items, queues), Lookup(items, key);
    assert forall i :: 0 <= i < |s| ==> items[i] in items && s[i].id == items[i].id;
    if p != null {
      var i :| 0 <= i < |items| && items[i] == p;
      assert s[i].id == key;
    }
  }

  lemma SlotOf(items: seq<Peer>, p: Peer) returns (i: nat)
    requires KeysDistinct(items) && p in items
    ensures i < |items| && items[i] == p && Distinct(items)
    ensures forall j :: 0 <= j < |items| && j != i ==> items[j] != p
  {
    i :| 0 <= i < |items| && items[i] == p;
    forall j | 0 <= j < |items| && j != i
      ensures items[j] != p
    {
      assert if i < j then items[i].id != items[j].id else items[j].id != items[i].id;
    }
  }

  lemma RemovedElems(items: seq<Peer>, p: Peer)
    requires KeysDistinct(items) && p in items
    ensures forall q :: q in Removed(items, p) <==> q in items && q != p
  {
    hide Removed;
    var i := SlotOf(items, p);
    RemovedAt(items, i);
    forall q | q in items && q != p
      ensures q in Without(items, i)
    {
      var j :| 0 <= j < |items| && items[j] == q;
      assert Without(items, i)[if j < i then j else j - 1] == q;
    }
  }

  lemma RemovedInside(items: seq<Peer>, p: Peer)
    requires KeysDistinct(items) && p in items
    ensures forall i :: 0 <= i < |Removed(items, p)| ==> Removed(items, p)[i] in items
  {
    var k := SlotOf(items, p);
    RemovedAt(items, k);
  }

  // A message put behind the queue of a peer in the table.
  lemma StoreExisting(items: seq<Peer>, queues: Queues, p: Peer, m: Message)
    requires KeysDistinct(items) && Covered(items, queues) && p in items
    ensures AbsOf(items, queues[p := queues[p] + [m]]) == Store(AbsOf(items, queues), p.id, AsMsg(m))
  {
    var s := AbsOf(items, queues);
    var i := SlotOf(items, p);
    assert Contents(queues[p] + [m]) == Contents(queues[p]) + [AsMsg(m)];
    assert AbsOf(items, queues[p := queues[p] + [m]]) == s[i := Entry(p.id, s[i].queue + [AsMsg(m)])];
    StoreAt(s, i, AsMsg(m));
  }

  // A peer that has just been added, still without a message.
  lemma JoinNew(items: seq<Peer>, queues: Queues, p: Peer)
    requires Covered(items, queues) && p !in items
    ensures Covered(items + [p], queues[p := []])
    ensures AbsOf(items + [p], queues[p := []]) == AbsOf(items, queues) + [Entry(p.id, [])]
  {
    var s := AbsOf(items, queues);
    assert forall i :: 0 <= i < |s| ==> items[i] in items;
    assert Contents([]) == [];
    assert AbsOf(items + [p], queues[p := []]) == s + [Entry(p.id, [])];
  }

  // The first message for it makes of the two the store step.
  lemma StoreAfterJoin(s: State, id: string, m: Msg)
    ensures !Present(s, id) ==> Store(s + [Entry(id, [])], id, m) == Store(s, id, m)
  {
    if !Present(s, id) {
      StoreAbsent(s, id, m);
      StoreLast(s, Entry(id, []), m);
      assert [] + [m] == [m];
    }
  }

  lemma {:induction false} StoreLast(s: State, e: Entry, m: Msg)
    requires !Present(s, e.id)
    ensures Store(s + [e], e.id, m) == s + [Entry(e.id, e.queue + [m])]
  {
    if s == [] {
      assert s + [e] == [e] && [e][1..] == [];
    } else {
      assert s[0].id != e.id && (s + [e])[1..] == s[1..] + [e];
      TailPresent(s, e.id);
      StoreLast(s[1..], e, m);
      assert [s[0]] + (s[1..] + [Entry(e.id, e.queue + [m])]) == s + [Entry(e.id, e.queue + [m])];
    }
  }

  // The oldest message taken out of a queue that stays.
  lemma TakeSome(items: seq<Peer>, queues: Queues, p: Peer)
    requires KeysDistinct(items) && Covered(items, queues) && p in items && |queues[p]| > 1
    ensures AbsOf(items, queues[p := queues[p][1..]]) == Take(AbsOf(items, queues), p.id)
  {
    var s := AbsOf(items, queues);
    var i := SlotOf(items, p);
    assert Contents(queues[p][1..]) == Contents(queues[p])[1..];
    assert AbsOf(items, queues[p := queues[p][1..]]) == s[i := Entry(p.id, s[i].queue[1..])];
    TakeAt(s, i);
  }

  // The last message taken, and the peer with it.
  lemma TakeLast(items: seq<Peer>, queues: Queues, p: Peer)
    requires KeysDistinct(items) && Covered(items, queues) && p in items && |queues[p]| == 1
    ensures Covered(Removed(items, p), queues - {p})
    ensures AbsOf(Removed(items, p), queues - {p}) == Take(AbsOf(items, queues), p.id)
  {
    hide Removed, Take;
    var s := AbsOf(items, queues);
    var i := SlotOf(items, p);
    RemovedAt(items, i);
    assert forall q :: q in Without(items, i) ==> q in items && q != p;
    assert AbsOf(Without(items, i), queues - {p}) == Drop(s, i);
    TakeAt(s, i);
  }
}
