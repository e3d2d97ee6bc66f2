/** src/datastruct.c: the hash table of peers, each with a linked list of unread messages. */
module MessageStore {
  import opened DataStructs
  import opened UtHash
  import opened PeerHashes
  import opened StoreSpec
  import opened StoreLemmas

  // The size of `id` in struct peer, its NUL included.
  const ID_SIZE: nat := 30

  function MsgAt(q: seq<Message>, i: int): Message? {
    if 0 <= i < |q| then q[i] else null
  }

  ghost predicate MsgChain(h: Message?, q: seq<Message>)
    reads q`next
  {
    && h == MsgAt(q, 0)
    && forall i {:trigger q[i].next} :: 0 <= i < |q| ==> q[i].next == MsgAt(q, i + 1)
  }

  ghost function Messages(queues: Queues): set<Message> {
    set p, m | p in queues && m in queues[p] :: m
  }

  // No message is queued twice, for one peer or for two.
  ghost predicate AllApart(queues: Queues) {
    forall p, r, i, j :: p in queues && r in queues && 0 <= i < |queues[p]| && 0 <= j < |queues[r]| ==>
      queues[p][i] == queues[r][j] ==> p == r && i == j
  }

  ghost predicate Queued(items: seq<Peer>, queues: Queues)
    reads items`msg, Messages(queues)`next
  {
    && queues.Keys == Elems(items)
    && AllApart(queues)
    && forall p :: p in items ==>
         (forall m :: m in queues[p] ==> m in Messages(queues)) && MsgChain(p.msg, queues[p])
  }

  // get_tail
  method GetTail(h: Message, ghost q: seq<Message>) returns (t: Message)
    requires MsgChain(h, q)
    ensures q != [] && t == q[|q| - 1]
  {
    t := h;
    ghost var k := 0;
    while t.next != null
      invariant 0 <= k < |q| && t == q[k]
      decreases |q| - k
    {
      t := t.next;
      k := k + 1;
    }
  }

  lemma ApartAppend(queues: Queues, p: Peer, m: Message)
    requires AllApart(queues) && p in queues && m !in Messages(queues)
    ensures AllApart(queues[p := queues[p] + [m]])
    ensures Messages(queues[p := queues[p] + [m]]) == Messages(queues) + {m}
    ensures forall r :: r in queues && r != p ==> forall i :: 0 <= i < |queues[r]| ==> queues[r][i] !in queues[p]
  {
    var queues' := queues[p := queues[p] + [m]];
    forall r, i | r in queues && 0 <= i < |queues[r]|
      ensures queues[r][i] != m
    {
      assert queues[r][i] in queues[r];
    }
    assert m in queues'[p];
    forall x | x in Messages(queues)
      ensures x in Messages(queues')
    {
      var r: Peer :| r in queues && x in queues[r];
      assert x in queues'[r];
    }
  }

  lemma QueuedApart(items: seq<Peer>, queues: Queues, p: Peer, m: Message)
    requires Queued(items, queues) && p in items
    ensures AllApart(queues) && p in queues && forall o :: o in queues[p] ==> o in Messages(queues)
  {
  }

  // Puts m behind the last message of the list.
  method LinkLast(p: Peer, m: Message, ghost q: seq<Message>)
    requires MsgChain(p.msg, q) && m !in q && m.next == null
    requires forall i, j :: 0 <= i < j < |q| ==> q[i] != q[j]
    modifies p`msg, q`next
    ensures MsgChain(p.msg, q + [m])
  {
    if p.msg == null {
      p.msg := m;
    } else {
      var tail := GetTail(p.msg, q);
      tail.next := m;
    }
  }

  // The body of insert_new_message, once the peer and the message are there.
  method Append(p: Peer, m: Message, ghost items: seq<Peer>, ghost queues: Queues)
    requires Queued(items, queues) && p in items && m !in Messages(queues) && m.next == null
    modifies p`msg, queues[p]`next
    ensures Queued(items, queues[p := queues[p] + [m]])
  {
    ApartAppend(queues, p, m);
    ghost var queues' := queues[p := queues[p] + [m]];
    LinkLast(p, m, queues[p]);
    forall r | r in items
      ensures (forall x :: x in queues'[r] ==> x in Messages(queues')) && MsgChain(r.msg, queues'[r])
    {
      if r != p {
        assert MsgChain(r.msg, queues[r]);
      }
    }
  }

  lemma ApartDrop(queues: Queues, p: Peer)
    requires AllApart(queues) && p in queues && queues[p] != []
    ensures AllApart(queues[p := queues[p][1..]])
    ensures Messages(queues[p := queues[p][1..]]) <= Messages(queues)
  {
    var queues' := queues[p := queues[p][1..]];
    forall x | x in Messages(queues')
      ensures x in Messages(queues)
    {
      var r: Peer :| r in queues' && x in queues'[r];
      assert x in queues[r];
    }
  }

  // The head of the list is replaced by its successor.
  method DropHead(p: Peer, ghost items: seq<Peer>, ghost queues: Queues)
    requires Queued(items, queues) && p in items && p.msg != null
    modifies p`msg
    ensures Queued(items, queues[p := queues[p][1..]]) && queues[p] != []
    ensures p.msg == MsgAt(queues[p], 1)
  {
    ApartDrop(queues, p);
    p.msg := p.msg.next;
  }

  lemma NewPeerQueued(items: seq<Peer>, queues: Queues, p: Peer)
    requires Queued(items, queues) && p !in items && p.msg == null
    ensures Queued(items + [p], queues[p := []])
    ensures Messages(queues[p := []]) == Messages(queues)
  {
    var queues' := queues[p := []];
    forall m | m in Messages(queues)
      ensures m in Messages(queues')
    {
      var r: Peer :| r in queues && m in queues[r];
      assert m in queues'[r];
    }
  }

  lemma PeerGone(items: seq<Peer>, queues: Queues, p: Peer)
    requires Queued(items, queues) && p in items && KeysDistinct(items)
    ensures Queued(Removed(items, p), queues - {p})
    ensures Messages(queues - {p}) <= Messages(queues)
  {
    hide MsgChain, KeysDistinct;
    RemovedElems(items, p);
    var queues' := queues - {p};
    forall m | m in Messages(queues')
      ensures m in Messages(queues)
    {
      var r: Peer :| r in queues' && m in queues'[r];
      assert m in queues[r];
    }
    assert queues'.Keys == Elems(Removed(items, p));
    assert AllApart(queues');
    forall r | r in Removed(items, p)
      ensures r in queues' && (forall m :: m in queues'[r] ==> m in Messages(queues')) && MsgChain(r.msg, queues'[r])
    {
      assert r in items && queues'[r] == queues[r];
    }
  }

  lemma CopiedMessage(r: Message, m: Message)
    requires r.content == m.content && r.date == m.date && r.cmd == m.cmd
    ensures AsMsg(r) == AsMsg(m)
  {
  }

  class MessageTable {
    const peers: PeerHash
    ghost var queues: Queues

    ghost predicate Valid()
      reads this, peers, peers.TableRepr(), peers.items, Messages(queues)
    {
      peers.Valid() && Queued(peers.items, queues)
    }

    // The store that the table stands for.
    ghost function Abs(): State
      requires Valid()
      reads this, peers, peers.TableRepr(), peers.items, Messages(queues)
    {
      AbsOf(peers.items, queues)
    }

    // What the table is made of now was part of it before, or is new.
    twostate predicate Grows()
      reads this, peers, peers.t
    {
      && peers.TableGrows()
      && (forall i :: 0 <= i < |peers.items| ==> peers.items[i] in old(peers.items) || fresh(peers.items[i]))
      && (forall m :: m in Messages(queues) ==> m in old(Messages(queues)) || fresh(m))
    }

    constructor (hash: HashFn, bloom: Option<nat>)
      ensures Valid() && Abs() == [] && fresh(peers)
      ensures peers.t == null && peers.items == [] && queues == map[]
    {
      peers := new PeerHash(hash, bloom);
      queues := map[];
    }

    method AddPeer(p: Peer)
      requires Valid() && p !in peers.items && p.msg == null && Lookup(peers.items, p.id) == null
      modifies this, peers, peers.TableRepr(), peers.items, p
      ensures Valid() && peers.TableGrows()
      ensures peers.items == old(peers.items) + [p] && queues == old(queues)[p := []]
      ensures Messages(queues) == old(Messages(queues))
    {
      hide PeerHash.Valid, Queued, AppList, Owned, KeysDistinct, PeerHashes.Stored;
      ghost var items1, queues1 := peers.items + [p], queues[p := []];
      NewPeerQueued(peers.items, queues, p);
      queues := queues1;
      assert Queued(items1, queues1) && peers.Valid();
      peers.Add(p);
      assert Queued(items1, queues1);
    }

    // insert_peer
    method InsertPeer(onion: string) returns (ghost p: Peer)
      requires Valid() && |onion| < ID_SIZE && Lookup(peers.items, onion) == null
      modifies this, peers, peers.TableRepr(), peers.items
      ensures Valid() && fresh(p) && Grows()
      ensures peers.items == old(peers.items) + [p] && p.id == onion && queues == old(queues)[p := []]
      ensures Messages(queues) == old(Messages(queues))
    {
      hide PeerHash.Valid;
      var added := new Peer(onion);
      AddPeer(added);
      p := added;
    }

    // insert_peer, seen on the store: an entry without a message.
    method JoinTable(onion: string)
      requires Valid() && |onion| < ID_SIZE && Lookup(peers.items, onion) == null
      modifies this, peers, peers.TableRepr(), peers.items
      ensures Valid() && Grows() && Lookup(peers.items, onion) != null
      ensures Abs() == old(Abs()) + [Entry(onion, [])] && Messages(queues) == old(Messages(queues))
    {
      hide PeerHash.Valid, Queued, AbsOf;
      ValidCovers();
      ghost var items0, queues0 := peers.items, queues;
      ghost var p := InsertPeer(onion);
      LookupAdd(items0, p, onion);
      JoinNew(items0, queues0, p);
    }

    // peer_exist
    method PeerExist(id: string) returns (b: bool)
      requires Valid()
      ensures Valid() && (b <==> Present(Abs(), id))
    {
      hide PeerHash.Valid, AbsOf, Present, AllApart, MsgChain;
      ValidCovers();
      PresentLookup(peers.items, queues, id);
      ghost var s := Abs();
      var p := peers.Find(id);
      b := p != null;
      assert Valid() && Abs() == s;
    }

    method AppendTo(p: Peer, m: Message)
      requires Valid() && p in peers.items && m !in Messages(queues) && m.next == null
      modifies p`msg, Messages(queues)`next, this`queues
      ensures Valid() && queues == old(queues)[p := old(queues)[p] + [m]]
      ensures Messages(queues) == old(Messages(queues)) + {m}
    {
      hide PeerHash.Valid, Queued;
      QueuedApart(peers.items, queues, p, m);
      ghost var queues0, repr := queues, peers.TableRepr();
      assert (p as object) !in repr && forall o :: o in queues0[p] ==> (o as object) !in repr && (o as object) != peers;
      ApartAppend(queues0, p, m);
      queues := queues0[p := queues0[p] + [m]];
      assert peers.Valid() && Queued(peers.items, queues0);
      Append(p, m, peers.items, queues0);
      assert peers.TableRepr() == repr;
      assert peers.Valid() && Queued(peers.items, queues);
    }

    // insert_new_message; the caller knows that the peer exists
    method InsertNewMessage(peerId: string, content: string, cmd: Command, date: string) returns (ghost m: Message)
      requires Valid() && Lookup(peers.items, peerId) != null
      modifies peers.items`msg, this`queues, Messages(queues)`next
      ensures Valid() && fresh(m) && Grows() && AsMsg(m) == Msg(content, date, cmd)
      ensures var p := Lookup(peers.items, peerId); queues == old(queues)[p := old(queues)[p] + [m]]
      ensures Messages(queues) == old(Messages(queues)) + {m}
    {
      hide PeerHashes.Stored, AppList, Owned, KeysDistinct, Queued;
      var p := peers.Find(peerId);
      assert Valid();
      ghost var known := Messages(queues);
      var newMsg := new Message(content, date, cmd);
      assert newMsg !in known;
      AppendTo(p, newMsg);
      m := newMsg;
    }

    // delete_message on the head of a peer's list
    method Pop(p: Peer)
      requires Valid() && p in peers.items && p.msg != null
      modifies p`msg, this`queues
      ensures Valid() && old(queues)[p] != [] && queues == old(queues)[p := old(queues)[p][1..]]
      ensures p.msg == MsgAt(old(queues)[p], 1) && Messages(queues) <= old(Messages(queues))
    {
      hide PeerHashes.Stored, AppList, Owned, KeysDistinct, AllApart, MsgChain;
      DropHead(p, peers.items, queues);
      ApartDrop(queues, p);
      queues := queues[p := queues[p][1..]];
    }

    // delete_peer
    method DeletePeer(p: Peer)
      requires Valid() && p in peers.items
      modifies this`queues, peers, peers.TableRepr(), peers.items
      ensures Valid() && (peers.t == null || (peers.t == old(peers.t) && peers.t.buckets == old(peers.t.buckets)
                                                && peers.t.bloomBv == old(peers.t.bloomBv)))
      ensures peers.items == Removed(old(peers.items), p) && queues == old(queues) - {p} && Grows()
    {
      hide PeerHash.Valid, Queued, KeysDistinct;
      ValidCovers();
      ghost var items1, queues1 := Removed(peers.items, p), queues - {p};
      RemovedInside(peers.items, p);
      PeerGone(peers.items, queues, p);
      queues := queues1;
      assert Queued(items1, queues1) && peers.Valid();
      peers.Delete(p);
      assert peers.items == items1;
      assert Queued(items1, queues1);
    }

    // The part of get_unread_message that takes the oldest message out.
    method TakeOldest(p: Peer)
      requires Valid() && p in peers.items && p.msg != null
      modifies this`queues, peers, peers.TableRepr(), peers.items
      ensures Valid() && Grows()
      ensures Abs() == Take(old(Abs()), p.id)
    {
      hide PeerHash.Valid, KeysDistinct, Take, AsMsg, Queued, AbsOf;
      ValidCovers();
      ghost var items0, queues0 := peers.items, queues;
      Pop(p);
      if p.msg == null {
        TakeLast(items0, queues0, p);
        DeletePeer(p);
        assert queues == queues0 - {p};
      } else {
        TakeSome(items0, queues0, p);
      }
    }

    // The queue of a peer, as seen from its list of messages.
    lemma HeadMessage(id: string)
      requires Valid()
      ensures var p := Lookup(peers.items, id);
              && (p == null ==> Queue(Abs(), id) == [])
              && (p != null ==> (p.msg == null <==> Queue(Abs(), id) == []))
              && (p != null && p.msg != null ==> AsMsg(p.msg) == Queue(Abs(), id)[0])
    {
      hide PeerHashes.Stored, AppList, Owned, KeysDistinct, AllApart, Queue;
      QueueIs(peers.items, queues, id);
    }

    // get_unread_message
    method GetUnreadMessage(peerId: string) returns (r: Message?)
      requires Valid()
      modifies this`queues, peers, peers.TableRepr(), peers.items
      ensures Valid() && Grows()
      ensures r == null <==> Queue(old(Abs()), peerId) == []
      ensures r == null ==> Abs() == old(Abs())
      ensures r != null ==> AsMsg(r) == Queue(old(Abs()), peerId)[0] && Abs() == Take(old(Abs()), peerId)
    {
      hide PeerHash.Valid, AllApart, MsgChain, AbsOf, Take, Queue, AsMsg;
      HeadMessage(peerId);
      ghost var s := Abs();
      r := null;
      var p := peers.Find(peerId);
      assert Valid() && Abs() == s;
      if p != null {
        var msg := p.msg;
        if msg != null {
          r := new Message(msg.content, msg.date, msg.cmd);
          CopiedMessage(r, msg);
          assert Valid() && Abs() == s;
          TakeOldest(p);
        }
      }
    }

    lemma AbsDistinct()
      requires Valid()
      ensures IdsDistinct(Abs())
    {
    }

    lemma ValidCovers()
      requires Valid()
      ensures Covered(peers.items, queues) && KeysDistinct(peers.items)
    {
    }

    method StoreKnown(id: string, content: string, cmd: Command, date: string)
      requires Valid() && Lookup(peers.items, id) != null
      modifies this`queues, peers.items`msg, Messages(queues)`next
      ensures Valid() && Grows() && Abs() == Store(old(Abs()), id, Msg(content, date, cmd))
    {
      hide PeerHashes.Stored, AppList, Owned, KeysDistinct, StoreSpec.Store, AllApart, MsgChain;
      ghost var items0, queues0 := peers.items, queues;
      ghost var m := InsertNewMessage(id, content, cmd, date);
      StoreExisting(items0, queues0, Lookup(items0, id), m);
    }

    lemma KnownPeers(id: string)
      requires Valid()
      ensures Present(Abs(), id) <==> Lookup(peers.items, id) != null
    {
      PresentLookup(peers.items, queues, id);
    }

    // The first half of store_msg: an unknown peer joins the table.
    method EnsurePeer(id: string, ghost m: Msg)
      requires Valid() && |id| < ID_SIZE
      modifies this, peers, peers.TableRepr(), peers.items
      ensures Valid() && Grows() && Lookup(peers.items, id) != null && Messages(queues) == old(Messages(queues))
      ensures Store(Abs(), id, m) == Store(old(Abs()), id, m)
    {
      hide PeerHash.Valid, Queued, AbsOf, Present, StoreSpec.Store;
      KnownPeers(id);
      ghost var s := Abs();
      var known := PeerExist(id);
      assert Abs() == s;
      if !known {
        StoreAfterJoin(s, id, m);
        JoinTable(id);
      }
    }

    // store_msg of src/actions.c: the peer joins the table if need be, the message its queue
    method StoreMsg(id: string, content: string, cmd: Command, date: string)
      requires Valid() && |id| < ID_SIZE
      modifies this, peers, peers.TableRepr(), peers.items, Messages(queues)
      ensures Valid() && Grows() && Abs() == Store(old(Abs()), id, Msg(content, date, cmd))
    {
      hide PeerHash.Valid, Queued, AbsOf, StoreSpec.Store;
      EnsurePeer(id, Msg(content, date, cmd));
      StoreKnown(id, content, cmd, date);
      assert peers.TableGrows();
    }

    // What HASH_ITER relies on.
    lemma Iteration(k: nat)
      requires Valid() && k < |peers.items|
      ensures peers.items[k].next == At(peers.items, k + 1) && |Abs()| == |peers.items|
      ensures Abs()[k..][0].id == peers.items[k].id && Abs()[k..][1..] == Abs()[k + 1..]
    {
      hide PeerHashes.Stored, Owned, KeysDistinct, AllApart, MsgChain;
      assert peers.items[k] in peers.items;
    }

    lemma IterationStart()
      requires Valid()
      ensures peers.head == At(peers.items, 0) && |Abs()| == |peers.items|
    {
    }

    // get_peer_list
    method GetPeerList() returns (list: Option<string>)
      requires Valid()
      ensures Valid() && list == Listing(Abs())
      ensures list == None <==> Abs() == []
      ensures list.Some? ==> list.value + "," == Commas(Abs()) && |list.value| == ListSize(Abs()) - 1
      ensures Lists(if list.Some? then list.value else "", Abs())
    {
      hide PeerHash.Valid, AllApart, MsgChain, AbsOf, Join, Commas, ListSize, Split, Ids, NoCommas;
      IterationStart();
      if peers.head == null {
        return None;
      }
      ghost var s := Abs();
      JoinCommas(s);
      if NoCommas(s) {
        SplitJoin(s);
      }
      var size := SumSizes(s);
      var text := Concatenate(s, size);
      assert text[..|text| - 1] == Join(s);
      list := Some(text[..|text| - 1]);
    }

    // The first HASH_ITER of get_peer_list: one byte more than the id for every peer.
    method SumSizes(ghost s: State) returns (size: nat)
      requires Valid() && s == Abs()
      ensures size == ListSize(s) && Valid() && s == Abs()
    {
      hide PeerHash.Valid, AbsOf;
      size := 0;
      ghost var k := 0;
      IterationStart();
      var ptr := peers.head;
      if ptr != null {
        Iteration(0);
      }
      var tmp := if ptr != null then ptr.next else null;
      while ptr != null
        invariant Valid() && s == Abs()
        invariant 0 <= k <= |s| && ptr == At(peers.items, k) && tmp == At(peers.items, k + 1)
        invariant size + ListSize(s[k..]) == ListSize(s)
        decreases |s| - k
      {
        Iteration(k);
        size := size + |ptr.id| + 1;
        ptr := tmp;
        k := k + 1;
        if ptr != null {
          Iteration(k);
        }
        tmp := if ptr != null then ptr.next else null;
      }
    }

    // The second one: the ids behind each other, in a buffer of that size.
    method Concatenate(ghost s: State, size: nat) returns (text: string)
      requires Valid() && s == Abs() && size == ListSize(s)
      ensures text == Commas(s) && |text| <= size && Valid() && s == Abs()
    {
      hide PeerHash.Valid, AbsOf, ListSize;
      CommasLength(s);
      text := "";
      ghost var k := 0;
      IterationStart();
      var ptr := peers.head;
      if ptr != null {
        Iteration(0);
      }
      var tmp := if ptr != null then ptr.next else null;
      while ptr != null
        invariant Valid() && s == Abs()
        invariant 0 <= k <= |s| && ptr == At(peers.items, k) && tmp == At(peers.items, k + 1)
        invariant text + Commas(s[k..]) == Commas(s)
        decreases |s| - k
      {
        Iteration(k);
        CommasStep(text, s[k..]);
        text := text + ptr.id;
        text := text + ",";
        ptr := tmp;
        k := k + 1;
        if ptr != null {
          Iteration(k);
        }
        tmp := if ptr != null then ptr.next else null;
      }
      assert s[k..] == [];
    }

    // clear_datastructs: deletes every peer while iterating
    method Clear()
      requires Valid()
      modifies this`queues, peers, peers.TableRepr(), peers.items
      ensures Valid() && Abs() == []
    {
      hide PeerHashes.Stored, Owned, Queued, AbsOf;
      ghost var t, items := peers.t, peers.items;
      IterationStart();
      var ptr := peers.head;
      if ptr != null {
        Iteration(0);
      }
      var tmp := if ptr != null then ptr.next else null;
      while ptr != null
        invariant Valid() && ptr == At(peers.items, 0) && tmp == At(peers.items, 1)
        invariant forall i :: 0 <= i < |peers.items| ==> peers.items[i] in items
        invariant peers.t == null ||
                    (peers.t == t && t.buckets == old(peers.t.buckets) && t.bloomBv == old(peers.t.bloomBv))
        decreases |peers.items|
      {
        assert peers.t == t && peers.TableRepr() == old(peers.TableRepr());
        DeletePeer(ptr);
        ptr := tmp;
        if ptr != null {
          Iteration(0);
        }
        tmp := if ptr != null then ptr.next else null;
      }
      IterationStart();
    }
  }
}
