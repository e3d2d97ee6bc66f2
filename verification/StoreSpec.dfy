/** The unread-message store as a state machine: what RECV, UPDATE and GET_PEERS do to the
    queues, and what holds over every run of the daemon. */
module StoreSpec {
  import opened DataStructs

  datatype Msg = Msg(content: string, date: string, cmd: Command)

  datatype Entry = Entry(id: string, queue: seq<Msg>)

  // The peers of the hash table in application order, each with its queue.
  type State = seq<Entry>

  datatype Event =
    | Recv(id: string, m: Msg)
    | Update(id: string)
    | GetPeers
    | Other

  datatype Reply =
    | Silent
    | Handed(id: string, m: Msg)
    | NoneFor(id: string)
    | PeerList(list: Option<string>)

  // The queue of a peer; a peer that is not in the table has an empty one.
  function Queue(s: State, id: string): seq<Msg> {
    if s == [] then [] else if s[0].id == id then s[0].queue else Queue(s[1..], id)
  }

  predicate Present(s: State, id: string) {
    exists i :: 0 <= i < |s| && s[i].id == id
  }

  // store_msg: a peer joins at the end of the table, a message at the end of its queue.
  function Store(s: State, id: string, m: Msg): State {
    if s == [] then [Entry(id, [m])]
    else if s[0].id == id then [Entry(id, s[0].queue + [m])] + s[1..]
    else [s[0]] + Store(s[1..], id, m)
  }

  // get_unread_message: the oldest message leaves, and an emptied peer with it.
  function Take(s: State, id: string): State {
    if s == [] then []
    else if s[0].id != id then [s[0]] + Take(s[1..], id)
    else if |s[0].queue| <= 1 then s[1..]
    else [Entry(id, s[0].queue[1..])] + s[1..]
  }

  function Join(s: State): string {
    if s == [] then "" else if |s| == 1 then s[0].id else s[0].id + "," + Join(s[1..])
  }

  // get_peer_list
  function Listing(s: State): Option<string> {
    if s == [] then None else Some(Join(s))
  }

  // event_routine
  function Step(s: State, e: Event): (State, Reply) {
    match e
    case Recv(id, m) => (Store(s, id, m), Silent)
    case Update(id) =>
      if Queue(s, id) == [] then (s, NoneFor(id)) else (Take(s, id), Handed(id, Queue(s, id)[0]))
    case GetPeers => (s, PeerList(Listing(s)))
    case Other => (s, Silent)
  }

  // The state after a run from the empty store, and the replies it gave.
  function Run(es: seq<Event>): State {
    if es == [] then [] else Step(Run(es[..|es| - 1]), es[|es| - 1]).0
  }

  function Replies(es: seq<Event>): seq<Reply> {
    if es == [] then [] else Replies(es[..|es| - 1]) + [Step(Run(es[..|es| - 1]), es[|es| - 1]).1]
  }

  // -- what a run stores for a peer, and what it hands out

  function Added(e: Event, id: string): seq<Msg> {
    if e.Recv? && e.id == id then [e.m] else []
  }

  function Given(r: Reply, id: string): seq<Msg> {
    if r.Handed? && r.id == id then [r.m] else []
  }

  function Stored(es: seq<Event>, id: string): seq<Msg> {
    if es == [] then [] else Stored(es[..|es| - 1], id) + Added(es[|es| - 1], id)
  }

  function HandedOut(rs: seq<Reply>, id: string): seq<Msg> {
    if rs == [] then [] else HandedOut(rs[..|rs| - 1], id) + Given(rs[|rs| - 1], id)
  }

  // -- invariants

  ghost predicate IdsDistinct(s: State) {
    forall i, j :: 0 <= i < j < |s| ==> s[i].id != s[j].id
  }

  ghost predicate WellFormed(s: State) {
    IdsDistinct(s) && forall i :: 0 <= i < |s| ==> s[i].queue != []
  }

  lemma {:induction false} QueueAt(s: State, i: nat)
    requires IdsDistinct(s) && i < |s|
    ensures Queue(s, s[i].id) == s[i].queue
  {
    if i > 0 {
      assert s[0].id != s[i].id;
      assert s[1..][i - 1] == s[i];
      QueueAt(s[1..], i - 1);
    }
  }

  lemma {:induction false} QueueAbsent(s: State, id: string)
    requires !Present(s, id)
    ensures Queue(s, id) == []
  {
    if s != [] {
      assert s[0].id != id;
      forall i | 0 <= i < |s[1..]|
        ensures s[1..][i].id != id
      {
        assert s[i + 1].id != id;
      }
      QueueAbsent(s[1..], id);
    }
  }

  function Drop(s: State, k: nat): (t: State)
    requires k < |s|
    ensures |t| == |s| - 1
    ensures forall j :: 0 <= j < |t| ==> t[j] == s[if j >= k then j + 1 else j]
  {
    s[..k] + s[k + 1..]
  }

  // What the two updates do to the entry that they find.
  lemma {:induction false} StoreAt(s: State, i: nat, m: Msg)
    requires IdsDistinct(s) && i < |s|
    ensures Store(s, s[i].id, m) == s[i := Entry(s[i].id, s[i].queue + [m])]
  {
    if i > 0 {
      assert s[0].id != s[i].id;
      assert s == [s[0]] + s[1..];
      StoreAt(s[1..], i - 1, m);
    }
  }

  lemma {:induction false} StoreAbsent(s: State, id: string, m: Msg)
    requires !Present(s, id)
    ensures Store(s, id, m) == s + [Entry(id, [m])]
  {
    if s != [] {
      assert s == [s[0]] + s[1..] && s[0].id != id;
      TailPresent(s, id);
      StoreAbsent(s[1..], id, m);
    }
  }

  lemma {:induction false} TakeAt(s: State, i: nat)
    requires IdsDistinct(s) && i < |s|
    ensures Take(s, s[i].id) == if |s[i].queue| <= 1 then Drop(s, i)
                                else s[i := Entry(s[i].id, s[i].queue[1..])]
  {
    hide Drop;
    if i == 0 {
      DropFirst(s);
    }
    if i > 0 {
      assert s[0].id != s[i].id;
      TakeAt(s[1..], i - 1);
      ConsAt(s, i, Entry(s[i].id, if |s[i].queue| <= 1 then [] else s[i].queue[1..]));
    }
  }

  lemma DropFirst(s: State)
    requires s != []
    ensures Drop(s, 0) == s[1..]
  {
  }

  lemma ConsAt(s: State, i: nat, e: Entry)
    requires 0 < i < |s|
    ensures Drop(s, i) == [s[0]] + Drop(s[1..], i - 1)
    ensures s[i := e] == [s[0]] + s[1..][i - 1 := e]
  {
  }

  lemma {:induction false} TakeAbsent(s: State, id: string)
    requires !Present(s, id)
    ensures Take(s, id) == s
  {
    if s != [] {
      TailPresent(s, id);
      TakeAbsent(s[1..], id);
    }
  }

  // In a well-formed table a peer is present exactly when it has something to read.
  lemma PresentIff(s: State, id: string)
    requires WellFormed(s)
    ensures Present(s, id) <==> Queue(s, id) != []
  {
    if Present(s, id) {
      var i :| 0 <= i < |s| && s[i].id == id;
      QueueAt(s, i);
    } else {
      QueueAbsent(s, id);
    }
  }

  lemma {:induction false} StoreQueue(s: State, id: string, m: Msg, other: string)
    ensures Queue(Store(s, id, m), other) == Queue(s, other) + if other == id then [m] else []
  {
    if s != [] && s[0].id != id {
      StoreQueue(s[1..], id, m, other);
    }
  }

  lemma {:induction false} TakeQueue(s: State, id: string, other: string)
    requires IdsDistinct(s)
    ensures Queue(Take(s, id), other) ==
            if other == id && Queue(s, id) != [] then Queue(s, id)[1..] else Queue(s, other)
  {
    if s != [] {
      if s[0].id != id {
        TakeQueue(s[1..], id, other);
      } else if |s[0].queue| <= 1 {
        if other == id {
          assert !Present(s[1..], id);
          QueueAbsent(s[1..], id);
        }
      }
    }
  }

  // The peers of the table, in order.
  function Ids(s: State): seq<string> {
    seq(|s|, i requires 0 <= i < |s| => s[i].id)
  }

  // A new peer goes to the end, and the others stay where they are.
  lemma StoreIds(s: State, id: string, m: Msg)
    requires IdsDistinct(s)
    ensures Ids(Store(s, id, m)) == if id in Ids(s) then Ids(s) else Ids(s) + [id]
  {
    hide Store;
    if id in Ids(s) {
      var i :| 0 <= i < |s| && Ids(s)[i] == id;
      StoreAt(s, i, m);
    } else {
      assert forall i :: 0 <= i < |s| ==> Ids(s)[i] == s[i].id;
      StoreAbsent(s, id, m);
    }
  }

  lemma IdsDrop(s: State, k: nat)
    requires k < |s|
    ensures Ids(Drop(s, k)) == Ids(s)[..k] + Ids(s)[k + 1..]
  {
  }

  // A peer leaves with its last message, and the others stay in order.
  lemma TakeIds(s: State, id: string) returns (k: nat)
    requires IdsDistinct(s) && Queue(s, id) != []
    ensures k < |s| && s[k].id == id && s[k].queue == Queue(s, id)
    ensures Ids(Take(s, id)) == if |Queue(s, id)| > 1 then Ids(s) else Ids(s)[..k] + Ids(s)[k + 1..]
  {
    hide Take, Queue, Drop;
    if !Present(s, id) {
      QueueAbsent(s, id);
    }
    k :| 0 <= k < |s| && s[k].id == id;
    QueueAt(s, k);
    TakeAt(s, k);
    IdsDrop(s, k);
  }

  predicate Concerns(e: Event, id: string) {
    (e.Recv? || e.Update?) && e.id == id
  }

  lemma StoreWellFormed(s: State, id: string, m: Msg)
    requires WellFormed(s)
    ensures WellFormed(Store(s, id, m))
  {
    if Present(s, id) {
      var i :| 0 <= i < |s| && s[i].id == id;
      StoreAt(s, i, m);
    } else {
      StoreAbsent(s, id, m);
    }
  }

  lemma {:induction false} TailPresent(s: State, x: string)
    requires s != []
    ensures Present(s, x) <==> s[0].id == x || Present(s[1..], x)
  {
    if Present(s[1..], x) {
      var i :| 0 <= i < |s[1..]| && s[1..][i].id == x;
      assert s[i + 1].id == x;
    }
  }

  lemma TakeWellFormed(s: State, id: string)
    requires WellFormed(s)
    ensures WellFormed(Take(s, id))
  {
    hide Take;
    if Present(s, id) {
      var i :| 0 <= i < |s| && s[i].id == id;
      TakeAt(s, i);
    } else {
      TakeAbsent(s, id);
    }
  }

  lemma {:induction false} RunWellFormed(es: seq<Event>)
    ensures WellFormed(Run(es))
  {
    if es != [] {
      var s, e := Run(es[..|es| - 1]), es[|es| - 1];
      RunWellFormed(es[..|es| - 1]);
      match e
      case Recv(id, m) => StoreWellFormed(s, id, m);
      case Update(id) => TakeWellFormed(s, id);
      case _ =>
    }
  }

  // -- one step, seen by one peer

  // Nothing is lost and nothing is made up: what a step hands out and leaves queued is what
  // was queued and what it adds, in this order.
  lemma StepConserves(s: State, e: Event, id: string)
    requires WellFormed(s)
    ensures Given(Step(s, e).1, id) + Queue(Step(s, e).0, id) == Queue(s, id) + Added(e, id)
    ensures !Concerns(e, id) ==> Queue(Step(s, e).0, id) == Queue(s, id) && Given(Step(s, e).1, id) == []
  {
    match e
    case Recv(x, m) => StoreQueue(s, x, m, id);
    case Update(x) =>
      TakeQueue(s, x, id);
      if x == id && Queue(s, x) != [] {
        assert Queue(s, x) == [Queue(s, x)[0]] + Queue(s, x)[1..];
      }
    case _ =>
  }

  // What a step does about a peer depends on nothing but that peer's queue.
  lemma StepLocal(s: State, t: State, e: Event, id: string)
    requires WellFormed(s) && WellFormed(t) && Queue(s, id) == Queue(t, id) && Concerns(e, id)
    ensures Queue(Step(s, e).0, id) == Queue(Step(t, e).0, id)
    ensures Given(Step(s, e).1, id) == Given(Step(t, e).1, id)
  {
    match e
    case Recv(x, m) =>
      StoreQueue(s, x, m, id);
      StoreQueue(t, x, m, id);
    case Update(x) =>
      TakeQueue(s, x, id);
      TakeQueue(t, x, id);
  }

  // -- whole runs

  lemma RunSnoc(es: seq<Event>, e: Event, id: string)
    ensures Run(es + [e]) == Step(Run(es), e).0
    ensures HandedOut(Replies(es + [e]), id) == HandedOut(Replies(es), id) + Given(Step(Run(es), e).1, id)
    ensures Stored(es + [e], id) == Stored(es, id) + Added(e, id)
    ensures Only(es + [e], id) == Only(es, id) + (if Concerns(e, id) then [e] else [])
  {
    assert (es + [e])[..|es|] == es;
    var rs := Replies(es + [e]);
    assert rs[..|rs| - 1] == Replies(es);
  }

  // Per-peer FIFO, each message exactly once: what was handed out for a peer, followed by
  // what is still queued for it, is what was stored for it, in order.
  lemma {:induction false} Fifo(es: seq<Event>, id: string)
    ensures HandedOut(Replies(es), id) + Queue(Run(es), id) == Stored(es, id)
    decreases |es|
  {
    hide Step, Queue, Given, Added, WellFormed;
    if es == [] {
      EmptyRun(id);
    } else {
      var es', e := es[..|es| - 1], es[|es| - 1];
      assert es == es' + [e];
      Fifo(es', id);
      RunWellFormed(es');
      RunSnoc(es', e, id);
      StepConserves(Run(es'), e, id);
      assert HandedOut(Replies(es'), id) + Given(Step(Run(es'), e).1, id) + Queue(Run(es), id)
          == HandedOut(Replies(es'), id) + (Given(Step(Run(es'), e).1, id) + Queue(Run(es), id));
    }
  }

  lemma EmptyRun(id: string)
    ensures Queue(Run([]), id) == [] && HandedOut(Replies([]), id) == [] && Stored([], id) == []
  {
  }

  // The events that speak about one peer.
  function Only(es: seq<Event>, id: string): seq<Event> {
    if es == [] then []
    else Only(es[..|es| - 1], id) + if Concerns(es[|es| - 1], id) then [es[|es| - 1]] else []
  }

  // Isolation: what a peer has queued and what is handed out for it depends on nothing but
  // the events that speak about this peer.
  lemma {:induction false} Isolation(es: seq<Event>, id: string)
    ensures Queue(Run(es), id) == Queue(Run(Only(es, id)), id)
    ensures HandedOut(Replies(es), id) == HandedOut(Replies(Only(es, id)), id)
    decreases |es|
  {
    hide Step, Queue, Given, Added, WellFormed, Concerns;
    if es != [] {
      var es', e := es[..|es| - 1], es[|es| - 1];
      assert es == es' + [e];
      Isolation(es', id);
      RunWellFormed(es');
      RunSnoc(es', e, id);
      if Concerns(e, id) {
        RunWellFormed(Only(es', id));
        RunSnoc(Only(es', id), e, id);
        StepLocal(Run(es'), Run(Only(es', id)), e, id);
      } else {
        StepConserves(Run(es'), e, id);
        assert Only(es, id) == Only(es', id);
      }
    }
  }

  // A peer is in the table exactly when a message stored for it has not been handed out.
  lemma PresentIffUnread(es: seq<Event>, id: string)
    ensures Present(Run(es), id) <==> |HandedOut(Replies(es), id)| < |Stored(es, id)|
  {
    Fifo(es, id);
    RunWellFormed(es);
    PresentIff(Run(es), id);
  }

  // -- the order of the peer list

  // When the peer last came to have something to read, counted in events.
  function Since(es: seq<Event>, id: string): nat {
    if es == [] || Queue(Run(es), id) == [] then |es| else Since(es[..|es| - 1], id)
  }

  // One step keeps the order of the peers that stay, and lets a new one in at the end.
  lemma {:induction false} StepOrder(s: State, e: Event, i: nat, j: nat) returns (a: nat, b: nat)
    requires WellFormed(s) && i < j < |Step(s, e).0|
    ensures a < |s| && s[a].id == Step(s, e).0[i].id
    ensures (b < |s| && a < b && s[b].id == Step(s, e).0[j].id) || !Present(s, Step(s, e).0[j].id)
  {
    hide Store, Take, Queue;
    a, b := i, j;
    if e.Recv? {
      if Present(s, e.id) {
        var k :| 0 <= k < |s| && s[k].id == e.id;
        StoreAt(s, k, e.m);
      } else {
        StoreAbsent(s, e.id, e.m);
      }
    } else if e.Update? && Queue(s, e.id) != [] {
      PresentIff(s, e.id);
      var k :| 0 <= k < |s| && s[k].id == e.id;
      TakeAt(s, k);
      if |s[k].queue| <= 1 {
        a, b := if i >= k then i + 1 else i, if j >= k then j + 1 else j;
      }
    }
  }

  lemma SinceStep(es: seq<Event>, i: nat)
    requires es != [] && i < |Run(es)|
    ensures Since(es, Run(es)[i].id) == Since(es[..|es| - 1], Run(es)[i].id)
  {
    RunWellFormed(es);
    QueueAt(Run(es), i);
  }

  lemma SinceAbsent(es: seq<Event>, id: string)
    requires !Present(Run(es), id)
    ensures Since(es, id) == |es|
  {
    QueueAbsent(Run(es), id);
  }

  lemma {:induction false} SinceBound(es: seq<Event>, i: nat)
    requires i < |Run(es)|
    ensures Since(es, Run(es)[i].id) < |es|
  {
    SinceStep(es, i);
    SinceAtMost(es[..|es| - 1], Run(es)[i].id);
  }

  lemma {:induction false} SinceAtMost(es: seq<Event>, id: string)
    ensures Since(es, id) <= |es|
  {
    if es != [] {
      SinceAtMost(es[..|es| - 1], id);
    }
  }

  // The peers stand in the order in which each one became non-empty.
  lemma {:induction false} ListedBySince(es: seq<Event>, i: nat, j: nat)
    requires i < j < |Run(es)|
    ensures Since(es, Run(es)[i].id) < Since(es, Run(es)[j].id)
    decreases |es|
  {
    hide Step, Queue, Since;
    var es', e := es[..|es| - 1], es[|es| - 1];
    assert Run(es) == Step(Run(es'), e).0;
    RunWellFormed(es');
    var a, b := StepOrder(Run(es'), e, i, j);
    SinceStep(es, i);
    SinceStep(es, j);
    if b < |Run(es')| && a < b && Run(es')[b].id == Run(es)[j].id {
      ListedBySince(es', a, b);
    } else {
      SinceAbsent(es', Run(es)[j].id);
      SinceBound(es', a);
    }
  }

  // The ids, each with the comma that get_peer_list puts behind it.
  function Commas(s: State): string {
    if s == [] then "" else s[0].id + "," + Commas(s[1..])
  }

  // What get_peer_list sums up: the length of the list, with its last comma.
  function ListSize(s: State): nat {
    if s == [] then 0 else |s[0].id| + 1 + ListSize(s[1..])
  }

  lemma {:induction false} CommasLength(s: State)
    ensures |Commas(s)| == ListSize(s)
  {
    if s != [] {
      CommasLength(s[1..]);
    }
  }

  lemma {:induction false} CommasStep(text: string, s: State)
    requires s != []
    ensures text + Commas(s) == text + s[0].id + "," + Commas(s[1..])
  {
  }

  // Chopping the last comma off leaves the joined list, one shorter than the size.
  lemma {:induction false} JoinCommas(s: State)
    requires s != []
    ensures Join(s) + "," == Commas(s)
    ensures |Join(s)| == ListSize(s) - 1
  {
    CommasLength(s);
    if |s| > 1 {
      JoinCommas(s[1..]);
    } else {
      assert s[1..] == [];
    }
  }

  // The parts of a text between its commas.
  function Split(text: string): (parts: seq<string>)
    ensures parts != []
  {
    if text == "" then [""]
    else
      var parts := Split(text[1..]);
      if text[0] == ',' then [""] + parts else [[text[0]] + parts[0]] + parts[1..]
  }

  lemma {:induction false} SplitFirst(id: string, text: string)
    requires ',' !in id
    ensures Split(id) == [id] && Split(id + "," + text) == [id] + Split(text)
  {
    var whole := id + "," + text;
    if id == "" {
      assert whole[0] == ',' && whole[1..] == text;
    } else {
      assert ',' !in id[1..] && whole[0] == id[0] && whole[1..] == id[1..] + "," + text;
      SplitFirst(id[1..], text);
      assert [id[0]] + id[1..] == id;
    }
  }

  predicate NoCommas(s: State) {
    forall i :: 0 <= i < |s| ==> ',' !in s[i].id
  }

  // The peer list can be taken apart again.
  lemma {:induction false} SplitJoin(s: State)
    requires s != [] && NoCommas(s)
    ensures Split(Join(s)) == Ids(s)
  {
    hide Split;
    SplitFirst(s[0].id, Join(s[1..]));
    if |s| > 1 {
      assert forall i :: 0 <= i < |s[1..]| ==> s[1..][i] == s[i + 1];
      SplitJoin(s[1..]);
      assert Ids(s) == [s[0].id] + Ids(s[1..]);
    }
  }

  // The text lists the peers of the table, with a comma between any two.
  predicate Lists(text: string, s: State) {
    if s == [] then text == ""
    else text + "," == Commas(s) && |text| == ListSize(s) - 1 && (NoCommas(s) ==> Split(text) == Ids(s))
  }
}
