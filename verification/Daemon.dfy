/** src/actions.c and the command switch of src/main.c: requests against the message table,
    one at a time, and the run of the event loop as a whole. */
module Daemon {
  import opened DataStructs
  import opened UtHash
  import opened StoreSpec
  import opened MessageStore
  import opened PeerHashes

  // struct data_wrapper, without the port number; also what the JSON on the wire is made from
  datatype DataWrapper = DataWrapper(cmd: Command, id: string, msg: string, date: Option<string>)

  // A parsed request, and the time at which it is handled.
  datatype Request = Request(data: DataWrapper, now: string)

  // What a request means to the store. UPDATE names the peer in its message field.
  function EventOf(r: Request): Event {
    match r.data.cmd
    case RECV => Recv(r.data.id, Msg(r.data.msg, r.now, RECV))
    case UPDATE => Update(r.data.msg)
    case GET_PEERS => GetPeers
    case _ => Other
  }

  // What the client gets for a reply of the store.
  function WireOf(d: DataWrapper, reply: Reply): Option<DataWrapper> {
    match reply
    case Handed(id, m) => Some(DataWrapper(m.cmd, id, m.content, Some(m.date)))
    case NoneFor(id) => Some(DataWrapper(END, id, id, d.date))
    case PeerList(list) => Some(DataWrapper(d.cmd, d.id, if list.Some? then list.value else "", d.date))
    case Silent => None
  }

  // new_peer copies the id into a field of ID_SIZE bytes.
  predicate Acceptable(r: Request) {
    r.data.cmd == RECV ==> |r.data.id| < ID_SIZE
  }

  // A message of the peer is handed out: its queue goes on with the next one, and a peer without
  // any more leaves the table.
  ghost predicate HandsOut(s: State, t: State, id: string)
    requires Queue(s, id) != []
  {
    var q := Queue(s, id);
    && (forall x :: Queue(t, x) == if x == id then q[1..] else Queue(s, x))
    && exists k :: 0 <= k < |s| && s[k].id == id &&
         Ids(t) == if |q| > 1 then Ids(s) else Ids(s)[..k] + Ids(s)[k + 1..]
  }

  // A message comes in for the peer: it goes to the end of the queue, and a new peer to the end of
  // the table.
  ghost predicate TakesIn(s: State, t: State, id: string, m: Msg) {
    && (forall x :: Queue(t, x) == Queue(s, x) + if x == id then [m] else [])
    && Ids(t) == if id in Ids(s) then Ids(s) else Ids(s) + [id]
  }

  lemma UpdateHandsOut(s: State, id: string)
    requires IdsDistinct(s) && Queue(s, id) != []
    ensures HandsOut(s, Take(s, id), id)
  {
    hide Take, Queue;
    forall x
      ensures Queue(Take(s, id), x) == if x == id then Queue(s, id)[1..] else Queue(s, x)
    {
      TakeQueue(s, id, x);
    }
    var k := TakeIds(s, id);
  }

  lemma RecvTakesIn(s: State, id: string, m: Msg)
    requires IdsDistinct(s)
    ensures TakesIn(s, Store(s, id, m), id, m)
  {
    hide Store, Queue;
    forall x
      ensures Queue(Store(s, id, m), x) == Queue(s, x) + if x == id then [m] else []
    {
      StoreQueue(s, id, m, x);
    }
    StoreIds(s, id, m);
  }

  // client_update
  method ClientUpdate(table: MessageTable, request: DataWrapper) returns (data: DataWrapper)
    requires table.Valid()
    modifies table`queues, table.peers, table.peers.TableRepr(), table.peers.items
    ensures table.Valid() && table.Grows()
    ensures table.Abs() == Step(old(table.Abs()), Update(request.msg)).0
    ensures Some(data) == WireOf(request, Step(old(table.Abs()), Update(request.msg)).1)
    ensures var q := old(Queue(table.Abs(), request.msg));
            if q == [] then
              && data == DataWrapper(END, request.msg, request.msg, request.date)
              && table.Abs() == old(table.Abs())
            else
              && data == DataWrapper(q[0].cmd, request.msg, q[0].content, Some(q[0].date))
              && HandsOut(old(table.Abs()), table.Abs(), request.msg)
  {
    hide MessageTable.Valid, MessageTable.Grows, Take, Queue, HandsOut;
    table.AbsDistinct();
    if Queue(table.Abs(), request.msg) != [] {
      UpdateHandsOut(table.Abs(), request.msg);
    }
    data := request;
    data := data.(id := data.msg);
    var msg := table.GetUnreadMessage(data.msg);
    if msg != null {
      data := data.(msg := msg.content);
      data := data.(cmd := msg.cmd);
      data := data.(date := Some(msg.date));
    } else {
      data := data.(cmd := END);
    }
  }

  // send_peer_list_to_client
  method SendPeerList(table: MessageTable, request: DataWrapper) returns (data: DataWrapper)
    requires table.Valid()
    ensures table.Valid() && Some(data) == WireOf(request, Step(table.Abs(), GetPeers).1)
    ensures data == DataWrapper(request.cmd, request.id, data.msg, request.date) && Lists(data.msg, table.Abs())
  {
    hide MessageTable.Valid, Listing, Commas, ListSize, Split;
    var list := table.GetPeerList();
    data := request.(msg := if list.Some? then list.value else "");
  }

  // What a request does to the store, and what goes back, command by command.
  ghost predicate Serves(s: State, r: Request, t: State, reply: Option<DataWrapper>) {
    match r.data.cmd
    case RECV => TakesIn(s, t, r.data.id, Msg(r.data.msg, r.now, RECV)) && reply == None
    case UPDATE =>
      var id := r.data.msg;
      var q := Queue(s, id);
      if q == [] then t == s && reply == Some(DataWrapper(END, id, id, r.data.date))
      else HandsOut(s, t, id) && reply == Some(DataWrapper(q[0].cmd, id, q[0].content, Some(q[0].date)))
    case GET_PEERS =>
      t == s && reply.Some? && Lists(reply.value.msg, s) &&
      reply.value == DataWrapper(GET_PEERS, r.data.id, reply.value.msg, r.data.date)
    case _ => t == s && reply == None
  }

  class Server {
    const table: MessageTable
    var exitFlag: bool

    constructor (hash: HashFn, bloom: Option<nat>)
      ensures table.Valid() && table.Abs() == [] && !exitFlag && fresh(table)
      ensures fresh(table.peers) && table.peers.t == null && table.peers.items == [] && table.queues == map[]
    {
      table := new MessageTable(hash, bloom);
      exitFlag := false;
    }

    // event_routine, for a request that has been received and parsed
    method EventRoutine(r: Request) returns (reply: Option<DataWrapper>)
      requires table.Valid() && Acceptable(r)
      modifies this`exitFlag, table, table.peers, table.peers.TableRepr(), table.peers.items, Messages(table.queues)
      ensures table.Valid() && table.Grows()
      ensures table.Abs() == Step(old(table.Abs()), EventOf(r)).0
      ensures reply == WireOf(r.data, Step(old(table.Abs()), EventOf(r)).1)
      ensures exitFlag == (old(exitFlag) || r.data.cmd == EXIT)
      ensures Serves(old(table.Abs()), r, table.Abs(), reply)
    {
      hide MessageTable.Valid, Take, Queue, Store, TakesIn, HandsOut, Lists;
      reply := None;
      table.AbsDistinct();
      RecvTakesIn(table.Abs(), r.data.id, Msg(r.data.msg, r.now, RECV));
      match r.data.cmd
      case EXIT => exitFlag := true;
      case RECV => table.StoreMsg(r.data.id, r.data.msg, r.data.cmd, r.now);
      case UPDATE =>
        var data := ClientUpdate(table, r.data);
        reply := Some(data);
      case GET_PEERS =>
        var data := SendPeerList(table, r.data);
        reply := Some(data);
      case _ =>
    }
  }

  function Events(rs: seq<Request>): seq<Event> {
    seq(|rs|, i requires 0 <= i < |rs| => EventOf(rs[i]))
  }

  // What goes back over a run that starts with the empty store.
  function Responses(rs: seq<Request>): seq<Option<DataWrapper>> {
    if rs == [] then []
    else
      var before, r := rs[..|rs| - 1], rs[|rs| - 1];
      Responses(before) + [WireOf(r.data, Step(Run(Events(before)), EventOf(r)).1)]
  }

  lemma ServeOne(rs: seq<Request>, r: Request)
    ensures Run(Events(rs + [r])) == Step(Run(Events(rs)), EventOf(r)).0
    ensures Responses(rs + [r]) == Responses(rs) + [WireOf(r.data, Step(Run(Events(rs)), EventOf(r)).1)]
  {
    assert (rs + [r])[..|rs|] == rs;
    assert Events(rs + [r]) == Events(rs) + [EventOf(r)];
    RunSnoc(Events(rs), EventOf(r), "");
  }

  // The responses are the replies of the state machine, each put on the wire.
  lemma {:induction false} ResponsesAreReplies(rs: seq<Request>, i: nat)
    requires i < |rs|
    ensures |Responses(rs)| == |rs| == |Replies(Events(rs))|
    ensures Responses(rs)[i] == WireOf(rs[i].data, Replies(Events(rs))[i])
    decreases |rs|
  {
    hide Step, WireOf, EventOf;
    var n := |rs| - 1;
    assert Events(rs)[..n] == Events(rs[..n]);
    if n > 0 {
      ResponsesAreReplies(rs[..n], if i < n then i else 0);
    }
  }

  // -- what a client sees of the queues

  function Texts(q: seq<Msg>): seq<string> {
    if q == [] then [] else Texts(q[..|q| - 1]) + [q[|q| - 1].content]
  }

  // The texts that came in for a peer.
  function SentTo(rs: seq<Request>, id: string): seq<string> {
    if rs == [] then []
    else
      var d := rs[|rs| - 1].data;
      SentTo(rs[..|rs| - 1], id) + if d.cmd == RECV && d.id == id then [d.msg] else []
  }

  // The text in an answer to an update for a peer; END says that there was none.
  function Told(r: Request, a: Option<DataWrapper>, id: string): seq<string> {
    if r.data.cmd == UPDATE && r.data.msg == id && a.Some? && a.value.cmd != END then [a.value.msg] else []
  }

  // The texts in the answers to the updates for a peer.
  function GivenTo(rs: seq<Request>, answers: seq<Option<DataWrapper>>, id: string): seq<string>
    requires |answers| == |rs|
  {
    if rs == [] then []
    else GivenTo(rs[..|rs| - 1], answers[..|rs| - 1], id) + Told(rs[|rs| - 1], answers[|rs| - 1], id)
  }

  lemma EventsSnoc(rs: seq<Request>)
    requires rs != []
    ensures Events(rs) == Events(rs[..|rs| - 1]) + [EventOf(rs[|rs| - 1])]
  {
    hide EventOf;
  }

  lemma {:induction false} ResponsesLength(rs: seq<Request>)
    ensures |Responses(rs)| == |rs|
  {
    if rs != [] {
      ResponsesLength(rs[..|rs| - 1]);
    }
  }

  lemma {:induction false} TextsConcat(q: seq<Msg>, r: seq<Msg>)
    ensures Texts(q + r) == Texts(q) + Texts(r)
  {
    if r == [] {
      assert q + r == q;
    } else {
      var n := |r| - 1;
      assert (q + r)[..|q + r| - 1] == q + r[..n];
      TextsConcat(q, r[..n]);
    }
  }

  lemma NoTexts()
    ensures Texts([]) == []
  {
  }

  lemma AddedText(r: Request, id: string)
    ensures Texts(Added(EventOf(r), id)) == (if r.data.cmd == RECV && r.data.id == id then [r.data.msg] else [])
    ensures forall m :: m in Added(EventOf(r), id) ==> m.cmd == RECV
  {
    var q := Added(EventOf(r), id);
    assert q != [] ==> q[..0] == [];
  }

  // What is stored for a peer are the messages received for it.
  lemma {:induction false} StoredTexts(rs: seq<Request>, id: string)
    ensures Texts(StoreSpec.Stored(Events(rs), id)) == SentTo(rs, id)
    ensures forall m :: m in StoreSpec.Stored(Events(rs), id) ==> m.cmd == RECV
  {
    hide StoreSpec.Stored, Texts, Added, EventOf, Run, Step, Replies;
    if rs == [] {
      EmptyRun(id);
      NoTexts();
      assert Events(rs) == [];
    } else {
      var before, r := rs[..|rs| - 1], rs[|rs| - 1];
      AddedText(r, id);
      StoredTexts(before, id);
      EventsSnoc(rs);
      RunSnoc(Events(before), EventOf(r), id);
      TextsConcat(StoreSpec.Stored(Events(before), id), Added(EventOf(r), id));
    }
  }

  // The text that one answer gives out for a peer is that of the message handed out.
  lemma ToldIsHanded(s: State, r: Request, id: string)
    requires var reply := Step(s, EventOf(r)).1; reply.Handed? && reply.id == id ==> reply.m.cmd == RECV
    ensures var reply := Step(s, EventOf(r)).1; Told(r, WireOf(r.data, reply), id) == Texts(StoreSpec.Given(reply, id))
  {
    hide Take, Queue, Store, Listing;
    var reply := Step(s, EventOf(r)).1;
    if reply.Handed? && reply.id == id {
      assert [reply.m][..0] == [];
    }
  }

  // A message that is handed out was received.
  lemma HandedIsReceived(before: seq<Request>, r: Request, id: string)
    ensures var reply := Step(Run(Events(before)), EventOf(r)).1;
            reply.Handed? && reply.id == id ==> reply.m.cmd == RECV
  {
    hide Step, Queue, EventOf, Events, Run, Replies;
    var rs, e := before + [r], EventOf(r);
    assert rs[..|before|] == before;
    EventsSnoc(rs);
    RunSnoc(Events(before), e, id);
    Fifo(Events(rs), id);
    StoredTexts(rs, id);
    var reply := Step(Run(Events(before)), e).1;
    if reply.Handed? && reply.id == id {
      assert reply.m in HandedOut(Replies(Events(rs)), id);
      assert reply.m in StoreSpec.Stored(Events(rs), id);
    }
  }

  lemma {:induction false} GivenTexts(rs: seq<Request>, id: string)
    ensures |Responses(rs)| == |rs| && GivenTo(rs, Responses(rs), id) == Texts(HandedOut(Replies(Events(rs)), id))
  {
    hide Step, WireOf, EventOf, Told, Responses, Run, Replies, StoreSpec.Given;
    ResponsesLength(rs);
    if rs == [] {
      EmptyRun(id);
      assert Events(rs) == [];
    } else {
      var before, r := rs[..|rs| - 1], rs[|rs| - 1];
      assert rs == before + [r];
      GivenTexts(before, id);
      ServeOne(before, r);
      EventsSnoc(rs);
      RunSnoc(Events(before), EventOf(r), id);
      HandedIsReceived(before, r, id);
      ToldIsHanded(Run(Events(before)), r, id);
      TextsConcat(HandedOut(Replies(Events(before)), id), StoreSpec.Given(Step(Run(Events(before)), EventOf(r)).1, id));
    }
  }

  /** Over every run, the texts that the answers give out for a peer are the first of the texts that
      came in for it, in order, each once. */
  lemma FirstCome(rs: seq<Request>, id: string)
    ensures |Responses(rs)| == |rs| && GivenTo(rs, Responses(rs), id) <= SentTo(rs, id)
  {
    hide Responses, GivenTo, SentTo, Events;
    GivenTexts(rs, id);
    StoredTexts(rs, id);
    Fifo(Events(rs), id);
    TextsConcat(HandedOut(Replies(Events(rs)), id), Queue(Run(Events(rs)), id));
  }

  lemma {:induction false} ResponsesPrefix(rs: seq<Request>, i: nat)
    requires i < |rs|
    ensures |Responses(rs)| == |rs| && Responses(rs)[..i] == Responses(rs[..i])
    ensures Responses(rs)[i] == WireOf(rs[i].data, Step(Run(Events(rs[..i])), EventOf(rs[i])).1)
    decreases |rs|
  {
    hide Step, WireOf, EventOf, Run;
    ResponsesLength(rs);
    var n := |rs| - 1;
    if i < n {
      ResponsesPrefix(rs[..n], i);
      assert rs[..n][..i] == rs[..i];
      assert Responses(rs)[..i] == Responses(rs[..n])[..i];
    } else {
      ResponsesLength(rs[..n]);
      assert Responses(rs)[..n] == Responses(rs[..n]);
    }
  }

  lemma FirstText(q: seq<Msg>)
    requires q != []
    ensures |Texts(q)| > 0 && Texts(q)[0] == q[0].content
  {
    assert q == [q[0]] + q[1..] && [q[0]][..0] == [];
    TextsConcat([q[0]], q[1..]);
  }

  // The answer to the i-th request, an update: the text that came in next for the peer after those
  // that it was given, and END only when it was given all of them.
  ghost predicate InTurn(rs: seq<Request>, answers: seq<Option<DataWrapper>>, i: nat)
    requires i < |rs| == |answers| && rs[i].data.cmd == UPDATE
  {
    var id := rs[i].data.msg;
    var given, sent := GivenTo(rs[..i], answers[..i], id), SentTo(rs[..i], id);
    && given <= sent && answers[i].Some? && answers[i].value.id == id
    && if given == sent then answers[i].value.cmd == END && answers[i].value.msg == id
       else answers[i].value.cmd == RECV && answers[i].value.msg == sent[|given|]
  }

  /** Over every run, no update comes away empty while a message for its peer is waiting. */
  lemma {:induction false} NextInTurn(rs: seq<Request>, i: nat)
    requires i < |rs| && rs[i].data.cmd == UPDATE
    ensures |Responses(rs)| == |rs| && InTurn(rs, Responses(rs), i)
  {
    hide Responses, GivenTo, SentTo, Events, Run, Replies, HandedOut, StoreSpec.Stored, Queue, Texts,
         Take, Store, Listing;
    var before, r := rs[..i], rs[i];
    var id := r.data.msg;
    var q := Queue(Run(Events(before)), id);
    ResponsesPrefix(rs, i);
    GivenTexts(before, id);
    StoredTexts(before, id);
    Fifo(Events(before), id);
    TextsConcat(HandedOut(Replies(Events(before)), id), q);
    if q == [] {
      NoTexts();
    } else {
      FirstText(q);
      HandedIsReceived(before, r, id);
    }
  }

  // -- the event loop

  function Flat(batches: seq<seq<Request>>): seq<Request> {
    if batches == [] then [] else Flat(batches[..|batches| - 1]) + batches[|batches| - 1]
  }

  predicate Exits(batch: seq<Request>) {
    exists i :: 0 <= i < |batch| && batch[i].data.cmd == EXIT
  }

  lemma NextBatch(batches: seq<seq<Request>>, n: nat)
    requires n < |batches|
    ensures Flat(batches[..n + 1]) == Flat(batches[..n]) + batches[n]
  {
    assert batches[..n + 1][..n] == batches[..n];
  }

  lemma {:induction false} NextRequest(before: seq<Request>, batch: seq<Request>, j: nat)
    requires j < |batch|
    ensures before + batch[..j] + [batch[j]] == before + batch[..j + 1]
    ensures Exits(batch[..j + 1]) <==> Exits(batch[..j]) || batch[j].data.cmd == EXIT
  {
    assert batch[..j + 1] == batch[..j] + [batch[j]];
    if batch[j].data.cmd == EXIT {
      assert batch[..j + 1][j].data.cmd == EXIT;
    }
    if Exits(batch[..j]) {
      var i :| 0 <= i < j && batch[..j][i].data.cmd == EXIT;
      assert batch[..j + 1][i].data.cmd == EXIT;
    }
  }

  // What one wake-up of the event loop brings.
  method HandleBatch(server: Server, batch: seq<Request>, ghost before: seq<Request>,
    replies0: seq<Option<DataWrapper>>)
    returns (replies: seq<Option<DataWrapper>>)
    requires server.table.Valid() && forall i :: 0 <= i < |batch| ==> Acceptable(batch[i])
    requires server.table.Abs() == Run(Events(before)) && replies0 == Responses(before)
    modifies server`exitFlag, server.table, server.table.peers, server.table.peers.TableRepr(),
             server.table.peers.items, Messages(server.table.queues)
    ensures server.table.Valid() && server.table.Grows()
    ensures server.table.Abs() == Run(Events(before + batch)) && replies == Responses(before + batch)
    ensures server.exitFlag <==> old(server.exitFlag) || Exits(batch)
  {
    hide MessageTable.Valid, PeerHash.Valid, Queued, Step, EventOf, WireOf, Run, Responses, Exits, Events, Serves;
    var j := 0;
    replies := replies0;
    StartBatch(before, batch);
    while j < |batch|
      invariant 0 <= j <= |batch| && replies == Responses(before + batch[..j])
      invariant server.table.Valid() && server.table.Abs() == Run(Events(before + batch[..j]))
      invariant server.exitFlag <==> old(server.exitFlag) || Exits(batch[..j])
      invariant server.table.Grows()
    {
      var reply := server.EventRoutine(batch[j]);
      ServeOne(before + batch[..j], batch[j]);
      NextRequest(before, batch, j);
      replies := replies + [reply];
      j := j + 1;
    }
    assert batch[..j] == batch;
  }

  // The event loop, from the empty store. The flag to exit is looked at between batches. At the end
  // the table is cleared.
  method EventLoop(hash: HashFn, bloom: Option<nat>, batches: seq<seq<Request>>)
    returns (replies: seq<Option<DataWrapper>>, n: nat, table: MessageTable)
    requires forall b, i :: 0 <= b < |batches| && 0 <= i < |batches[b]| ==> Acceptable(batches[b][i])
    ensures n <= |batches| && replies == Responses(Flat(batches[..n]))
    ensures forall b :: 0 <= b < n - 1 ==> !Exits(batches[b])
    ensures n < |batches| ==> n > 0 && Exits(batches[n - 1])
    ensures |replies| == |Flat(batches[..n])|
    ensures forall id :: GivenTo(Flat(batches[..n]), replies, id) <= SentTo(Flat(batches[..n]), id)
    ensures forall i :: 0 <= i < |replies| && Flat(batches[..n])[i].data.cmd == UPDATE ==>
              InTurn(Flat(batches[..n]), replies, i)
    ensures table.Valid() && table.Abs() == []
  {
    hide MessageTable.Valid, PeerHash.Valid, Queued, Run, Responses, Exits, Flat, Events, GivenTo, SentTo, InTurn;
    var server := new Server(hash, bloom);
    table := server.table;
    replies, n := [], 0;
    EmptyLoop();
    while !server.exitFlag && n < |batches|
      invariant n <= |batches| && replies == Responses(Flat(batches[..n]))
      invariant server.table == table && table.Valid() && table.Abs() == Run(Events(Flat(batches[..n])))
      invariant server.exitFlag <==> n > 0 && Exits(batches[n - 1])
      invariant forall b :: 0 <= b < n - 1 ==> !Exits(batches[b])
      invariant fresh(server) && fresh(table) && fresh(table.peers) && fresh(table.peers.TableRepr() - {null})
      invariant forall i :: 0 <= i < |table.peers.items| ==> fresh(table.peers.items[i])
      invariant forall m :: m in Messages(table.queues) ==> fresh(m)
    {
      replies := HandleBatch(server, batches[n], Flat(batches[..n]), replies);
      NextBatch(batches, n);
      n := n + 1;
    }
    table.Clear();
    AllFirstCome(Flat(batches[..n]));
  }

  lemma AllFirstCome(rs: seq<Request>)
    ensures |Responses(rs)| == |rs| && forall id :: GivenTo(rs, Responses(rs), id) <= SentTo(rs, id)
    ensures forall i :: 0 <= i < |rs| && rs[i].data.cmd == UPDATE ==> InTurn(rs, Responses(rs), i)
  {
    ResponsesLength(rs);
    forall id
      ensures GivenTo(rs, Responses(rs), id) <= SentTo(rs, id)
    {
      FirstCome(rs, id);
    }
    forall i | 0 <= i < |rs| && rs[i].data.cmd == UPDATE
      ensures InTurn(rs, Responses(rs), i)
    {
      NextInTurn(rs, i);
    }
  }

  lemma StartBatch(before: seq<Request>, batch: seq<Request>)
    ensures before + batch[..0] == before && !Exits(batch[..0])
  {
  }

  lemma EmptyLoop()
    ensures Responses([]) == [] && Run(Events([])) == [] && Flat([]) == []
  {
  }
}
