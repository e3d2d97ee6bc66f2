/** include/fd.c: sending from and receiving into scatter/gather lists, under any chunking. */
module Fd {
  import opened Bits
  import opened IoLists

  const RXBUF_SIZE: nat := 2000

  // One byte of memory.
  datatype Cell = Cell(arr: array<byte>, idx: nat)

  // The bytes an iovec array covers, in order.
  function CellsOf(s: seq<IoVec>): seq<Cell> {
    if s == [] then [] else CellsIn(s[0]) + CellsOf(s[1..])
  }

  function CellsIn(v: IoVec): (c: seq<Cell>)
    ensures |c| == v.len && forall k :: 0 <= k < v.len ==> c[k] == Cell(v.base, v.off + k)
  {
    seq(v.len, k requires 0 <= k < v.len => Cell(v.base, v.off + k))
  }

  predicate Real(c: seq<Cell>) {
    forall k :: 0 <= k < |c| ==> c[k].idx < c[k].arr.Length
  }

  predicate AllFit(s: seq<IoVec>) {
    forall i :: 0 <= i < |s| ==> s[i].Fits()
  }

  predicate Distinct(c: seq<Cell>) {
    forall j, k :: 0 <= j < k < |c| ==> c[j] != c[k]
  }

  ghost function ArraysOf(c: seq<Cell>): set<array<byte>> {
    set k | 0 <= k < |c| :: c[k].arr
  }

  // What the cells hold.
  function Data(c: seq<Cell>): (d: seq<byte>)
    requires Real(c)
    reads ArraysOf(c)
    ensures |d| == |c| && forall k :: 0 <= k < |c| ==> d[k] == c[k].arr[c[k].idx]
  {
    if c == [] then [] else Data(c[..|c| - 1]) + [c[|c| - 1].arr[c[|c| - 1].idx]]
  }

  lemma {:induction false} FitReal(s: seq<IoVec>)
    requires AllFit(s)
    ensures Real(CellsOf(s))
  {
    if s != [] {
      FitReal(s[1..]);
    }
  }

  // Taking n bytes off the front of the first entry.
  function Cut(v: IoVec, n: nat): IoVec
    requires n <= v.len
  {
    IoVec(v.base, v.off + n, v.len - n)
  }

  lemma {:induction false} CutFront(s: seq<IoVec>, n: nat)
    requires s != [] && n < s[0].len
    ensures n <= |CellsOf(s)| && CellsOf([Cut(s[0], n)] + s[1..]) == CellsOf(s)[n..]
  {
    var t := [Cut(s[0], n)] + s[1..];
    assert t[1..] == s[1..];
    calc {
      CellsOf(t);
      CellsIn(t[0]) + CellsOf(s[1..]);
      { assert CellsIn(t[0]) == CellsIn(s[0])[n..]; }
      CellsIn(s[0])[n..] + CellsOf(s[1..]);
      (CellsIn(s[0]) + CellsOf(s[1..]))[n..];
    }
  }

  lemma {:induction false} DropFront(s: seq<IoVec>, n: nat)
    requires s != [] && s[0].len <= n <= |CellsOf(s)|
    ensures n - s[0].len <= |CellsOf(s[1..])| && CellsOf(s[1..])[n - s[0].len..] == CellsOf(s)[n..]
  {
    assert CellsOf(s) == CellsIn(s[0]) + CellsOf(s[1..]);
  }

  // The bytes of the buffers, one buffer after the other.
  function TextOf(s: seq<IoVec>): seq<byte>
    requires AllFit(s)
    reads set i | 0 <= i < |s| :: s[i].base
  {
    if s == [] then [] else s[0].base[s[0].off..s[0].off + s[0].len] + TextOf(s[1..])
  }

  lemma {:induction false} DataIsText(s: seq<IoVec>)
    requires AllFit(s)
    ensures Real(CellsOf(s)) && Data(CellsOf(s)) == TextOf(s)
  {
    FitReal(s);
    if s != [] {
      DataIsText(s[1..]);
      var c, rest, t := CellsIn(s[0]), CellsOf(s[1..]), s[0].base[s[0].off..s[0].off + s[0].len];
      assert Data(c + rest) == t + Data(rest);
    }
  }

  // In the buffers of c, nothing but the cells from lo up to hi was written.
  twostate predicate OnlyWrites(c: seq<Cell>, lo: nat, hi: nat)
    requires lo <= hi <= |c|
    reads ArraysOf(c)
  {
    forall k, x {:trigger c[k].arr[x]} ::
      0 <= k < |c| && 0 <= x < c[k].arr.Length && Cell(c[k].arr, x) !in c[lo..hi] ==> c[k].arr[x] == old(c[k].arr[x])
  }

  // The bytes that a system call moved: none when it failed.
  function Count(sz: int): nat {
    if sz < 0 then 0 else sz
  }

  // What the kernel answers to a call that reads or writes: so many bytes if they were asked for
  // and are there, that the call would block, or an error.
  datatype Answer = Bytes(n: nat) | WouldBlock | Fault

  // The result of a recv of `want` bytes when `avail` are left in the stream: 0 is the end of the
  // stream, negative an error. Once the answers have run out every call is an error.
  function Given(answers: seq<Answer>, want: nat, avail: nat): (sz: int)
    ensures sz <= want && sz <= avail
  {
    if answers == [] || !answers[0].Bytes? then -1 else Min(answers[0].n, Min(want, avail))
  }

  lemma GivenFits(answers: seq<Answer>, want: nat, avail: nat)
    ensures Given(answers, want, avail) <= want && Given(answers, want, avail) <= avail
    ensures Blocks(answers) ==> Given(answers, want, avail) < 0
  {
  }

  predicate Blocks(answers: seq<Answer>) {
    answers != [] && answers[0].WouldBlock?
  }

  function Next(answers: seq<Answer>): seq<Answer> {
    if answers == [] then [] else answers[1..]
  }

  // The bytes that the next answer is good for.
  function Piece(answers: seq<Answer>): nat {
    if answers != [] && answers[0].Bytes? then answers[0].n else 0
  }

  // An error, or no byte and no promise of any.
  predicate Refused(answers: seq<Answer>) {
    Piece(answers) == 0 && !Blocks(answers)
  }

  // The result of a sendmsg of `want` bytes.
  function Taken(takes: seq<Answer>, want: nat): (sz: int) {
    if Piece(takes) == 0 then -1 else Min(Piece(takes), want)
  }

  /** The answers move `miss` bytes before one of them is a refusal, and every wait between two
      calls comes to something. Unless `firm`, one more such wait has to follow the last byte. */
  predicate Moves(answers: seq<Answer>, waits: seq<bool>, miss: nat, firm: bool) {
    miss > 0 ==>
      && !Refused(answers)
      && ((firm && Piece(answers) >= miss) ||
          (waits != [] && waits[0] && Moves(Next(answers), waits[1..], miss - Min(Piece(answers), miss), firm)))
  }

  // The answers and waits that such a transfer leaves.
  function Unused(answers: seq<Answer>, waits: seq<bool>, miss: nat, firm: bool): (seq<Answer>, seq<bool>)
    decreases |waits|
  {
    if miss == 0 then (answers, waits)
    else if (firm && Piece(answers) >= miss) || waits == [] then (Next(answers), waits)
    else Unused(Next(answers), waits[1..], miss - Min(Piece(answers), miss), firm)
  }

  function SumOf(answers: seq<Answer>): nat {
    if answers == [] then 0
    else (if answers[0].Bytes? then answers[0].n else 0) + SumOf(answers[1..])
  }

  // Each of the first r answers moves a byte or promises to.
  predicate Willing(answers: seq<Answer>, r: nat) {
    r <= |answers| && forall i :: 0 <= i < r ==> answers[i] == WouldBlock || (answers[i].Bytes? && answers[i].n > 0)
  }

  // The first r waits come to something.
  predicate Ready(waits: seq<bool>, r: nat) {
    r <= |waits| && forall i :: 0 <= i < r ==> waits[i]
  }

  // r calls are enough, with a wait between any two.
  predicate Enough(answers: seq<Answer>, waits: seq<bool>, miss: nat, firm: bool, r: nat) {
    && 0 < r <= |answers| && Willing(answers, r) && SumOf(answers[..r]) >= miss
    && Ready(waits, if firm then r - 1 else r)
  }

  lemma WillingMore(answers: seq<Answer>, r: nat)
    ensures Willing(answers, 0)
    ensures Willing(answers, r + 1) <==> answers != [] && !Refused(answers) && Willing(answers[1..], r)
  {
    if answers != [] && Willing(answers[1..], r) {
      assert forall i :: 0 < i < r + 1 ==> answers[i] == answers[1..][i - 1];
    }
    if Willing(answers, r + 1) {
      assert forall i :: 0 <= i < r ==> answers[1..][i] == answers[i + 1];
    }
  }

  lemma EnoughOnce(answers: seq<Answer>, waits: seq<bool>, miss: nat, firm: bool)
    ensures Enough(answers, waits, miss, firm, 1) <==>
            answers != [] && !Refused(answers) && Piece(answers) >= miss && (firm || (waits != [] && waits[0]))
  {
    hide Willing;
    WillingMore(answers, 0);
    if answers != [] {
      WillingMore(answers[1..], 0);
      assert answers[..1] == [answers[0]] && SumOf([answers[0]]) == Piece(answers) + SumOf([]);
    }
  }

  lemma EnoughMore(answers: seq<Answer>, waits: seq<bool>, miss: nat, firm: bool, r: nat)
    requires r > 0
    ensures Enough(answers, waits, miss, firm, r + 1) <==>
            && answers != [] && !Refused(answers) && waits != [] && waits[0]
            && Enough(answers[1..], waits[1..], miss - Min(Piece(answers), miss), firm, r)
  {
    hide Willing;
    WillingMore(answers, r);
    if r + 1 <= |answers| {
      assert answers[..r + 1][1..] == answers[1..][..r];
      assert SumOf(answers[..r + 1]) == Piece(answers) + SumOf(answers[1..][..r]);
    }
    ReadyMore(waits, if firm then r - 1 else r);
  }

  lemma ReadyMore(waits: seq<bool>, r: nat)
    ensures Ready(waits, r + 1) <==> waits != [] && waits[0] && Ready(waits[1..], r)
  {
    if waits != [] && waits[0] && Ready(waits[1..], r) {
      assert forall i :: 0 < i <= r ==> waits[i] == waits[1..][i - 1];
    }
  }

  /** The bytes move exactly when some number of calls is enough for them. */
  lemma {:induction false} MovesExactly(answers: seq<Answer>, waits: seq<bool>, miss: nat, firm: bool)
    requires miss > 0
    ensures Moves(answers, waits, miss, firm) <==> exists r: nat :: Enough(answers, waits, miss, firm, r)
  {
    hide SumOf;
    var left := miss - Min(Piece(answers), miss);
    var on := answers != [] && !Refused(answers) && waits != [] && waits[0];
    EnoughOnce(answers, waits, miss, firm);
    if on && left > 0 {
      MovesExactly(answers[1..], waits[1..], left, firm);
    }
    if Moves(answers, waits, miss, firm) && !Enough(answers, waits, miss, firm, 1) {
      var r: nat :| Enough(answers[1..], waits[1..], left, firm, r);
      EnoughMore(answers, waits, miss, firm, r);
    }
    if r: nat :| Enough(answers, waits, miss, firm, r) {
      if r > 1 {
        EnoughMore(answers, waits, miss, firm, r - 1);
      }
    }
  }

  // What is left then comes after the first calls that are enough.
  lemma {:induction false} UnusedExactly(answers: seq<Answer>, waits: seq<bool>, miss: nat, firm: bool)
    returns (r: nat)
    requires miss > 0 && Moves(answers, waits, miss, firm)
    ensures Enough(answers, waits, miss, firm, r) && forall q: nat :: q < r ==> !Enough(answers, waits, miss, firm, q)
    ensures Unused(answers, waits, miss, firm) == (answers[r..], waits[if firm then r - 1 else r..])
    decreases |waits|
  {
    hide SumOf;
    EnoughOnce(answers, waits, miss, firm);
    r := 1;
    if !Enough(answers, waits, miss, firm, 1) {
      var left := miss - Min(Piece(answers), miss);
      var k := UnusedExactly(answers[1..], waits[1..], left, firm);
      r := k + 1;
      EnoughMore(answers, waits, miss, firm, k);
      forall q: nat | 1 < q < r
        ensures !Enough(answers, waits, miss, firm, q)
      {
        EnoughMore(answers, waits, miss, firm, q - 1);
      }
    }
  }

  /** A stream socket: the bytes put on the wire, the bytes still to be read, the answers that the
      kernel will give to the calls that read and to those that write, and what the waits for it
      to be ready will come to. Once they have run out, every call is an error. */
  class Socket {
    var wire: seq<byte>
    var unread: seq<byte>
    var answers: seq<Answer>
    var takes: seq<Answer>
    var waits: seq<bool>

    constructor (unread: seq<byte>, answers: seq<Answer>, takes: seq<Answer>, waits: seq<bool>)
      ensures wire == [] && this.unread == unread
      ensures this.answers == answers && this.takes == takes && this.waits == waits
    {
      wire, this.unread, this.answers, this.takes, this.waits := [], unread, answers, takes, waits;
    }

    // sendmsg: positive is the number of bytes taken, negative an error.
    method SendMsg(cells: seq<Cell>) returns (sz: int, again: bool)
      requires cells != [] && Real(cells)
      modifies this`wire, this`takes
      ensures sz == Taken(old(takes), |cells|) && again == Blocks(old(takes)) && takes == Next(old(takes))
      ensures wire == old(wire) + (if sz > 0 then Data(cells)[..sz] else [])
    {
      sz, again := -1, false;
      if takes != [] {
        match takes[0] {
          case Bytes(n) => sz := if n == 0 then -1 else if n <= |cells| then n else |cells|;
          case WouldBlock => again := true;
          case Fault =>
        }
        takes := takes[1..];
      }
      if sz > 0 {
        wire := wire + Data(cells)[..sz];
      }
    }

    // recv and recvmsg: how much the kernel gives when asked for `want` bytes.
    method Chunk(want: nat) returns (sz: int, again: bool)
      modifies this`answers
      ensures sz == Given(old(answers), want, |unread|) && again == Blocks(old(answers))
      ensures answers == Next(old(answers))
    {
      sz, again := -1, false;
      if answers != [] {
        match answers[0] {
          case Bytes(n) => sz := if n <= want then n else want;
          case WouldBlock => again := true;
          case Fault =>
        }
        answers := answers[1..];
      }
      if sz > |unread| {
        sz := |unread|;
      }
    }

    method Recv(data: array<byte>, want: nat) returns (sz: int, again: bool)
      requires want <= data.Length
      modifies this`unread, this`answers, data
      ensures sz == Given(old(answers), want, |old(unread)|) && again == Blocks(old(answers))
      ensures answers == Next(old(answers))
      ensures unread == old(unread)[Count(sz)..]
      ensures data[..Count(sz)] == old(unread)[..Count(sz)] && data[Count(sz)..] == old(data[Count(sz)..])
    {
      sz, again := Chunk(want);
      var arrived := unread;
      var k := 0;
      while k < sz
        invariant 0 <= k && (k == 0 || k <= sz) && unread == arrived && answers == Next(old(answers))
        invariant forall j :: 0 <= j < data.Length ==> data[j] == if j < k then arrived[j] else old(data[j])
      {
        data[k] := arrived[k];
        k := k + 1;
      }
      if sz > 0 {
        unread := arrived[sz..];
      }
    }

    method RecvMsg(cells: seq<Cell>) returns (sz: int, again: bool)
      requires Real(cells) && Distinct(cells)
      modifies this`unread, this`answers, ArraysOf(cells)
      ensures sz == Given(old(answers), |cells|, |old(unread)|) && again == Blocks(old(answers))
      ensures answers == Next(old(answers)) && sz <= |cells| && sz <= |old(unread)|
      ensures Data(cells[..Count(sz)]) == old(unread)[..Count(sz)]
      ensures unread == old(unread)[Count(sz)..]
      ensures OnlyWrites(cells, 0, Count(sz))
    {
      hide Data, Given, Filled, Memory, OnlyWrites, Real, Distinct;
      GivenFits(answers, |cells|, |unread|);
      ghost var m := Memory(cells);
      FilledNone(cells);
      sz, again := Chunk(|cells|);
      var arrived := unread;
      var k := 0;
      assert arrived[..0] == [];
      while k < sz
        invariant 0 <= k && (k == 0 || k <= sz) && unread == arrived && answers == Next(old(answers))
        invariant Filled(cells, m, arrived[..k])
      {
        assert arrived[..k] + [arrived[k]] == arrived[..k + 1];
        PutByte(cells[k].arr, cells[k].idx, arrived[k], cells, m, arrived[..k]);
        k := k + 1;
      }
      FilledMeans(cells, m, arrived[..k]);
      FilledOnly(cells, m, arrived[..k]);
      if sz > 0 {
        unread := arrived[sz..];
      }
    }

    // fdin and fdout: wait until the socket is ready, or fail.
    method Wait() returns (ok: bool)
      modifies this`waits
      ensures ok == (old(waits) != [] && old(waits)[0])
      ensures waits == if old(waits) == [] then [] else old(waits)[1..]
    {
      ok := false;
      if waits != [] {
        ok, waits := waits[0], waits[1..];
      }
    }
  }

  // The last entry is not an empty one.
  predicate Firm(s: seq<IoVec>) {
    s != [] && s[|s| - 1].len > 0
  }

  lemma {:induction false} FirmHolds(s: seq<IoVec>)
    requires Firm(s)
    ensures CellsOf(s) != []
  {
    if |s| > 1 {
      FirmHolds(s[1..]);
    }
  }

  // Stepping over the first entry.
  lemma {:induction false} StepOver(s: seq<IoVec>, n: nat)
    requires s != [] && s[0].len <= n <= |CellsOf(s)| && AllFit(s)
    ensures n - s[0].len <= |CellsOf(s[1..])| && CellsOf(s[1..])[n - s[0].len..] == CellsOf(s)[n..]
    ensures AllFit(s[1..])
    ensures if |s| == 1 then n == s[0].len else Firm(s[1..]) == Firm(s)
  {
    hide CellsOf;
    DropFront(s, n);
    if |s| == 1 {
      AtLast(s);
    }
  }

  // Stepping into it.
  lemma {:induction false} StepInto(s: seq<IoVec>, n: nat)
    requires s != [] && n < s[0].len && AllFit(s)
    ensures n <= |CellsOf(s)| && CellsOf([Cut(s[0], n)] + s[1..]) == CellsOf(s)[n..]
    ensures AllFit([Cut(s[0], n)] + s[1..]) && Firm([Cut(s[0], n)] + s[1..]) == Firm(s)
  {
    CutFront(s, n);
  }

  /** Takes sz bytes off the front of iov[i..], as fd_send and fd_recv_ do once the kernel has
      moved them. With all of them gone it is at the end, unless the last entry is empty. */
  method Advance(iov: array<IoVec>, i: nat, sz: nat) returns (j: nat)
    requires i < iov.Length && sz <= |CellsOf(iov[i..])| && AllFit(iov[i..])
    modifies iov
    ensures i <= j <= iov.Length && AllFit(iov[j..])
    ensures CellsOf(iov[j..]) == old(CellsOf(iov[i..]))[sz..]
    ensures if j < iov.Length then Firm(iov[j..]) == old(Firm(iov[i..])) else old(Firm(iov[i..]))
  {
    hide CellsOf, AllFit, Firm;
    j := i;
    var n := sz;
    ghost var all := CellsOf(iov[i..]);
    ghost var rest := iov[i..];
    while n > 0
      invariant i <= j < iov.Length && rest == iov[j..] && iov[..] == old(iov[..])
      invariant 0 <= n <= |CellsOf(rest)| && CellsOf(rest)[n..] == all[sz..]
      invariant AllFit(rest) && Firm(rest) == old(Firm(iov[i..]))
      decreases iov.Length - j
    {
      var head := iov[j];
      assert head == rest[0];
      if head.len > n {
        StepInto(rest, n);
        iov[j] := Cut(head, n);
        assert iov[j..] == [Cut(head, n)] + rest[1..];
        return;
      }
      StepOver(rest, n);
      ghost var before := rest;
      n, j, rest := n - head.len, j + 1, rest[1..];
      assert rest == iov[j..];
      if j == iov.Length {
        AtLast(before);
        return;
      }
    }
  }

  lemma {:induction false} AtLast(s: seq<IoVec>)
    requires |s| == 1
    ensures CellsOf(s[1..]) == [] && (s[0].len > 0 ==> Firm(s))
  {
  }

  // The iovec entries of a list.
  ghost function Bufs(s: seq<IoList>): (v: seq<IoVec>)
    reads s`buf
    ensures |v| == |s| && forall i :: 0 <= i < |s| ==> v[i] == s[i].buf
  {
    if s == [] then [] else Bufs(s[..|s| - 1]) + [s[|s| - 1].buf]
  }

  // The buffers are not the iovec array itself.
  ghost predicate Apart(cells: seq<Cell>, iov: array<IoVec>) {
    forall k :: 0 <= k < |cells| ==> (cells[k].arr as object) != iov
  }

  // The rest of a message: what is left in the iovec array, and the bytes there. Firm says that
  // the last entry is not an empty one.
  ghost predicate Left(iov: array<IoVec>, i: nat, rest: seq<Cell>, d: seq<byte>, firm: bool)
    reads iov, ArraysOf(rest)
  {
    && i <= iov.Length && AllFit(iov[i..]) && rest == CellsOf(iov[i..])
    && Real(rest) && Apart(rest, iov) && Data(rest) == d && (i < iov.Length ==> Firm(iov[i..]) == firm)
  }

  method SkipEmpty(iov: array<IoVec>, i: nat, ghost rest: seq<Cell>, ghost d: seq<byte>, ghost firm: bool)
    returns (j: nat)
    requires Left(iov, i, rest, d, firm)
    ensures Left(iov, j, rest, d, firm)
    ensures j == iov.Length <==> rest == []
    ensures |rest| == |d|
  {
    hide Left;
    j := i;
    LeftHead(iov, j, rest, d, firm);
    while j < iov.Length && iov[j].len == 0
      invariant Left(iov, j, rest, d, firm) && j <= iov.Length
    {
      LeftHead(iov, j, rest, d, firm);
      j := j + 1;
    }
    LeftHead(iov, j, rest, d, firm);
  }

  // At the end nothing is left; an empty entry may be skipped; any other holds some of the rest.
  lemma LeftHead(iov: array<IoVec>, i: nat, rest: seq<Cell>, d: seq<byte>, firm: bool)
    requires Left(iov, i, rest, d, firm)
    ensures i <= iov.Length && |rest| == |d| && (i == iov.Length ==> rest == [])
    ensures i < iov.Length ==> if iov[i].len == 0 then Left(iov, i + 1, rest, d, firm) else rest != []
  {
    hide Data;
    DataFrom(rest, 0);
    if i < iov.Length {
      assert iov[i..][1..] == iov[i + 1..];
    }
  }

  // One round of fd_send: hand the rest to the kernel and take off what it took.
  method Push(sock: Socket, iov: array<IoVec>, i: nat, ghost rest: seq<Cell>, ghost d: seq<byte>, ghost firm: bool)
    returns (failed: bool, j: nat, sz: nat)
    requires Left(iov, i, rest, d, firm) && rest != []
    modifies sock`wire, sock`takes, iov
    ensures sz <= |rest| == |d| && Left(iov, j, rest[sz..], d[sz..], firm)
    ensures sock.wire == old(sock.wire) + d[..sz] && sock.takes == Next(old(sock.takes))
    ensures failed == Refused(old(sock.takes)) && sz == Min(Piece(old(sock.takes)), |rest|)
    ensures j == iov.Length <==> sz == |rest| && firm
  {
    hide CellsOf, AllFit, Real, Apart, Data, Firm;
    AtEnd(iov, i);
    var took, again := sock.SendMsg(CellsOf(iov[i..]));
    if took < 0 {
      assert rest[0..] == rest && d[0..] == d && d[..0] == [];
      return !again, i, 0;
    }
    failed, sz := false, took;
    DataFrom(rest, sz);
    j := Advance(iov, i, sz);
    AtEnd(iov, j);
  }

  lemma AtEnd(iov: array<IoVec>, j: nat)
    requires j <= iov.Length
    ensures j == iov.Length ==> CellsOf(iov[j..]) == []
    ensures Firm(iov[j..]) ==> j < iov.Length && CellsOf(iov[j..]) != []
  {
    if Firm(iov[j..]) {
      FirmHolds(iov[j..]);
    }
  }

  // What remains of a list of cells when n of them are taken off.
  lemma DataFrom(c: seq<Cell>, n: nat)
    requires n <= |c| && Real(c)
    ensures |Data(c)| == |c| && Real(c[n..]) && Data(c[n..]) == Data(c)[n..]
    ensures forall iov: array<IoVec> :: Apart(c, iov) ==> Apart(c[n..], iov)
  {
  }

  lemma Further<T>(s: seq<T>, k: nat, n: nat)
    requires k + n <= |s|
    ensures s[..k] + s[k..][..n] == s[..k + n] && s[k..][n..] == s[k + n..]
  {
  }

  // The loop of fd_send once the iovec array is filled; k counts the bytes sent.
  method SendLoop(sock: Socket, iov: array<IoVec>, ghost cells: seq<Cell>, ghost d: seq<byte>, ghost firm: bool)
    returns (ok: bool, ghost k: nat)
    requires Left(iov, 0, cells, d, firm)
    modifies sock`wire, sock`takes, sock`waits, iov
    ensures k <= |d| && sock.wire == old(sock.wire) + d[..k]
    ensures ok ==> k == |d|
    ensures ok <==> Moves(old(sock.takes), old(sock.waits), |d|, firm)
    ensures ok ==> (sock.takes, sock.waits) == Unused(old(sock.takes), old(sock.waits), |d|, firm)
  {
    hide Left, Moves, Unused, Refused, Piece;
    var i := 0;
    k := 0;
    ghost var rest := cells;
    while true
      invariant k <= |d| && Left(iov, i, rest, d[k..], firm)
      invariant sock.wire == old(sock.wire) + d[..k]
      invariant Moves(old(sock.takes), old(sock.waits), |d|, firm) == Moves(sock.takes, sock.waits, |d| - k, firm)
      invariant Unused(old(sock.takes), old(sock.waits), |d|, firm) == Unused(sock.takes, sock.waits, |d| - k, firm)
      decreases |sock.waits|
    {
      MovesOn(sock.takes, sock.waits, |d| - k, firm);
      i := SkipEmpty(iov, i, rest, d[k..], firm);
      if i == iov.Length {
        return true, k;
      }
      var failed, sz;
      failed, i, sz := Push(sock, iov, i, rest, d[k..], firm);
      Further(d, k, sz);
      k, rest := k + sz, rest[sz..];
      if failed {
        return false, k;
      }
      if i == iov.Length {
        return true, k;
      }
      assert forall a :: a in ArraysOf(rest) ==> (a as object) != sock;
      assert (iov as object) != sock;
      var ready := sock.Wait();
      assert Left(iov, i, rest, d[k..], firm);
      if !ready {
        return false, k;
      }
    }
  }

  // What one call comes to.
  lemma MovesOn(answers: seq<Answer>, waits: seq<bool>, miss: nat, firm: bool)
    ensures miss == 0 ==> Moves(answers, waits, miss, firm)
    ensures miss > 0 && Refused(answers) ==> Min(Piece(answers), miss) == 0 && !Moves(answers, waits, miss, firm)
    ensures miss > 0 && !Refused(answers) ==>
              var k := Min(Piece(answers), miss);
              Moves(answers, waits, miss, firm) <==>
              (k == miss && firm) || (waits != [] && waits[0] && Moves(Next(answers), waits[1..], miss - k, firm))
    ensures var k := Min(Piece(answers), miss);
            Unused(answers, waits, miss, firm) ==
            if miss == 0 then (answers, waits)
            else if (k == miss && firm) || waits == [] then (Next(answers), waits)
            else Unused(Next(answers), waits[1..], miss - k, firm)
  {
  }

  // The cells of a list, in order.
  ghost function ListCells(s: seq<IoList>): seq<Cell>
    reads s`buf
  {
    CellsOf(Bufs(s))
  }

  lemma {:induction false} CellsSnoc(s: seq<IoVec>, v: IoVec)
    ensures CellsOf(s + [v]) == CellsOf(s) + CellsIn(v)
  {
    if s == [] {
      assert [v][1..] == [];
    } else {
      assert (s + [v])[1..] == s[1..] + [v];
      CellsSnoc(s[1..], v);
    }
  }

  // The byte total that iol_check reports is the number of bytes in the buffers.
  lemma {:induction false} TotalIsCells(s: seq<IoList>)
    ensures TotalLen(s) == |ListCells(s)|
  {
    if s != [] {
      var n := |s| - 1;
      TotalIsCells(s[..n]);
      CellsSnoc(Bufs(s[..n]), s[n].buf);
    }
  }

  // The local iovec array of fd_send and fd_recv_.
  method MakeIov(first: IoList, last: IoList, niov: nat, ghost v: seq<IoList>) returns (iov: array<IoVec>)
    requires ListOf(v, first, last) && niov == |v| && AllFit(Bufs(v))
    ensures fresh(iov) && iov[..] == Bufs(v) && Apart(ListCells(v), iov)
  {
    ghost var cells := ListCells(v);
    var filler := first.buf;
    iov := new IoVec[niov](_ => filler);
    ToIov(first, last, iov, v);
    assert cells == ListCells(v);
  }

  lemma Loaded(iov: array<IoVec>, cells: seq<Cell>)
    requires AllFit(iov[..]) && cells == CellsOf(iov[..]) && Apart(cells, iov)
    ensures Real(cells) && |Data(cells)| == |cells| && Left(iov, 0, cells, Data(cells), Firm(iov[..]))
  {
    assert iov[0..] == iov[..];
    FitReal(iov[..]);
  }

  // fd_send once the list is known to be sound.
  method SendList(sock: Socket, first: IoList, last: IoList, niov: nat, ghost v: seq<IoList>)
    returns (ok: bool, ghost k: nat)
    requires ListOf(v, first, last) && niov == |v| && AllFit(Bufs(v)) && Real(ListCells(v))
    modifies sock`wire, sock`takes, sock`waits
    ensures k <= |ListCells(v)| && (ok ==> k == |ListCells(v)|)
    ensures sock.wire == old(sock.wire) + Data(ListCells(v))[..k]
    ensures ok <==> Moves(old(sock.takes), old(sock.waits), |ListCells(v)|, Firm(Bufs(v)))
    ensures ok ==>
              (sock.takes, sock.waits) == Unused(old(sock.takes), old(sock.waits), |ListCells(v)|, Firm(Bufs(v)))
  {
    hide CellsOf, Data, Real, Apart, Left, Moves, Unused, Firm;
    var iov := MakeIov(first, last, niov, v);
    ghost var cells := ListCells(v);
    Loaded(iov, cells);
    ghost var d := Data(cells);
    ok, k := SendLoop(sock, iov, cells, d, Firm(iov[..]));
    assert ListCells(v) == cells;
    assert Data(cells) == d;
  }

  /** fd_send. v is the list found, k the number of its bytes that went out. It succeeds exactly
      when there is a list without a mark on it and the kernel takes the whole of it in time. */
  method Send(sock: Socket, first: IoList?, last: IoList?, ghost u: set<IoList>)
    returns (ok: bool, ghost v: seq<IoList>, ghost k: nat)
    requires Closed(u) && (first != null ==> first in u) && forall n :: n in u ==> n.buf.Fits()
    modifies u`rsvd, sock`wire, sock`takes, sock`waits
    ensures Real(ListCells(v)) && k <= |ListCells(v)|
    ensures sock.wire == old(sock.wire) + Data(ListCells(v))[..k]
    ensures v != [] <==> exists s :: Within(s, first, last, old(Clear(u)))
    ensures v != [] ==> first != null && last != null && ListOf(v, first, last)
    ensures ok ==> k == |ListCells(v)|
    ensures ok <==> v != [] && Moves(old(sock.takes), old(sock.waits), |ListCells(v)|, Firm(Bufs(v)))
    ensures ok ==>
              (sock.takes, sock.waits) == Unused(old(sock.takes), old(sock.waits), |ListCells(v)|, Firm(Bufs(v)))
  {
    hide CellsOf, Data, Real, ListOf, Path, Moves, Unused, Firm;
    Nothing();
    var niov, nbytes;
    ghost var stop;
    ok, niov, nbytes, v, stop := Check(first, last, u);
    if !ok {
      return false, [], 0;
    }
    LastIs(v, first, last);
    FitReal(Bufs(v));
    ok, k := SendList(sock, first, last, niov, v);
    assert Within(v, first, last, old(Clear(u)));
  }

  lemma Nothing()
    ensures ListCells([]) == [] && Real([])
  {
  }

  // What is left to be filled: the iovec array from i on.
  ghost predicate ToFill(iov: array<IoVec>, i: nat, rest: seq<Cell>, firm: bool)
    reads iov
  {
    && i <= iov.Length && AllFit(iov[i..]) && rest == CellsOf(iov[i..])
    && (i < iov.Length ==> Firm(iov[i..]) == firm)
  }

  twostate lemma Widen(c: seq<Cell>, new n: nat, new sz: nat)
    requires n + sz <= |c| && OnlyWrites(c[n..], 0, sz)
    requires forall k :: 0 <= k < |c| && c[k].arr !in ArraysOf(c[n..]) ==> c[k].arr[..] == old(c[k].arr[..])
    ensures OnlyWrites(c, n, n + sz)
  {
    var rest := c[n..];
    assert c[n..n + sz] == rest[0..sz];
    forall k, x | 0 <= k < |c| && 0 <= x < c[k].arr.Length && Cell(c[k].arr, x) !in c[n..n + sz]
      ensures c[k].arr[x] == old(c[k].arr[x])
    {
      if c[k].arr !in ArraysOf(rest) {
        assert c[k].arr[..][x] == old(c[k].arr[..][x]);
      } else {
        var m :| 0 <= m < |rest| && rest[m].arr == c[k].arr;
        assert rest[m].arr[x] == old(rest[m].arr[x]);
      }
    }
  }

  // The cells before those written keep what they hold.
  twostate lemma Kept(c: seq<Cell>, new lo: nat, new hi: nat)
    requires lo <= hi <= |c| && Real(c) && Distinct(c) && OnlyWrites(c, lo, hi)
    ensures Data(c[..lo]) == old(Data(c[..lo]))
  {
    forall k | 0 <= k < lo
      ensures c[k].arr[c[k].idx] == old(c[k].arr[c[k].idx])
    {
      assert c[k] !in c[lo..hi];
    }
  }

  lemma Suffix(c: seq<Cell>, n: nat)
    requires n <= |c| && Real(c) && Distinct(c)
    ensures Real(c[n..]) && Distinct(c[n..])
    ensures forall k :: 0 <= k <= |c| ==> Real(c[..k])
    ensures forall k :: 0 <= k <= |c| - n ==> Real(c[n..][..k])
  {
  }

  lemma DataJoin(c: seq<Cell>, n: nat, sz: nat)
    requires n + sz <= |c| && Real(c)
    ensures Real(c[..n]) && Real(c[n..][..sz]) && Real(c[..n + sz])
    ensures Data(c[..n + sz]) == Data(c[..n]) + Data(c[n..][..sz])
  {
  }

  // recvmsg into the cells from n on.
  method RecvFrom(sock: Socket, rest: seq<Cell>, ghost c: seq<Cell>, ghost n: nat) returns (got: int, again: bool)
    requires n <= |c| && rest == c[n..] && Real(c) && Distinct(c)
    modifies sock`unread, sock`answers, ArraysOf(c)
    ensures got == Given(old(sock.answers), |c| - n, |old(sock.unread)|) && again == Blocks(old(sock.answers))
    ensures sock.answers == Next(old(sock.answers))
    ensures n + Count(got) <= |c| && Count(got) <= |old(sock.unread)|
    ensures Data(c[..n + Count(got)]) == old(Data(c[..n])) + old(sock.unread)[..Count(got)]
    ensures sock.unread == old(sock.unread)[Count(got)..]
    ensures OnlyWrites(c, n, n + Count(got))
  {
    hide OnlyWrites, Real, Distinct, Data;
    Suffix(c, n);
    got, again := sock.RecvMsg(rest);
    ghost var sz := Count(got);
    Widen(c, n, sz);
    Kept(c, n, n + sz);
    DataJoin(c, n, sz);
  }

  // The memory behind the cells, cell by cell, as a value.
  ghost function Memory(c: seq<Cell>): (m: seq<seq<byte>>)
    reads ArraysOf(c)
    ensures |m| == |c| && forall k :: 0 <= k < |c| ==> m[k] == c[k].arr[..]
  {
    if c == [] then [] else Memory(c[..|c| - 1]) + [c[|c| - 1].arr[..]]
  }

  // Of the memory m, nothing but the first cells of c has changed, and these hold d.
  ghost predicate Filled(c: seq<Cell>, m: seq<seq<byte>>, d: seq<byte>)
    reads ArraysOf(c)
  {
    && Real(c) && Distinct(c) && |d| <= |c| == |m| && Data(c[..|d|]) == d
    && (forall k :: 0 <= k < |c| ==> |m[k]| == c[k].arr.Length)
    && forall k, x {:trigger c[k].arr[x]} ::
      0 <= k < |c| && 0 <= x < c[k].arr.Length && Cell(c[k].arr, x) !in c[..|d|] ==> c[k].arr[x] == m[k][x]
  }

  twostate lemma FilledMore(c: seq<Cell>, new m: seq<seq<byte>>, new d: seq<byte>, new e: seq<byte>)
    requires old(Filled(c, m, d)) && |d| + |e| <= |c| && OnlyWrites(c, |d|, |d| + |e|)
    requires Data(c[..|d| + |e|]) == d + e
    ensures Filled(c, m, d + e)
  {
    hide Data;
    OlderAndNewer(c, |d|, |d| + |e|);
    forall k, x | 0 <= k < |c| && 0 <= x < c[k].arr.Length && Cell(c[k].arr, x) !in c[..|d + e|]
      ensures c[k].arr[x] == m[k][x]
    {
    }
  }

  lemma OlderAndNewer(c: seq<Cell>, n: nat, m: nat)
    requires n <= m <= |c|
    ensures forall x :: x !in c[..m] ==> x !in c[..n] && x !in c[n..m]
  {
  }

  // One round of fd_recv_: let the kernel fill in what it has and step over it.
  method Pull(sock: Socket, iov: array<IoVec>, i: nat, ghost c: seq<Cell>, ghost m: seq<seq<byte>>, ghost d: seq<byte>,
    ghost firm: bool)
    returns (failed: bool, j: nat, sz: nat)
    requires Filled(c, m, d) && ToFill(iov, i, c[|d|..], firm) && i < iov.Length && Apart(c, iov)
    modifies sock`unread, sock`answers, iov, ArraysOf(c)
    ensures sz <= |old(sock.unread)| && sock.unread == old(sock.unread)[sz..]
    ensures |d| + sz <= |c| && i <= j <= iov.Length
    ensures Filled(c, m, d + old(sock.unread)[..sz]) && ToFill(iov, j, c[|d| + sz..], firm)
    ensures sz == Count(Given(old(sock.answers), |c| - |d|, |old(sock.unread)|))
    ensures sock.answers == Next(old(sock.answers)) && failed == (sz == 0 && !Blocks(old(sock.answers)))
    ensures j == iov.Length <==> |d| + sz == |c| && firm
    ensures firm ==> |d| < |c|
  {
    hide OnlyWrites, Real, Distinct, Data, CellsOf, AllFit, Apart, Filled, Firm, Given, Blocks;
    FilledMeans(c, m, d);
    Suffix(c, |d|);
    AtEnd(iov, i);
    GivenFits(sock.answers, |c| - |d|, |sock.unread|);
    var got, again := RecvFrom(sock, CellsOf(iov[i..]), c, |d|);
    failed, sz := got == 0 || (got < 0 && !again), Count(got);
    FilledMore(c, m, d, old(sock.unread)[..sz]);
    j := i;
    if !failed {
      j := Advance(iov, i, sz);
    }
    AtEnd(iov, j);
  }

  lemma FilledNone(c: seq<Cell>)
    requires Real(c) && Distinct(c)
    ensures Filled(c, Memory(c), [])
  {
  }

  twostate lemma FilledOnly(c: seq<Cell>, new m: seq<seq<byte>>, new d: seq<byte>)
    requires m == old(Memory(c)) && Filled(c, m, d)
    ensures |d| <= |c| && OnlyWrites(c, 0, |d|)
  {
    assert c[0..|d|] == c[..|d|];
  }

  lemma FilledMeans(c: seq<Cell>, m: seq<seq<byte>>, d: seq<byte>)
    requires Filled(c, m, d)
    ensures Real(c) && Distinct(c) && |d| <= |c| && Real(c[..|d|]) && Data(c[..|d|]) == d
  {
  }

  // The answers bring `miss` of the `avail` bytes that are still to come.
  predicate Arrives(answers: seq<Answer>, waits: seq<bool>, avail: nat, miss: nat) {
    miss <= avail && Moves(answers, waits, miss, true)
  }

  // What one call that asks for `want` bytes comes to.
  lemma ArrivesOn(answers: seq<Answer>, waits: seq<bool>, avail: nat, miss: nat, want: nat)
    requires 0 < miss <= want
    ensures var sz := Count(Given(answers, want, avail));
            Arrives(answers, waits, avail, miss) <==>
            if sz == 0 && !Blocks(answers) then false
            else sz >= miss || (waits != [] && waits[0] && Arrives(Next(answers), waits[1..], avail - sz, miss - sz))
    ensures var sz := Count(Given(answers, want, avail));
            Arrives(answers, waits, avail, miss) ==>
              Unused(answers, waits, miss, true) ==
              if sz >= miss then (Next(answers), waits) else Unused(Next(answers), waits[1..], miss - sz, true)
  {
    MovesOn(answers, waits, miss, true);
  }

  // The loop of fd_recv_: d is there already, n more bytes arrive.
  method RecvLoop(sock: Socket, iov: array<IoVec>, ghost c: seq<Cell>, ghost m: seq<seq<byte>>, ghost d: seq<byte>,
    ghost firm: bool)
    returns (ok: bool, ghost n: nat)
    requires Filled(c, m, d) && ToFill(iov, 0, c[|d|..], firm) && iov.Length > 0 && Apart(c, iov)
    modifies sock`unread, sock`answers, sock`waits, iov, ArraysOf(c)
    ensures n <= |old(sock.unread)| && sock.unread == old(sock.unread)[n..]
    ensures Filled(c, m, d + old(sock.unread)[..n])
    ensures ok ==> |d| + n == |c|
    ensures |d| <= |c| && (ok <==> firm && Arrives(old(sock.answers), old(sock.waits), |old(sock.unread)|, |c| - |d|))
    ensures ok ==> (sock.answers, sock.waits) == Unused(old(sock.answers), old(sock.waits), |c| - |d|, true)
  {
    hide Apart, ToFill, Filled, CellsOf, Data, Arrives, Unused, Given, Blocks;
    ghost var u := sock.unread;
    var i := 0;
    n := 0;
    assert d + u[..0] == d;
    FilledMeans(c, m, d);
    ghost var whole := Arrives(sock.answers, sock.waits, |u|, |c| - |d|);
    ghost var unused := Unused(sock.answers, sock.waits, |c| - |d|, true);
    while true
      invariant 0 <= i < iov.Length && n <= |u| && |d| + n <= |c| && ToFill(iov, i, c[|d| + n..], firm)
      invariant sock.unread == u[n..] && Filled(c, m, d + u[..n])
      invariant firm ==> whole == Arrives(sock.answers, sock.waits, |u| - n, |c| - |d| - n)
      invariant firm && whole ==> unused == Unused(sock.answers, sock.waits, |c| - |d| - n, true)
      decreases |sock.waits|
    {
      var failed, sz;
      ghost var ans, miss := sock.answers, |c| - |d| - n;
      failed, i, sz := Pull(sock, iov, i, c, m, d + u[..n], firm);
      if firm {
        ArrivesOn(ans, sock.waits, |u| - n, miss, miss);
      }
      Further(u, n, sz);
      assert d + u[..n] + u[n..][..sz] == d + u[..n + sz];
      n := n + sz;
      assert Filled(c, m, d + u[..n]) && ToFill(iov, i, c[|d| + n..], firm);
      if failed || i == iov.Length {
        return !failed, n;
      }
      assert forall a :: a in ArraysOf(c) ==> (a as object) != sock;
      assert (iov as object) != sock;
      var ready := sock.Wait();
      if !ready {
        return false, n;
      }
    }
  }

  /** fd_recv_: receiving into the list s, the cells of c that d does not fill. */
  method RecvDirect(sock: Socket, first: IoList, last: IoList, ghost u: set<IoList>, ghost s: seq<IoList>,
    ghost c: seq<Cell>, ghost m: seq<seq<byte>>, ghost d: seq<byte>)
    returns (ok: bool, ghost n: nat)
    requires Closed(u) && first in u && ListOf(s, first, last)
    requires AllFit(Bufs(s)) && Filled(c, m, d) && ListCells(s) == c[|d|..]
    modifies u`rsvd, sock`unread, sock`answers, sock`waits, ArraysOf(c)
    ensures n <= |old(sock.unread)| && sock.unread == old(sock.unread)[n..]
    ensures Filled(c, m, d + old(sock.unread)[..n])
    ensures ok ==> |d| + n == |c|
    ensures |d| <= |c|
    ensures ok <==> old(Unmarked(s) && Firm(Bufs(s))) &&
                    Arrives(old(sock.answers), old(sock.waits), |old(sock.unread)|, |c| - |d|)
    ensures ok ==> (sock.answers, sock.waits) == Unused(old(sock.answers), old(sock.waits), |c| - |d|, true)
  {
    hide ToFill, Filled, CellsOf, Data, AllFit, ListOf, Closed, Firm, Arrives, Unused, Unmarked;
    FilledMeans(c, m, d);
    LastIs(s, first, last);
    ghost var firm := Firm(Bufs(s));
    var niov;
    ok, niov := CheckList(first, last, u, s);
    if !ok {
      assert d + sock.unread[..0] == d;
      return false, 0;
    }
    var iov := MakeIov(first, last, niov, s);
    assert Apart(c, iov);
    Opened(iov, s, c[|d|..]);
    ok, n := RecvLoop(sock, iov, c, m, d, firm);
  }

  lemma LastIs(s: seq<IoList>, first: IoList, last: IoList)
    requires ListOf(s, first, last)
    ensures s != [] && s[0] == first && s[|s| - 1] == last
  {
  }

  lemma Opened(iov: array<IoVec>, s: seq<IoList>, rest: seq<Cell>)
    requires iov[..] == Bufs(s) && AllFit(Bufs(s)) && rest == ListCells(s)
    requires s != []
    ensures ToFill(iov, 0, rest, Firm(Bufs(s))) && iov.Length > 0
  {
    assert iov[0..] == iov[..];
  }

  // struct fd_rxbuf: what was read ahead is data[pos..len].
  class RxBuf {
    var len: nat
    var pos: nat
    const data: array<byte>

    ghost predicate Valid()
      reads this
    {
      data.Length == RXBUF_SIZE && pos <= len <= RXBUF_SIZE
    }

    ghost function Pending(): seq<byte>
      requires Valid()
      reads this, data
    {
      data[pos..len]
    }

    // fd_initrxbuf
    constructor ()
      ensures Valid() && Pending() == [] && fresh(data)
    {
      len, pos, data := 0, 0, new byte[RXBUF_SIZE];
    }
  }

  method PutByte(a: array<byte>, i: nat, b: byte, ghost c: seq<Cell>, ghost m: seq<seq<byte>>, ghost d: seq<byte>)
    requires Filled(c, m, d) && |d| < |c| && c[|d|] == Cell(a, i)
    modifies a
    ensures Filled(c, m, d + [b])
  {
    hide Filled;
    FilledMeans(c, m, d);
    a[i] := b;
    Kept(c, |d|, |d| + 1);
    assert c[..|d| + 1] == c[..|d|] + [c[|d|]];
    FilledMore(c, m, d, [b]);
  }

  // The memcpy of fd_copy.
  method MemCpy(v: IoVec, rx: RxBuf, n: nat, ghost c: seq<Cell>, ghost m: seq<seq<byte>>, ghost d: seq<byte>)
    requires rx.Valid() && n <= v.len && n <= rx.len - rx.pos && v.Fits() && rx.data !in ArraysOf(c)
    requires Filled(c, m, d) && |d| + v.len <= |c| && CellsIn(v) == c[|d|..|d| + v.len]
    modifies ArraysOf(c)
    ensures Filled(c, m, d + rx.data[rx.pos..rx.pos + n])
  {
    hide Filled;
    var k := 0;
    ghost var p := rx.data[rx.pos..rx.pos + n];
    assert d + p[..0] == d;
    while k < n
      invariant 0 <= k <= n && Filled(c, m, d + p[..k])
      invariant p == rx.data[rx.pos..rx.pos + n]
    {
      assert c[|d| + k] == CellsIn(v)[k];
      PutByte(v.base, v.off + k, rx.data[rx.pos + k], c, m, d + p[..k]);
      assert d + p[..k] + [p[k]] == d + p[..k + 1];
      k := k + 1;
    }
    assert p[..n] == p;
  }

  lemma Stretched<T>(a: seq<T>, i: nat, j: nat, n: nat)
    requires i + n <= j <= |a|
    ensures a[i..i + n] == a[i..j][..n] && a[i + n..j] == a[i..j][n..]
  {
  }

  // fd_copy: what it takes is gone from the front of the buffer.
  method Copy(rx: RxBuf, v: IoVec, ghost c: seq<Cell>, ghost m: seq<seq<byte>>, ghost d: seq<byte>)
    returns (sz: nat)
    requires rx.Valid() && v.Fits() && rx.data !in ArraysOf(c)
    requires Filled(c, m, d) && |d| + v.len <= |c| && CellsIn(v) == c[|d|..|d| + v.len]
    modifies rx, ArraysOf(c)
    ensures rx.Valid()
    ensures sz <= v.len && sz <= |old(rx.Pending())| && (sz < v.len ==> sz == |old(rx.Pending())|)
    ensures rx.Pending() == old(rx.Pending())[sz..]
    ensures Filled(c, m, d + old(rx.Pending())[..sz])
  {
    hide Filled;
    assert forall a :: a in ArraysOf(c) ==> (a as object) != rx;
    ghost var p := rx.Pending();
    var rmn := rx.len - rx.pos;
    sz := if rmn < v.len then rmn else v.len;
    MemCpy(v, rx, sz, c, m, d);
    Stretched(rx.data[..], rx.pos, rx.len, sz);
    if rmn < v.len {
      rx.len, rx.pos := 0, 0;
    } else {
      rx.pos := rx.pos + sz;
    }
  }

  ghost predicate Chain(next: IoList?, t: seq<IoList>)
    reads t`next
  {
    && next == (if t == [] then null else t[0])
    && forall i {:trigger t[i].next} :: 0 <= i < |t| ==> t[i].next == (if i + 1 < |t| then t[i + 1] else null)
  }

  // What fd_recv has still to fill: the rest of the current buffer, and the nodes after it.
  ghost predicate Rest(buf: IoVec, next: IoList?, t: seq<IoList>, cells: seq<Cell>)
    reads t
  {
    buf.Fits() && Chain(next, t) && AllFit(Bufs(t)) && CellsOf([buf] + Bufs(t)) == cells
  }

  lemma RestHead(buf: IoVec, next: IoList?, t: seq<IoList>, cells: seq<Cell>)
    requires Rest(buf, next, t, cells)
    ensures buf.Fits() && buf.len <= |cells| && cells[..buf.len] == CellsIn(buf)
  {
    assert ([buf] + Bufs(t))[1..] == Bufs(t);
  }

  lemma RestCut(buf: IoVec, next: IoList?, t: seq<IoList>, cells: seq<Cell>, sz: nat)
    requires Rest(buf, next, t, cells) && sz < buf.len
    ensures sz < |cells| && Rest(Cut(buf, sz), next, t, cells[sz..])
  {
    RestHead(buf, next, t, cells);
    CutFront([buf] + Bufs(t), sz);
    assert ([buf] + Bufs(t))[1..] == Bufs(t);
  }

  lemma RestNext(buf: IoVec, next: IoList?, t: seq<IoList>, cells: seq<Cell>)
    requires Rest(buf, next, t, cells)
    ensures next == null ==> |cells| == buf.len
    ensures if next == null then t == [] else t != [] && t[0] == next
    ensures next != null ==> buf.len <= |cells| && Rest(next.buf, next.next, t[1..], cells[buf.len..])
  {
    RestHead(buf, next, t, cells);
    var all := [buf] + Bufs(t);
    assert all[1..] == Bufs(t);
    if next != null {
      assert t[0].next == (if 1 < |t| then t[1] else null);
      assert Bufs(t) == [next.buf] + Bufs(t[1..]);
      assert Chain(next.next, t[1..]) by {
        forall i | 0 <= i < |t[1..]|
          ensures t[1..][i].next == (if i + 1 < |t[1..]| then t[1..][i + 1] else null)
        {
          assert t[i + 1].next == (if i + 2 < |t| then t[i + 2] else null);
        }
      }
    } else {
      assert all == [buf] && CellsOf(all[1..]) == [];
    }
  }

  lemma Joined<T>(d: seq<T>, p: seq<T>, n: nat, sz: nat)
    requires n + sz <= |p|
    ensures d + p[..n] + p[n..][..sz] == d + p[..n + sz] && p[n..][sz..] == p[n + sz..]
  {
  }

  // b is what is left of a when something was taken from the front.
  ghost predicate EndOf<T>(b: seq<T>, a: seq<T>) {
    |b| <= |a| && b == a[|a| - |b|..]
  }

  lemma EndsAgain<T>(c: seq<T>, b: seq<T>, a: seq<T>)
    requires EndOf(c, b) && EndOf(b, a)
    ensures EndOf(c, a)
  {
  }

  lemma EndOfItself<T>(a: seq<T>)
    ensures EndOf(a, a)
  {
  }

  // The nodes after the one at which n bytes give out, counted from a buffer of len bytes on.
  ghost function After(len: nat, t: seq<IoList>, n: nat): (a: seq<IoList>)
    reads t`buf
    ensures forall e :: e in a ==> e in t
    decreases |t|
  {
    if n < len || t == [] then t else After(t[0].buf.len, t[1..], n - len)
  }

  lemma AfterStep(len: nat, t: seq<IoList>, n: nat)
    ensures n < len ==> After(len, t, n) == t
    ensures len <= n && t != [] ==> After(len, t, n) == After(t[0].buf.len, t[1..], n - len)
  {
  }

  // One turn of fd_recv's copying loops. More says that the buffer was filled and there is a next.
  method CopyOne(rx: RxBuf, first: IoVec, after: IoList?, ghost t0: seq<IoList>,
    ghost c: seq<Cell>, ghost m: seq<seq<byte>>, ghost d: seq<byte>)
    returns (more: bool, done: bool, buf: IoVec, next: IoList?, ghost t: seq<IoList>, ghost sz: nat)
    requires rx.Valid() && rx.data !in ArraysOf(c)
    requires Filled(c, m, d) && |d| <= |c| && Rest(first, after, t0, c[|d|..])
    modifies rx, ArraysOf(c)
    ensures rx.Valid() && sz <= |old(rx.Pending())| && rx.Pending() == old(rx.Pending())[sz..]
    ensures |d| + sz <= |c| && Filled(c, m, d + old(rx.Pending())[..sz])
    ensures done ==> !more && |d| + sz == |c|
    ensures !done ==> Rest(buf, next, t, c[|d| + sz..])
    ensures !done && !more ==> sz == |old(rx.Pending())| && |d| + sz < |c|
    ensures EndOf(t, t0) && (more ==> |t| < |t0|)
    ensures !done ==> old(After(first.len, t0, |rx.Pending()|)) ==
                      if more then After(buf.len, t, |rx.Pending()|) else t
  {
    hide Filled, Rest, After;
    RestHead(first, after, t0, c[|d|..]);
    RestNext(first, after, t0, c[|d|..]);
    AfterStep(first.len, t0, |rx.Pending()|);
    assert forall k :: 0 <= k < |t0| ==> (t0[k] as object) != rx;
    assert forall k :: 0 <= k < |t0| ==> forall a :: a in ArraysOf(c) ==> (t0[k] as object) != a;
    ghost var rest := c[|d|..];
    var n := Copy(rx, first, c, m, d);
    sz := n;
    assert rest[sz..] == c[|d| + sz..];
    if n < first.len {
      RestCut(first, after, t0, rest, sz);
      return false, false, Cut(first, n), after, t0, sz;
    }
    if after == null {
      return false, true, first, null, t0, sz;
    }
    return true, false, after.buf, after.next, t0[1..], sz;
  }

  // n of the bytes p that were read ahead have gone to where d left off.
  ghost predicate Draining(rx: RxBuf, p: seq<byte>, n: nat, c: seq<Cell>, m: seq<seq<byte>>, d: seq<byte>)
    reads rx, rx.data, ArraysOf(c)
  {
    && rx.Valid() && rx.data !in ArraysOf(c) && n <= |p| && rx.Pending() == p[n..]
    && |d| + n <= |c| && Filled(c, m, d + p[..n])
  }

  lemma DrainingStart(rx: RxBuf, c: seq<Cell>, m: seq<seq<byte>>, d: seq<byte>)
    requires rx.Valid() && rx.data !in ArraysOf(c) && Filled(c, m, d) && |d| <= |c|
    ensures Draining(rx, rx.Pending(), 0, c, m, d) && |d| + 0 == |d|
  {
    hide Filled;
    var p := rx.Pending();
    assert d + p[..0] == d && p[0..] == p;
  }

  lemma DrainingMeans(rx: RxBuf, p: seq<byte>, n: nat, c: seq<Cell>, m: seq<seq<byte>>, d: seq<byte>)
    requires Draining(rx, p, n, c, m, d)
    ensures rx.Valid() && rx.data !in ArraysOf(c) && n <= |p| && rx.Pending() == p[n..]
    ensures |d| + n <= |c| && Filled(c, m, d + p[..n]) && |d + p[..n]| == |d| + n
  {
  }

  lemma DrainingNow(rx: RxBuf, p: seq<byte>, n: nat, sz: nat, c: seq<Cell>, m: seq<seq<byte>>, d: seq<byte>)
    requires rx.Valid() && rx.data !in ArraysOf(c) && n + sz <= |p| && rx.Pending() == p[n..][sz..]
    requires |d| + n + sz <= |c| && Filled(c, m, d + p[..n] + p[n..][..sz])
    ensures Draining(rx, p, n + sz, c, m, d)
  {
    hide Filled;
    Joined(d, p, n, sz);
  }

  // CopyOne, for a buffer that was read ahead as p and of which n0 bytes are gone.
  method CopyNext(rx: RxBuf, first: IoVec, after: IoList?, ghost t0: seq<IoList>,
    ghost c: seq<Cell>, ghost m: seq<seq<byte>>, ghost d: seq<byte>, ghost p: seq<byte>, ghost n0: nat)
    returns (more: bool, done: bool, buf: IoVec, next: IoList?, ghost t: seq<IoList>, ghost n: nat)
    requires Draining(rx, p, n0, c, m, d) && |d| + n0 <= |c| && Rest(first, after, t0, c[|d| + n0..])
    modifies rx, ArraysOf(c)
    ensures Draining(rx, p, n, c, m, d) && |d| + n <= |c|
    ensures done ==> !more && |d| + n == |c|
    ensures !done ==> Rest(buf, next, t, c[|d| + n..])
    ensures !done && !more ==> n == |p| && |d| + n < |c|
    ensures EndOf(t, t0) && (more ==> |t| < |t0|)
    ensures n0 <= |p| && n <= |p|
    ensures !done ==> old(After(first.len, t0, |p| - n0)) == if more then After(buf.len, t, |p| - n) else t
  {
    hide After, Draining, Filled, Rest, CellsOf, Data, Bufs, EndOf;
    DrainingMeans(rx, p, n0, c, m, d);
    ghost var sz;
    more, done, buf, next, t, sz := CopyOne(rx, first, after, t0, c, m, d + p[..n0]);
    n := n0 + sz;
    DrainingNow(rx, p, n0, sz, c, m, d);
  }

  // The copying loops of fd_recv: from the read-ahead buffer into one buffer after the other.
  method Drain(rx: RxBuf, first: IoVec, after: IoList?, ghost t0: seq<IoList>,
    ghost c: seq<Cell>, ghost m: seq<seq<byte>>, ghost d: seq<byte>)
    returns (done: bool, buf: IoVec, next: IoList?, ghost t: seq<IoList>, ghost n: nat)
    requires rx.Valid() && rx.data !in ArraysOf(c)
    requires Filled(c, m, d) && |d| <= |c| && Rest(first, after, t0, c[|d|..])
    modifies rx, ArraysOf(c)
    ensures Draining(rx, old(rx.Pending()), n, c, m, d) && |d| + n <= |c|
    ensures done ==> |d| + n == |c|
    ensures !done ==> n == |old(rx.Pending())| && |d| + n < |c| && Rest(buf, next, t, c[|d| + n..])
    ensures EndOf(t, t0)
    ensures !done ==> t == old(After(first.len, t0, |rx.Pending()|))
  {
    hide After, Draining, Filled, Rest, CellsOf, Data, Bufs, EndOf;
    ghost var p := rx.Pending();
    ghost var behind := After(first.len, t0, |p|);
    buf, next, t, n := first, after, t0, 0;
    DrainingStart(rx, c, m, d);
    EndOfItself(t0);
    while true
      invariant Draining(rx, p, n, c, m, d) && |d| + n <= |c| && Rest(buf, next, t, c[|d| + n..])
      invariant EndOf(t, t0) && n <= |p| && After(buf.len, t, |p| - n) == behind
      decreases |t|
    {
      var more;
      ghost var before := t;
      more, done, buf, next, t, n := CopyNext(rx, buf, next, t, c, m, d, p, n);
      EndsAgain(t, before, t0);
      if !more {
        return;
      }
    }
  }

  // Reading ahead as much as the socket has: recv into an empty read-ahead buffer.
  method Refill(sock: Socket, rx: RxBuf) returns (failed: bool)
    requires rx.Valid() && rx.Pending() == []
    modifies sock`unread, sock`answers, rx, rx.data
    ensures rx.Valid() && rx.Pending() + sock.unread == old(sock.unread)
    ensures |rx.Pending()| == Count(Given(old(sock.answers), RXBUF_SIZE, |old(sock.unread)|))
    ensures sock.answers == Next(old(sock.answers))
    ensures failed == (rx.Pending() == [] && !Blocks(old(sock.answers)))
  {
    var sz, again := sock.Recv(rx.data, RXBUF_SIZE);
    if sz == 0 || (sz < 0 && !again) {
      return true;
    }
    rx.len, rx.pos := Count(sz), 0;
    failed := false;
    assert sz > 0 ==> rx.Pending() == old(sock.unread)[..sz];
  }

  // How much of the list is still missing.
  method Missing(first: IoVec, after: IoList?, ghost t0: seq<IoList>, ghost cells: seq<Cell>) returns (miss: nat)
    requires Rest(first, after, t0, cells)
    ensures miss == |cells|
  {
    var buf, next := first, after;
    ghost var t, left := t0, cells;
    miss := 0;
    while true
      invariant Rest(buf, next, t, left) && miss + |left| == |cells|
      decreases |t|
    {
      RestHead(buf, next, t, left);
      RestNext(buf, next, t, left);
      miss := miss + buf.len;
      left := left[buf.len..];
      if next == null {
        return;
      }
      buf, next, t := next.buf, next.next, t[1..];
    }
  }

  // One turn of fd_recv's second loop: read ahead, and copy from there.
  method ReadOn(sock: Socket, rx: RxBuf, first: IoVec, after: IoList?, ghost t0: seq<IoList>,
    ghost c: seq<Cell>, ghost m: seq<seq<byte>>, ghost d: seq<byte>)
    returns (failed: bool, done: bool, buf: IoVec, next: IoList?, ghost t: seq<IoList>, ghost n: nat)
    requires rx.Valid() && rx.Pending() == [] && rx.data !in ArraysOf(c)
    requires Filled(c, m, d) && |d| < |c| && Rest(first, after, t0, c[|d|..])
    modifies sock`unread, sock`answers, rx, rx.data, ArraysOf(c)
    ensures rx.Valid() && n <= |old(sock.unread)| && |d| + n <= |c|
    ensures rx.Pending() + sock.unread == old(sock.unread)[n..]
    ensures Filled(c, m, d + old(sock.unread)[..n])
    ensures !done ==> rx.Pending() == [] && Rest(buf, next, t, c[|d| + n..])
    ensures sock.answers == Next(old(sock.answers))
    ensures var sz := Count(Given(old(sock.answers), RXBUF_SIZE, |old(sock.unread)|));
            && n == Min(sz, |c| - |d|) && (done <==> sz >= |c| - |d|)
            && failed == (sz == 0 && !Blocks(old(sock.answers)))
  {
    hide Filled, Rest, CellsOf, Data, Draining, EndOf, Bufs, Given, Blocks;
    ghost var u := sock.unread;
    failed := RefillFor(sock, rx, first, after, t0, c, m, d);
    done, buf, next, t, n := false, first, after, t0, 0;
    if failed {
      assert u[..0] == [] && d + [] == d && u[0..] == u;
      return;
    }
    ghost var p := rx.Pending();
    done, buf, next, t, n := Drain(rx, buf, next, t, c, m, d);
    DrainingMeans(rx, p, n, c, m, d);
    Halves(p, sock.unread, n);
  }

  // Reading ahead changes nothing of what is filled and what is left to fill.
  method RefillFor(sock: Socket, rx: RxBuf, ghost first: IoVec, ghost after: IoList?, ghost t0: seq<IoList>,
    ghost c: seq<Cell>, ghost m: seq<seq<byte>>, ghost d: seq<byte>)
    returns (failed: bool)
    requires rx.Valid() && rx.Pending() == [] && rx.data !in ArraysOf(c)
    requires Filled(c, m, d) && |d| <= |c| && Rest(first, after, t0, c[|d|..])
    modifies sock`unread, sock`answers, rx, rx.data
    ensures rx.Valid() && rx.Pending() + sock.unread == old(sock.unread)
    ensures |rx.Pending()| == Count(Given(old(sock.answers), RXBUF_SIZE, |old(sock.unread)|))
    ensures sock.answers == Next(old(sock.answers))
    ensures failed == (rx.Pending() == [] && !Blocks(old(sock.answers)))
    ensures Filled(c, m, d) && Rest(first, after, t0, c[|d|..])
  {
    hide Filled, Rest, CellsOf, Data, Bufs, Given, Blocks;
    assert forall a :: a in ArraysOf(c) ==> (a as object) != rx && (a as object) != sock;
    assert forall k :: 0 <= k < |t0| ==> (t0[k] as object) != rx && (t0[k] as object) != sock;
    assert forall k :: 0 <= k < |t0| ==> (t0[k] as object) != rx.data;
    failed := Refill(sock, rx);
  }

  lemma Halves<T>(p: seq<T>, v: seq<T>, n: nat)
    requires n <= |p|
    ensures (p + v)[..n] == p[..n] && (p + v)[n..] == p[n..] + v
  {
  }

  // fd_recv's second loop.
  method RecvThrough(sock: Socket, rx: RxBuf, first: IoVec, after: IoList?, ghost t0: seq<IoList>,
    ghost c: seq<Cell>, ghost m: seq<seq<byte>>, ghost d: seq<byte>)
    returns (ok: bool, ghost n: nat)
    requires rx.Valid() && rx.Pending() == [] && rx.data !in ArraysOf(c)
    requires Filled(c, m, d) && |d| < |c| && Rest(first, after, t0, c[|d|..]) && |c| - |d| <= RXBUF_SIZE
    modifies sock`unread, sock`answers, sock`waits, rx, rx.data, ArraysOf(c)
    ensures rx.Valid() && n <= |old(sock.unread)|
    ensures rx.Pending() + sock.unread == old(sock.unread)[n..]
    ensures Filled(c, m, d + old(sock.unread)[..n])
    ensures ok ==> |d| + n == |c|
    ensures ok <==> Arrives(old(sock.answers), old(sock.waits), |old(sock.unread)|, |c| - |d|)
    ensures ok ==> (sock.answers, sock.waits) == Unused(old(sock.answers), old(sock.waits), |c| - |d|, true)
  {
    hide Filled, Rest, CellsOf, Data, Bufs, Arrives, Unused, Given, Blocks;
    ghost var u := sock.unread;
    ghost var whole := Arrives(sock.answers, sock.waits, |u|, |c| - |d|);
    ghost var unused := Unused(sock.answers, sock.waits, |c| - |d|, true);
    var buf, next := first, after;
    ghost var t := t0;
    n := 0;
    assert u[0..] == u && d + u[..0] == d;
    while true
      invariant rx.Valid() && rx.Pending() == [] && n <= |u| && |d| + n < |c|
      invariant sock.unread == u[n..] && Filled(c, m, d + u[..n])
      invariant Rest(buf, next, t, c[|d| + n..])
      invariant whole == Arrives(sock.answers, sock.waits, |u| - n, |c| - |d| - n)
      invariant whole ==> unused == Unused(sock.answers, sock.waits, |c| - |d| - n, true)
      decreases |sock.waits|
    {
      ghost var ans, miss := sock.answers, |c| - |d| - n;
      var failed, done;
      ghost var k;
      failed, done, buf, next, t, k := ReadOn(sock, rx, buf, next, t, c, m, d + u[..n]);
      ArrivesOn(ans, sock.waits, |u| - n, miss, RXBUF_SIZE);
      assert (failed ==> !whole) && (done ==> whole);
      ghost var later := sock.waits != [] && sock.waits[0] &&
                         Arrives(sock.answers, sock.waits[1..], |u| - n - k, miss - k);
      assert !failed && !done ==> whole == later;
      Joined(d, u, n, k);
      n := n + k;
      if failed || done {
        return done, n;
      }
      assert forall a :: a in ArraysOf(c) ==> (a as object) != sock;
      assert forall k :: 0 <= k < |t| ==> (t[k] as object) != sock;
      assert Filled(c, m, d + u[..n]) && Rest(buf, next, t, c[|d| + n..]);
      var ready := sock.Wait();
      assert Filled(c, m, d + u[..n]) && Rest(buf, next, t, c[|d| + n..]);
      if !ready {
        return false, n;
      }
    }
  }

  // The buffers of a list can be received into: they fit and do not overlap.
  ghost predicate Fillable(s: seq<IoList>)
    reads s`buf
  {
    AllFit(Bufs(s)) && Distinct(ListCells(s))
  }

  lemma RestOfList(s: seq<IoList>, first: IoList, last: IoList)
    requires ListOf(s, first, last) && Fillable(s)
    ensures Rest(first.buf, first.next, s[1..], ListCells(s))
    ensures Filled(ListCells(s), Memory(ListCells(s)), [])
  {
    FitReal(Bufs(s));
    assert Bufs(s) == [first.buf] + Bufs(s[1..]);
    assert Chain(first.next, s[1..]) by {
      forall i | 0 <= i < |s|
        ensures s[i].next == (if i + 1 < |s| then s[i + 1] else null)
      {
      }
    }
  }

  // The list that starts with the rest of the current buffer: its cells, and its links.
  lemma JointCells(curr: IoList, t: seq<IoList>, cells: seq<Cell>)
    requires Rest(curr.buf, curr.next, t, cells)
    ensures AllFit(Bufs([curr] + t)) && ListCells([curr] + t) == cells
  {
    assert Bufs([curr] + t) == [curr.buf] + Bufs(t);
  }

  lemma JointList(curr: IoList, t: seq<IoList>, last: IoList)
    requires Chain(curr.next, t)
    requires if t == [] then last == curr else t[|t| - 1] == last
    ensures ListOf([curr] + t, curr, last)
    ensures Closed(set n | n in [curr] + t)
  {
    var s := [curr] + t;
    forall i | 0 <= i < |s|
      ensures s[i].next == (if i + 1 < |s| then s[i + 1] else null)
    {
      if i > 0 {
        assert t[i - 1].next == (if i < |t| then t[i] else null);
      }
    }
  }

  // The nodes after the current buffer pass iol_check, and the last of them is not empty.
  ghost predicate DirectOk(t: seq<IoList>)
    reads t`rsvd, t`buf
  {
    t != [] ==> Unmarked(t) && Firm(Bufs(t))
  }

  lemma JointOk(curr: IoList, t: seq<IoList>, cells: seq<Cell>)
    requires Rest(curr.buf, curr.next, t, cells) && cells != [] && !curr.rsvd
    ensures Unmarked([curr] + t) && Firm(Bufs([curr] + t)) <==> DirectOk(t)
  {
    var s := [curr] + t;
    assert Bufs(s) == [curr.buf] + Bufs(t);
    if t == [] {
      assert CellsOf([curr.buf]) == CellsIn(curr.buf) + CellsOf([]);
    } else {
      assert Unmarked(s) <==> Unmarked(t) by {
        assert forall i :: 0 <= i < |t| ==> s[i + 1] == t[i];
      }
    }
  }

  // fd_recv for more than the read-ahead buffer holds: straight into the rest of the list.
  method RecvLarge(sock: Socket, buf: IoVec, next: IoList?, last: IoList, ghost t: seq<IoList>,
    ghost c: seq<Cell>, ghost m: seq<seq<byte>>, ghost d: seq<byte>)
    returns (ok: bool, ghost n: nat)
    requires Filled(c, m, d) && |d| < |c| && Rest(buf, next, t, c[|d|..])
    requires t != [] ==> t[|t| - 1] == last
    modifies t`rsvd, sock`unread, sock`answers, sock`waits, ArraysOf(c)
    ensures n <= |old(sock.unread)| && sock.unread == old(sock.unread)[n..]
    ensures Filled(c, m, d + old(sock.unread)[..n])
    ensures ok ==> |d| + n == |c|
    ensures ok <==> old(DirectOk(t)) && Arrives(old(sock.answers), old(sock.waits), |old(sock.unread)|, |c| - |d|)
    ensures ok ==> (sock.answers, sock.waits) == Unused(old(sock.answers), old(sock.waits), |c| - |d|, true)
  {
    hide Filled, CellsOf, AllFit, Arrives, Unused, Unmarked, Firm, DirectOk;
    var curr := new IoList(buf, next);
    ghost var s := [curr] + t;
    var end := if next != null then last else curr;
    JointCells(curr, t, c[|d|..]);
    JointList(curr, t, end);
    JointOk(curr, t, c[|d|..]);
    assert DirectOk(t) == old(DirectOk(t));
    ok, n := RecvDirect(sock, curr, end, (set x | x in s), s, c, m, d);
  }

  // fd_recv once what was read ahead is used up: d is filled in, the rest is still missing.
  method RecvRest(sock: Socket, rx: RxBuf, buf: IoVec, next: IoList?, last: IoList, ghost t: seq<IoList>,
    ghost c: seq<Cell>, ghost m: seq<seq<byte>>, ghost d: seq<byte>)
    returns (ok: bool, ghost n: nat)
    requires rx.Valid() && rx.Pending() == [] && rx.data !in ArraysOf(c)
    requires Filled(c, m, d) && |d| < |c| && Rest(buf, next, t, c[|d|..])
    requires t != [] ==> t[|t| - 1] == last
    modifies t`rsvd, sock`unread, sock`answers, sock`waits, rx, rx.data, ArraysOf(c)
    ensures rx.Valid() && n <= |old(sock.unread)|
    ensures rx.Pending() + sock.unread == old(sock.unread)[n..]
    ensures Filled(c, m, d + old(sock.unread)[..n])
    ensures ok ==> |d| + n == |c|
    ensures ok <==> Arrives(old(sock.answers), old(sock.waits), |old(sock.unread)|, |c| - |d|) &&
                    (|c| - |d| > 2000 ==> old(DirectOk(t)))
    ensures ok ==> (sock.answers, sock.waits) == Unused(old(sock.answers), old(sock.waits), |c| - |d|, true)
  {
    hide Filled, Rest, Arrives, Unused, DirectOk;
    var miss := Missing(buf, next, t, c[|d|..]);
    if miss > RXBUF_SIZE {
      assert (rx as object) != sock && (rx.data as object) != sock;
      assert forall a :: a in ArraysOf(c) ==> (a as object) != rx;
      assert forall k :: 0 <= k < |t| ==> (t[k] as object) != rx && (t[k] as object) != rx.data;
      ok, n := RecvLarge(sock, buf, next, last, t, c, m, d);
      assert rx.Pending() == [];
    } else {
      ok, n := RecvThrough(sock, rx, buf, next, t, c, m, d);
    }
  }

  lemma NothingUsed(answers: seq<Answer>, waits: seq<bool>)
    ensures Unused(answers, waits, 0, true) == (answers, waits)
  {
  }

  /** What a receive of `want` bytes takes when `held` of them were read ahead: the answers bring the
      rest, and if that is more than a read-ahead buffer, the list is fit for the direct path. */
  predicate Obtains(answers: seq<Answer>, waits: seq<bool>, avail: nat, held: nat, want: nat, direct: bool) {
    held >= want || (Arrives(answers, waits, avail, want - held) && (want - held > 2000 ==> direct))
  }

  // fd_recv's body, over the cells c of the list with memory m.
  method RecvInto(sock: Socket, rx: RxBuf, buf0: IoVec, next0: IoList?, last: IoList, ghost t0: seq<IoList>,
    ghost c: seq<Cell>, ghost m: seq<seq<byte>>)
    returns (ok: bool, ghost d: seq<byte>)
    requires rx.Valid() && rx.data !in ArraysOf(c)
    requires Filled(c, m, []) && Rest(buf0, next0, t0, c)
    requires t0 != [] ==> t0[|t0| - 1] == last
    modifies t0`rsvd, sock`unread, sock`answers, sock`waits, rx, rx.data, ArraysOf(c)
    ensures rx.Valid() && d + (rx.Pending() + sock.unread) == old(rx.Pending() + sock.unread)
    ensures Filled(c, m, d)
    ensures ok ==> |d| == |c|
    ensures ok <==> old(Obtains(sock.answers, sock.waits, |sock.unread|, |rx.Pending()|, |c|,
                      DirectOk(After(buf0.len, t0, |rx.Pending()|))))
    ensures ok ==> (sock.answers, sock.waits) ==
                   old(Unused(sock.answers, sock.waits, |c| - Min(|rx.Pending()|, |c|), true))
  {
    hide Filled, Rest, CellsOf, Data, Arrives, Unused, DirectOk, After;
    NothingUsed(sock.answers, sock.waits);
    Whole(c);
    ghost var p, u := rx.Pending(), sock.unread;
    var buf, next;
    ghost var t, k;
    ok, buf, next, t, k := Drain(rx, buf0, next0, t0, c, m, []);
    DrainingMeans(rx, p, k, c, m, []);
    d := p[..k];
    Whole(p[..k]);
    if ok {
      assert p == d + p[k..];
    } else {
      assert d == p;
      assert t != [] ==> t[|t| - 1] == t0[|t0| - 1];
      assert DirectOk(t) == old(DirectOk(After(buf0.len, t0, |rx.Pending()|)));
      ghost var n;
      ok, n := RecvRest(sock, rx, buf, next, last, t, c, m, d);
      d := d + u[..n];
      Stitch(p, u, n, rx.Pending(), sock.unread);
    }
  }

  lemma Whole<T>(s: seq<T>)
    ensures s[0..] == s && [] + s == s
  {
  }

  lemma Stitch<T>(p: seq<T>, u: seq<T>, n: nat, q: seq<T>, v: seq<T>)
    requires n <= |u| && q + v == u[n..]
    ensures p + u[..n] + (q + v) == p + u
  {
  }

  lemma TailWithin<T>(t: seq<T>, s: seq<T>)
    requires s != [] && forall e :: e in t ==> e in s[1..]
    ensures forall i :: 0 <= i < |t| ==> t[i] in s
  {
    forall i | 0 <= i < |t|
      ensures t[i] in s
    {
      assert t[i] in t;
      var k :| 0 <= k < |s[1..]| && s[1..][k] == t[i];
      assert s[k + 1] == t[i];
    }
  }

  // The kernel's answers and the list together let fd_recv succeed.
  ghost predicate Gets(sock: Socket, rx: RxBuf, s: seq<IoList>)
    requires rx.Valid() && s != []
    reads sock`answers, sock`waits, sock`unread, rx, rx.data, s`buf, s`rsvd
  {
    var held := |rx.Pending()|;
    var behind := After(s[0].buf.len, s[1..], held);
    TailWithin(behind, s);
    Obtains(sock.answers, sock.waits, |sock.unread|, held, |ListCells(s)|, DirectOk(behind))
  }

  /** fd_recv. d are the bytes placed: they fill the front of the list s, nothing else in its
      buffers changes, and d, what was read ahead and what is unread are the stream as before. */
  method Recv(sock: Socket, rx: RxBuf, first: IoList, last: IoList, ghost s: seq<IoList>)
    returns (ok: bool, ghost d: seq<byte>)
    requires rx.Valid() && ListOf(s, first, last) && Fillable(s) && rx.data !in ArraysOf(ListCells(s))
    modifies s`rsvd, sock`unread, sock`answers, sock`waits, rx, rx.data, ArraysOf(ListCells(s))
    ensures rx.Valid() && d + (rx.Pending() + sock.unread) == old(rx.Pending() + sock.unread)
    ensures Filled(ListCells(s), old(Memory(ListCells(s))), d)
    ensures ok ==> |d| == |ListCells(s)|
    ensures s != [] && (ok <==> old(Gets(sock, rx, s)))
    ensures ok ==> (sock.answers, sock.waits) ==
                   old(Unused(sock.answers, sock.waits, |ListCells(s)| - Min(|rx.Pending()|, |ListCells(s)|), true))
  {
    hide Filled, Rest, Fillable, ListOf, CellsOf, Obtains, Unused, DirectOk, After;
    ghost var c := ListCells(s);
    ghost var m := Memory(c);
    RestOfList(s, first, last);
    LastIs(s, first, last);
    ok, d := RecvInto(sock, rx, first.buf, first.next, last, s[1..], c, m);
    assert forall k :: 0 <= k < |s| ==> (s[k] as object) != rx && (s[k] as object) != rx.data;
    assert ListCells(s) == c;
  }

  lemma Regroup<T>(p: seq<T>, d: seq<T>, r: seq<T>)
    ensures p + d + r == p + (d + r)
  {
  }

  /** A socket with its read-ahead buffer over any sequence of fd_recv calls, whether they succeed
      or fail: what was placed so far, what was read ahead and what is unread is the stream. */
  class Reader {
    const sock: Socket
    const rx: RxBuf
    ghost const stream: seq<byte>
    ghost var placed: seq<byte>

    ghost predicate Valid()
      reads this, sock, rx, rx.data
    {
      rx.Valid() && placed + (rx.Pending() + sock.unread) == stream
    }

    constructor (sock: Socket)
      ensures Valid() && placed == [] && stream == sock.unread && this.sock == sock
      ensures fresh(rx) && fresh(rx.data)
    {
      this.sock, stream, placed := sock, sock.unread, [];
      var buf := new RxBuf();
      rx := buf;
    }

    method Receive(first: IoList, last: IoList, ghost s: seq<IoList>) returns (ok: bool, ghost d: seq<byte>)
      requires Valid() && ListOf(s, first, last) && Fillable(s) && rx.data !in ArraysOf(ListCells(s))
      modifies this, s`rsvd, sock`unread, sock`answers, sock`waits, rx, rx.data, ArraysOf(ListCells(s))
      ensures Valid() && placed == old(placed) + d
      ensures Filled(ListCells(s), old(Memory(ListCells(s))), d)
      ensures ok ==> |d| == |ListCells(s)|
      ensures s != [] && (ok <==> old(Gets(sock, rx, s)))
      ensures ok ==> (sock.answers, sock.waits) ==
                     old(Unused(sock.answers, sock.waits, |ListCells(s)| - Min(|rx.Pending()|, |ListCells(s)|), true))
    {
      hide Filled, Fillable, ListOf, CellsOf, Memory, Gets, Unused;
      assert forall k :: 0 <= k < |s| ==> (s[k] as object) != this;
      assert forall a :: a in ArraysOf(ListCells(s)) ==> (a as object) != this;
      ghost var c := ListCells(s);
      ghost var m := Memory(c);
      ghost var p := placed;
      ok, d := Recv(sock, rx, first, last, s);
      Regroup(p, d, rx.Pending() + sock.unread);
      assert ListCells(s) == c && Filled(c, m, d);
      placed := p + d;
      assert ListCells(s) == c && Filled(c, m, d);
    }
  }
}
