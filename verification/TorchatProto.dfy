/** src/torchatproto.c: messages with a header of four decimal digits. */
module TorchatProto {
  import opened IoLists
  import opened Bits
  import opened DataStructs
  import opened Fd

  // torchatproto_msendl refuses to send more than this at a time.
  const WIRE_MAX: nat := 8192
  // What is left for a payload when the header is taken off.
  const PAYLOAD_MAX: nat := WIRE_MAX - 4

  predicate IsDigit(b: byte) {
    48 <= b <= 57
  }

  predicate AllDigits(h: seq<byte>) {
    forall i :: 0 <= i < |h| ==> IsDigit(h[i])
  }

  // The decimal number that the digits spell, as strtol reads it.
  function Value(h: seq<byte>): nat
    requires AllDigits(h)
  {
    if h == [] then 0 else 10 * Value(h[..|h| - 1]) + (h[|h| - 1] - 48)
  }

  function Pow10(k: nat): (p: nat)
    ensures p > 0
  {
    if k == 0 then 1 else 10 * Pow10(k - 1)
  }

  lemma {:induction false} ValueBound(h: seq<byte>)
    requires AllDigits(h)
    ensures Value(h) < Pow10(|h|)
  {
    if h != [] {
      ValueBound(h[..|h| - 1]);
    }
  }

  // The last k decimal digits of n.
  function Digits(n: nat, k: nat): (h: seq<byte>)
    ensures |h| == k && AllDigits(h)
  {
    if k == 0 then [] else Digits(n / 10, k - 1) + [48 + n % 10]
  }

  lemma {:induction false} DigitsSpell(n: nat, k: nat)
    requires n < Pow10(k)
    ensures Value(Digits(n, k)) == n
  {
    if k > 0 {
      DigitsSpell(n / 10, k - 1);
      assert Digits(n, k)[..k - 1] == Digits(n / 10, k - 1);
    }
  }

  // The header of a message of n bytes, and the whole message.
  function Head(n: nat): (h: seq<byte>) {
    Digits(n, 4)
  }

  function Frame(p: seq<byte>): seq<byte> {
    Head(|p|) + p
  }

  function Wire(ps: seq<seq<byte>>): seq<byte> {
    if ps == [] then [] else Frame(ps[0]) + Wire(ps[1..])
  }

  // Four digits are enough for a length exactly up to 9999.
  lemma HeadFaithful(n: nat)
    ensures |Head(n)| == 4 && AllDigits(Head(n))
    ensures Value(Head(n)) == n <==> n <= 9999
  {
    assert Pow10(4) == 10 * Pow10(3) == 10000;
    ValueBound(Head(n));
    if n < 10000 {
      DigitsSpell(n, 4);
    }
  }

  // The header and the payload, spelled out.
  lemma FrameSpelled(p: seq<byte>)
    ensures Head(|p|) == ['0' as int + |p| / 1000 % 10, '0' as int + |p| / 100 % 10, '0' as int + |p| / 10 % 10,
                          '0' as int + |p| % 10]
    ensures Frame(p) == Head(|p|) + p
  {
    hide Digits;
    var n := |p|;
    DigitsStep(n, 4);
    DigitsStep(n / 10, 3);
    DigitsStep(n / 10 / 10, 2);
    DigitsStep(n / 10 / 10 / 10, 1);
    DigitsStep(n / 10 / 10 / 10 / 10, 0);
    assert n / 10 / 10 == n / 100 && n / 10 / 10 / 10 == n / 1000;
  }

  lemma ValueSpelled(h: seq<byte>)
    requires |h| == 4 && AllDigits(h)
    ensures Value(h) ==
            (h[0] - '0' as int) * 1000 + (h[1] - '0' as int) * 100 + (h[2] - '0' as int) * 10 + (h[3] - '0' as int)
  {
    assert h[..3][..2] == h[..2] && h[..2][..1] == h[..1] && h[..1][..0] == [];
    assert Value(h[..1]) == h[0] - 48;
    assert Value(h[..2]) == 10 * Value(h[..1]) + (h[1] - 48);
    assert Value(h[..3]) == 10 * Value(h[..2]) + (h[2] - 48);
  }

  lemma DigitsStep(n: nat, k: nat)
    ensures Digits(n, 0) == []
    ensures k > 0 ==> Digits(n, k) == Digits(n / 10, k - 1) + [48 + n % 10]
  {
  }

  // generate_dimension_head
  method GenerateHead(buf: array<byte>, n: nat)
    requires buf.Length >= 4
    modifies buf
    ensures buf[..4] == Head(n) && buf[4..] == old(buf[4..])
    ensures buf[0] == '0' as int + n / 1000 % 10 && buf[1] == '0' as int + n / 100 % 10
    ensures buf[2] == '0' as int + n / 10 % 10 && buf[3] == '0' as int + n % 10
  {
    hide Digits;
    var len := n;
    var i := 0;
    while i < 4
      invariant 0 <= i <= 4 && buf[4..] == old(buf[4..])
      invariant Head(n) == Digits(len, 4 - i) + buf[4 - i..4]
    {
      DigitsStep(len, 4 - i);
      ghost var tail := buf[4 - i..4];
      buf[3 - i] := len % 10 + 48;
      assert buf[3 - i..4] == [buf[3 - i]] + tail;
      len := len / 10;
      i := i + 1;
    }
    DigitsStep(len, 0);
    assert buf[0..4] == buf[..4];
    FrameSpelled(seq(n, _ => 0));
    assert forall k :: 0 <= k < 4 ==> buf[k] == buf[..4][k];
  }

  // -- sending

  // What msendl takes: an unmarked list up to last that is not too long.
  ghost predicate Proper(s: seq<IoList>, last: IoList?)
    reads s`buf, s`rsvd
  {
    TotalLen(s) <= 8192 && s != [] && last == s[|s| - 1] && Unmarked(s)
  }

  // torchatproto_msendl. s are the nodes from first on, up to the one without a successor.
  method MSendL(sock: Socket, first: IoList?, last: IoList?, ghost s: seq<IoList>) returns (ok: bool, ghost k: nat)
    requires Chain(first, s) && AllFit(Bufs(s))
    modifies s`rsvd, sock`wire, sock`takes, sock`waits
    ensures Real(ListCells(s)) && k <= |ListCells(s)|
    ensures sock.wire == old(sock.wire) + Data(ListCells(s))[..k]
    ensures if old(Proper(s, last)) then ok ==> k == |ListCells(s)| else k == 0
    ensures ok <==> old(Proper(s, last)) &&
                    Moves(old(sock.takes), old(sock.waits), |ListCells(s)|, Firm(Bufs(s)))
    ensures ok ==>
              (sock.takes, sock.waits) == Unused(old(sock.takes), old(sock.waits), |ListCells(s)|, Firm(Bufs(s)))
  {
    hide Real, Data, AllFit, Moves, Unused, Firm, Unmarked, CellsOf;
    FitReal(Bufs(s));
    var sz := 0;
    var it := first;
    ghost var i := 0;
    while it != null
      invariant 0 <= i <= |s| && it == (if i < |s| then s[i] else null)
      invariant sz == TotalLen(s[..i])
      decreases |s| - i
    {
      assert s[..i + 1][..i] == s[..i];
      sz := sz + it.buf.len;
      it := it.next;
      i := i + 1;
    }
    assert s[..i] == s;
    if sz > WIRE_MAX {
      return false, 0;
    }
    ok, k := SendChain(sock, first, last, s);
  }

  // fd_send for the nodes from first on.
  method SendChain(sock: Socket, first: IoList?, last: IoList?, ghost s: seq<IoList>) returns (ok: bool, ghost k: nat)
    requires Chain(first, s) && AllFit(Bufs(s)) && Real(ListCells(s))
    modifies s`rsvd, sock`wire, sock`takes, sock`waits
    ensures k <= |ListCells(s)| && sock.wire == old(sock.wire) + Data(ListCells(s))[..k]
    ensures if s != [] && last == s[|s| - 1] && old(Unmarked(s)) then ok ==> k == |ListCells(s)| else k == 0
    ensures ok <==> s != [] && last == s[|s| - 1] && old(Unmarked(s)) &&
                    Moves(old(sock.takes), old(sock.waits), |ListCells(s)|, Firm(Bufs(s)))
    ensures ok ==>
              (sock.takes, sock.waits) == Unused(old(sock.takes), old(sock.waits), |ListCells(s)|, Firm(Bufs(s)))
  {
    hide Real, Data, AllFit, Moves, Unused, Firm, Chain, Within, CellsOf;
    Nothing();
    EachFits(s);
    ChainClosed(first, s);
    ghost var u := set n | n in s;
    ghost var clear := Clear(u);
    ghost var v;
    ok, v, k := Send(sock, first, last, u);
    ChainPasses(first, last, s, v, clear);
  }

  lemma ChainClosed(first: IoList?, s: seq<IoList>)
    requires Chain(first, s)
    ensures Closed(set n | n in s) && (first != null ==> first in s)
  {
  }

  // Of the nodes from first on, only all of them make a list that ends.
  lemma ChainPasses(first: IoList?, last: IoList?, s: seq<IoList>, v: seq<IoList>, clear: set<IoList>)
    requires Chain(first, s)
    ensures (exists w :: Within(w, first, last, clear)) <==>
            s != [] && last == s[|s| - 1] && forall n :: n in s ==> n in clear
    ensures first != null && last != null && ListOf(v, first, last) ==> v == s
  {
    if first != null {
      assert ListOf(s, first, s[|s| - 1]);
      if last == s[|s| - 1] && forall n :: n in s ==> n in clear {
        assert Within(s, first, last, clear);
      }
      forall w | last != null && ListOf(w, first, last)
        ensures w == s
      {
        NoLonger(s, w, first, s[|s| - 1]);
        NoLonger(w, s, first, last);
        forall i | 0 <= i < |s|
          ensures w[i] == s[i]
        {
          SamePath(s, w, first, i);
        }
      }
    }
  }

  lemma EachFits(s: seq<IoList>)
    requires AllFit(Bufs(s))
    ensures forall n :: n in s ==> n.buf.Fits()
  {
  }

  // The header and a copy of the payload, side by side.
  method MakeFrame(buf: array<byte>, len: nat) returns (tbuf: array<byte>)
    requires len <= buf.Length
    ensures fresh(tbuf) && tbuf[..] == Frame(buf[..len]) && tbuf.Length == 4 + len
  {
    hide Digits;
    tbuf := new byte[4 + len];
    GenerateHead(tbuf, len);
    var i := 0;
    while i < len
      invariant 0 <= i <= len && tbuf[..4] == Head(len)
      invariant tbuf[4..4 + i] == buf[..i]
    {
      tbuf[4 + i] := buf[i];
      i := i + 1;
    }
    assert tbuf[..] == tbuf[..4] + tbuf[4..4 + len];
  }

  // torchatproto_msend: some prefix of the frame goes out, all of it on success.
  method MSend(sock: Socket, buf: array<byte>, len: nat) returns (ok: bool, ghost k: nat)
    requires len <= buf.Length
    modifies sock`wire, sock`takes, sock`waits
    ensures k <= |Frame(buf[..len])| && sock.wire == old(sock.wire) + Frame(buf[..len])[..k]
    ensures len > 8188 ==> !ok && k == 0
    ensures ok ==> k == |Frame(buf[..len])|
    ensures ok <==> len <= 8188 && Moves(old(sock.takes), old(sock.waits), len + 4, true)
    ensures ok ==> (sock.takes, sock.waits) == Unused(old(sock.takes), old(sock.waits), len + 4, true)
  {
    hide Real, Data, ListCells, Bufs, AllFit, Frame, Chain, Moves, Unused, Firm, Proper;
    var tbuf := MakeFrame(buf, len);
    ghost var f := Frame(buf[..len]);
    var iol := new IoList(IoVec(tbuf, 0, len + 4), null);
    OneBuffer(iol, tbuf);
    assert (iol as object) != sock && (tbuf as object) != sock;
    ok, k := MSendL(sock, iol, iol, [iol]);
    OneBuffer(iol, tbuf);
    assert f[..0] == [];
  }

  lemma OneBuffer(n: IoList, a: array<byte>)
    requires n.buf == IoVec(a, 0, a.Length) && n.next == null && a.Length > 0
    ensures Chain(n, [n]) && AllFit(Bufs([n])) && (!n.rsvd ==> (Proper([n], n) <==> a.Length <= WIRE_MAX))
    ensures Firm(Bufs([n])) && Real(ListCells([n])) && |ListCells([n])| == a.Length && Data(ListCells([n])) == a[..]
  {
    assert [n][..0] == [] && TotalLen([n][..0]) == 0 && [n][|[n]| - 1] == n;
    assert TotalLen([n]) == a.Length;
    assert Bufs([n]) == [n.buf];
    assert CellsOf([n.buf]) == CellsIn(n.buf) + CellsOf([]);
  }

  // -- reading a frame

  datatype Parsed = Got(payload: seq<byte>, rest: seq<byte>) | Bad

  // The header announces a message that mrecv is ready to take.
  predicate Announced(s: seq<byte>, maxLen: nat) {
    |s| >= 4 && AllDigits(s[..4]) && 1 <= Value(s[..4]) <= maxLen
  }

  // What mrecv makes of a stream in which header and payload have arrived whole.
  function Parse(s: seq<byte>, maxLen: nat): Parsed {
    if !Announced(s, maxLen) || |s| < 4 + Value(s[..4]) then Bad
    else Got(s[4..4 + Value(s[..4])], s[4 + Value(s[..4])..])
  }

  /** A frame is read back as what was sent, and exactly its bytes are used up, exactly when its
      payload is not empty and fits the reader's buffer. */
  lemma FrameReadsBack(p: seq<byte>, rest: seq<byte>, maxLen: nat)
    requires |p| <= PAYLOAD_MAX
    ensures |Frame(p)| == 4 + |p|
    ensures Parse(Frame(p) + rest, maxLen) == Got(p, rest) <==> 1 <= |p| <= maxLen
    ensures Parse(Frame(p) + rest, maxLen).Got? ==> 1 <= |p| <= maxLen
  {
    HeadFaithful(|p|);
    var s := Frame(p) + rest;
    assert s[..4] == Head(|p|);
    assert s[4..4 + |p|] == p && s[4 + |p|..] == rest;
  }

  // -- receiving, for any answers of the kernel

  // What a call of mrecv comes to: the payload, with the number of stream bytes that were read
  // before it and overwritten; or an error, or the deadline. With it, what is left of the stream
  // and of the answers.
  datatype Outcome =
    | Ok(payload: seq<byte>, lost: nat, rest: seq<byte>, left: seq<Answer>)
    | Failed(rest: seq<byte>, left: seq<Answer>)
    | Aborted(rest: seq<byte>, left: seq<Answer>)

  // fd_recv_dimensionhead: one recv, which has to bring four digits.
  function HeadOf(u: seq<byte>, ans: seq<Answer>): int {
    if Given(ans, 4, |u|) == 4 && AllDigits(u[..4]) then Value(u[..4]) else -1
  }

  // The receiving loop: every recv starts at the front of the buffer, until one fills it.
  function Payload(u: seq<byte>, ans: seq<Answer>, len: nat, deadline: nat): Outcome
    decreases deadline
  {
    var k := Given(ans, len, |u|);
    if k < 0 && !Blocks(ans) then Failed(u, Next(ans))
    else if k >= len then Ok(u[..len], 0, u[len..], Next(ans))
    else if deadline == 0 then Aborted(u[Count(k)..], Next(ans))
    else Lose(Count(k), Payload(u[Count(k)..], Next(ans), len, deadline - 1))
  }

  function Lose(k: nat, o: Outcome): Outcome {
    if o.Ok? then o.(lost := o.lost + k) else o
  }

  function ReadFrame(u: seq<byte>, ans: seq<Answer>, maxLen: nat, deadline: nat): Outcome {
    var len := HeadOf(u, ans);
    var rest := u[Count(Given(ans, 4, |u|))..];
    if len <= 0 || len > maxLen then Failed(rest, Next(ans)) else Payload(rest, Next(ans), len, deadline)
  }

  // A length is read only from four digits, and then it is the number that they spell.
  lemma HeadOfSpelled(u: seq<byte>, ans: seq<Answer>)
    ensures HeadOf(u, ans) >= 0 <==>
            Given(ans, 4, |u|) == 4 && forall i :: 0 <= i < 4 ==> '0' as int <= u[i] <= '9' as int
    ensures HeadOf(u, ans) >= 0 ==>
              HeadOf(u, ans) == (u[0] - '0' as int) * 1000 + (u[1] - '0' as int) * 100 + (u[2] - '0' as int) * 10
                                + (u[3] - '0' as int)
  {
    if Given(ans, 4, |u|) == 4 {
      assert forall i :: 0 <= i < 4 ==> u[..4][i] == u[i];
      if AllDigits(u[..4]) {
        ValueSpelled(u[..4]);
        assert forall i :: 0 <= i < 4 ==> IsDigit(u[..4][i]);
      }
    }
  }

  // fd_recv_dimensionhead
  method RecvHead(sock: Socket) returns (n: int)
    modifies sock`unread, sock`answers
    ensures n == HeadOf(old(sock.unread), old(sock.answers))
    ensures sock.unread == old(sock.unread)[Count(Given(old(sock.answers), 4, |old(sock.unread)|))..]
    ensures sock.answers == Next(old(sock.answers))
    ensures n < 0 ==> n == -1
    ensures var u := old(sock.unread);
            && (n >= 0 <==> Given(old(sock.answers), 4, |u|) == 4 &&
                            forall i :: 0 <= i < 4 ==> '0' as int <= u[i] <= '9' as int)
            && (n >= 0 ==> n == (u[0] - '0' as int) * 1000 + (u[1] - '0' as int) * 100 + (u[2] - '0' as int) * 10
                                + (u[3] - '0' as int))
  {
    HeadOfSpelled(sock.unread, sock.answers);
    n := ReadHead(sock);
  }

  method ReadHead(sock: Socket) returns (n: int)
    modifies sock`unread, sock`answers
    ensures n == HeadOf(old(sock.unread), old(sock.answers))
    ensures sock.unread == old(sock.unread)[Count(Given(old(sock.answers), 4, |old(sock.unread)|))..]
    ensures sock.answers == Next(old(sock.answers))
  {
    ghost var u := sock.unread;
    assert u[0..] == u;
    var buf := new byte[5](_ => 0);
    var sz, again := sock.Recv(buf, 4);
    if sz == 0 || (sz < 0 && !again) {
      return -1;
    }
    assert sz == 4 ==> buf[..4] == u[..4];
    assert sz < 4 ==> buf[3] == 0 by {
      if sz < 4 {
        assert buf[Count(sz)..][3 - Count(sz)] == buf[3];
      }
    }
    for i := 0 to 4
      invariant AllDigits(buf[..i])
    {
      if !IsDigit(buf[i]) {
        assert buf[..4][i] == buf[i];
        return -1;
      }
    }
    assert sz == 4;
    n := Value(buf[..4]);
  }

  // Stretches of what is left after the first k.
  lemma Stretch<T>(u: seq<T>, k: nat, a: nat, b: nat)
    requires k <= |u| && a <= b <= |u| - k
    ensures u[k..][a..b] == u[k + a..k + b] && u[k..][b..] == u[k + b..]
  {
  }

  // Whether the loop goes around once more, and what it makes of the first answer otherwise.
  predicate GoesOn(u: seq<byte>, ans: seq<Answer>, len: nat, deadline: nat) {
    Given(ans, len, |u|) < len && (Given(ans, len, |u|) >= 0 || Blocks(ans)) && deadline > 0
  }

  lemma PayloadStep(u: seq<byte>, ans: seq<Answer>, len: nat, deadline: nat)
    ensures var k, o := Given(ans, len, |u|), Payload(u, ans, len, deadline);
            if GoesOn(u, ans, len, deadline) then
              && Count(k) <= |u| && o == Lose(Count(k), Payload(u[Count(k)..], Next(ans), len, deadline - 1))
            else if k < 0 && !Blocks(ans) then o == Failed(u, Next(ans))
            else if k >= len then len <= |u| && o == Ok(u[..len], 0, u[len..], Next(ans))
            else o == Aborted(u[Count(k)..], Next(ans))
  {
  }

  lemma DeadlineLeft(u: seq<byte>, ans: seq<Answer>, len: nat, deadline: nat)
    requires GoesOn(u, ans, len, deadline)
    ensures deadline > 0 && (Given(ans, len, |u|) >= 0 || Blocks(ans))
  {
  }

  lemma NextEnds(ans: seq<Answer>)
    ensures EndOf(ans, ans) && EndOf(Next(ans), ans)
    ensures forall c :: EndOf(c, Next(ans)) ==> EndOf(c, ans)
  {
    if ans != [] {
      forall c | EndOf(c, Next(ans))
        ensures EndOf(c, ans)
      {
        EndsAgain(c, Next(ans), ans);
      }
    }
  }

  lemma NoAnswer(ans: seq<Answer>, want: nat, avail: nat)
    ensures Given(ans, want, avail) >= 0 || Blocks(ans) ==> |Next(ans)| == |ans| - 1
  {
  }

  // The answers are used up from the front, and the stream too.
  lemma {:induction false} PayloadLeft(u: seq<byte>, ans: seq<Answer>, len: nat, deadline: nat)
    ensures var o := Payload(u, ans, len, deadline);
            |o.rest| <= |u| && EndOf(o.left, ans) && (o.Ok? ==> |o.left| < |ans|)
    decreases deadline
  {
    hide Payload, Given, Next, Blocks, GoesOn, EndOf;
    PayloadStep(u, ans, len, deadline);
    NextEnds(ans);
    NoAnswer(ans, len, |u|);
    if GoesOn(u, ans, len, deadline) {
      DeadlineLeft(u, ans, len, deadline);
      PayloadLeft(u[Count(Given(ans, len, |u|))..], Next(ans), len, deadline - 1);
    }
  }

  // A payload is a stretch of the stream: what is lost lies before it, what is left behind it.
  lemma {:induction false} PayloadShape(u: seq<byte>, ans: seq<Answer>, len: nat, deadline: nat)
    ensures var o := Payload(u, ans, len, deadline);
            o.Ok? ==> o.lost + len <= |u| && o.payload == u[o.lost..o.lost + len] && o.rest == u[o.lost + len..]
    decreases deadline
  {
    hide Payload, Given, Next, Blocks, GoesOn, Count;
    PayloadStep(u, ans, len, deadline);
    var k := Count(Given(ans, len, |u|));
    if GoesOn(u, ans, len, deadline) {
      DeadlineLeft(u, ans, len, deadline);
      var o := Payload(u[k..], Next(ans), len, deadline - 1);
      PayloadShape(u[k..], Next(ans), len, deadline - 1);
      if o.Ok? {
        Stretch(u, k, o.lost, o.lost + len);
      }
    }
  }

  datatype Received = Read(n: nat) | Error | Late

  function Returned(o: Outcome): Received {
    match o
    case Ok(p, _, _, _) => Read(|p|)
    case Failed(_, _) => Error
    case Aborted(_, _) => Late
  }

  // The receiving loop of torchatproto_mrecv; the deadline is how often it may go around.
  method RecvPayload(sock: Socket, buf: array<byte>, len: nat, deadline: nat) returns (r: Received)
    requires len <= buf.Length
    modifies sock`unread, sock`answers, buf
    ensures var o := Payload(old(sock.unread), old(sock.answers), len, deadline);
            && r == Returned(o) && sock.unread == o.rest && sock.answers == o.left
            && (o.Ok? ==> buf[..len] == o.payload)
            && (o.Ok? <==> r == Read(len)) && (o.Failed? <==> r == Error) && (o.Aborted? <==> r == Late)
            && (len > 0 ==> exists k :: CameOf(o, old(sock.unread), old(sock.answers), len, deadline, k))
  {
    hide Payload, Given, Blocks, CameOf;
    if len > 0 {
      ghost var k := LoopExactly(sock.unread, sock.answers, len, deadline);
    }
    ghost var o := Payload(sock.unread, sock.answers, len, deadline);
    ghost var lost := 0;
    var now := 0;
    while true
      invariant 0 <= now <= deadline && lost >= 0
      invariant o == Lose(lost, Payload(sock.unread, sock.answers, len, deadline - now))
      decreases deadline - now
    {
      ghost var u := sock.unread;
      PayloadStep(u, sock.answers, len, deadline - now);
      var rc, again := sock.Recv(buf, len);
      if rc < 0 && !again {
        return Error;
      }
      if rc >= len {
        assert buf[..len] == u[..len];
        return Read(len);
      }
      assert sock.unread == u[Count(rc)..];
      if now == deadline {
        return Late;
      }
      lost := lost + Count(rc);
      now := now + 1;
    }
  }

  // torchatproto_mrecv
  method MRecv(sock: Socket, buf: array<byte>, maxLen: nat, deadline: nat) returns (r: Received)
    requires maxLen <= buf.Length
    modifies sock`unread, sock`answers, buf
    ensures var o := ReadFrame(old(sock.unread), old(sock.answers), maxLen, deadline);
            && r == Returned(o) && sock.unread == o.rest && sock.answers == o.left
            && (o.Ok? ==> |o.payload| <= maxLen && buf[..|o.payload|] == o.payload)
    ensures var n := HeadOf(old(sock.unread), old(sock.answers));
            n <= 0 || n > maxLen ==>
              && r == Error && buf[..] == old(buf[..]) && sock.answers == Next(old(sock.answers))
              && sock.unread == old(sock.unread)[Count(Given(old(sock.answers), 4, |old(sock.unread)|))..]
  {
    var len := RecvHead(sock);
    if len <= 0 || len > maxLen {
      return Error;
    }
    PayloadShape(sock.unread, sock.answers, len, deadline);
    r := RecvPayload(sock, buf, len, deadline);
  }

  // The i-th answer does not fill the buffer, in a stream of so many bytes, after answers that did not either.
  predicate Short(avail: nat, ans: seq<Answer>, len: nat, i: nat)
    requires i < |ans|
  {
    ans[i].WouldBlock? || (ans[i].Bytes? && (ans[i].n < len || avail < SumOf(ans[..i]) + len))
  }

  lemma ShortNext(avail: nat, ans: seq<Answer>, len: nat, i: nat)
    requires i + 1 < |ans| && Short(avail, ans, len, 0)
    ensures var left := avail - Count(Given(ans, len, avail));
            Short(left, ans[1..], len, i) <==> Short(avail, ans, len, i + 1)
  {
    assert ans[..i + 1][1..] == ans[1..][..i];
  }

  // What came of the receiving loop, with r answers used up before the last one.
  ghost predicate CameOf(o: Outcome, u: seq<byte>, ans: seq<Answer>, len: nat, deadline: nat, r: nat) {
    && r <= deadline && r <= |ans| && (forall i :: 0 <= i < r ==> Short(|u|, ans, len, i))
    && var sum := SumOf(ans[..r]);
       match o
       case Ok(payload, lost, rest, left) =>
         && r < |ans| && ans[r].Bytes? && ans[r].n >= len && sum + len <= |u|
         && payload == u[sum..sum + len] && lost == sum && rest == u[sum + len..] && left == ans[r + 1..]
       case Failed(rest, left) =>
         (r == |ans| || ans[r].Fault?) && rest == u[Min(sum, |u|)..] && left == Next(ans[r..])
       case Aborted(rest, left) =>
         && r == deadline < |ans| && Short(|u|, ans, len, r)
         && rest == u[Min(SumOf(ans[..r + 1]), |u|)..] && left == ans[r + 1..]
  }

  lemma SumNext(ans: seq<Answer>, r: nat)
    requires r < |ans|
    ensures SumOf(ans[..r + 1]) == (if ans[0].Bytes? then ans[0].n else 0) + SumOf(ans[1..][..r])
    ensures ans[1..][r..] == ans[r + 1..]
  {
    assert ans[..r + 1][1..] == ans[1..][..r];
  }

  // The bytes of the first answer were all taken, or they were more than the stream had.
  lemma RestAfter(u: seq<byte>, k: nat, p: nat, sum: nat)
    requires (k == p <= |u|) || (k == |u| <= p)
    ensures u[k..][Min(sum, |u| - k)..] == u[Min(p + sum, |u|)..]
  {
  }

  lemma FirstShort(u: seq<byte>, ans: seq<Answer>, len: nat) returns (p: nat)
    requires len > 0 && ans != [] && Short(|u|, ans, len, 0)
    ensures p == if ans[0].Bytes? then ans[0].n else 0
    ensures var k := Count(Given(ans, len, |u|)); k <= |u| && ((k == p <= |u|) || (k == |u| <= p && |u| < len))
  {
    p := if ans[0].Bytes? then ans[0].n else 0;
    assert ans[..0] == [];
  }

  // The same for all of the first answers.
  lemma ShortsNext(avail: nat, left: nat, ans: seq<Answer>, len: nat, r: nat)
    requires r < |ans| && Short(avail, ans, len, 0) && left == avail - Count(Given(ans, len, avail))
    requires forall i :: 0 <= i < r ==> Short(left, ans[1..], len, i)
    ensures forall i :: 0 <= i < r + 1 ==> Short(avail, ans, len, i)
  {
    hide Short;
    forall i | 0 <= i < r + 1
      ensures Short(avail, ans, len, i)
    {
      if i > 0 {
        ShortNext(avail, ans, len, i - 1);
      }
    }
  }

  lemma CameOfNext(o: Outcome, u: seq<byte>, ans: seq<Answer>, len: nat, deadline: nat, r: nat)
    requires len > 0 && ans != [] && deadline > 0 && Short(|u|, ans, len, 0)
    requires CameOf(o, u[Count(Given(ans, len, |u|))..], ans[1..], len, deadline - 1, r)
    ensures CameOf(Lose(Count(Given(ans, len, |u|)), o), u, ans, len, deadline, r + 1)
  {
    hide SumOf, Short, Given, Count, Min;
    var k := Count(Given(ans, len, |u|));
    var p := FirstShort(u, ans, len);
    ShortsNext(|u|, |u| - k, ans, len, r);
    SumNext(ans, r);
    match o
    case Ok(_, lost, _, _) => Stretch(u, k, lost, lost + len);
    case Failed(_, _) => RestAfter(u, k, p, SumOf(ans[1..][..r]));
    case Aborted(_, _) =>
      SumNext(ans, r + 1);
      ShortNext(|u|, ans, len, r);
      RestAfter(u, k, p, SumOf(ans[1..][..r + 1]));
  }

  /** The receiving loop, whatever the stream and the answers: it goes around for as long as the answers
      do not fill the buffer and the deadline allows, and what came in before is lost. */
  lemma {:induction false} LoopExactly(u: seq<byte>, ans: seq<Answer>, len: nat, deadline: nat) returns (r: nat)
    requires len > 0
    ensures CameOf(Payload(u, ans, len, deadline), u, ans, len, deadline, r)
    decreases deadline
  {
    hide CameOf, Payload;
    PayloadStep(u, ans, len, deadline);
    if GoesOn(u, ans, len, deadline) {
      var k := LoopExactly(u[Count(Given(ans, len, |u|))..], Next(ans), len, deadline - 1);
      CameOfNext(Payload(u[Count(Given(ans, len, |u|))..], Next(ans), len, deadline - 1), u, ans, len, deadline, k);
      r := k + 1;
    } else {
      r := 0;
      CameAtOnce(u, ans, len, deadline);
    }
  }

  lemma CameAtOnce(u: seq<byte>, ans: seq<Answer>, len: nat, deadline: nat)
    requires len > 0 && !GoesOn(u, ans, len, deadline)
    ensures CameOf(Payload(u, ans, len, deadline), u, ans, len, deadline, 0)
  {
    assert u[0..] == u && ans[0..] == ans;
    if ans != [] {
      assert ans[..1] == [ans[0]] && [ans[0]][1..] == [];
    }
  }

  // -- when nothing is lost

  // An answer that brings a part of the payload only, one that brings nothing, and one that brings it whole.
  predicate Piece(a: Answer, len: nat) {
    a.Bytes? && 0 < a.n < len
  }

  predicate Waits(a: Answer) {
    a.WouldBlock? || a == Bytes(0)
  }

  predicate Fills(a: Answer, len: nat) {
    a.Bytes? && a.n >= len
  }

  // The payload comes whole, after k answers that brought nothing.
  ghost predicate WholeAt(ans: seq<Answer>, k: nat, len: nat) {
    k < |ans| && Fills(ans[k], len) && forall i :: 0 <= i < k ==> Waits(ans[i])
  }

  // A payload that was received lost nothing exactly when no answer on the way brought a piece of it.
  lemma {:induction false} PayloadLoss(u: seq<byte>, ans: seq<Answer>, len: nat, deadline: nat)
    requires len > 0
    ensures var o := Payload(u, ans, len, deadline);
            o.Ok? ==> (o.lost == 0 <==> forall i :: 0 <= i < |ans| - |o.left| ==> !Piece(ans[i], len))
    decreases deadline
  {
    var o, k := Payload(u, ans, len, deadline), Given(ans, len, |u|);
    PayloadLeft(u, ans, len, deadline);
    if o.Ok? && k < len {
      var v, later := u[Count(k)..], Next(ans);
      var o' := Payload(v, later, len, deadline - 1);
      PayloadShape(v, later, len, deadline - 1);
      PayloadLeft(v, later, len, deadline - 1);
      PayloadLoss(v, later, len, deadline - 1);
      assert Piece(ans[0], len) <==> Count(k) > 0;
      NoPieceNext(ans, |later| - |o'.left|, len);
    }
  }

  lemma NoPieceNext(ans: seq<Answer>, n: nat, len: nat)
    requires n < |ans|
    ensures (forall i :: 0 <= i < n + 1 ==> !Piece(ans[i], len)) <==>
            !Piece(ans[0], len) && forall i :: 0 <= i < n ==> !Piece(ans[1..][i], len)
  {
    hide Piece;
    if !Piece(ans[0], len) && forall i :: 0 <= i < n ==> !Piece(ans[1..][i], len) {
      forall i | 0 < i < n + 1
        ensures !Piece(ans[i], len)
      {
        assert !Piece(ans[1..][i - 1], len);
      }
    }
    if forall i :: 0 <= i < n + 1 ==> !Piece(ans[i], len) {
      forall i | 0 <= i < n
        ensures !Piece(ans[1..][i], len)
      {
        assert !Piece(ans[i + 1], len);
      }
    }
  }

  /** Whatever stream and answers it meets: a message that mrecv reports lost nothing exactly when no
      answer after that for the header brought a piece of the payload. */
  lemma LossExactly(u: seq<byte>, ans: seq<Answer>, maxLen: nat, deadline: nat)
    ensures var o := ReadFrame(u, ans, maxLen, deadline);
            o.Ok? ==> (o.lost == 0 <==> forall i :: 1 <= i < |ans| - |o.left| ==> !Piece(ans[i], |o.payload|))
  {
    var o, len := ReadFrame(u, ans, maxLen, deadline), HeadOf(u, ans);
    if o.Ok? {
      PayloadShape(u[4..], ans[1..], len, deadline);
      PayloadLeft(u[4..], ans[1..], len, deadline);
      PayloadLoss(u[4..], ans[1..], len, deadline);
      assert forall i :: 1 <= i < |ans| ==> ans[i] == ans[1..][i - 1];
      assert forall i :: 0 <= i < |ans| - 1 ==> ans[1..][i] == ans[i + 1];
    }
  }

  lemma WholeNext(ans: seq<Answer>, k: nat, len: nat)
    requires ans != []
    ensures WholeAt(ans, k + 1, len) <==> Waits(ans[0]) && WholeAt(ans[1..], k, len)
  {
    if Waits(ans[0]) && WholeAt(ans[1..], k, len) {
      forall i | 0 <= i < k + 1
        ensures Waits(ans[i])
      {
        assert i > 0 ==> Waits(ans[1..][i - 1]);
      }
    }
    if WholeAt(ans, k + 1, len) {
      forall i | 0 <= i < k
        ensures Waits(ans[1..][i])
      {
        assert Waits(ans[i + 1]);
      }
    }
  }

  // When the whole payload comes in time, it is received, and the stream goes on behind it.
  lemma {:induction false} WholeReceived(u: seq<byte>, ans: seq<Answer>, len: nat, deadline: nat, k: nat)
    requires 0 < len <= |u| && k <= deadline && WholeAt(ans, k, len)
    ensures Payload(u, ans, len, deadline) == Ok(u[..len], 0, u[len..], ans[k + 1..])
    decreases k
  {
    if k > 0 {
      WholeNext(ans, k - 1, len);
      WholeReceived(u, ans[1..], len, deadline - 1, k - 1);
      assert u[0..] == u;
    }
  }

  // Nothing but that lets a payload be received without a loss.
  lemma {:induction false} ReceivedWhole(u: seq<byte>, ans: seq<Answer>, len: nat, deadline: nat) returns (k: nat)
    requires len > 0 && Payload(u, ans, len, deadline).Ok? && Payload(u, ans, len, deadline).lost == 0
    ensures k <= deadline && WholeAt(ans, k, len)
    decreases deadline
  {
    k := 0;
    if Given(ans, len, |u|) < len {
      assert u[0..] == u;
      PayloadShape(u, Next(ans), len, deadline - 1);
      k := ReceivedWhole(u, Next(ans), len, deadline - 1);
      WholeNext(ans, k, len);
      k := k + 1;
    }
  }

  // The answers bring this frame whole: the header at once, the payload after k answers without a byte.
  ghost predicate FrameAt(ans: seq<Answer>, k: nat, len: nat) {
    ans != [] && Fills(ans[0], 4) && WholeAt(ans[1..], k, len)
  }

  lemma FrameAtFits(ans: seq<Answer>, len: nat)
    ensures forall k: nat :: FrameAt(ans, k, len) ==> k + 2 <= |ans|
  {
  }

  /** mrecv gives back the frame that comes next, without a loss, exactly when its payload is not empty
      and fits the buffer, and the answers bring its header at once and its payload whole, after at
      most as many waits as the deadline allows. */
  lemma FrameExactly(p: seq<byte>, rest: seq<byte>, ans: seq<Answer>, maxLen: nat, deadline: nat)
    requires |p| <= PAYLOAD_MAX
    ensures var o := ReadFrame(Frame(p) + rest, ans, maxLen, deadline);
            && (o.Ok? && o.lost == 0 <==>
                1 <= |p| <= maxLen && exists k: nat :: k <= deadline && FrameAt(ans, k, |p|))
            && forall k: nat :: 1 <= |p| <= maxLen && k <= deadline && FrameAt(ans, k, |p|) ==>
                 o == Ok(p, 0, rest, ans[k + 2..])
  {
    var u := Frame(p) + rest;
    var o := ReadFrame(u, ans, maxLen, deadline);
    Landed(p, rest);
    assert u[4..] == p + rest;
    forall k: nat | 1 <= |p| <= maxLen && k <= deadline && FrameAt(ans, k, |p|)
      ensures o == Ok(p, 0, rest, ans[k + 2..])
    {
      WholeReceived(p + rest, ans[1..], |p|, deadline, k);
      assert (p + rest)[..|p|] == p && (p + rest)[|p|..] == rest;
      assert ans[1..][k + 1..] == ans[k + 2..];
    }
    if o.Ok? && o.lost == 0 {
      var k := ReceivedWhole(p + rest, ans[1..], |p|, deadline);
      assert FrameAt(ans, k, |p|);
    }
  }

  // The last message of a stream: a piece of it first, and it is never received.
  lemma LastMessage(p: seq<byte>, ans: seq<Answer>, deadline: nat)
    requires p != []
    ensures Payload(p, ans, |p|, deadline).Ok? <==> exists k: nat :: k <= deadline && WholeAt(ans, k, |p|)
  {
    PayloadShape(p, ans, |p|, deadline);
    if Payload(p, ans, |p|, deadline).Ok? {
      var k := ReceivedWhole(p, ans, |p|, deadline);
    }
    forall k: nat | k <= deadline && WholeAt(ans, k, |p|)
      ensures Payload(p, ans, |p|, deadline).Ok?
    {
      WholeReceived(p, ans, |p|, deadline, k);
    }
  }

  /** What a piece does: when j bytes of the payload come first and the next answer is large enough,
      mrecv reports as many bytes as were announced, from j bytes too far on. */
  lemma {:induction false} PieceShifts(p: seq<byte>, rest: seq<byte>, ans: seq<Answer>, maxLen: nat, deadline: nat)
    requires 1 <= |p| <= maxLen && |p| <= PAYLOAD_MAX && deadline > 0
    requires |ans| >= 3 && Fills(ans[0], 4) && Piece(ans[1], |p|) && Fills(ans[2], |p|)
    requires ans[1].n <= |rest|
    ensures var j := ans[1].n;
            ReadFrame(Frame(p) + rest, ans, maxLen, deadline) == Ok(p[j..] + rest[..j], j, rest[j..], ans[3..])
  {
    hide Frame, Payload;
    var u, j := p + rest, ans[1].n;
    Landed(p, rest);
    FrameSplit(p, rest);
    var later := ans[1..][1..];
    assert later[1..] == ans[3..];
    PayloadStep(u, ans[1..], |p|, deadline);
    assert WholeAt(later, 0, |p|);
    WholeReceived(u[j..], later, |p|, deadline - 1, 0);
    Shifted(p, rest, j);
  }

  lemma FrameSplit(p: seq<byte>, rest: seq<byte>)
    ensures |Frame(p)| == 4 + |p| && (Frame(p) + rest)[4..] == p + rest
  {
  }

  lemma Shifted<T>(p: seq<T>, rest: seq<T>, j: nat)
    requires j <= |p| && j <= |rest|
    ensures (p + rest)[j..][..|p|] == p[j..] + rest[..j] && (p + rest)[j..][|p|..] == rest[j..]
  {
  }

  // For example: of the payload 7 8, announced by 0002, one byte comes first. The message that is
  // reported ends with a byte of what follows the frame.
  lemma PieceLost()
    ensures ReadFrame([48, 48, 48, 50, 7, 8, 9], [Bytes(4), Bytes(1), Bytes(2)], 2, 1) == Ok([8, 9], 1, [], [])
    ensures Parse([48, 48, 48, 50, 7, 8, 9], 2) == Got([7, 8], [9])
  {
    hide ReadFrame, Parse;
    HeadTwo();
    var f := Frame([7, 8]) + [9];
    assert f == [48, 48, 48, 50, 7, 8, 9];
    PieceShifts([7, 8], [9], [Bytes(4), Bytes(1), Bytes(2)], 2, 1);
    FrameReadsBack([7, 8], [9], 2);
    assert [7, 8][1..] + [9][..1] == [8, 9] && [9][1..] == [];
  }

  lemma HeadTwo()
    ensures Head(2) == [48, 48, 48, 50]
  {
    hide Digits;
    DigitsStep(0, 0);
    DigitsStep(0, 1);
    DigitsStep(0, 2);
    DigitsStep(0, 3);
    DigitsStep(2, 4);
  }

  // -- whole conversations

  lemma {:induction false} WireSnoc(ps: seq<seq<byte>>, p: seq<byte>)
    ensures Wire(ps + [p]) == Wire(ps) + Frame(p)
  {
    if ps == [] {
      assert [p][1..] == [];
    } else {
      assert (ps + [p])[1..] == ps[1..] + [p];
      WireSnoc(ps[1..], p);
    }
  }

  // What msend takes, and what mrecv does.
  predicate Sendable(ps: seq<seq<byte>>) {
    forall i :: 0 <= i < |ps| ==> |ps[i]| <= PAYLOAD_MAX
  }

  predicate Readable(ps: seq<seq<byte>>, maxLen: nat) {
    forall i :: 0 <= i < |ps| ==> 1 <= |ps[i]| <= maxLen
  }

  // The kernel takes the messages one after the other, each of them whole in the end.
  predicate Carries(takes: seq<Answer>, waits: seq<bool>, ps: seq<seq<byte>>)
    decreases |ps|
  {
    ps == [] ||
    (|ps[0]| <= PAYLOAD_MAX && Moves(takes, waits, |ps[0]| + 4, true) &&
     var (t, w) := Unused(takes, waits, |ps[0]| + 4, true);
     Carries(t, w, ps[1..]))
  }

  lemma CarriesStep(takes: seq<Answer>, waits: seq<bool>, ps: seq<seq<byte>>, i: nat)
    requires i <= |ps|
    ensures i == |ps| ==> Carries(takes, waits, ps[i..])
    ensures i < |ps| ==>
              var (t, w) := Unused(takes, waits, |ps[i]| + 4, true);
              Carries(takes, waits, ps[i..]) <==>
              |ps[i]| <= PAYLOAD_MAX && Moves(takes, waits, |ps[i]| + 4, true) && Carries(t, w, ps[i + 1..])
  {
    hide Moves, Unused;
    if i < |ps| {
      assert ps[i..][0] == ps[i] && ps[i..][1..] == ps[i + 1..];
    }
  }

  // One msend after the other, until one fails: `sent` went out whole.
  method SendAll(sock: Socket, ps: seq<seq<byte>>) returns (sent: nat, ghost k: nat)
    modifies sock`wire, sock`takes, sock`waits
    ensures sent <= |ps| && k <= |Wire(ps)| && Sendable(ps[..sent]) && (sent == |ps| ==> k == |Wire(ps)|)
    ensures sock.wire == old(sock.wire) + Wire(ps)[..k]
    ensures sent == |ps| <==> Carries(old(sock.takes), old(sock.waits), ps)
  {
    hide Frame, Wire, Sendable, Moves, Unused, Carries;
    sent := 0;
    ghost var w := sock.wire;
    NothingSent(ps);
    while sent < |ps|
      invariant 0 <= sent <= |ps| && Sendable(ps[..sent]) && sock.wire == w + Wire(ps[..sent])
      invariant Carries(old(sock.takes), old(sock.waits), ps) == Carries(sock.takes, sock.waits, ps[sent..])
    {
      CarriesStep(sock.takes, sock.waits, ps, sent);
      var p := ps[sent];
      var buf := new byte[|p|](i requires 0 <= i < |p| => p[i]);
      assert buf[..|p|] == p;
      var ok;
      ghost var n;
      ok, n := MSend(sock, buf, |p|);
      Prefix(ps, sent, n);
      OneMore(ps, sent);
      if !ok {
        return sent, |Wire(ps[..sent])| + n;
      }
      sent := sent + 1;
    }
    CarriesStep(sock.takes, sock.waits, ps, sent);
    k := |Wire(ps)|;
  }

  lemma NothingSent(ps: seq<seq<byte>>)
    ensures Sendable(ps[..0]) && Wire(ps[..0]) == [] && ps[0..] == ps && ps[..|ps|] == ps
  {
  }

  lemma OneMore(ps: seq<seq<byte>>, i: nat)
    requires i < |ps| && Sendable(ps[..i])
    ensures Sendable(ps[..i + 1]) <==> |ps[i]| <= PAYLOAD_MAX
  {
    assert ps[..i + 1] == ps[..i] + [ps[i]];
  }

  // The messages so far and n bytes of the next one are a prefix of them all.
  lemma Prefix(ps: seq<seq<byte>>, i: nat, n: nat)
    requires i < |ps| && n <= |Frame(ps[i])|
    ensures |Wire(ps[..i])| + n <= |Wire(ps)|
    ensures Wire(ps[..i]) + Frame(ps[i])[..n] == Wire(ps)[..|Wire(ps[..i])| + n]
    ensures Wire(ps[..i + 1]) == Wire(ps[..i]) + Frame(ps[i])
  {
    hide Wire, Frame;
    assert ps[..i + 1] == ps[..i] + [ps[i]];
    WireSnoc(ps[..i], ps[i]);
    WireConcat(ps[..i + 1], ps[i + 1..]);
    assert ps[..i + 1] + ps[i + 1..] == ps;
    FrontOf(Wire(ps[..i]), Frame(ps[i]), Wire(ps[i + 1..]), n);
  }

  lemma FrontOf<T>(a: seq<T>, f: seq<T>, r: seq<T>, n: nat)
    requires n <= |f|
    ensures a + f[..n] == (a + f + r)[..|a| + n]
  {
  }

  lemma {:induction false} WireConcat(ps: seq<seq<byte>>, qs: seq<seq<byte>>)
    ensures Wire(ps + qs) == Wire(ps) + Wire(qs)
  {
    if ps == [] {
      assert ps + qs == qs;
    } else {
      assert (ps + qs)[1..] == ps[1..] + qs;
      WireConcat(ps[1..], qs);
    }
  }


  // Successive mrecv calls, until one fails: what they give back, and what is left of the stream.
  function ReadAll(u: seq<byte>, ans: seq<Answer>, n: nat, maxLen: nat, deadline: nat): (seq<seq<byte>>, seq<byte>)
    decreases n
  {
    if n == 0 then ([], u)
    else
      var o := ReadFrame(u, ans, maxLen, deadline);
      if !o.Ok? then ([], o.rest)
      else
        var (got, rest) := ReadAll(o.rest, o.left, n - 1, maxLen, deadline);
        ([o.payload] + got, rest)
  }

  // The answers bring the messages one after the other: every header at once, every payload whole,
  // after at most as many answers without a byte as the deadline allows.
  ghost predicate Delivers(ans: seq<Answer>, ps: seq<seq<byte>>, deadline: nat) {
    ps == [] ||
    exists k: nat :: k <= deadline && FrameAt(ans, k, |ps[0]|) && Delivers(ans[k + 2..], ps[1..], deadline)
  }

  // As many mrecv calls as there are messages.
  method RecvAll(sock: Socket, n: nat, maxLen: nat, deadline: nat) returns (got: seq<seq<byte>>)
    modifies sock`unread, sock`answers
    ensures (got, sock.unread) == ReadAll(old(sock.unread), old(sock.answers), n, maxLen, deadline)
  {
    hide ReadFrame;
    got := [];
    ghost var all := ReadAll(sock.unread, sock.answers, n, maxLen, deadline);
    assert [] + all.0 == all.0;
    while |got| < n
      invariant |got| <= n
      invariant all == (got + ReadAll(sock.unread, sock.answers, n - |got|, maxLen, deadline).0,
                        ReadAll(sock.unread, sock.answers, n - |got|, maxLen, deadline).1)
      decreases n - |got|
    {
      ghost var u, ans, m := sock.unread, sock.answers, n - |got|;
      var buf := new byte[maxLen];
      var r := MRecv(sock, buf, maxLen, deadline);
      if !r.Read? {
        assert ReadAll(u, ans, m, maxLen, deadline) == ([], sock.unread);
        assert got + [] == got;
        return;
      }
      Associate(got, buf[..r.n], ReadAll(sock.unread, sock.answers, m - 1, maxLen, deadline).0);
      got := got + [buf[..r.n]];
    }
    assert got + [] == got;
  }

  lemma Associate<T>(s: seq<T>, x: T, t: seq<T>)
    ensures s + ([x] + t) == s + [x] + t
  {
  }

  // Every message that was read has used up at least its frame.
  lemma {:induction false} ReadUsesUp(u: seq<byte>, ans: seq<Answer>, n: nat, maxLen: nat, deadline: nat)
    ensures var (got, rest) := ReadAll(u, ans, n, maxLen, deadline); |Wire(got)| + |rest| <= |u|
    decreases n
  {
    if n > 0 {
      var o := ReadFrame(u, ans, maxLen, deadline);
      FrameUsesUp(u, ans, maxLen, deadline);
      if o.Ok? {
        ReadUsesUp(o.rest, o.left, n - 1, maxLen, deadline);
        var got := ReadAll(o.rest, o.left, n - 1, maxLen, deadline).0;
        assert ([o.payload] + got)[1..] == got;
      }
    }
  }

  lemma FrameUsesUp(u: seq<byte>, ans: seq<Answer>, maxLen: nat, deadline: nat)
    ensures var o := ReadFrame(u, ans, maxLen, deadline);
            |o.rest| <= |u| && (o.Ok? ==> 4 + o.lost + |o.payload| + |o.rest| == |u|)
  {
    var len, k := HeadOf(u, ans), Count(Given(ans, 4, |u|));
    if 0 < len {
      PayloadLeft(u[k..], Next(ans), len, deadline);
      PayloadShape(u[k..], Next(ans), len, deadline);
    }
  }

  lemma ReadableStep(ps: seq<seq<byte>>, maxLen: nat)
    requires ps != []
    ensures Readable(ps, maxLen) <==> 1 <= |ps[0]| <= maxLen && Readable(ps[1..], maxLen)
    ensures Sendable(ps) <==> |ps[0]| <= PAYLOAD_MAX && Sendable(ps[1..])
    ensures ps == [ps[0]] + ps[1..]
  {
    assert forall i :: 0 < i < |ps| ==> ps[i] == ps[1..][i - 1];
  }

  lemma WireStep(ps: seq<seq<byte>>, rest: seq<byte>)
    requires ps != []
    ensures Wire(ps) + rest == Frame(ps[0]) + (Wire(ps[1..]) + rest)
  {
  }

  // Messages that the answers deliver are read back.
  lemma {:induction false} DeliveredIsRead(ps: seq<seq<byte>>, rest: seq<byte>, ans: seq<Answer>,
    maxLen: nat, deadline: nat)
    requires Sendable(ps) && Readable(ps, maxLen) && Delivers(ans, ps, deadline)
    ensures ReadAll(Wire(ps) + rest, ans, |ps|, maxLen, deadline) == (ps, rest)
    decreases |ps|
  {
    hide ReadFrame, FrameAt, Sendable, Readable, Frame;
    if ps == [] {
      assert Wire(ps) + rest == rest;
    } else {
      FrameAtFits(ans, |ps[0]|);
      var k: nat :| k <= deadline && FrameAt(ans, k, |ps[0]|) && Delivers(ans[k + 2..], ps[1..], deadline);
      ReadableStep(ps, maxLen);
      WireStep(ps, rest);
      FrameExactly(ps[0], Wire(ps[1..]) + rest, ans, maxLen, deadline);
      DeliveredIsRead(ps[1..], rest, ans[k + 2..], maxLen, deadline);
    }
  }

  // The first of the messages read back was read without a loss.
  lemma FirstIsWhole(ps: seq<seq<byte>>, rest: seq<byte>, ans: seq<Answer>, maxLen: nat, deadline: nat)
    requires ps != [] && ReadAll(Wire(ps) + rest, ans, |ps|, maxLen, deadline) == (ps, rest)
    ensures var o := ReadFrame(Wire(ps) + rest, ans, maxLen, deadline);
            && o.Ok? && o.lost == 0 && ReadAll(o.rest, o.left, |ps| - 1, maxLen, deadline) == (ps[1..], rest)
  {
    hide ReadFrame;
    var u := Wire(ps) + rest;
    var o := ReadFrame(u, ans, maxLen, deadline);
    FrameUsesUp(u, ans, maxLen, deadline);
    ReadUsesUp(o.rest, o.left, |ps| - 1, maxLen, deadline);
  }

  lemma {:induction false} ReadIsDelivered(ps: seq<seq<byte>>, rest: seq<byte>, ans: seq<Answer>,
    maxLen: nat, deadline: nat)
    requires Sendable(ps) && ReadAll(Wire(ps) + rest, ans, |ps|, maxLen, deadline) == (ps, rest)
    ensures Readable(ps, maxLen) && Delivers(ans, ps, deadline)
    decreases |ps|
  {
    hide ReadFrame, FrameAt, Sendable, Frame, ReadAll, Wire;
    if ps != [] {
      FirstIsWhole(ps, rest, ans, maxLen, deadline);
      ReadableStep(ps, maxLen);
      WireStep(ps, rest);
      FrameAtFits(ans, |ps[0]|);
      FrameExactly(ps[0], Wire(ps[1..]) + rest, ans, maxLen, deadline);
      var k: nat :| k <= deadline && FrameAt(ans, k, |ps[0]|);
      ReadIsDelivered(ps[1..], rest, ans[k + 2..], maxLen, deadline);
    }
  }

  /** Successive mrecv calls give back the messages that were sent, and leave what follows them,
      exactly when these are not empty and fit the buffer and the kernel's answers deliver them. */
  lemma ReadExactly(ps: seq<seq<byte>>, rest: seq<byte>, ans: seq<Answer>, maxLen: nat, deadline: nat)
    requires Sendable(ps)
    ensures ReadAll(Wire(ps) + rest, ans, |ps|, maxLen, deadline) == (ps, rest) <==>
            Readable(ps, maxLen) && Delivers(ans, ps, deadline)
  {
    hide ReadAll, Delivers, Readable;
    if ReadAll(Wire(ps) + rest, ans, |ps|, maxLen, deadline) == (ps, rest) {
      ReadIsDelivered(ps, rest, ans, maxLen, deadline);
    }
    if Readable(ps, maxLen) && Delivers(ans, ps, deadline) {
      DeliveredIsRead(ps, rest, ans, maxLen, deadline);
    }
  }

  /** What msend sends, in whatever pieces the kernel takes it, successive mrecv calls give back if
      and only if the kernel delivers it: headers at once, payloads whole after any waits. */
  method Converse(tx: Socket, ps: seq<seq<byte>>, maxLen: nat, answers: seq<Answer>, deadline: nat)
    returns (sent: bool, got: seq<seq<byte>>, left: seq<byte>)
    requires tx.wire == []
    modifies tx`wire, tx`takes, tx`waits
    ensures sent <==> Carries(old(tx.takes), old(tx.waits), ps)
    ensures sent ==> ((got, left) == (ps, []) <==> Readable(ps, maxLen) && Delivers(answers, ps, deadline))
  {
    var n;
    ghost var k;
    n, k := SendAll(tx, ps);
    sent, got, left := n == |ps|, [], [];
    if sent {
      var rx := new Socket(tx.wire, answers, [], []);
      assert Wire(ps) + [] == tx.wire && ps[..n] == ps;
      ReadExactly(ps, [], answers, maxLen, deadline);
      got := RecvAll(rx, n, maxLen, deadline);
      left := rx.unread;
    }
  }

  lemma Landed(p: seq<byte>, more: seq<byte>)
    requires |p| <= PAYLOAD_MAX
    ensures var s := Frame(p) + more;
            |s[..4]| == 4 && AllDigits(s[..4]) && Value(s[..4]) == |p| && s[4..4 + |p|] == p && s[4 + |p|..] == more
  {
    HeadFaithful(|p|);
    assert (Frame(p) + more)[..4] == Head(|p|);
  }
}
