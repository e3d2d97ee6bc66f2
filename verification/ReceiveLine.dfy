/** socket_receiveline of include/proxysocket.c: reading a line by peeking before consuming. */
module ReceiveLine {
  import opened IoLists

  const READ_BUFFER_SIZE: nat := 128
  const LF: byte := 10
  const CR: byte := 13

  /** A socket that can be peeked. It is alive if a peek finds a byte as long as there is one, and
      exact if a consuming recv returns the bytes that were peeked. */
  class PeekSocket {
    var unread: seq<byte>
    const alive: bool
    const exact: bool

    constructor (unread: seq<byte>, alive: bool, exact: bool)
      ensures this.unread == unread && this.alive == alive && this.exact == exact
    {
      this.unread, this.alive, this.exact := unread, alive, exact;
    }

    // recv with MSG_PEEK
    method Peek(buf: array<byte>, at: nat, want: nat) returns (n: int)
      requires at + want <= buf.Length
      modifies buf
      ensures n <= want && n <= |unread|
      ensures alive ==> n >= 0 && (unread != [] && want > 0 ==> n > 0)
      ensures n > 0 ==> buf[at..at + n] == unread[..n]
      ensures buf[..at] == old(buf[..at])
    {
      n := *;
      if n > want || n > |unread| || (n <= 0 && alive) {
        n := if want > 0 && unread != [] then 1 else 0;
      }
      Fill(buf, at, unread, n);
    }

    method Consume(buf: array<byte>, at: nat, want: nat) returns (n: int)
      requires at + want <= buf.Length
      modifies this`unread, buf
      ensures n <= want && n <= |old(unread)|
      ensures exact && want <= |old(unread)| ==> n == want
      ensures n > 0 ==> buf[at..at + n] == old(unread)[..n] && unread == old(unread)[n..]
      ensures n <= 0 ==> unread == old(unread)
      ensures buf[..at] == old(buf[..at])
    {
      n := *;
      if n > want || n > |unread| || (exact && want <= |unread|) {
        n := if want <= |unread| then want else |unread|;
      }
      Fill(buf, at, unread, n);
      if n > 0 {
        unread := unread[n..];
      }
    }
  }

  method Fill(buf: array<byte>, at: nat, bytes: seq<byte>, n: int)
    requires n <= |bytes| && at <= buf.Length && at + n <= buf.Length
    modifies buf
    ensures n > 0 ==> buf[at..at + n] == bytes[..n]
    ensures buf[..at] == old(buf[..at])
  {
    var k := 0;
    while k < n
      invariant 0 <= k && (k == 0 || k <= n)
      invariant k > 0 ==> buf[at..at + k] == bytes[..k]
      invariant buf[..at] == old(buf[..at])
    {
      buf[at + k] := bytes[k];
      k := k + 1;
    }
  }

  method Realloc(buf: array<byte>, size: nat) returns (r: array<byte>)
    ensures fresh(r) && r.Length == size
    ensures forall k :: 0 <= k < size && k < buf.Length ==> r[k] == buf[k]
  {
    r := new byte[size];
    var k := 0;
    while k < size && k < buf.Length
      invariant 0 <= k <= size
      invariant forall j :: 0 <= j < k ==> j < buf.Length && r[j] == buf[j]
    {
      r[k] := buf[k];
      k := k + 1;
    }
  }

  // The line itself: one carriage return before the line feed belongs to the line break.
  function Trimmed(line: seq<byte>): seq<byte> {
    if line != [] && line[|line| - 1] == CR then line[..|line| - 1] else line
  }

  method FindBreak(buf: array<byte>, at: nat, n: nat) returns (i: nat)
    requires at + n <= buf.Length
    ensures i <= n && LF !in buf[at..at + i]
    ensures i < n ==> buf[at + i] == LF
  {
    i := 0;
    while i < n && buf[at + i] != LF
      invariant i <= n && LF !in buf[at..at + i]
    {
      i := i + 1;
    }
  }

  // The first n bytes of the stream u are in the buffer, and there is no line feed among them.
  ghost predicate Read(u: seq<byte>, buf: array<byte>, n: nat, sock: PeekSocket)
    reads buf, sock
  {
    n <= |u| && n <= buf.Length && buf[..n] == u[..n] && sock.unread == u[n..] && LF !in u[..n]
  }

  lemma ReadNothing(u: seq<byte>, buf: array<byte>, sock: PeekSocket)
    requires sock.unread == u
    ensures Read(u, buf, 0, sock)
  {
  }

  lemma ReadMeans(u: seq<byte>, buf: array<byte>, n: nat, sock: PeekSocket)
    requires Read(u, buf, n, sock)
    ensures n <= |u| && n <= buf.Length && buf[..n] == u[..n] && sock.unread == u[n..] && LF !in u[..n]
    ensures sock.unread == [] ==> n == |u| && u[..n] == u
  {
  }

  // A line feed was peeked i bytes on: consume up to it and cut the line break off.
  method TakeBreak(sock: PeekSocket, buf: array<byte>, bufpos: nat, i: nat, ghost u: seq<byte>)
    returns (ok: bool, len: nat)
    requires bufpos + i < buf.Length
    requires sock.exact ==> Read(u, buf, bufpos, sock) && bufpos + i < |u|
    requires sock.exact ==> u[bufpos + i] == 10 && 10 !in u[bufpos..bufpos + i]
    modifies buf, sock`unread
    ensures |sock.unread| <= |old(sock.unread)|
    ensures ok ==> len < buf.Length && buf[len] == 0
    ensures sock.exact ==>
              && ok && buf[..len] == u[..if bufpos + i > 0 && u[bufpos + i - 1] == 13 then bufpos + i - 1
                                         else bufpos + i]
              && sock.unread == u[bufpos + i + 1..] && LF !in u[..bufpos + i]
  {
    hide Trimmed;
    var n := i + 1;
    var got := sock.Consume(buf, bufpos, n);
    if got != n {
      return false, 0;
    }
    ok, len := true, bufpos + i;
    if sock.exact {
      Halves(buf[..], bufpos, n);
      Halves(u, bufpos, n);
      Halves(u, bufpos, i);
      SameFront(buf[..], u, bufpos + n, len);
      TrimmedLine(buf[..], len);
      TrimmedLine(u, len);
    }
    if bufpos + i > 0 && buf[bufpos + i - 1] == CR {
      len := bufpos + i - 1;
    }
    buf[len] := 0;
  }

  lemma Halves<T>(u: seq<T>, k: nat, n: nat)
    requires k + n <= |u|
    ensures u[..k + n] == u[..k] + u[k..k + n] && u[k..k + n] == u[k..][..n] && u[k..][n..] == u[k + n..]
  {
  }

  lemma SameFront<T>(s: seq<T>, t: seq<T>, k: nat, j: nat)
    requires j <= k <= |s| && k <= |t| && s[..k] == t[..k]
    ensures s[..j] == t[..j]
  {
    assert s[..j] == s[..k][..j] && t[..j] == t[..k][..j];
  }

  lemma TrimmedLine(s: seq<byte>, k: nat)
    requires k <= |s|
    ensures Trimmed(s[..k]) == if k > 0 && s[k - 1] == CR then s[..k - 1] else s[..k]
  {
  }

  // No line feed was peeked: take what was, and make room for more.
  method TakeAll(sock: PeekSocket, buf: array<byte>, bufpos: nat, want: nat, ghost u: seq<byte>)
    returns (n: int, more: array<byte>)
    requires buf.Length == bufpos + READ_BUFFER_SIZE && 0 < want <= READ_BUFFER_SIZE
    requires sock.exact ==> Read(u, buf, bufpos, sock) && bufpos + want <= |u| && LF !in u[bufpos..bufpos + want]
    modifies buf, sock`unread
    ensures sock.exact ==> n > 0
    ensures n > 0 ==> |sock.unread| < |old(sock.unread)|
    ensures n > 0 ==> fresh(more) && more.Length == bufpos + n + READ_BUFFER_SIZE
    ensures n > 0 && sock.exact ==> Read(u, more, bufpos + n, sock)
    ensures n <= 0 ==> more == buf
  {
    n := sock.Consume(buf, bufpos, want);
    more := buf;
    if n > 0 {
      more := Realloc(buf, bufpos + n + READ_BUFFER_SIZE);
      if sock.exact {
        assert u[..bufpos + want] == u[..bufpos] + u[bufpos..bufpos + want];
        assert u[..bufpos + want] == u[..bufpos] + u[bufpos..][..want];
        assert buf[..bufpos + want] == buf[..bufpos] + buf[bufpos..bufpos + want];
        assert more[..bufpos + want] == buf[..bufpos + want];
        assert u[bufpos..][want..] == u[bufpos + want..];
      }
    }
  }

  // One turn of the loop, up to the point where the line feed is found or not.
  method PeekOn(sock: PeekSocket, buf: array<byte>, bufpos: nat, ghost u: seq<byte>) returns (n: int, i: nat)
    requires buf.Length == bufpos + READ_BUFFER_SIZE
    requires sock.exact ==> Read(u, buf, bufpos, sock)
    modifies buf
    ensures n <= READ_BUFFER_SIZE && n <= |sock.unread| && (n > 0 ==> i <= n)
    ensures sock.alive ==> n >= 0 && (sock.unread != [] ==> n > 0)
    ensures sock.exact ==> Read(u, buf, bufpos, sock)
    ensures sock.exact && n > 0 ==> bufpos + n <= |u| && LF !in u[bufpos..bufpos + i]
    ensures sock.exact && n > 0 && i < n ==> u[bufpos + i] == LF
  {
    i := 0;
    n := sock.Peek(buf, bufpos, READ_BUFFER_SIZE);
    if n > 0 {
      i := FindBreak(buf, bufpos, n);
      assert buf[bufpos..bufpos + n][..i] == buf[bufpos..bufpos + i];
      assert i < n ==> buf[bufpos..bufpos + n][i] == buf[bufpos + i];
      assert sock.exact ==> u[bufpos..][..n][..i] == u[bufpos..bufpos + i];
    }
  }

  // The end of the loop: what was read, and a terminator behind it.
  method Terminate(buf: array<byte>, n: nat) returns (out: array<byte>)
    requires n < buf.Length
    modifies buf
    ensures (out == buf || fresh(out)) && n < out.Length && out[n] == 0 && out[..n] == old(buf[..n])
  {
    out := buf;
    if n >= READ_BUFFER_SIZE {
      out := Realloc(buf, n + 1);
    }
    out[n] := 0;
  }

  /** socket_receiveline. The line is out[..len], `end` the length of the stream before its line
      break; without one, the line is what was read until the stream ended or failed. */
  method ReceiveLine(sock: PeekSocket?) returns (out: array?<byte>, len: nat, ghost found: bool, ghost end: nat)
    modifies if sock == null then {} else {sock}
    ensures sock == null ==> out == null
    ensures out != null ==> fresh(out) && len < out.Length && out[len] == 0
    ensures sock != null && sock.exact ==>
              && end <= |old(sock.unread)| && 10 !in old(sock.unread)[..end]
              && (out == null ==> !found && end == 0)
              && (found ==> end < |old(sock.unread)| && old(sock.unread)[end] == 10
                            && out[..len] == old(sock.unread)[..if end > 0 && old(sock.unread)[end - 1] == 13
                                                               then end - 1 else end])
              && (!found && out != null ==> out[..len] == old(sock.unread)[..end])
              && sock.unread == old(sock.unread)[if found then end + 1 else end..]
    ensures sock != null && sock.exact && sock.alive ==>
              out != null && (found <==> 10 in old(sock.unread)) && (!found ==> end == |old(sock.unread)|)
  {
    hide Trimmed, Read;
    found, end, len := false, 0, 0;
    if sock == null {
      return null, 0, found, end;
    }
    ghost var u := sock.unread;
    var buf := new byte[READ_BUFFER_SIZE];
    var bufpos := 0;
    var n;
    ReadNothing(u, buf, sock);
    while true
      invariant 0 <= bufpos && buf.Length == bufpos + READ_BUFFER_SIZE && fresh(buf)
      invariant sock.exact ==> Read(u, buf, bufpos, sock)
      decreases |sock.unread|
    {
      var i;
      n, i := PeekOn(sock, buf, bufpos, u);
      if n <= 0 {
        break;
      }
      if i < n {
        n := i + 1;
        var ok;
        ok, len := TakeBreak(sock, buf, bufpos, i, u);
        if ok {
          return buf, len, true, bufpos + i;
        }
      }
      n, buf := TakeAll(sock, buf, bufpos, n, u);
      if n <= 0 {
        break;
      }
      bufpos := bufpos + n;
    }
    end := bufpos;
    if sock.exact {
      ReadMeans(u, buf, bufpos, sock);
    }
    if bufpos == 0 && n < 0 {
      return null, 0, false, end;
    }
    out := Terminate(buf, bufpos);
    return out, bufpos, false, end;
  }
}
