/** include/base64.c and make_base64_string of include/proxysocket.c: two encoders, one decoder. */
module Base64 {
  import opened IoLists
  import opened DataStructs
  import opened Bits

  const PAD: byte := 61
  const NEWLINE: byte := 10
  const LINE: nat := 72
  // What the decoding table holds for a byte outside the alphabet.
  const SKIP: nat := 0x80

  type sextet = v: int | 0 <= v < 64

  // The alphabet, as make_base64_string builds it; base64_encode spells the same one out.
  function Sym(v: sextet): byte {
    if v < 26 then 65 + v
    else if v < 52 then 97 + (v - 26)
    else if v < 62 then 48 + (v - 52)
    else if v == 62 then 43
    else 47
  }

  // The decoding table.
  function Val(b: byte): (v: nat)
    ensures v == SKIP || v < 64
  {
    if 65 <= b <= 90 then b - 65
    else if 97 <= b <= 122 then b - 97 + 26
    else if 48 <= b <= 57 then b - 48 + 52
    else if b == 43 then 62
    else if b == 47 then 63
    else if b == PAD then 0
    else SKIP
  }

  const UPPER := "ABCDEFGHIJKLMNOPQRSTUVWXYZ"
  const LOWER := "abcdefghijklmnopqrstuvwxyz"
  const FIGURES := "0123456789"
  const ALPHABET := UPPER + LOWER + FIGURES + "+/"

  function Letter(v: sextet): char {
    ALPHABET[v]
  }

  lemma UpperAt(i: nat)
    requires i < 26
    ensures UPPER[i] as int == 65 + i
  {
  }

  lemma LowerAt(i: nat)
    requires i < 26
    ensures LOWER[i] as int == 97 + i
  {
  }

  lemma FigureAt(i: nat)
    requires i < 10
    ensures FIGURES[i] as int == 48 + i
  {
  }

  lemma LetterAt(v: sextet)
    ensures v < 26 ==> Letter(v) == UPPER[v]
    ensures 26 <= v < 52 ==> Letter(v) == LOWER[v - 26]
    ensures 52 <= v < 62 ==> Letter(v) == FIGURES[v - 52]
    ensures v >= 62 ==> Letter(v) == if v == 62 then '+' else '/'
  {
  }

  // The alphabet, spelled out.
  lemma SymSpelled(v: sextet)
    ensures Sym(v) == Letter(v) as int
  {
    hide Letter;
    LetterAt(v);
    if v < 26 {
      UpperAt(v);
    } else if v < 52 {
      LowerAt(v - 26);
    } else if v < 62 {
      FigureAt(v - 52);
    }
  }

  // The decoding table, read off the alphabet: only its characters and the padding are in it.
  lemma ValSpelled(b: byte)
    ensures forall v: sextet :: Letter(v) != '=' && (Letter(v) as int == b ==> Val(b) == v)
    ensures Val(b) != SKIP <==> b == '=' as int || exists v: sextet :: Letter(v) as int == b
    ensures Val('=' as int) == 0
  {
    hide Sym, Letter;
    forall v: sextet
      ensures Letter(v) != '=' && (Letter(v) as int == b ==> Val(b) == v)
    {
      SymSpelled(v);
      ValSym(v);
    }
    if Val(b) != SKIP && b != PAD {
      SymVal(b);
      SymSpelled(Val(b));
    }
  }

  // Characters of the alphabet and paddings only.
  predicate Clean(f: seq<byte>) {
    forall i :: 0 <= i < |f| ==> Val(f[i]) != SKIP
  }

  lemma ValSym(v: sextet)
    ensures Val(Sym(v)) == v && Sym(v) != PAD && Sym(v) != NEWLINE
  {
  }

  // -- encoding

  // The four characters of a group of three bytes, and of the one or two bytes that may be left over.
  function Group(a: byte, b: byte, c: byte): (g: seq<byte>)
    ensures |g| == 4
  {
    [Sym(a / 4), Sym(a % 4 * 16 + b / 16), Sym(b % 16 * 4 + c / 64), Sym(c % 64)]
  }

  function Tail(s: seq<byte>): (t: seq<byte>)
    requires 1 <= |s| <= 2
    ensures |t| == 4
  {
    if |s| == 1 then [Sym(s[0] / 4), Sym(s[0] % 4 * 16), PAD, PAD]
    else [Sym(s[0] / 4), Sym(s[0] % 4 * 16 + s[1] / 16), Sym(s[1] % 16 * 4), PAD]
  }

  function Groups(s: seq<byte>): (e: seq<byte>)
    ensures |e| == (|s| + 2) / 3 * 4
  {
    if s == [] then [] else if |s| < 3 then Tail(s) else Group(s[0], s[1], s[2]) + Groups(s[3..])
  }

  function ByteOr0(s: seq<byte>, i: nat): byte {
    if i < |s| then s[i] else 0
  }

  // The k-th of the four characters that stand for the bytes a, b and c, of which there are n: six
  // bits of them, from the front, looked up in the alphabet; a padding where no byte supplies any.
  function Quarter(a: byte, b: byte, c: byte, k: nat, n: int): char {
    var bits := a * 0x10000 + b * 0x100 + c;
    if k > n then '='
    else match k
      case 0 => Letter(bits / 0x40000)
      case 1 => Letter(bits / 0x1000 % 64)
      case 2 => Letter(bits / 64 % 64)
      case _ => Letter(bits % 64)
  }

  // The j-th character of the text for the bytes s.
  function CharAt(s: seq<byte>, j: nat): char {
    var i := j / 4 * 3;
    Quarter(ByteOr0(s, i), ByteOr0(s, i + 1), ByteOr0(s, i + 2), j % 4, |s| - i)
  }

  lemma SixBits(a: byte, b: byte, c: byte)
    ensures var n := a * 0x10000 + b * 0x100 + c;
            && n / 0x40000 == a / 4 && n / 0x1000 % 64 == a % 4 * 16 + b / 16
            && n / 64 % 64 == b % 16 * 4 + c / 64 && n % 64 == c % 64
  {
    var n := a * 0x10000 + b * 0x100 + c;
    DivModUnique(n, 0x40000, a / 4, a % 4 * 0x10000 + b * 0x100 + c);
    DivModUnique(n, 0x1000, a * 16 + b / 16, b % 16 * 0x100 + c);
    DivModUnique(a * 16 + b / 16, 64, a / 4, a % 4 * 16 + b / 16);
    DivModUnique(n, 64, a * 1024 + b * 4 + c / 64, c % 64);
    DivModUnique(a * 1024 + b * 4 + c / 64, 64, a * 16 + b / 16, b % 16 * 4 + c / 64);
  }

  // The four sextets of three bytes.
  function Sextet(a: byte, b: byte, c: byte, k: nat): sextet {
    match k
    case 0 => a / 4
    case 1 => a % 4 * 16 + b / 16
    case 2 => b % 16 * 4 + c / 64
    case _ => c % 64
  }

  lemma QuarterIs(a: byte, b: byte, c: byte, k: nat, n: int)
    requires k < 4
    ensures Quarter(a, b, c, k, n) == if k > n then '=' else Letter(Sextet(a, b, c, k))
  {
    hide Letter;
    SixBits(a, b, c);
  }

  lemma GroupSextets(a: byte, b: byte, c: byte, j: nat)
    requires j < 4
    ensures Group(a, b, c)[j] == Sym(Sextet(a, b, c, j))
  {
    hide Sym;
  }

  lemma TailSextets(s: seq<byte>, j: nat)
    requires 1 <= |s| <= 2 && j < 4
    ensures Tail(s)[j] == if j > |s| then PAD else Sym(Sextet(s[0], ByteOr0(s, 1), 0, j))
  {
    hide Sym;
  }

  lemma FirstSextets(s: seq<byte>, j: nat)
    requires s != [] && j < 4
    ensures Groups(s)[j] == if j > |s| then PAD else Sym(Sextet(s[0], ByteOr0(s, 1), ByteOr0(s, 2), j))
  {
    hide Sym, Sextet, Group, Tail;
    if |s| < 3 {
      TailSextets(s, j);
    } else {
      GroupSextets(s[0], s[1], s[2], j);
    }
  }

  lemma FirstChars(s: seq<byte>, j: nat)
    requires s != [] && j < 4
    ensures Groups(s)[j] == Quarter(s[0], ByteOr0(s, 1), ByteOr0(s, 2), j, |s|) as int
  {
    hide Sym, Letter, Sextet, Quarter, Groups;
    FirstSextets(s, j);
    QuarterIs(s[0], ByteOr0(s, 1), ByteOr0(s, 2), j, |s|);
    SymSpelled(Sextet(s[0], ByteOr0(s, 1), ByteOr0(s, 2), j));
  }

  lemma LaterChars(s: seq<byte>, j: nat)
    requires |s| >= 3 && j >= 4
    ensures CharAt(s, j) == CharAt(s[3..], j - 4)
  {
    hide Quarter;
    DivModUnique(j, 4, (j - 4) / 4 + 1, (j - 4) % 4);
    assert j / 4 * 3 == (j - 4) / 4 * 3 + 3;
  }

  lemma GroupsNext(s: seq<byte>, j: nat)
    requires 4 <= j < (|s| + 2) / 3 * 4
    ensures |s| > 3 && j - 4 < (|s| - 3 + 2) / 3 * 4 && Groups(s)[j] == Groups(s[3..])[j - 4]
  {
    hide Group, Tail, Groups;
    FourLess(|s|, j);
    GroupsCons(s);
    Behind(Group(s[0], s[1], s[2]), Groups(s[3..]), j);
  }

  lemma FourLess(n: nat, j: nat)
    requires 4 <= j < (n + 2) / 3 * 4
    ensures n > 3 && j - 4 < (n - 3 + 2) / 3 * 4
  {
  }

  lemma Behind<T>(a: seq<T>, b: seq<T>, j: nat)
    requires |a| <= j < |a| + |b|
    ensures (a + b)[j] == b[j - |a|]
  {
  }

  lemma GroupsCons(s: seq<byte>)
    ensures |s| >= 3 ==> Groups(s) == Group(s[0], s[1], s[2]) + Groups(s[3..])
  {
    hide Group, Tail;
  }

  // Every character of the text without line feeds.
  lemma {:induction false} GroupsAt(s: seq<byte>, j: nat)
    requires j < (|s| + 2) / 3 * 4
    ensures Groups(s)[j] == CharAt(s, j) as int
    decreases |s|
  {
    hide Quarter, Groups;
    if j < 4 {
      FirstChars(s, j);
    } else {
      LaterChars(s, j);
      GroupsNext(s, j);
      GroupsAt(s[3..], j - 4);
    }
  }

  // The text in lines of at most 72 characters; the current one has col of them already.
  function Lines(e: seq<byte>, col: nat): seq<byte>
    requires col < LINE
  {
    if col + |e| == 0 then []
    else if col + |e| < LINE then e + [NEWLINE]
    else e[..LINE - col] + [NEWLINE] + Lines(e[LINE - col..], 0)
  }

  function Encode(s: seq<byte>): seq<byte> {
    Lines(Groups(s), 0)
  }

  lemma LinesStep(g: seq<byte>, e: seq<byte>, col: nat)
    requires |g| == 4 && col + 4 <= LINE
    ensures Lines(g + e, col) == g + if col + 4 == LINE then [NEWLINE] + Lines(e, 0) else Lines(e, col + 4)
  {
    var t := g + e;
    if col + 4 == LINE {
      assert t[..LINE - col] == g && t[LINE - col..] == e;
    } else if col + |t| >= LINE {
      var n := LINE - col;
      assert t[..n] == g + e[..n - 4] && t[n..] == e[n - 4..];
    }
  }

  // Where a character goes when the text is cut into lines, ...
  lemma {:induction false} LinesAt(e: seq<byte>, col: nat, j: nat)
    requires col < 72 && j < |e|
    ensures j + (col + j) / 72 < |Lines(e, col)| && Lines(e, col)[j + (col + j) / 72] == e[j]
    decreases |e|
  {
    var n := 72 - col;
    if col + |e| >= 72 && j >= n {
      LinesAt(e[n..], 0, j - n);
      assert (col + j) / 72 == 1 + (j - n) / 72;
    }
  }

  // ... and where the line feeds stand.
  lemma {:induction false} FeedsAt(e: seq<byte>, col: nat, k: nat)
    requires col < 72 && k < |Lines(e, col)| && ((col + k) % 73 == 72 || k == |Lines(e, col)| - 1)
    ensures Lines(e, col)[k] == '\n' as int
    decreases |e|
  {
    var n := 72 - col;
    if col + |e| >= 72 && k > n {
      FeedsAt(e[n..], 0, k - n - 1);
    }
  }

  // The whole text, character by character: lines of 72, each with its line feed.
  lemma EncodeReads(s: seq<byte>)
    ensures var m, t := (|s| + 2) / 3 * 4, Encode(s);
            && |t| == m + (m + 71) / 72
            && (forall j :: 0 <= j < m ==> t[j + j / 72] == CharAt(s, j) as int)
            && forall k :: 0 <= k < |t| && (k % 73 == 72 || k == |t| - 1) ==> t[k] == '\n' as int
  {
    hide CharAt, Lines;
    var m, e := (|s| + 2) / 3 * 4, Groups(s);
    LinesLength(e, 0);
    forall j | 0 <= j < m
      ensures j + j / 72 < |Lines(e, 0)| && Lines(e, 0)[j + j / 72] == CharAt(s, j) as int
    {
      LinesAt(e, 0, j);
      GroupsAt(s, j);
    }
    forall k | 0 <= k < |Lines(e, 0)| && (k % 73 == 72 || k == |Lines(e, 0)| - 1)
      ensures Lines(e, 0)[k] == '\n' as int
    {
      FeedsAt(e, 0, k);
    }
  }

  lemma {:induction false} LinesLength(e: seq<byte>, col: nat)
    requires col < LINE
    ensures |Lines(e, col)| == |e| + (col + |e| + LINE - 1) / LINE
  {
    if col + |e| >= LINE {
      LinesLength(e[LINE - col..], 0);
    }
  }

  // -- decoding

  // What the decoder looks at: the characters of the alphabet and the padding.
  function Filter(s: seq<byte>): seq<byte> {
    if s == [] then [] else if Val(s[0]) == SKIP then Filter(s[1..]) else [s[0]] + Filter(s[1..])
  }

  function Pads(s: seq<byte>): nat {
    if s == [] then 0 else Pads(s[..|s| - 1]) + (if s[|s| - 1] == PAD then 1 else 0)
  }

  lemma PadsOfFour(a: byte, b: byte, c: byte, d: byte)
    ensures Pads([a, b, c, d]) == Pads([a]) + Pads([b]) + Pads([c]) + Pads([d])
  {
    assert [a, b, c, d][..3] == [a, b, c] && [a, b, c][..2] == [a, b] && [a, b][..1] == [a];
    assert Pads([a, b]) == Pads([a]) + Pads([b]);
    assert Pads([a, b, c]) == Pads([a, b]) + Pads([c]);
  }

  // The three bytes of a group of four table entries.
  function Bytes(a: sextet, b: sextet, c: sextet, d: sextet): (s: seq<byte>)
    ensures |s| == 3
  {
    [a * 4 + b / 16, b % 16 * 16 + c / 4, c % 4 * 64 + d]
  }

  function Prepend(s: seq<byte>, r: Option<seq<byte>>): Option<seq<byte>> {
    match r
    case None => None
    case Some(t) => Some(s + t)
  }

  // Groups of four up to the first one with padding; more than two paddings in it are an error.
  function Ungroup(f: seq<byte>): Option<seq<byte>>
    requires Clean(f)
  {
    if |f| < 4 then Some([])
    else
      var bytes := Bytes(Val(f[0]), Val(f[1]), Val(f[2]), Val(f[3]));
      match Pads(f[..4])
      case 0 => Prepend(bytes, Ungroup(f[4..]))
      case 1 => Some(bytes[..2])
      case 2 => Some(bytes[..1])
      case _ => None
  }

  lemma {:induction false} PadsCount(s: seq<byte>)
    ensures Pads(s) == multiset(s)[PAD]
  {
    if s != [] {
      var n := |s| - 1;
      PadsCount(s[..n]);
      assert s == s[..n] + [s[n]];
    }
  }

  // The paddings in the i-th block of four.
  function PadsIn(f: seq<byte>, i: nat): nat
    requires 4 * i + 4 <= |f|
  {
    multiset(f[4 * i..4 * i + 4])['=' as int]
  }

  // The first block with a padding in it has more than two.
  ghost predicate TooManyPads(f: seq<byte>) {
    exists i :: 0 <= i && 4 * i + 4 <= |f| && PadsIn(f, i) > 2 && forall j :: 0 <= j < i ==> PadsIn(f, j) == 0
  }

  // The m-th byte of a text without padding: eight bits of the six that each character stands for.
  function ByteAt(f: seq<byte>, m: nat): nat
    requires m / 3 * 4 + 4 <= |f|
  {
    var i := m / 3 * 4;
    Octet(Val(f[i]), Val(f[i + 1]), Val(f[i + 2]), Val(f[i + 3]), m % 3)
  }

  function Octet(a: nat, b: nat, c: nat, d: nat, k: nat): nat {
    var bits := a * 0x40000 + b * 0x1000 + c * 64 + d;
    match k
    case 0 => bits / 0x10000
    case 1 => bits / 0x100 % 256
    case _ => bits % 256
  }

  // t are the bytes of g blocks without padding, and of the one after them, with padding, if there is one.
  ghost predicate Decoded(f: seq<byte>, g: nat, t: seq<byte>) {
    && 4 * g <= |f| && |f| % 4 == 0 && (forall j :: 0 <= j < g ==> PadsIn(f, j) == 0)
    && (4 * g < |f| ==> 0 < PadsIn(f, g) <= 2)
    && |t| == 3 * g + (if 4 * g < |f| then 3 - PadsIn(f, g) else 0)
    && forall m :: 0 <= m < |t| ==> t[m] == ByteAt(f, m)
  }

  lemma BytesOctets(a: sextet, b: sextet, c: sextet, d: sextet, k: nat)
    requires k < 3
    ensures Bytes(a, b, c, d)[k] == Octet(a, b, c, d, k)
  {
    var bits := a * 0x40000 + b * 0x1000 + c * 64 + d;
    DivModUnique(bits, 0x10000, a * 4 + b / 16, b % 16 * 0x1000 + c * 64 + d);
    DivModUnique(bits, 0x100, a * 1024 + b * 16 + c / 4, c % 4 * 64 + d);
    DivModUnique(a * 1024 + b * 16 + c / 4, 256, a * 4 + b / 16, b % 16 * 16 + c / 4);
    DivModUnique(bits, 256, a * 1024 + b * 16 + c / 4, c % 4 * 64 + d);
  }

  lemma PadsAhead(f: seq<byte>, i: nat)
    requires 4 * i + 8 <= |f|
    ensures PadsIn(f, i + 1) == PadsIn(f[4..], i)
  {
    assert f[4..][4 * i..4 * i + 4] == f[4 * (i + 1)..4 * (i + 1) + 4];
  }

  lemma ByteAhead(f: seq<byte>, m: nat)
    requires m >= 3 && m / 3 * 4 + 4 <= |f|
    ensures ByteAt(f, m) == ByteAt(f[4..], m - 3)
  {
    hide Octet, Val;
    DivModUnique(m, 3, (m - 3) / 3 + 1, (m - 3) % 3);
  }

  lemma FirstBlock(f: seq<byte>, m: nat)
    requires Clean(f) && |f| >= 4 && m < 3
    ensures var bytes := Bytes(Val(f[0]), Val(f[1]), Val(f[2]), Val(f[3])); bytes[m] == ByteAt(f, m)
    ensures Pads(f[..4]) == PadsIn(f, 0)
  {
    hide Octet, Val, Bytes;
    BytesOctets(Val(f[0]), Val(f[1]), Val(f[2]), Val(f[3]), m);
    assert f[0..4] == f[..4];
    PadsCount(f[..4]);
  }

  lemma PadsFirst(f: seq<byte>)
    requires |f| >= 4
    ensures TooManyPads(f) <==> PadsIn(f, 0) > 2 || (PadsIn(f, 0) == 0 && TooManyPads(f[4..]))
  {
    hide PadsIn;
    if TooManyPads(f) && PadsIn(f, 0) <= 2 {
      var i :| 0 <= i && 4 * i + 4 <= |f| && PadsIn(f, i) > 2 && forall j :: 0 <= j < i ==> PadsIn(f, j) == 0;
      PadsAhead(f, i - 1);
      forall j | 0 <= j < i - 1
        ensures PadsIn(f[4..], j) == 0
      {
        PadsAhead(f, j);
      }
    }
    if PadsIn(f, 0) == 0 && TooManyPads(f[4..]) {
      var t := f[4..];
      var i :| 0 <= i && 4 * i + 4 <= |t| && PadsIn(t, i) > 2 && forall j :: 0 <= j < i ==> PadsIn(t, j) == 0;
      PadsAhead(f, i);
      forall j | 0 <= j < i + 1
        ensures PadsIn(f, j) == 0
      {
        if j > 0 {
          PadsAhead(f, j - 1);
        }
      }
    }
  }

  /** What decoding makes of a text of whole blocks, bit by bit. */
  lemma {:induction false} UngroupExactly(f: seq<byte>) returns (g: nat)
    requires Clean(f) && |f| % 4 == 0
    ensures Ungroup(f) == None <==> TooManyPads(f)
    ensures Ungroup(f).Some? ==> Decoded(f, g, Ungroup(f).value)
  {
    hide Val, Bytes, ByteAt, PadsIn, TooManyPads;
    g := 0;
    if f != [] {
      FirstBlock(f, 0);
      FirstBlock(f, 1);
      FirstBlock(f, 2);
      PadsFirst(f);
      if PadsIn(f, 0) == 0 {
        var h := UngroupExactly(f[4..]);
        if Ungroup(f[4..]).Some? {
          DecodedMore(f, h, Ungroup(f[4..]).value);
          g := h + 1;
        }
      }
    } else {
      NoPads();
    }
  }

  lemma NoPads()
    ensures !TooManyPads([])
  {
  }

  lemma DecodedMore(f: seq<byte>, h: nat, t: seq<byte>)
    requires Clean(f) && |f| >= 4 && PadsIn(f, 0) == 0 && Decoded(f[4..], h, t)
    ensures Decoded(f, h + 1, Bytes(Val(f[0]), Val(f[1]), Val(f[2]), Val(f[3])) + t)
  {
    hide Val, Bytes, ByteAt, PadsIn;
    forall j | 0 <= j < h + 1
      ensures PadsIn(f, j) == 0
    {
      if j > 0 {
        PadsAhead(f, j - 1);
      }
    }
    if 4 * h < |f[4..]| {
      PadsAhead(f, h);
    }
    var s := Bytes(Val(f[0]), Val(f[1]), Val(f[2]), Val(f[3])) + t;
    forall m | 0 <= m < |s|
      ensures m / 3 * 4 + 4 <= |f| && s[m] == ByteAt(f, m)
    {
      if m < 3 {
        FirstBlock(f, m);
      } else {
        ByteAhead(f, m);
      }
    }
  }

  lemma {:induction false} FilterKeeps(s: seq<byte>)
    ensures Clean(Filter(s))
    ensures |Filter(s)| <= |s|
  {
    if s != [] {
      FilterKeeps(s[1..]);
    }
  }

  function Decode(s: seq<byte>): Option<seq<byte>> {
    FilterKeeps(s);
    var f := Filter(s);
    if f == [] || |f| % 4 != 0 then None else Ungroup(f)
  }

  lemma {:induction false} FilterConcat(s: seq<byte>, t: seq<byte>)
    ensures Filter(s + t) == Filter(s) + Filter(t)
  {
    if s == [] {
      assert s + t == t;
    } else {
      assert (s + t)[1..] == s[1..] + t;
      FilterConcat(s[1..], t);
    }
  }

  // With FilterConcat: the characters that are kept are those of the alphabet and the paddings.
  lemma FilterOne(b: byte)
    ensures Filter([b]) == if b == '=' as int || exists v: sextet :: Letter(v) as int == b then [b] else []
  {
    hide Val, Letter;
    ValSpelled(b);
    assert [b][1..] == [];
  }

  /** Bytes outside the alphabet change nothing, wherever they stand. */
  lemma JunkIgnored(s: seq<byte>, junk: seq<byte>, t: seq<byte>)
    requires forall i :: 0 <= i < |junk| ==> Val(junk[i]) == SKIP
    ensures Decode(s + junk + t) == Decode(s + t)
  {
    FilterJunk(junk);
    FilterConcat(s + junk, t);
    FilterConcat(s, junk);
    FilterConcat(s, t);
    assert Filter(s) + [] == Filter(s);
  }

  lemma {:induction false} FilterJunk(junk: seq<byte>)
    requires forall i :: 0 <= i < |junk| ==> Val(junk[i]) == SKIP
    ensures Filter(junk) == []
  {
    if junk != [] {
      FilterJunk(junk[1..]);
    }
  }

  // -- the round trip

  lemma {:induction false} FilterClean(e: seq<byte>)
    requires Clean(e)
    ensures Filter(e) == e
  {
    if e != [] {
      FilterClean(e[1..]);
    }
  }

  lemma FilterLine(e: seq<byte>)
    requires Clean(e)
    ensures Filter(e + [NEWLINE]) == e
    ensures forall b :: b in e + [NEWLINE] ==> b == NEWLINE || Val(b) != SKIP
  {
    FilterJunk([NEWLINE]);
    FilterConcat(e, [NEWLINE]);
    FilterClean(e);
  }

  // The first line, and what comes after it.
  lemma FirstLine(e: seq<byte>, col: nat)
    requires col < LINE && Clean(e)
    ensures col + |e| == 0 ==> e == [] && Lines(e, col) == []
    ensures 0 < col + |e| < LINE ==> Lines(e, col) == e + [NEWLINE]
    ensures col + |e| >= LINE ==>
              var a, b := e[..LINE - col], e[LINE - col..];
              e == a + b && Clean(a) && Clean(b) && Lines(e, col) == a + [NEWLINE] + Lines(b, 0)
  {
  }

  /** The two encoders agree but for the line feeds. */
  lemma {:induction false} SameText(e: seq<byte>, col: nat)
    requires col < LINE && Clean(e)
    ensures Filter(Lines(e, col)) == e
    ensures forall b :: b in Lines(e, col) ==> b == NEWLINE || Val(b) != SKIP
  {
    hide Filter, Val, Lines, Clean;
    FirstLine(e, col);
    if col + |e| == 0 {
      FilterJunk([]);
    } else if col + |e| < LINE {
      FilterLine(e);
    } else {
      var a, b := e[..LINE - col], e[LINE - col..];
      FilterConcat(a + [NEWLINE], Lines(b, 0));
      FilterLine(a);
      SameText(b, 0);
    }
  }

  lemma {:induction false} GroupsInAlphabet(s: seq<byte>)
    ensures Clean(Groups(s))
  {
    if |s| >= 3 {
      GroupsInAlphabet(s[3..]);
    }
  }

  // The sextets of three bytes, put together again.
  lemma Rejoin(a: byte, b: byte, c: byte)
    ensures Bytes(a / 4, a % 4 * 16 + b / 16, b % 16 * 4 + c / 64, c % 64) == [a, b, c]
  {
    assert (a % 4 * 16 + b / 16) / 16 == a % 4 && (a % 4 * 16 + b / 16) % 16 == b / 16;
    assert (b % 16 * 4 + c / 64) / 4 == b % 16 && (b % 16 * 4 + c / 64) % 4 == c / 64;
  }

  // A group of four characters for the sextets a, b, c and d, with p paddings at the end.
  lemma UngroupOne(g: seq<byte>, f: seq<byte>, p: nat)
    requires |g| == 4 && p <= 2 && Clean(g)
    requires forall i :: 0 <= i < 4 ==> (g[i] == PAD <==> i >= 4 - p)
    requires Clean(f)
    ensures Clean(g + f)
    ensures var bytes := Bytes(Val(g[0]), Val(g[1]), Val(g[2]), Val(g[3]));
            Ungroup(g + f) == if p == 0 then Prepend(bytes, Ungroup(f)) else Some(bytes[..3 - p])
  {
    PadsOfFour(g[0], g[1], g[2], g[3]);
    assert g == [g[0], g[1], g[2], g[3]];
    assert (g + f)[..4] == g && (g + f)[4..] == f;
    assert Pads([g[0]]) + Pads([g[1]]) + Pads([g[2]]) + Pads([g[3]]) == p;
  }

  lemma ValPad()
    ensures Val(PAD) == 0
  {
  }

  lemma GroupVals(a: byte, b: byte, c: byte)
    ensures var g := Group(a, b, c);
            && Clean(g) && PAD !in g && Val(g[0]) == a / 4 && Val(g[1]) == a % 4 * 16 + b / 16
            && Val(g[2]) == b % 16 * 4 + c / 64 && Val(g[3]) == c % 64
  {
    hide Sym, Val;
    ValSym(a / 4);
    ValSym(a % 4 * 16 + b / 16);
    ValSym(b % 16 * 4 + c / 64);
    ValSym(c % 64);
  }

  lemma TailVals(s: seq<byte>, b: byte)
    requires 1 <= |s| <= 2 && b == (if |s| == 2 then s[1] else 0)
    ensures var g := Tail(s);
            && Clean(g) && (forall i :: 0 <= i < 4 ==> (g[i] == PAD <==> i > |s|))
            && Val(g[0]) == s[0] / 4 && Val(g[1]) == s[0] % 4 * 16 + b / 16 && Val(g[2]) == b % 16 * 4 && Val(g[3]) == 0
  {
    hide Sym, Val;
    ValSym(s[0] / 4);
    ValSym(s[0] % 4 * 16 + b / 16);
    ValSym(b % 16 * 4);
    ValPad();
  }

  lemma UngroupTail(s: seq<byte>)
    requires 1 <= |s| <= 2
    ensures Clean(Tail(s)) && Ungroup(Tail(s)) == Some(s)
  {
    hide Val, Tail, Ungroup, Clean;
    var b := if |s| == 2 then s[1] else 0;
    TailVals(s, b);
    Rejoin(s[0], b, 0);
    CleanNothing();
    UngroupOne(Tail(s), [], 3 - |s|);
    assert Tail(s) + [] == Tail(s);
    assert s == [s[0], b, 0][..|s|];
  }

  lemma CleanNothing()
    ensures Clean([])
  {
  }

  lemma UngroupStep(a: byte, b: byte, c: byte, f: seq<byte>, t: seq<byte>)
    requires Clean(f) && Ungroup(f) == Some(t)
    ensures Clean(Group(a, b, c) + f)
    ensures Ungroup(Group(a, b, c) + f) == Some([a, b, c] + t)
  {
    hide Ungroup, Group, Val, Clean;
    GroupVals(a, b, c);
    Rejoin(a, b, c);
    UngroupOne(Group(a, b, c), f, 0);
  }

  lemma {:induction false} UngroupGroups(s: seq<byte>)
    ensures Clean(Groups(s))
    ensures Ungroup(Groups(s)) == Some(s)
  {
    hide Val, Ungroup, Tail, Group;
    GroupsInAlphabet(s);
    if |s| >= 3 {
      UngroupGroups(s[3..]);
      UngroupStep(s[0], s[1], s[2], Groups(s[3..]), s[3..]);
      assert s == [s[0], s[1], s[2]] + s[3..];
    } else if s != [] {
      UngroupTail(s);
    } else {
      UngroupNothing();
    }
  }

  lemma UngroupNothing()
    ensures Ungroup([]) == Some([])
  {
  }

  /** What was encoded is decoded again, except that nothing comes back of nothing. */
  lemma {:induction false} RoundTrip(s: seq<byte>)
    ensures Decode(Encode(s)) == Some(s) <==> s != []
  {
    hide Lines, Groups, Ungroup, Filter, Val;
    UngroupGroups(s);
    SameText(Groups(s), 0);
  }

  // The same for the encoder without line feeds.
  lemma {:induction false} RoundTripUnlined(s: seq<byte>)
    ensures Decode(Groups(s)) == Some(s) <==> s != []
  {
    hide Groups, Ungroup, Filter, Val;
    UngroupGroups(s);
    FilterClean(Groups(s));
  }

  // -- the size of the encoder's buffer, in 64-bit arithmetic

  const WORD: nat := 0x1_0000_0000_0000_0000

  function OutSize(len: nat): nat {
    var o := (len * 4 % WORD / 3 + 4) % WORD;
    ((o + o / 72) % WORD + 1) % WORD
  }

  function TextLength(n: nat): nat {
    var chars := (n + 2) / 3 * 4;
    chars + (chars + LINE - 1) / LINE
  }

  // Only the multiplication by four can wrap.
  lemma OutSizeIs(len: nat, m: nat, o: nat)
    requires m == len % (WORD / 4) && o == m * 4 / 3 + 4
    ensures OutSize(len) == o + o / 72 + 1
  {
    var k := len / (WORD / 4);
    assert len * 4 == k * WORD + m * 4;
    DivModUnique(len * 4, WORD, k, m * 4);
    Small(o);
    Small(o + o / 72);
    Small(o + o / 72 + 1);
  }

  lemma Small(x: nat)
    ensures x < WORD ==> x % WORD == x
  {
  }

  // The encoder's overflow test is exact: it refuses a length when and only when four times it wraps.
  lemma GuardExact(len: nat)
    requires len < WORD
    ensures OutSize(len) < len <==> len >= WORD / 4
  {
    hide OutSize;
    var m := len % (WORD / 4);
    var o := m * 4 / 3 + 4;
    OutSizeIs(len, m, o);
    if len >= WORD / 4 {
      assert m <= len - WORD / 4;
      assert 72 * (o + o / 72 + 1) <= 73 * o + 72 && 3 * o <= 4 * m + 12;
    }
  }

  // The text and its terminator fit, and one byte of input leaves nothing to spare.
  lemma {:induction false} TextFits(len: nat)
    requires len < WORD / 4
    ensures TextLength(len) + 1 <= OutSize(len)
    ensures TextLength(1) + 1 == OutSize(1)
  {
    hide OutSize;
    var o := len * 4 / 3 + 4;
    Small4(len);
    OutSizeIs(len, len, o);
    OutSizeIs(1, 1, 5);
    var chars := (len + 2) / 3 * 4;
    assert chars + 1 <= o;
    assert (chars + LINE - 1) / LINE <= (chars + 1) / 72 + 1;
  }

  lemma Small4(x: nat)
    ensures x < WORD / 4 ==> x % (WORD / 4) == x
  {
  }

  lemma EncodeLength(s: seq<byte>)
    ensures |Encode(s)| == TextLength(|s|)
  {
    LinesLength(Groups(s), 0);
  }

  // -- base64_encode

  method PutFour(out: array<byte>, pos: nat, g: seq<byte>)
    requires |g| == 4 && pos + 4 <= out.Length
    modifies out
    ensures out[..pos + 4] == old(out[..pos]) + g
  {
    out[pos] := g[0];
    out[pos + 1] := g[1];
    out[pos + 2] := g[2];
    out[pos + 3] := g[3];
  }

  // What follows when the next four characters are g and the text after them is e.
  lemma LinesAhead(done: seq<byte>, g: seq<byte>, e: seq<byte>, col: nat)
    requires |g| == 4 && col + 4 <= LINE
    ensures col + 4 == LINE ==> done + Lines(g + e, col) == done + g + [NEWLINE] + Lines(e, 0)
    ensures col + 4 < LINE ==> done + Lines(g + e, col) == done + g + Lines(e, col + 4)
  {
    LinesStep(g, e, col);
  }

  // The main loop: whole groups of three bytes.
  method EncodeWhole(src: array<byte>, out: array<byte>) returns (i: nat, pos: nat, col: nat)
    requires |Encode(src[..])| < out.Length && src != out
    modifies out
    ensures i <= src.Length < i + 3 && col < LINE && col % 4 == 0 && pos <= out.Length
    ensures Encode(src[..]) == out[..pos] + Lines(Groups(src[i..]), col)
  {
    hide Lines, Tail, Group;
    i, pos, col := 0, 0, 0;
    assert src[0..] == src[..];
    while src.Length - i >= 3
      invariant i <= src.Length && col < LINE && col % 4 == 0 && pos <= out.Length
      invariant Encode(src[..]) == out[..pos] + Lines(Groups(src[i..]), col)
    {
      var g := Group(src[i], src[i + 1], src[i + 2]);
      assert src[i..][3..] == src[i + 3..];
      LinesAhead(out[..pos], g, Groups(src[i + 3..]), col);
      PutFour(out, pos, g);
      i, pos, col := i + 3, pos + 4, col + 4;
      if col >= LINE {
        out[pos] := NEWLINE;
        pos, col := pos + 1, 0;
      }
    }
  }

  // base64_encode; null when the size computation would wrap.
  method EncodeBuffer(src: array<byte>) returns (out: array?<byte>, outLen: nat)
    requires src.Length < WORD
    ensures out == null <==> src.Length >= WORD / 4
    ensures out != null ==> fresh(out) && out.Length == OutSize(src.Length) && outLen < out.Length
    ensures out != null ==> out[..outLen] == Encode(src[..]) && out[outLen] == 0
    ensures out != null ==>
              var m := (src.Length + 2) / 3 * 4;
              && outLen == m + (m + 71) / 72
              && (forall j :: 0 <= j < m ==> out[j + j / 72] == CharAt(src[..], j) as int)
              && forall k :: 0 <= k < outLen && (k % 73 == 72 || k == outLen - 1) ==> out[k] == '\n' as int
  {
    hide OutSize, Group, Encode, CharAt;
    EncodeReads(src[..]);
    GuardExact(src.Length);
    var olen := OutSize(src.Length);
    if olen < src.Length {
      return null, 0;
    }
    EncodeLength(src[..]);
    TextFits(src.Length);
    var buf := new byte[olen];
    var i, pos, col := EncodeWhole(src, buf);
    pos := EncodeEnd(src, buf, i, pos, col);
    buf[pos] := 0;
    assert forall k :: 0 <= k < pos ==> buf[k] == buf[..pos][k];
    return buf, pos;
  }

  // The text from the last group on.
  lemma LastLine(t: seq<byte>, col: nat)
    requires col + |t| <= LINE && col < LINE
    ensures Lines(t, col) == if col + |t| == 0 then [] else t + [NEWLINE]
  {
    if col + |t| == LINE {
      assert t[..LINE - col] == t;
    }
  }

  // The last one or two bytes, and the last line feed.
  method EncodeEnd(src: array<byte>, out: array<byte>, i: nat, pos0: nat, col0: nat) returns (pos: nat)
    requires i <= src.Length < i + 3 && col0 < LINE && col0 % 4 == 0 && pos0 <= out.Length && src != out
    requires |out[..pos0] + Lines(Groups(src[i..]), col0)| < out.Length
    modifies out
    ensures pos < out.Length && out[..pos] == old(out[..pos0]) + Lines(Groups(src[i..]), col0)
  {
    hide Lines, Sym;
    var col := col0;
    pos := pos0;
    var n := src.Length - i;
    LastLine(Groups(src[i..]), col0);
    if n > 0 {
      var g;
      if n == 1 {
        g := [Sym(src[i] / 4), Sym(src[i] % 4 * 16), PAD, PAD];
      } else {
        g := [Sym(src[i] / 4), Sym(src[i] % 4 * 16 + src[i + 1] / 16), Sym(src[i + 1] % 16 * 4), PAD];
      }
      assert g == Groups(src[i..]);
      PutFour(out, pos, g);
      pos, col := pos + 4, col + 4;
    }
    if col > 0 {
      out[pos] := NEWLINE;
      pos := pos + 1;
    }
  }

  // -- base64_decode

  lemma SymVal(b: byte)
    requires Val(b) != SKIP && b != PAD
    ensures Sym(Val(b)) == b
  {
  }

  method BuildTable() returns (dtable: array<nat>)
    ensures fresh(dtable) && dtable.Length == 256
    ensures forall b: byte :: dtable[b] == Val(b)
  {
    dtable := new nat[256](_ => SKIP);
    for i := 0 to 64
      invariant forall b: byte :: dtable[b] == if b != PAD && Val(b) < i then Val(b) else SKIP
    {
      ValSym(i);
      forall b: byte | b != PAD && Val(b) == i
        ensures b == Sym(i)
      {
        SymVal(b);
      }
      dtable[Sym(i)] := i;
    }
    dtable[PAD] := 0;
  }

  method CountChars(src: array<byte>, dtable: array<nat>) returns (count: nat)
    requires dtable.Length == 256 && forall b: byte :: dtable[b] == Val(b)
    ensures count == |Filter(src[..])|
  {
    count := 0;
    assert src[0..] == src[..];
    for i := 0 to src.Length
      invariant count + |Filter(src[i..])| == |Filter(src[..])|
    {
      assert src[i..][1..] == src[i + 1..];
      if dtable[src[i]] != SKIP {
        count := count + 1;
      }
    }
  }

  lemma FilterStep(src: array<byte>, i: nat)
    requires i < src.Length
    ensures Filter(src[i..]) == (if Val(src[i]) == SKIP then [] else [src[i]]) + Filter(src[i + 1..])
    ensures Clean(Filter(src[i..]))
  {
    assert src[i..][1..] == src[i + 1..];
    FilterKeeps(src[i..]);
  }

  // The block that is being collected: chars are its characters so far.
  ghost predicate Block(block: array<nat>, pad: nat, chars: seq<byte>)
    reads block
  {
    && block.Length == 4 && |chars| <= 4 && pad == Pads(chars)
    && forall k :: 0 <= k < |chars| ==> Val(chars[k]) != SKIP && block[k] == Val(chars[k])
  }

  // Writes the bytes of a full block; says how many of them the padding leaves, or that it is invalid.
  method PutBlock(out: array<byte>, pos: nat, block: array<nat>, pad: nat, ghost g: seq<byte>, ghost f: seq<byte>)
    returns (ok: bool, more: bool, end: nat)
    requires Block(block, pad, g) && |g| == 4 && pos + 3 <= out.Length && (out as object) != block
    requires Clean(f)
    modifies out
    ensures Clean(g + f)
    ensures ok ==> pos <= end <= pos + 3 && out[..pos] == old(out[..pos])
    ensures ok && more ==> end == pos + 3 && Ungroup(g + f) == Prepend(out[pos..end], Ungroup(f))
    ensures ok && !more ==> Ungroup(g + f) == Some(out[pos..end])
    ensures !ok ==> Ungroup(g + f) == None
  {
    assert (g + f)[..4] == g && (g + f)[4..] == f;
    out[pos] := block[0] * 4 + block[1] / 16;
    out[pos + 1] := block[1] % 16 * 16 + block[2] / 4;
    out[pos + 2] := block[2] % 4 * 64 + block[3];
    assert out[pos..pos + 3] == Bytes(block[0], block[1], block[2], block[3]);
    end := pos + 3;
    if pad == 0 {
      return true, true, end;
    } else if pad == 1 {
      end := end - 1;
      assert out[pos..end] == out[pos..pos + 3][..2];
    } else if pad == 2 {
      end := end - 2;
      assert out[pos..end] == out[pos..pos + 3][..1];
    } else {
      return false, false, pos;
    }
    return true, false, end;
  }

  // Taking up one more character of the alphabet.
  method Collect(block: array<nat>, count: nat, pad: nat, c: byte, tmp: nat, ghost chars: seq<byte>, ghost f: seq<byte>)
    returns (more: nat)
    requires Block(block, pad, chars) && count == |chars| < 4 && tmp == Val(c) != SKIP
    requires Clean(chars + ([c] + f))
    modifies block
    ensures Block(block, more, chars + [c])
    ensures chars + ([c] + f) == chars + [c] + f && Clean(f)
  {
    more := if c == PAD then pad + 1 else pad;
    block[count] := tmp;
    assert (chars + [c])[..|chars|] == chars;
    forall k | 0 <= k < |f|
      ensures Val(f[k]) != SKIP
    {
      assert (chars + ([c] + f))[|chars| + 1 + k] == f[k];
    }
  }

  // The rest of the text once the bytes in s are written.
  ghost predicate Decoding(whole: seq<byte>, s: seq<byte>, rest: seq<byte>) {
    Clean(whole) && Clean(rest) && Ungroup(whole) == Prepend(s, Ungroup(rest))
  }

  lemma DecodingMore(whole: seq<byte>, s: seq<byte>, t: seq<byte>, g: seq<byte>, f: seq<byte>)
    requires Decoding(whole, s, g + f) && Clean(f) && Ungroup(g + f) == Prepend(t, Ungroup(f))
    ensures Decoding(whole, s + t, [] + f)
  {
    hide Ungroup, Clean;
    assert [] + f == f;
    if Ungroup(f).Some? {
      assert s + (t + Ungroup(f).value) == s + t + Ungroup(f).value;
    }
  }

  lemma DecodingStart(whole: seq<byte>)
    requires Clean(whole)
    ensures Decoding(whole, [], [] + whole)
  {
    hide Ungroup, Clean;
    assert [] + whole == whole;
    if Ungroup(whole).Some? {
      assert [] + Ungroup(whole).value == Ungroup(whole).value;
    }
  }

  lemma EmptyBlock(block: array<nat>)
    requires block.Length == 4
    ensures Block(block, 0, [])
  {
  }

  lemma DecodingEnd(whole: seq<byte>, s: seq<byte>, rest: seq<byte>)
    requires Decoding(whole, s, rest)
    ensures Clean(whole) && Clean(rest)
    ensures Ungroup(rest) == None ==> Ungroup(whole) == None
    ensures Ungroup(rest).Some? ==> Ungroup(whole) == Some(s + Ungroup(rest).value)
  {
    hide Ungroup, Clean;
  }

  lemma UngroupShort(f: seq<byte>)
    requires Clean(f) && |f| < 4
    ensures Ungroup(f) == Some([])
  {
  }

  // The second pass of the decoder, into a buffer of three bytes for each group of four.
  method DecodeInto(src: array<byte>, dtable: array<nat>, out: array<byte>) returns (ok: bool, pos: nat)
    requires dtable.Length == 256 && forall b: byte :: dtable[b] == Val(b)
    requires |Filter(src[..])| % 4 == 0 && out.Length == |Filter(src[..])| / 4 * 3
    requires src != out && (dtable as object) != out
    modifies out
    ensures Clean(Filter(src[..]))
    ensures ok ==> pos <= out.Length && Ungroup(Filter(src[..])) == Some(out[..pos])
    ensures !ok ==> Ungroup(Filter(src[..])) == None
  {
    hide Filter, Ungroup, Val, Pads, Clean, Block, Decoding;
    ghost var whole := Filter(src[..]);
    FilterKeeps(src[..]);
    DecodingStart(whole);
    var block := new nat[4];
    EmptyBlock(block);
    var count, pad := 0, 0;
    pos := 0;
    ghost var chars: seq<byte> := [];
    assert src[0..] == src[..] && out[..0] == [];
    for i := 0 to src.Length
      invariant count == |chars| < 4 && Block(block, pad, chars)
      invariant pos <= out.Length && (|chars| + |Filter(src[i..])|) % 4 == 0
      invariant pos + (|chars| + |Filter(src[i..])|) / 4 * 3 == out.Length
      invariant Decoding(whole, out[..pos], chars + Filter(src[i..]))
    {
      FilterStep(src, i);
      DecodingEnd(whole, out[..pos], chars + Filter(src[i..]));
      var tmp := dtable[src[i]];
      if tmp == SKIP {
        assert [] + Filter(src[i + 1..]) == Filter(src[i + 1..]);
        continue;
      }
      ghost var f := Filter(src[i + 1..]);
      assert Filter(src[i..]) == [src[i]] + f;
      pad := Collect(block, count, pad, src[i], tmp, chars, f);
      count, chars := count + 1, chars + [src[i]];
      if count == 4 {
        ghost var done := out[..pos];
        var more, end;
        ok, more, end := PutBlock(out, pos, block, pad, chars, f);
        DecodingEnd(whole, done, chars + f);
        if !ok {
          return false, pos;
        }
        assert out[..end] == done + out[pos..end];
        if !more {
          return true, end;
        }
        DecodingMore(whole, done, out[pos..end], chars, f);
        pos, count, pad, chars := end, 0, 0, [];
        EmptyBlock(block);
      }
    }
    NothingLeft(src);
    DecodingEnd(whole, out[..pos], chars + []);
    UngroupShort(chars + []);
    assert out[..pos] + [] == out[..pos];
    ok := true;
  }

  lemma NothingLeft(src: array<byte>)
    ensures Filter(src[src.Length..]) == []
  {
  }

  // base64_decode; null for a text that is no multiple of four characters or badly padded.
  method DecodeBuffer(src: array<byte>) returns (out: array?<byte>, outLen: nat)
    ensures out == null <==> Decode(src[..]) == None
    ensures out != null ==> fresh(out) && out.Length == |Filter(src[..])| / 4 * 3 && outLen <= out.Length
    ensures out != null ==> Decode(src[..]) == Some(out[..outLen])
    ensures var f := Filter(src[..]);
            && (out == null <==> f == [] || |f| % 4 != 0 || TooManyPads(f))
            && (out != null ==> exists g :: Decoded(f, g, out[..outLen]))
  {
    hide Filter, Ungroup, Val, TooManyPads, Decoded;
    FilterKeeps(src[..]);
    if |Filter(src[..])| % 4 == 0 {
      ghost var g := UngroupExactly(Filter(src[..]));
    }
    var dtable := BuildTable();
    var count := CountChars(src, dtable);
    if count == 0 || count % 4 != 0 {
      return null, 0;
    }
    var buf := new byte[count / 4 * 3];
    var ok, pos := DecodeInto(src, dtable, buf);
    if !ok {
      return null, 0;
    }
    return buf, pos;
  }

  // -- make_base64_string

  // str holds n characters of seven bits and ends in a nul.
  predicate CString(str: seq<byte>, n: nat) {
    n < |str| && str[n] == 0 && forall i :: 0 <= i < n ==> 0 < str[i] < 128
  }

  // The reading half of a turn: up to three characters, zeros for the missing ones.
  method ReadGroup(str: array<byte>, n: nat, src: nat) returns (g: array<byte>, k: nat, done: bool)
    requires CString(str[..], n) && src <= n
    ensures fresh(g) && g.Length == 3 && k == (if n - src < 3 then n - src else 3) && (done <==> k < 3)
    ensures forall j :: 0 <= j < 3 ==> g[j] == if j < k then str[src + j] else 0
  {
    g, k, done := new byte[3](_ => 0), 0, false;
    while k < 3
      invariant 0 <= k <= 3 && src + k <= n
      invariant forall j :: 0 <= j < 3 ==> g[j] == if j < k then str[src + j] else 0
    {
      assert str[..][src + k] == str[src + k];
      if str[src + k] == 0 {
        return g, k, true;
      }
      g[k] := str[src + k];
      k := k + 1;
    }
  }

  // The characters of one turn.
  function Coded(a: byte, b: byte, c: byte, k: nat): (g: seq<byte>)
    ensures |g| == 4
  {
    [Sym(a / 4), Sym(a % 4 * 16 + b / 16),
     if k < 2 then PAD else Sym(b % 16 * 4 + c / 64), if k < 3 then PAD else Sym(c % 64)]
  }

  lemma CodedIsGroups(s: seq<byte>, k: nat)
    requires k == (if |s| < 3 then |s| else 3) && k > 0
    ensures Groups(s) == Coded(s[0], if k > 1 then s[1] else 0, if k > 2 then s[2] else 0, k) + Groups(s[k..])
  {
    hide Sym, Tail, Group, Coded;
    if |s| < 3 {
      CodedTail(s);
      assert s[k..] == [];
    } else {
      CodedGroup(s[0], s[1], s[2]);
    }
  }

  lemma CodedMore(whole: seq<byte>, done: seq<byte>, s: seq<byte>, k: nat)
    requires k == (if |s| < 3 then |s| else 3) && k > 0 && Groups(whole) == done + Groups(s)
    ensures var g := Coded(s[0], if k > 1 then s[1] else 0, if k > 2 then s[2] else 0, k);
            Groups(whole) == done + g + Groups(s[k..]) && |Groups(s)| == 4 + |Groups(s[k..])|
  {
    hide Groups, Coded;
    CodedIsGroups(s, k);
  }

  lemma CodedGroup(a: byte, b: byte, c: byte)
    ensures Coded(a, b, c, 3) == Group(a, b, c)
  {
    hide Sym;
  }

  lemma CodedTail(s: seq<byte>)
    requires 1 <= |s| <= 2
    ensures Coded(s[0], if |s| > 1 then s[1] else 0, 0, |s|) == Tail(s)
  {
    hide Sym;
  }

  method MakeString(str: array<byte>, n: nat) returns (buf: array<byte>)
    requires CString(str[..], n)
    ensures fresh(buf) && buf.Length == (n + 2) / 3 * 4 + 1
    ensures buf[..buf.Length - 1] == Groups(str[..n]) && buf[buf.Length - 1] == 0
    ensures n <= str.Length && forall j :: 0 <= j < (n + 2) / 3 * 4 ==> buf[j] == CharAt(str[..n], j) as int
  {
    hide Groups, CString, Coded, CharAt;
    buf := new byte[(n + 2) / 3 * 4 + 1];
    var src, dst, done := 0, 0, false;
    CStringFits(str[..], n);
    ghost var whole, s := str[..n], str[..n];
    assert whole[0..] == whole;
    while !done
      invariant src <= n && str[..n] == whole && s == whole[src..] && dst + |Groups(s)| + 1 == buf.Length
      invariant Groups(whole) == buf[..dst] + Groups(s)
      invariant done ==> src == n
      decreases n - src, !done
    {
      var g, k;
      g, k, done := ReadGroup(str, n, src);
      if k > 0 {
        From(whole, src, k);
        assert forall j :: 0 <= j < k ==> s[j] == str[src + j];
        CodedMore(whole, buf[..dst], s, k);
        PutFour(buf, dst, Coded(g[0], g[1], g[2], k));
        src, dst, s := src + k, dst + 4, s[k..];
      }
    }
    GroupsNothing(s);
    buf[dst] := 0;
    assert buf[..buf.Length - 1] == buf[..dst];
    EveryChar(str[..n], buf[..buf.Length - 1]);
  }

  lemma EveryChar(s: seq<byte>, t: seq<byte>)
    requires t == Groups(s)
    ensures forall j :: 0 <= j < |t| ==> t[j] == CharAt(s, j) as int
  {
    hide CharAt;
    forall j | 0 <= j < |t|
      ensures t[j] == CharAt(s, j) as int
    {
      GroupsAt(s, j);
    }
  }

  lemma CStringFits(str: seq<byte>, n: nat)
    requires CString(str, n)
    ensures n < |str|
  {
  }

  lemma From<T>(s: seq<T>, i: nat, k: nat)
    requires i + k <= |s|
    ensures s[i..][k..] == s[i + k..]
  {
  }

  lemma GroupsNothing(s: seq<byte>)
    requires s == []
    ensures Groups(s) == []
  {
  }
}
