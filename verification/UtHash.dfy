/** The intrusive hash table of include/uthash.h, as instantiated for `struct peer`. */
module UtHash {
  import opened Bits
  import opened ChainBound
  import opened DataStructs
  import Bloom

  type Bkt = Bucket<Peer?>

  const INITIAL_NUM_BUCKETS: nat := 32
  const INITIAL_NUM_BUCKETS_LOG2: nat := 5

  // The hash function is arbitrary.
  type HashFn = string -> nat

  // An element with its embedded hash handle.
  class Peer {
    const id: string
    var msg: Message?
    // hash handle
    var tbl: Table?
    var prev: Peer?
    var next: Peer?
    var hhPrev: Peer?
    var hhNext: Peer?
    var hashv: nat

    constructor (id: string)
      ensures this.id == id && msg == null
    {
      this.id := id;
      msg, tbl, prev, next, hhPrev, hhNext, hashv := null, null, null, null, null, null, 0;
    }
  }

  function At(s: seq<Peer>, i: int): Peer? {
    if 0 <= i < |s| then s[i] else null
  }

  ghost predicate Distinct(s: seq<Peer>) {
    forall i, j :: 0 <= i < j < |s| ==> s[i] != s[j]
  }

  // HASH_TO_BKT
  function BktOf(hashv: nat, numBuckets: nat): (b: nat)
    requires numBuckets > 0
    ensures b < numBuckets
  {
    And(hashv, numBuckets - 1)
  }

  // When the buckets double, an item stays in its bucket or moves on by the old number of buckets.
  lemma Landing(hashv: nat, k: nat)
    ensures BktOf(hashv, 2 * Pow2(k)) == BktOf(hashv, Pow2(k))
         || BktOf(hashv, 2 * Pow2(k)) == BktOf(hashv, Pow2(k)) + Pow2(k)
  {
    WidenMask(hashv, k);
    assert Pow2(k + 1) == 2 * Pow2(k);
  }

  // HASH_TO_BKT is the remainder.
  lemma BktIsMod(hashv: nat, numBuckets: nat, k: nat)
    requires numBuckets == Pow2(k)
    ensures BktOf(hashv, numBuckets) == hashv % numBuckets
  {
    MaskIsMod(hashv, k);
  }

  ghost predicate ChainLinks(c: seq<Peer>)
    reads c`hhPrev, c`hhNext
  {
    && (forall i {:trigger c[i].hhPrev} :: 0 <= i < |c| ==> c[i].hhPrev == At(c, i - 1))
    && (forall i {:trigger c[i].hhNext} :: 0 <= i < |c| ==> c[i].hhNext == At(c, i + 1))
  }

  // Every bucket knows the first element and the length of its chain.
  ghost predicate Heads(bs: seq<Bkt>, chains: seq<seq<Peer>>) {
    && |bs| == |chains|
    && forall b :: 0 <= b < |bs| ==> bs[b].hhHead == At(chains[b], 0) && bs[b].count == |chains[b]|
  }

  // The chains hold exactly `elems`, each in the chain of its hash value, once.
  ghost predicate Placed(hash: HashFn, chains: seq<seq<Peer>>, elems: set<Peer>)
  {
    && |chains| > 0
    && (forall b, k :: 0 <= b < |chains| && 0 <= k < |chains[b]| ==>
          chains[b][k] in elems && BktOf(hash(chains[b][k].id), |chains|) == b)
    && (forall b :: 0 <= b < |chains| ==> Distinct(chains[b]))
    && (forall p :: p in elems ==> p in chains[BktOf(hash(p.id), |chains|)])
  }

  ghost predicate Chained(hash: HashFn, bs: seq<Bkt>, chains: seq<seq<Peer>>, elems: set<Peer>)
    reads elems`hhPrev, elems`hhNext
  {
    && Heads(bs, chains)
    && Placed(hash, chains, elems)
    && Linked(chains, elems)
  }

  ghost predicate Linked(chains: seq<seq<Peer>>, elems: set<Peer>)
    reads elems`hhPrev, elems`hhNext
  {
    forall b :: 0 <= b < |chains| ==>
      (forall k :: 0 <= k < |chains[b]| ==> chains[b][k] in elems) && ChainLinks(chains[b])
  }

  lemma HeadsSet(bs: seq<Bkt>, chains: seq<seq<Peer>>, b: nat, v: Bkt, c: seq<Peer>)
    requires Heads(bs, chains) && b < |bs|
    requires v.hhHead == At(c, 0) && v.count == |c|
    ensures Heads(bs[b := v], chains[b := c])
  {
  }

  lemma PlacedPush(hash: HashFn, chains: seq<seq<Peer>>, elems: set<Peer>, b: nat, p: Peer)
    requires Placed(hash, chains, elems) && p !in elems
    requires b == BktOf(hash(p.id), |chains|)
    ensures Placed(hash, chains[b := [p] + chains[b]], elems + {p})
  {
    var c := [p] + chains[b];
    var chains' := chains[b := c];
    assert forall k :: 0 <= k < |c| ==> c[k] in elems + {p};
    forall e | e in elems + {p}
      ensures e in chains'[BktOf(hash(e.id), |chains'|)]
    {
      if e == p {
        assert c[0] == p;
      } else {
        var b' := BktOf(hash(e.id), |chains|);
        var k :| 0 <= k < |chains[b']| && chains[b'][k] == e;
        if b' == b {
          assert c[k + 1] == e;
        }
      }
    }
  }

  // Links p in front of the chain that starts at h.
  method LinkFront(h: Peer?, p: Peer, ghost c: seq<Peer>)
    requires h == At(c, 0) && ChainLinks(c) && Distinct(c) && p !in c
    modifies p`hhNext, p`hhPrev, c`hhPrev
    ensures ChainLinks([p] + c)
  {
    p.hhNext := h;
    p.hhPrev := null;
    if h != null {
      h.hhPrev := p;
    }
  }

  // Chains of other buckets share no element with chain b.
  lemma OtherChains(hash: HashFn, chains: seq<seq<Peer>>, elems: set<Peer>, b: nat, b': nat)
    requires Placed(hash, chains, elems) && b < |chains| && b' < |chains| && b' != b
    ensures forall e :: e in chains[b'] ==> e !in chains[b]
  {
  }

  // ... and leaves every other chain as it was.
  method LinkAmong(ghost hash: HashFn, h: Peer?, p: Peer, ghost b: nat,
                   ghost chains: seq<seq<Peer>>, ghost elems: set<Peer>)
    requires Placed(hash, chains, elems) && Linked(chains, elems) && p !in elems
    requires b < |chains| && h == At(chains[b], 0)
    modifies p`hhNext, p`hhPrev, elems`hhPrev
    ensures Linked(chains[b := [p] + chains[b]], elems + {p})
  {
    LinkFront(h, p, chains[b]);
    forall b' | 0 <= b' < |chains| && b' != b
      ensures ChainLinks(chains[b'])
    {
      OtherChains(hash, chains, elems, b, b');
    }
  }

  ghost function Elems(s: seq<Peer>): set<Peer> {
    set p | p in s
  }

  function Without(s: seq<Peer>, k: nat): seq<Peer>
    requires k < |s|
  {
    s[..k] + s[k + 1..]
  }

  // Takes p, the k-th element, out of its chain.
  method Unlink(p: Peer, ghost c: seq<Peer>, ghost k: nat)
    requires ChainLinks(c) && Distinct(c) && k < |c| && c[k] == p
    modifies c`hhPrev, c`hhNext
    ensures ChainLinks(Without(c, k))
    ensures p.hhPrev == old(p.hhPrev) && p.hhNext == old(p.hhNext)
  {
    if p.hhPrev != null {
      p.hhPrev.hhNext := p.hhNext;
    }
    if p.hhNext != null {
      p.hhNext.hhPrev := p.hhPrev;
    }
  }

  // ... and leaves every other chain as it was.
  method UnlinkAmong(ghost hash: HashFn, p: Peer, ghost chains: seq<seq<Peer>>, ghost b: nat, ghost k: nat,
                     ghost elems: set<Peer>)
    requires Placed(hash, chains, elems) && Linked(chains, elems)
    requires b < |chains| && k < |chains[b]| && chains[b][k] == p
    modifies elems`hhPrev, elems`hhNext
    ensures Linked(chains[b := Without(chains[b], k)], elems - {p})
  {
    PlacedDrop(hash, chains, elems, b, k);
    Unlink(p, chains[b], k);
    forall b' | 0 <= b' < |chains| && b' != b
      ensures ChainLinks(chains[b'])
    {
      OtherChains(hash, chains, elems, b, b');
    }
  }

  lemma PlacedDrop(hash: HashFn, chains: seq<seq<Peer>>, elems: set<Peer>, b: nat, k: nat)
    requires Placed(hash, chains, elems) && b < |chains| && k < |chains[b]|
    ensures Placed(hash, chains[b := Without(chains[b], k)], elems - {chains[b][k]})
  {
    var p, c := chains[b][k], Without(chains[b], k);
    var chains' := chains[b := c];
    forall b', k' | 0 <= b' < |chains'| && 0 <= k' < |chains'[b']|
      ensures chains'[b'][k'] in elems - {p}
    {
      if b' != b {
        assert BktOf(hash(chains[b'][k'].id), |chains|) == b';
      }
    }
    forall e | e in elems - {p}
      ensures e in chains'[BktOf(hash(e.id), |chains'|)]
    {
      var b' := BktOf(hash(e.id), |chains|);
      var k' :| 0 <= k' < |chains[b']| && chains[b'][k'] == e;
      if b' == b {
        assert c[if k' < k then k' else k' - 1] == e;
      }
    }
  }

  // HASH_DEL_IN_BKT
  method DelInBkt(ghost hash: HashFn, bs: array<Bkt>, b: nat, p: Peer, ghost k: nat,
                  ghost chains: seq<seq<Peer>>, ghost elems: set<Peer>)
    requires Chained(hash, bs[..], chains, elems)
    requires b < bs.Length && k < |chains[b]| && chains[b][k] == p
    modifies bs, elems`hhNext, elems`hhPrev
    ensures Chained(hash, bs[..], chains[b := Without(chains[b], k)], elems - {p})
    ensures bs[..] == old(bs[..])[b := Bucket(bs[b].hhHead, old(bs[b].count) - 1, old(bs[b].expandMult))]
  {
    var h := if bs[b].hhHead == p then p.hhNext else bs[b].hhHead;
    ghost var c := Without(chains[b], k);
    assert h == At(c, 0);
    hide Linked, Placed;
    UnlinkAmong(hash, p, chains, b, k, elems);
    bs[b] := Bucket(h, bs[b].count - 1, bs[b].expandMult);
    assert bs[..] == old(bs[..])[b := bs[b]];
    HeadsSet(old(bs[..]), chains, b, bs[b], c);
    PlacedDrop(hash, chains, elems, b, k);
  }

  ghost predicate NextLinks(c: seq<Peer>)
    reads c`hhNext
  {
    forall i {:trigger c[i].hhNext} :: 0 <= i < |c| ==> c[i].hhNext == At(c, i + 1)
  }

  lemma DropFirst(c: seq<Peer>)
    requires c != [] && Distinct(c) && NextLinks(c)
    ensures Distinct(c[1..]) && NextLinks(c[1..]) && c[0] !in c[1..]
    ensures c[0].hhNext == At(c[1..], 0)
    ensures Elems(c) == {c[0]} + Elems(c[1..])
  {
    assert c == [c[0]] + c[1..];
  }

  lemma HeadsOf(hash: HashFn, bs: seq<Bkt>, chains: seq<seq<Peer>>, elems: set<Peer>)
    requires Chained(hash, bs, chains, elems)
    ensures Heads(bs, chains) && |bs| > 0
  {
  }

  lemma HeadsAt(bs: seq<Bkt>, chains: seq<seq<Peer>>, b: nat)
    requires Heads(bs, chains) && b < |bs|
    ensures |bs| == |chains| && bs[b].hhHead == At(chains[b], 0) && bs[b].count == |chains[b]|
  {
  }

  // The elements of the first i buckets.
  ghost function Below(hash: HashFn, elems: set<Peer>, n: nat, i: nat): set<Peer>
    requires n > 0
  {
    set p | p in elems && BktOf(hash(p.id), n) < i
  }

  lemma BelowStep(hash: HashFn, chains: seq<seq<Peer>>, elems: set<Peer>, i: nat)
    requires Placed(hash, chains, elems) && i < |chains|
    ensures Below(hash, elems, |chains|, i) + Elems(chains[i]) == Below(hash, elems, |chains|, i + 1)
    ensures forall p :: p in chains[i] ==> p in elems && p !in Below(hash, elems, |chains|, i)
    ensures Distinct(chains[i])
  {
  }

  ghost function NoChains(n: nat): (c: seq<seq<Peer>>)
    ensures |c| == n && forall i :: 0 <= i < n ==> c[i] == []
  {
    seq(n, _ => [])
  }

  lemma ZeroedBuckets(hash: HashFn, bs: seq<Bkt>, ideal: nat)
    requires |bs| > 0 && forall b :: 0 <= b < |bs| ==> bs[b] == Bucket(null, 0, 0)
    ensures Chained(hash, bs, NoChains(|bs|), {})
    ensures SumCount(bs) == 0 && SumMult(bs) == 0 && SumExcess(bs, ideal) == 0
    ensures ideal > 0 ==> Spread(bs, ideal)
  {
    SumEmpty(bs, ideal);
  }

  lemma IdealLength(n: nat, b: nat, k: nat)
    requires b == Pow2(k) && n > 0
    ensures Shr(n, k + 1) + (if And(n, b * 2 - 1) != 0 then 1 else 0) == CeilDiv(n, b * 2)
    ensures CeilDiv(n, b * 2) > 0
  {
    CeilByShiftAndMask(n, k + 1);
    CeilDivBounds(n, b * 2);
  }

  lemma {:induction false} Unpack(hash: HashFn, bs: seq<Bkt>, chains: seq<seq<Peer>>, elems: set<Peer>)
    requires Chained(hash, bs, chains, elems)
    ensures Placed(hash, chains, elems) && |bs| == |chains| > 0
    ensures forall b :: 0 <= b < |bs| ==> bs[b].hhHead == At(chains[b], 0) && bs[b].count == |chains[b]|
    ensures forall b :: 0 <= b < |chains| ==> NextLinks(chains[b])
    ensures Below(hash, elems, |chains|, 0) == {} && Below(hash, elems, |chains|, |chains|) == elems
  {
  }

  lemma {:induction false} PositionOf(
    hash: HashFn, bs: seq<Bkt>, chains: seq<seq<Peer>>, elems: set<Peer>, p: Peer) returns (k: nat)
    requires Chained(hash, bs, chains, elems) && p in elems
    ensures |bs| == |chains| > 0
    ensures var b := BktOf(hash(p.id), |bs|); k < |chains[b]| == bs[b].count && chains[b][k] == p
  {
    var c := chains[BktOf(hash(p.id), |chains|)];
    assert p in c;
    k :| 0 <= k < |c| && c[k] == p;
  }

  lemma ChainFor(hash: HashFn, bs: seq<Bkt>, chains: seq<seq<Peer>>, elems: set<Peer>, b: nat, key: string)
    requires Chained(hash, bs, chains, elems) && |bs| > 0 && b == BktOf(hash(key), |bs|)
    ensures b < |chains| && bs[b].hhHead == At(chains[b], 0) && NextLinks(chains[b])
    ensures forall k :: 0 <= k < |chains[b]| ==> chains[b][k] in elems
    ensures forall p :: p in elems && p.id == key ==> p in chains[b]
  {
  }

  // The bucket array has the announced size, a power of two, and counts every item.
  ghost predicate SizedOk(bs: seq<Bkt>, numBuckets: nat, log2NumBuckets: nat, items: nat) {
    && numBuckets == |bs| == Pow2(log2NumBuckets)
    && SumCount(bs) == items
  }

  // What adds, deletes and doublings keep about the loads of the buckets.
  ghost predicate BoundedOk(bs: seq<Bkt>, numBuckets: nat, ideal: nat, ineff: nat, noexpand: nat,
                            doublings: seq<bool>)
  {
    && SumMult(bs) <= numBuckets
    && ideal <= THRESH
    && (noexpand == 0 ==> AllWithin(bs))
    && ineff == Trailing(doublings)
    && noexpand == (if TwoInARow(doublings) then 1 else 0)
  }

  // The UT_hash_table: buckets, counts, and the end of the application-order list.
  class Table {
    var buckets: array<Bkt>
    var numBuckets: nat
    var log2NumBuckets: nat
    var numItems: nat
    var tail: Peer?
    // HASH_BLOOM builds only
    var bloomNbits: nat
    var bloomBv: array?<bv8>
    var idealChainMaxLen: nat
    var nonidealItems: nat
    var ineffExpands: nat
    var noexpand: nat
    // The bucket chains, front to back.
    ghost var chains: seq<seq<Peer>>
    // For every doubling so far, whether it was ineffective.
    ghost var doublings: seq<bool>

    // HASH_MAKE_TABLE
    constructor (head: Peer, bloom: Option<nat>)
      ensures numBuckets == 32 && buckets.Length == 32 && log2NumBuckets == 5 && fresh(buckets)
      ensures forall b :: 0 <= b < buckets.Length ==> buckets[b] == Bucket(null, 0, 0)
      ensures chains == NoChains(INITIAL_NUM_BUCKETS) && doublings == []
      ensures numItems == 0 && tail == head && idealChainMaxLen == 0 && nonidealItems == 0
      ensures ineffExpands == 0 && noexpand == 0
      ensures bloomBv as object? != buckets
      ensures bloom == None ==> bloomBv == null
      ensures bloom.Some? ==> bloomBv != null && fresh(bloomBv) && bloomNbits == bloom.value
      ensures bloom.Some? ==> bloomBv.Length == Bloom.ByteLen(bloom.value)
    {
      buckets := new Bkt[INITIAL_NUM_BUCKETS](_ => Bucket(null, 0, 0));
      numBuckets, log2NumBuckets := INITIAL_NUM_BUCKETS, INITIAL_NUM_BUCKETS_LOG2;
      numItems, idealChainMaxLen, nonidealItems, ineffExpands, noexpand := 0, 0, 0, 0, 0;
      tail := head;
      chains, doublings := NoChains(INITIAL_NUM_BUCKETS), [];
      bloomNbits, bloomBv := 0, null;
      if bloom.Some? {
        bloomNbits := bloom.value;
        bloomBv := new bv8[Bloom.ByteLen(bloom.value)](_ => 0);
      }
    }

    ghost predicate Sized(items: nat)
      reads this`buckets, this`numBuckets, this`log2NumBuckets, buckets
    {
      SizedOk(buckets[..], numBuckets, log2NumBuckets, items)
    }

    ghost predicate Bounded()
      reads this`buckets, this`numBuckets, this`idealChainMaxLen, this`ineffExpands, this`noexpand
      reads this`doublings, buckets
    {
      BoundedOk(buckets[..], numBuckets, idealChainMaxLen, ineffExpands, noexpand, doublings)
    }

    // The loads of new buckets that have been filled with an ideal length in mind.
    ghost predicate Filled(bs: seq<Bkt>)
      reads this`idealChainMaxLen, this`nonidealItems
    {
      && idealChainMaxLen > 0
      && Spread(bs, idealChainMaxLen)
      && nonidealItems == SumExcess(bs, idealChainMaxLen)
    }

    // Counts p into bucket b and weighs the bucket against the ideal length.
    method CountIn(p: Peer, bs: array<Bkt>, b: nat)
      requires Filled(bs[..]) && b < bs.Length
      modifies this`nonidealItems, bs
      ensures Filled(bs[..])
      ensures bs[..] == old(bs[..])[b := Bucket(p, old(bs[b].count) + 1, bs[b].expandMult)]
    {
      var count, mult := bs[b].count + 1, bs[b].expandMult;
      if count > idealChainMaxLen {
        nonidealItems := nonidealItems + 1;
        QuotIsDiv(count, idealChainMaxLen);
        mult := count / idealChainMaxLen;
      }
      bs[b] := Bucket(p, count, mult);
      assert bs[..] == old(bs[..])[b := bs[b]];
      SumUpdate(old(bs[..]), b, bs[b], idealChainMaxLen);
    }

    // One step of the inner loop of HASH_EXPAND_BUCKETS: moves p to its new bucket.
    method MoveOne(ghost hash: HashFn, p: Peer, bs: array<Bkt>, ghost nc: seq<seq<Peer>>, ghost done: set<Peer>)
      returns (ghost nc': seq<seq<Peer>>)
      requires Chained(hash, bs[..], nc, done) && p !in done
      requires p.hashv == hash(p.id)
      requires Filled(bs[..]) && bs.Length == numBuckets * 2
      modifies this`nonidealItems, bs, p`hhNext, p`hhPrev, done`hhPrev
      ensures Chained(hash, bs[..], nc', done + {p})
      ensures var b := BktOf(p.hashv, bs.Length); b < |nc| && nc' == nc[b := [p] + nc[b]]
      ensures Filled(bs[..])
      ensures SumCount(bs[..]) == old(SumCount(bs[..])) + 1
    {
      var b := BktOf(p.hashv, numBuckets * 2);
      var h := bs[b].hhHead;
      PlacedPush(hash, nc, done, b, p);
      CountIn(p, bs, b);
      LinkAmong(hash, h, p, b, nc, done);
      SumUpdate(old(bs[..]), b, bs[b], idealChainMaxLen);
      HeadsSet(old(bs[..]), nc, b, bs[b], [p] + nc[b]);
      nc' := nc[b := [p] + nc[b]];
    }

    // The inner loop of HASH_EXPAND_BUCKETS: moves the whole chain that starts at thh.
    method MoveChain(ghost hash: HashFn, thh: Peer?, ghost c: seq<Peer>, bs: array<Bkt>,
                     ghost nc: seq<seq<Peer>>, ghost done: set<Peer>)
      returns (ghost nc': seq<seq<Peer>>)
      requires Chained(hash, bs[..], nc, done) && (forall p :: p in c ==> p !in done)
      requires thh == At(c, 0) && Distinct(c) && NextLinks(c)
      requires forall p :: p in c ==> p.hashv == hash(p.id)
      requires Filled(bs[..]) && bs.Length == numBuckets * 2
      modifies this`nonidealItems, bs, c`hhNext, c`hhPrev, done`hhPrev
      ensures Chained(hash, bs[..], nc', done + Elems(c))
      ensures Filled(bs[..])
      ensures SumCount(bs[..]) == old(SumCount(bs[..])) + |c|
    {
      hide Chained, Filled;
      nc' := nc;
      var p := thh;
      ghost var rest, moved := c, done;
      while p != null
        invariant p == At(rest, 0)
        invariant Distinct(rest) && NextLinks(rest)
        invariant forall q :: q in rest ==> q in c && q !in moved
        invariant moved + Elems(rest) == done + Elems(c)
        invariant Chained(hash, bs[..], nc', moved) && Filled(bs[..])
        invariant SumCount(bs[..]) + |rest| == old(SumCount(bs[..])) + |c|
        decreases |rest|
      {
        var nxt := p.hhNext;
        DropFirst(rest);
        nc' := MoveOne(hash, p, bs, nc', moved);
        rest, moved := rest[1..], moved + {p};
        p := nxt;
      }
      assert moved == done + Elems(c);
    }

    // One step of the outer loop of HASH_EXPAND_BUCKETS: empties old bucket i.
    method EmptyBucket(ghost hash: HashFn, i: nat, thh: Peer?, ghost oc: seq<seq<Peer>>, bs: array<Bkt>,
                       ghost nc: seq<seq<Peer>>, ghost elems: set<Peer>)
      returns (ghost nc': seq<seq<Peer>>)
      requires Placed(hash, oc, elems) && i < |oc| && thh == At(oc[i], 0)
      requires forall p :: p in elems ==> p.hashv == hash(p.id)
      requires Chained(hash, bs[..], nc, Below(hash, elems, |oc|, i))
      requires forall j :: i <= j < |oc| ==> NextLinks(oc[j])
      requires Filled(bs[..]) && bs.Length == numBuckets * 2
      modifies this`nonidealItems, bs, elems`hhNext, elems`hhPrev
      ensures Chained(hash, bs[..], nc', Below(hash, elems, |oc|, i + 1))
      ensures forall j :: i + 1 <= j < |oc| ==> NextLinks(oc[j])
      ensures Filled(bs[..])
      ensures SumCount(bs[..]) == old(SumCount(bs[..])) + |oc[i]|
    {
      BelowStep(hash, oc, elems, i);
      nc' := MoveChain(hash, thh, oc[i], bs, nc, Below(hash, elems, |oc|, i));
      forall j | i + 1 <= j < |oc|
        ensures NextLinks(oc[j])
      {
        OtherChains(hash, oc, elems, i, j);
      }
    }

    // The outer loop of HASH_EXPAND_BUCKETS: empties the old buckets into new ones.
    method Redistribute(ghost hash: HashFn, ghost elems: set<Peer>, bs: array<Bkt>) returns (ghost nc: seq<seq<Peer>>)
      requires Chained(hash, buckets[..], chains, elems) && numBuckets == buckets.Length
      requires forall p :: p in elems ==> p.hashv == hash(p.id)
      requires idealChainMaxLen > 0 && nonidealItems == 0
      requires bs != buckets && bs.Length == numBuckets * 2
      requires forall b :: 0 <= b < bs.Length ==> bs[b] == Bucket(null, 0, 0)
      modifies this`nonidealItems, bs, elems`hhNext, elems`hhPrev
      ensures Chained(hash, bs[..], nc, elems) && Filled(bs[..])
      ensures SumCount(bs[..]) == SumCount(buckets[..])
    {
      hide Chained, Placed, Below, NextLinks;
      ghost var obs, oc := buckets[..], chains;
      Unpack(hash, obs, oc, elems);
      nc := NoChains(numBuckets * 2);
      ZeroedBuckets(hash, bs[..], idealChainMaxLen);
      assert Filled(bs[..]);
      hide Filled;
      var i := 0;
      while i < numBuckets
        invariant 0 <= i <= numBuckets
        invariant buckets[..] == obs
        invariant Chained(hash, bs[..], nc, Below(hash, elems, |oc|, i))
        invariant Filled(bs[..])
        invariant forall j :: i <= j < |oc| ==> NextLinks(oc[j])
        invariant SumCount(bs[..]) + SumCount(obs[i..]) == SumCount(obs)
      {
        assert obs[i..][1..] == obs[i + 1..] && buckets[i] == obs[i];
        nc := EmptyBucket(hash, i, buckets[i].hhHead, oc, bs, nc, elems);
        i := i + 1;
      }
    }

    // What a doubling leaves: the ideal length, the items past it, and the multipliers.
    ghost predicate Respread()
      reads this`buckets, this`numBuckets, this`numItems, this`idealChainMaxLen, this`nonidealItems, this`chains
      reads buckets
    {
      && |chains| == buckets.Length == numBuckets > 0
      && idealChainMaxLen == numItems / numBuckets + (if numItems % numBuckets == 0 then 0 else 1)
      && idealChainMaxLen > 0
      && nonidealItems == |set b: nat, k: nat | b < |chains| && idealChainMaxLen <= k < |chains[b]| :: (b, k)|
      && forall b :: 0 <= b < numBuckets ==>
           && buckets[b].count == |chains[b]|
           && buckets[b].expandMult == if |chains[b]| > idealChainMaxLen then |chains[b]| / idealChainMaxLen else 0
    }

    lemma Respreads()
      requires Heads(buckets[..], chains) && Filled(buckets[..]) && numBuckets == buckets.Length > 0
      requires idealChainMaxLen == CeilDiv(numItems, numBuckets)
      ensures Respread()
    {
      CeilDivIsDiv(numItems, numBuckets);
      ExcessCounts(buckets[..], chains, idealChainMaxLen);
      forall b | 0 <= b < numBuckets
        ensures buckets[b].count == |chains[b]|
        ensures buckets[b].expandMult == if |chains[b]| > idealChainMaxLen then |chains[b]| / idealChainMaxLen else 0
      {
        assert buckets[..][b] == buckets[b];
        QuotIsDiv(|chains[b]|, idealChainMaxLen);
      }
      assert NonIdeal(chains, idealChainMaxLen) ==
             set b: nat, k: nat | b < |chains| && idealChainMaxLen <= k < |chains[b]| :: (b, k);
    }

    // The items in twice as many buckets.
    method Rehash(ghost hash: HashFn, ghost elems: set<Peer>)
      requires Chained(hash, buckets[..], chains, elems) && Sized(numItems) && numItems > 0
      requires forall p :: p in elems ==> p.hashv == hash(p.id)
      modifies this`buckets, this`numBuckets, this`log2NumBuckets, this`idealChainMaxLen, this`nonidealItems,
               this`chains, elems`hhNext, elems`hhPrev
      ensures fresh(buckets) && Chained(hash, buckets[..], chains, elems) && Sized(numItems)
      ensures numBuckets == 2 * old(numBuckets) && log2NumBuckets == old(log2NumBuckets) + 1
      ensures idealChainMaxLen == CeilDiv(numItems, numBuckets)
      ensures Filled(buckets[..]) && Respread()
    {
      hide Chained, Filled, SumCount, CeilDiv, Respread;
      var newBuckets := new Bkt[2 * numBuckets](_ => Bucket(null, 0, 0));
      Aim();
      ghost var nc := Redistribute(hash, elems, newBuckets);
      Switch(newBuckets, nc);
      HeadsOf(hash, buckets[..], chains, elems);
      Respreads();
    }

    // HASH_EXPAND_BUCKETS
    method Expand(ghost hash: HashFn, ghost elems: set<Peer>)
      requires Chained(hash, buckets[..], chains, elems) && Sized(numItems) && numItems > 0
      requires forall p :: p in elems ==> p.hashv == hash(p.id)
      modifies this`buckets, this`numBuckets, this`log2NumBuckets, this`idealChainMaxLen, this`nonidealItems,
               this`ineffExpands, this`noexpand, this`chains, this`doublings,
               elems`hhNext, elems`hhPrev
      ensures fresh(buckets) && Chained(hash, buckets[..], chains, elems) && Sized(numItems)
      ensures numBuckets == 2 * old(numBuckets) && log2NumBuckets == old(log2NumBuckets) + 1
      ensures idealChainMaxLen == CeilDiv(numItems, numBuckets)
      ensures Filled(buckets[..]) && Respread()
      ensures doublings == old(doublings) + [nonidealItems > numItems / 2]
      ensures ineffExpands == if nonidealItems > numItems / 2 then old(ineffExpands) + 1 else 0
      ensures noexpand == if ineffExpands > 1 then 1 else old(noexpand)
    {
      hide Chained, Filled, SizedOk, CeilDiv, Respread;
      Rehash(hash, elems);
      Judge();
    }

    // The start of HASH_EXPAND_BUCKETS: the ideal length for twice the buckets.
    method Aim()
      requires numItems > 0 && numBuckets == Pow2(log2NumBuckets)
      modifies this`idealChainMaxLen, this`nonidealItems
      ensures idealChainMaxLen == CeilDiv(numItems, numBuckets * 2) && idealChainMaxLen > 0
      ensures nonidealItems == 0
    {
      IdealLength(numItems, numBuckets, log2NumBuckets);
      idealChainMaxLen := Shr(numItems, log2NumBuckets + 1)
                        + (if And(numItems, numBuckets * 2 - 1) != 0 then 1 else 0);
      nonidealItems := 0;
    }

    method Switch(newBuckets: array<Bkt>, ghost nc: seq<seq<Peer>>)
      modifies this`buckets, this`numBuckets, this`log2NumBuckets, this`chains
      ensures buckets == newBuckets && chains == nc
      ensures numBuckets == old(numBuckets) * 2 && log2NumBuckets == old(log2NumBuckets) + 1
    {
      numBuckets := numBuckets * 2;
      log2NumBuckets := log2NumBuckets + 1;
      buckets := newBuckets;
      chains := nc;
    }

    // The end of HASH_EXPAND_BUCKETS: two ineffective doublings in a row are the last.
    method Judge()
      modifies this`ineffExpands, this`noexpand, this`doublings
      ensures doublings == old(doublings) + [nonidealItems > numItems / 2]
      ensures ineffExpands == if nonidealItems > numItems / 2 then old(ineffExpands) + 1 else 0
      ensures noexpand == if ineffExpands > 1 then 1 else old(noexpand)
    {
      assert Shr(numItems, 1) == Shr(numItems / 2, 0);
      ineffExpands := if nonidealItems > Shr(numItems, 1) then ineffExpands + 1 else 0;
      doublings := doublings + [nonidealItems > Shr(numItems, 1)];
      if ineffExpands > 1 {
        noexpand := 1;
      }
    }

    // What a doubling does for the loads: it restores them all at once.
    lemma Rebalanced(before: seq<Bkt>)
      requires AllWithin(before) && |before| > 0 && SumMult(before) <= |before|
      requires Sized(numItems) && numItems == SumCount(before) + 1 && numBuckets == 2 * |before|
      requires idealChainMaxLen == CeilDiv(numItems, numBuckets) && Filled(buckets[..])
      ensures SumMult(buckets[..]) <= numBuckets && idealChainMaxLen <= THRESH && AllWithin(buckets[..])
    {
      NextIdeal(before);
      DoublingMult(buckets[..], idealChainMaxLen);
      DoublingWithin(buckets[..], idealChainMaxLen);
    }

    // The first half of HASH_ADD_TO_BKT: counts p in and links it in front.
    method PushInto(ghost hash: HashFn, b: nat, p: Peer, ghost elems: set<Peer>)
      requires Chained(hash, buckets[..], chains, elems) && p !in elems
      requires Sized(SumCount(buckets[..])) && b == BktOf(hash(p.id), numBuckets)
      modifies this`chains, buckets, p`hhNext, p`hhPrev, elems`hhPrev
      ensures Chained(hash, buckets[..], chains, elems + {p})
      ensures SumCount(buckets[..]) == old(SumCount(buckets[..])) + 1
      ensures buckets[..] == old(buckets[..])[b := Bucket(p, old(buckets[b].count) + 1, old(buckets[b].expandMult))]
      ensures b < |old(chains)| && chains == old(chains)[b := [p] + old(chains)[b]]
      ensures SumMult(buckets[..]) == old(SumMult(buckets[..]))
    {
      hide Placed, Linked, Heads, SumCount, SumMult, Pow2;
      ghost var bs0 := buckets[..];
      HeadsAt(bs0, chains, b);
      PlacedPush(hash, chains, elems, b, p);
      var h := buckets[b].hhHead;
      buckets[b] := Bucket(p, buckets[b].count + 1, buckets[b].expandMult);
      assert buckets[..] == bs0[b := buckets[b]];
      LinkAmong(hash, h, p, b, chains, elems);
      SumUpdate(bs0, b, buckets[b], 0);
      HeadsSet(bs0, chains, b, buckets[b], [p] + chains[b]);
      chains := chains[b := [p] + chains[b]];
    }

    // A doubling forced by an add, out of buckets that were within their loads before it.
    method Grow(ghost hash: HashFn, ghost before: seq<Bkt>, ghost elems: set<Peer>)
      requires Chained(hash, buckets[..], chains, elems) && Sized(numItems)
      requires |before| == numBuckets && numItems == SumCount(before) + 1
      requires AllWithin(before) && SumMult(before) <= |before|
      requires ineffExpands == Trailing(doublings) && noexpand == 0 && !TwoInARow(doublings)
      requires forall p :: p in elems ==> p.hashv == hash(p.id)
      modifies this`buckets, this`numBuckets, this`log2NumBuckets, this`idealChainMaxLen, this`nonidealItems,
               this`ineffExpands, this`noexpand, this`chains, this`doublings,
               elems`hhNext, elems`hhPrev
      ensures fresh(buckets) && Chained(hash, buckets[..], chains, elems) && Sized(numItems)
      ensures Bounded()
      ensures numBuckets == 2 * old(numBuckets) && log2NumBuckets == old(log2NumBuckets) + 1 && Respread()
      ensures doublings == old(doublings) + [nonidealItems > numItems / 2]
      ensures ineffExpands == if nonidealItems > numItems / 2 then old(ineffExpands) + 1 else 0
      ensures noexpand == if ineffExpands > 1 then 1 else 0
    {
      hide Chained, SumCount, SumMult, Respread;
      TwoInARowStep(doublings, true);
      TwoInARowStep(doublings, false);
      Expand(hash, elems);
      Rebalanced(before);
    }

    // HASH_ADD_TO_BKT
    method AddToBkt(ghost hash: HashFn, b: nat, p: Peer, ghost elems: set<Peer>)
      requires Chained(hash, buckets[..], chains, elems) && p !in elems
      requires Sized(SumCount(buckets[..])) && SumCount(buckets[..]) + 1 == numItems
      requires Bounded() && b == BktOf(p.hashv, numBuckets)
      requires forall q :: q in elems + {p} ==> q.hashv == hash(q.id)
      modifies this`buckets, this`numBuckets, this`log2NumBuckets, this`idealChainMaxLen, this`nonidealItems,
               this`ineffExpands, this`noexpand, this`chains, this`doublings,
               buckets, p`hhNext, p`hhPrev, elems`hhNext, elems`hhPrev
      ensures buckets == old(buckets) || fresh(buckets)
      ensures Chained(hash, buckets[..], chains, elems + {p}) && Sized(numItems) && Bounded()
      ensures old(doublings) <= doublings && |doublings| <= |old(doublings)| + 1
      ensures var full := old(noexpand) != 1 && old(buckets[b].count) + 1 >= 10 * (old(buckets[b].expandMult) + 1);
              if full then
                && numBuckets == 2 * old(numBuckets) && log2NumBuckets == old(log2NumBuckets) + 1 && Respread()
                && doublings == old(doublings) + [nonidealItems > numItems / 2]
                && ineffExpands == (if nonidealItems > numItems / 2 then old(ineffExpands) + 1 else 0)
                && noexpand == (if ineffExpands > 1 then 1 else 0)
              else
                && buckets == old(buckets) && numBuckets == old(numBuckets) && log2NumBuckets == old(log2NumBuckets)
                && buckets[..] ==
                   old(buckets[..])[b := Bucket(p, old(buckets[b].count) + 1, old(buckets[b].expandMult))]
                && chains == old(chains)[b := [p] + old(chains)[b]]
                && doublings == old(doublings) && ineffExpands == old(ineffExpands) && noexpand == old(noexpand)
                && idealChainMaxLen == old(idealChainMaxLen) && nonidealItems == old(nonidealItems)
    {
      hide Chained, SumCount, SumMult, Trailing, TwoInARow, Respread;
      ghost var bs0 := buckets[..];
      PushInto(hash, b, p, elems);
      if buckets[b].count >= (buckets[b].expandMult + 1) * THRESH && noexpand != 1 {
        Grow(hash, bs0, elems + {p});
      }
    }

    // The bucket half of HASH_DELETE. The loads stay within bounds: only a count goes down.
    method TakeOut(ghost hash: HashFn, p: Peer, ghost elems: set<Peer>)
      requires Chained(hash, buckets[..], chains, elems) && p in elems && p.hashv == hash(p.id)
      requires Sized(SumCount(buckets[..])) && Bounded()
      modifies this`chains, buckets, elems`hhNext, elems`hhPrev
      ensures Chained(hash, buckets[..], chains, elems - {p})
      ensures SumCount(buckets[..]) == old(SumCount(buckets[..])) - 1
      ensures Bounded()
      ensures var b := BktOf(p.hashv, numBuckets);
              && b < |old(chains)| && (exists k :: 0 <= k < |old(chains)[b]| && old(chains)[b][k] == p &&
                                         chains == old(chains)[b := Without(old(chains)[b], k)])
              && forall c :: 0 <= c < buckets.Length ==>
                   && buckets[c].expandMult == old(buckets[c].expandMult)
                   && buckets[c].count == old(buckets[c].count) - (if c == b then 1 else 0)
    {
      hide Chained, SumCount, SumMult, AllWithin, Trailing, TwoInARow, Pow2;
      var b := BktOf(p.hashv, numBuckets);
      ghost var bs0 := buckets[..];
      ghost var k := PositionOf(hash, bs0, chains, elems, p);
      DelInBkt(hash, buckets, b, p, k, chains, elems);
      assert buckets[..] == bs0[b := Bucket(buckets[b].hhHead, bs0[b].count - 1, bs0[b].expandMult)];
      LessLoad(bs0, b, buckets[b].hhHead);
      chains := chains[b := Without(chains[b], k)];
    }

    // HASH_FIND_IN_BKT
    method FindInBkt(ghost hash: HashFn, b: nat, key: string, hashval: nat, ghost elems: set<Peer>) returns (out: Peer?)
      requires Chained(hash, buckets[..], chains, elems) && numBuckets == buckets.Length
      requires forall p :: p in elems ==> p.hashv == hash(p.id)
      requires hashval == hash(key) && b == BktOf(hashval, numBuckets)
      ensures out != null ==> out in elems && out.id == key
      ensures out == null ==> forall p :: p in elems ==> p.id != key
    {
      hide Chained, Placed, Heads, Linked;
      ChainFor(hash, buckets[..], chains, elems, b, key);
      ghost var c := chains[b];
      out := buckets[b].hhHead;
      ghost var k := 0;
      while out != null
        invariant 0 <= k <= |c| && out == At(c, k)
        invariant forall j :: 0 <= j < k ==> c[j].id != key
        decreases |c| - k
      {
        if out.hashv == hashval && |out.id| == |key| && out.id == key {
          break;
        }
        assert out == c[k];
        out := out.hhNext;
        k := k + 1;
      }
    }
  }
}
