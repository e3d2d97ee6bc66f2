/** The hash head of include/uthash.h: the application-order list together with the table,
    seen as an insertion-ordered map from keys to elements. */
module PeerHashes {
  import opened Bits
  import opened ChainBound
  import opened DataStructs
  import opened UtHash
  import Bloom

  ghost predicate AppLinks(s: seq<Peer>)
    reads s`prev, s`next
  {
    && (forall i {:trigger s[i].prev} :: 0 <= i < |s| ==> s[i].prev == At(s, i - 1))
    && (forall i {:trigger s[i].next} :: 0 <= i < |s| ==> s[i].next == At(s, i + 1))
  }

  // The whole application-order list, from head to tail.
  ghost predicate AppList(head: Peer?, tail: Peer?, s: seq<Peer>)
    reads s`prev, s`next
  {
    && s != []
    && Distinct(s) && AppLinks(s)
    && head == s[0] && tail == s[|s| - 1]
  }

  ghost predicate KeysDistinct(s: seq<Peer>) {
    forall i, j :: 0 <= i < j < |s| ==> s[i].id != s[j].id
  }

  ghost predicate Owned(t: Table, hash: HashFn, s: seq<Peer>)
    reads s`tbl, s`hashv
  {
    forall p :: p in s ==> p.tbl == t && p.hashv == hash(p.id)
  }

  // The filter says "maybe" to every stored hash value.
  ghost predicate Covers(nbits: nat, bits: seq<bv8>, hash: HashFn, elems: set<Peer>) {
    && |bits| == Bloom.ByteLen(nbits)
    && forall p :: p in elems ==> Bloom.Test(bits, Bloom.Slot(hash(p.id), nbits))
  }

  ghost predicate BloomOk(t: Table, hash: HashFn, bloom: Option<nat>, elems: set<Peer>)
    reads t`bloomBv, t`bloomNbits, t`buckets, t.bloomBv
  {
    && t.bloomBv as object? != t.buckets
    && (bloom == None ==> t.bloomBv == null)
    && (bloom.Some? ==> t.bloomBv != null && t.bloomNbits == bloom.value
                        && Covers(t.bloomNbits, t.bloomBv[..], hash, elems))
  }

  // The table stores exactly s.
  ghost predicate Stored(t: Table, hash: HashFn, bloom: Option<nat>, s: seq<Peer>)
    reads t`buckets, t`numBuckets, t`log2NumBuckets, t`numItems, t`bloomNbits, t`bloomBv, t`idealChainMaxLen
    reads t`ineffExpands, t`noexpand, t`chains, t`doublings, t.buckets, t.bloomBv, s`hhPrev, s`hhNext
  {
    && Heads(t.buckets[..], t.chains) && Placed(hash, t.chains, Elems(s)) && Linked(t.chains, Elems(s))
    && SizedOk(t.buckets[..], t.numBuckets, t.log2NumBuckets, |s|) && t.numItems == |s|
    && BoundedOk(t.buckets[..], t.numBuckets, t.idealChainMaxLen, t.ineffExpands, t.noexpand, t.doublings)
    && BloomOk(t, hash, bloom, Elems(s))
  }

  // HASH_APPEND_LIST
  method AppendList(t: Table, p: Peer, ghost items: seq<Peer>)
    requires t.tail != null && AppList(At(items, 0), t.tail, items) && p !in items
    modifies t`tail, p`prev, p`next, items`next
    ensures AppList(items[0], t.tail, items + [p])
  {
    p.next := null;
    p.prev := t.tail;
    t.tail.next := p;
    t.tail := p;
  }

  // HASH_BLOOM_ADD
  method BloomAdd(t: Table, ghost hash: HashFn, ghost bloom: Option<nat>, hashval: nat,
                  ghost elems: set<Peer>, ghost p: Peer)
    requires BloomOk(t, hash, bloom, elems) && hashval == hash(p.id)
    modifies t.bloomBv
    ensures BloomOk(t, hash, bloom, elems + {p})
    ensures t.bloomBv != null ==> forall j: nat :: j < t.bloomBv.Length * 8 ==>
              (Bloom.Test(t.bloomBv[..], j) <==> j == hashval % Pow2(t.bloomNbits) || old(Bloom.Test(t.bloomBv[..], j)))
  {
    MaskIsMod(hashval, t.bloomNbits);
    if t.bloomBv != null {
      Bloom.Set(t.bloomBv, Bloom.Slot(hashval, t.bloomNbits));
    }
  }

  // The second half of HASH_ADD_KEYPTR: counts the element, and puts it into its bucket.
  method StoreOne(t: Table, ghost hash: HashFn, ghost bloom: Option<nat>, p: Peer, ghost s: seq<Peer>)
    requires Stored(t, hash, bloom, s) && p !in s
    requires forall q :: q in s + [p] ==> q.hashv == hash(q.id)
    modifies t`numItems, t`buckets, t`numBuckets, t`log2NumBuckets, t`idealChainMaxLen, t`nonidealItems
    modifies t`ineffExpands, t`noexpand, t`chains, t`doublings, t.buckets, t.bloomBv
    modifies p`hhPrev, p`hhNext, s`hhPrev, s`hhNext
    ensures Stored(t, hash, bloom, s + [p])
    ensures t.buckets == old(t.buckets) || fresh(t.buckets)
    ensures old(t.doublings) <= t.doublings
  {
    hide Heads, Placed, Linked, SumCount, Pow2, BoundedOk, Covers;
    assert SumCount(t.buckets[..]) == |s| && t.numBuckets == |t.buckets[..]| >= 1;
    assert Elems(s) + {p} == Elems(s + [p]);
    t.numItems := t.numItems + 1;
    t.AddToBkt(hash, BktOf(p.hashv, t.numBuckets), p, Elems(s));
    BloomAdd(t, hash, bloom, p.hashv, Elems(s), p);
  }

  // The neighbours of p, the k-th element, are linked to each other.
  method Relink(p: Peer, ghost s: seq<Peer>, ghost k: nat)
    requires AppLinks(s) && Distinct(s) && k < |s| && s[k] == p
    modifies s`prev, s`next
    ensures AppLinks(Without(s, k)) && p.prev == old(p.prev) && p.next == old(p.next)
  {
    if p.prev != null {
      p.prev.next := p.next;
    }
    if p.next != null {
      p.next.prev := p.prev;
    }
  }

  lemma WithoutEnds(s: seq<Peer>, k: nat)
    requires Distinct(s) && |s| > 1 && k < |s|
    ensures Without(s, k) != [] && Distinct(Without(s, k))
    ensures Without(s, k)[0] == if k == 0 then s[1] else s[0]
    ensures Without(s, k)[|s| - 2] == if k == |s| - 1 then s[|s| - 2] else s[|s| - 1]
    ensures k > 0 ==> s[k] != s[0]
    ensures k < |s| - 1 ==> s[k] != s[|s| - 1]
  {
  }

  lemma EndsOf(head: Peer?, tail: Peer?, s: seq<Peer>, k: nat)
    requires AppList(head, tail, s) && k < |s|
    ensures AppLinks(s) && Distinct(s) && head == s[0] && tail == s[|s| - 1]
    ensures s[k].prev == At(s, k - 1) && s[k].next == At(s, k + 1)
  {
  }

  lemma ListAgain(head: Peer?, tail: Peer?, s: seq<Peer>)
    requires s != [] && Distinct(s) && AppLinks(s) && head == s[0] && tail == s[|s| - 1]
    ensures AppList(head, tail, s)
  {
  }

  // The list half of HASH_DELETE: patches the neighbours, the head and the tail.
  method Unlist(head: Peer?, t: Table, p: Peer, ghost s: seq<Peer>, ghost k: nat) returns (head': Peer?)
    requires AppList(head, t.tail, s) && |s| > 1 && k < |s| && s[k] == p
    modifies t`tail, s`prev, s`next
    ensures AppList(head', t.tail, Without(s, k))
  {
    hide AppList, AppLinks, Distinct;
    EndsOf(head, t.tail, s, k);
    WithoutEnds(s, k);
    if p == t.tail {
      t.tail := p.prev;
    }
    head' := if p.prev != null then head else p.next;
    Relink(p, s, k);
    ListAgain(head', t.tail, Without(s, k));
  }

  // The table half of HASH_DELETE.
  method UnstoreOne(t: Table, ghost hash: HashFn, ghost bloom: Option<nat>, p: Peer, ghost s: seq<Peer>, ghost k: nat)
    requires Stored(t, hash, bloom, s) && Distinct(s) && k < |s| && s[k] == p && p.hashv == hash(p.id)
    modifies t`numItems, t`chains, t.buckets, s`hhPrev, s`hhNext
    ensures Stored(t, hash, bloom, Without(s, k))
  {
    hide Heads, Placed, Linked, BoundedOk;
    assert Elems(s) - {p} == Elems(Without(s, k));
    t.TakeOut(hash, p, Elems(s));
    t.numItems := t.numItems - 1;
  }

  class PeerHash {
    var head: Peer?
    const hash: HashFn
    const bloom: Option<nat>
    // The table, while there is one, and the elements in application order.
    ghost var t: Table?
    ghost var items: seq<Peer>

    ghost function TableRepr(): set<object?>
      reads this, t
    {
      if t == null then {} else {t, t.buckets, t.bloomBv}
    }

    // The table and its arrays are those of before, or new; a table's history only grows.
    twostate predicate TableGrows()
      reads this, t
    {
      t != null ==>
        if t == old(t) then
          && (t.buckets == old(t.buckets) || fresh(t.buckets)) && t.bloomBv == old(t.bloomBv)
          && old(t.doublings) <= t.doublings
        else fresh(t) && fresh(t.buckets) && (t.bloomBv != null ==> fresh(t.bloomBv))
    }

    ghost function Tables(): set<Table>
      reads this
    {
      if t == null then {} else {t}
    }

    ghost predicate Valid()
      reads this, TableRepr()
      reads items`tbl, items`hashv, items`prev, items`next, items`hhPrev, items`hhNext
    {
      && (head == null <==> t == null)
      && (t == null ==> items == [])
      && KeysDistinct(items)
      && (t != null ==> AppList(head, t.tail, items) && Owned(t, hash, items) && Stored(t, hash, bloom, items))
    }

    constructor (hash: HashFn, bloom: Option<nat>)
      ensures Valid() && items == [] && this.hash == hash && this.bloom == bloom
    {
      this.hash, this.bloom := hash, bloom;
      head, t, items := null, null, [];
    }

    // The bounds that hold whatever was added and deleted, for every hash function.
    lemma LoadsBounded()
      requires Valid() && t != null
      ensures t.numItems == |items| && t.numBuckets == |t.chains| == t.buckets.Length
      ensures SumMult(t.buckets[..]) <= t.numBuckets && t.idealChainMaxLen <= 10
      ensures forall b :: 0 <= b < t.buckets.Length ==> t.buckets[b].count == |t.chains[b]|
      ensures t.noexpand == 0 ==> |items| < 20 * t.numBuckets
      ensures t.noexpand == 0 ==> forall b :: 0 <= b < t.buckets.Length ==>
                  && t.buckets[b].count <= 10 * (t.buckets[b].expandMult + 1)
                  && (t.buckets[b].expandMult > 0 ==> t.buckets[b].count < 10 * (t.buckets[b].expandMult + 1))
      ensures t.noexpand == 1 <==> TwoInARow(t.doublings)
    {
      hide Linked, AppList, KeysDistinct, Owned, SumCount, SumMult, Pow2, Trailing, TwoInARow, BloomOk;
      if t.noexpand == 0 {
        LoadBound(t.buckets[..]);
        forall b | 0 <= b < t.buckets.Length
          ensures Within(t.buckets[b])
        {
          assert t.buckets[..][b] == t.buckets[b];
        }
      }
    }

    lemma UniqueKeys(key: string)
      requires Valid()
      ensures forall q :: q in items && q.id == key ==> q == Lookup(items, key)
    {
      LookupUnique(items, key);
    }

    // What a lookup finds behind the head.
    lemma Opened()
      requires Valid() && head != null
      ensures head.tbl == t && t != null && Chained(hash, t.buckets[..], t.chains, Elems(items))
      ensures t.numBuckets == t.buckets.Length > 0 && forall p :: p in Elems(items) ==> p.hashv == hash(p.id)
      ensures t.bloomBv != null ==>
                && Pow2(t.bloomNbits) <= |t.bloomBv[..]| * 8
                && forall p :: p in Elems(items) ==> Bloom.Test(t.bloomBv[..], Bloom.Slot(hash(p.id), t.bloomNbits))
    {
      assert head in items;
    }

    // HASH_FIND
    method Find(key: string) returns (out: Peer?)
      requires Valid()
      ensures Valid() && out == Lookup(items, key)
    {
      hide Stored, AppList, Owned, KeysDistinct, Chained;
      out := null;
      var hashval := hash(key);
      UniqueKeys(key);
      if head != null {
        Opened();
        var bkt := BktOf(hashval, head.tbl.numBuckets);
        if head.tbl.bloomBv == null || Bloom.Test(head.tbl.bloomBv[..], Bloom.Slot(hashval, head.tbl.bloomNbits)) {
          out := head.tbl.FindInBkt(hash, bkt, key, hashval, Elems(items));
        }
      }
    }

    // The first half of HASH_ADD_KEYPTR: the very first element brings the table ...
    method EnlistFirst(p: Peer)
      requires head == null
      modifies this`head, this`t, this`items, p`tbl, p`hashv, p`prev, p`next
      ensures t != null && fresh(t) && fresh(t.buckets) && (t.bloomBv != null ==> fresh(t.bloomBv))
      ensures items == [p] && AppList(head, t.tail, items) && Owned(t, hash, items)
      ensures Stored(t, hash, bloom, [])
    {
      p.hashv := hash(p.id);
      p.next := null;
      p.prev := null;
      head := p;
      head.tbl := new Table(head, bloom);
      t := head.tbl;
      items := [p];
      ZeroedBuckets(hash, t.buckets[..], 0);
    }

    // ... and every other one goes to the end of the list.
    method EnlistLast(p: Peer)
      requires t != null && AppList(head, t.tail, items) && Owned(t, hash, items) && p !in items
      requires Stored(t, hash, bloom, items)
      modifies this`items, t`tail, items`next, p`tbl, p`hashv, p`prev, p`next
      ensures items == old(items) + [p] && AppList(head, t.tail, items) && Owned(t, hash, items)
      ensures Stored(t, hash, bloom, old(items))
    {
      hide Stored, AppList;
      HeadsList(head, t.tail, items);
      p.hashv := hash(p.id);
      p.tbl := head.tbl;
      AppendList(head.tbl, p, items);
      items := items + [p];
    }

    method Enlist(p: Peer)
      requires Valid() && p !in items
      modifies this`head, this`t, this`items, TableRepr(), items`next, p`tbl, p`hashv, p`prev, p`next
      ensures t != null && head != null && head.tbl == t
      ensures TableGrows()
      ensures items == old(items) + [p] && AppList(head, t.tail, items) && Owned(t, hash, items)
      ensures Stored(t, hash, bloom, old(items))
    {
      hide Stored, KeysDistinct;
      if head == null {
        EnlistFirst(p);
      } else {
        EnlistLast(p);
      }
    }

    // HASH_ADD_STR, for an element whose key is not in the table
    method Add(p: Peer)
      requires Valid() && p !in items && Lookup(items, p.id) == null
      modifies this`head, this`t, this`items, TableRepr()
      modifies p`tbl, p`hashv, p`prev, p`next, p`hhPrev, p`hhNext
      modifies items`prev, items`next, items`hhPrev, items`hhNext
      ensures Valid() && TableGrows()
      ensures items == old(items) + [p]
    {
      hide Stored, AppList, Owned, KeysDistinct;
      KeysExtend(items, p);
      Enlist(p);
      StoreEnlisted(p, old(items));
    }

    // The second half of HASH_ADD_KEYPTR, for the element that was enlisted last.
    method StoreEnlisted(p: Peer, ghost s: seq<Peer>)
      requires t != null && head != null && head.tbl == t && items == s + [p] && p !in s
      requires KeysDistinct(items) && AppList(head, t.tail, items) && Owned(t, hash, items)
      requires Stored(t, hash, bloom, s)
      modifies t`numItems, t`buckets, t`numBuckets, t`log2NumBuckets, t`idealChainMaxLen, t`nonidealItems
      modifies t`ineffExpands, t`noexpand, t`chains, t`doublings, t.buckets, t.bloomBv
      modifies p`hhPrev, p`hhNext, s`hhPrev, s`hhNext
      ensures Valid() && (t.buckets == old(t.buckets) || fresh(t.buckets)) && old(t.doublings) <= t.doublings
    {
      hide Stored, AppList, KeysDistinct;
      StoreOne(head.tbl, hash, bloom, p, s);
      assert AppList(head, t.tail, items) && Owned(t, hash, items);
    }

    method DelistOther(p: Peer, ghost k: nat)
      requires t != null && AppList(head, t.tail, items) && KeysDistinct(items) && Owned(t, hash, items)
      requires Stored(t, hash, bloom, items) && |items| > 1 && k < |items| && items[k] == p
      modifies this`head, t`tail, items`prev, items`next
      ensures AppList(head, t.tail, Without(items, k)) && KeysDistinct(Without(items, k))
      ensures Owned(t, hash, Without(items, k)) && head != null && head.tbl == t && p.hashv == hash(p.id)
      ensures Stored(t, hash, bloom, items) && Distinct(items)
    {
      hide AppList, KeysDistinct, Owned, Stored;
      ListShrinks(head, t, hash, items, k);
      head := Unlist(head, head.tbl, p, items, k);
      assert Owned(t, hash, Without(items, k));
      ListHead(head, t, hash, Without(items, k));
    }

    // HASH_DELETE, when other elements remain
    method DeleteOther(p: Peer, ghost k: nat)
      requires Valid() && |items| > 1 && k < |items| && items[k] == p
      modifies this`head, this`items, t`tail, t`numItems, t`chains, t.buckets
      modifies items`prev, items`next, items`hhPrev, items`hhNext
      ensures Valid() && t.buckets == old(t.buckets) && t.bloomBv == old(t.bloomBv)
      ensures items == Without(old(items), k)
    {
      hide AppList, KeysDistinct, Owned, Stored;
      DelistOther(p, k);
      ghost var rest := Without(items, k);
      UnstoreOne(head.tbl, hash, bloom, p, items, k);
      assert AppList(head, t.tail, rest) && Owned(t, hash, rest);
      items := rest;
    }

    // HASH_DELETE
    method Delete(p: Peer)
      requires Valid() && p in items
      modifies this`head, this`t, this`items, TableRepr()
      modifies items`prev, items`next, items`hhPrev, items`hhNext
      ensures Valid() && TableGrows() && (t == null || (t == old(t) && t.buckets == old(t.buckets)))
      ensures items == Removed(old(items), p)
    {
      hide AppList, KeysDistinct, Owned, Stored, Removed;
      ghost var k :| 0 <= k < |items| && items[k] == p;
      ListShrinks(head, t, hash, items, k);
      RemovedAt(items, k);
      if p.prev == null && p.next == null {
        assert items == [p];
        head, t, items := null, null, [];
      } else {
        DeleteOther(p, k);
      }
    }
  }

  lemma HeadsList(head: Peer?, tail: Peer?, s: seq<Peer>)
    requires AppList(head, tail, s)
    ensures s != [] && head == s[0] && tail != null
  {
  }

  lemma ListHead(head: Peer?, t: Table, hash: HashFn, s: seq<Peer>)
    requires AppList(head, t.tail, s) && Owned(t, hash, s)
    ensures head != null && head.tbl == t
  {
  }

  lemma ListShrinks(head: Peer?, t: Table, hash: HashFn, s: seq<Peer>, k: nat)
    requires AppList(head, t.tail, s) && Owned(t, hash, s) && KeysDistinct(s) && k < |s|
    ensures Owned(t, hash, Without(s, k)) && KeysDistinct(Without(s, k)) && Distinct(s)
    ensures s[k].hashv == hash(s[k].id) && head != null && head.tbl == t
    ensures forall i :: 0 <= i < |Without(s, k)| ==> Without(s, k)[i].tbl == t
    ensures (s[k].prev == null && s[k].next == null) <==> |s| == 1
    ensures |s| == 1 ==> Without(s, k) == []
  {
  }

  function Removed(s: seq<Peer>, p: Peer): seq<Peer> {
    if s == [] then [] else if s[0] == p then s[1..] else [s[0]] + Removed(s[1..], p)
  }

  lemma WithoutCons(s: seq<Peer>, k: nat)
    requires 0 < k < |s|
    ensures Without(s, k) == [s[0]] + Without(s[1..], k - 1)
  {
  }

  lemma {:induction false} RemovedAt(s: seq<Peer>, k: nat)
    requires Distinct(s) && k < |s|
    ensures Removed(s, s[k]) == Without(s, k) == s[..k] + s[k + 1..]
  {
    if k > 0 {
      RemovedAt(s[1..], k - 1);
      assert s[0] != s[k];
      WithoutCons(s, k);
    }
  }

  // The element with the given key, if there is one.
  ghost function Lookup(s: seq<Peer>, key: string): (p: Peer?)
    ensures p != null ==> p in s && p.id == key
    ensures p == null ==> forall q :: q in s ==> q.id != key
  {
    if s == [] then null else if s[0].id == key then s[0] else Lookup(s[1..], key)
  }

  lemma LookupUnique(s: seq<Peer>, key: string)
    requires KeysDistinct(s)
    ensures forall q :: q in s && q.id == key ==> q == Lookup(s, key)
  {
  }

  // Looking up after an add, and after a delete: the table is a map, in insertion order.
  lemma {:induction false} LookupAdd(s: seq<Peer>, p: Peer, key: string)
    requires Lookup(s, p.id) == null
    ensures Lookup(s + [p], key) == if key == p.id then p else Lookup(s, key)
  {
    if s == [] {
      assert s + [p] == [p];
    } else {
      assert (s + [p])[1..] == s[1..] + [p];
      LookupAdd(s[1..], p, key);
    }
  }

  lemma {:induction false} LookupRemoved(s: seq<Peer>, p: Peer, key: string)
    requires KeysDistinct(s) && p in s
    ensures Lookup(Removed(s, p), key) == if key == p.id then null else Lookup(s, key)
  {
    assert s[0] in s;
    if s[0] == p {
      assert forall q :: q in s[1..] ==> q.id != p.id by {
        assert forall j :: 0 < j < |s| ==> s[0].id != s[j].id;
      }
    } else {
      assert p in s[1..];
      var k :| 0 < k < |s| && s[k] == p;
      assert s[0].id != s[k].id;
      LookupRemoved(s[1..], p, key);
    }
  }

  lemma KeysExtend(s: seq<Peer>, p: Peer)
    requires KeysDistinct(s) && Lookup(s, p.id) == null
    ensures KeysDistinct(s + [p])
  {
  }
}
