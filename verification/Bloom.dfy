/** The optional Bloom filter of include/uthash.h (HASH_BLOOM). */
module Bloom {
  import opened Bits

  // 1U << i, for a bit inside a byte
  function Bit(i: nat): bv8
    requires i < 8
  {
    match i
    case 0 => 1
    case 1 => 2
    case 2 => 4
    case 3 => 8
    case 4 => 16
    case 5 => 32
    case 6 => 64
    case _ => 128
  }

  lemma SetThenTest(x: bv8, i: nat, j: nat)
    requires i < 8 && j < 8
    ensures (x | Bit(i)) & Bit(j) != 0 <==> i == j || x & Bit(j) != 0
  {
  }

  // HASH_BLOOM_BYTELEN
  function ByteLen(nbits: nat): (n: nat)
    ensures Pow2(nbits) <= n * 8
  {
    Pow2(nbits) / 8 + (if Pow2(nbits) % 8 != 0 then 1 else 0)
  }

  function Slot(hashv: nat, nbits: nat): (i: nat)
    ensures i < Pow2(nbits)
  {
    And(hashv, Pow2(nbits) - 1)
  }

  // HASH_BLOOM_BITTEST
  predicate Test(bv: seq<bv8>, i: nat)
    requires i < |bv| * 8
  {
    bv[i / 8] & Bit(i % 8) != 0
  }

  // HASH_BLOOM_BITSET
  method Set(bv: array<bv8>, i: nat)
    requires i < bv.Length * 8
    modifies bv
    ensures forall j: nat :: j < bv.Length * 8 ==> (Test(bv[..], j) <==> i == j || old(Test(bv[..], j)))
  {
    ghost var was := bv[..];
    bv[i / 8] := bv[i / 8] | Bit(i % 8);
    forall j: nat | j < bv.Length * 8
      ensures Test(bv[..], j) <==> i == j || Test(was, j)
    {
      if j / 8 == i / 8 {
        SetThenTest(was[i / 8], i % 8, j % 8);
      }
    }
  }
}
