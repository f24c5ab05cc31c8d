/** The Bloom filter of uthash: a vector of bits, of which only ever more are set. */
module UtBloom {
  import opened Arith
  import opened UtBuckets

  /** One bit of a byte. */
  function OneBit(i: nat): bv8
    requires i < 8
  {
    (1 as bv8) << i
  }

  /** HASH_BLOOM_BITTEST */
  predicate Bit(bits: seq<bv8>, i: nat)
    requires i / 8 < |bits|
  {
    bits[i / 8] & OneBit(i % 8) != 0
  }

  /** HASH_BLOOM_BYTELEN for a filter of `2^n` bits */
  function ByteLength(n: nat): (r: nat)
    ensures Pow2(n) <= 8 * r < Pow2(n) + 8
  {
    Pow2(n) / 8 + if Pow2(n) % 8 != 0 then 1 else 0
  }

  lemma BitValues(i: nat)
    requires i < 8
    ensures OneBit(i) == if i == 0 then 1 else if i == 1 then 2 else if i == 2 then 4 else if i == 3 then 8
      else if i == 4 then 16 else if i == 5 then 32 else if i == 6 then 64 else 128
  {
    if i == 0 {} else if i == 1 {} else if i == 2 {} else if i == 3 {}
    else if i == 4 {} else if i == 5 {} else if i == 6 {} else {}
  }

  lemma BitSet(b: bv8, i: nat, j: nat)
    requires i < 8 && j < 8
    ensures (b | OneBit(i)) & OneBit(j) != 0 <==> i == j || b & OneBit(j) != 0
  {
    BitValues(i);
    BitValues(j);
  }

  /** HASH_BLOOM_BITSET sets one bit and no other. */
  method SetBit(bits: array<bv8>, i: nat)
    requires i / 8 < bits.Length
    modifies bits
    ensures forall j: nat :: j / 8 < bits.Length ==> (Bit(bits[..], j) <==> j == i || Bit(old(bits[..]), j))
  {
    ghost var was := bits[..];
    bits[i / 8] := bits[i / 8] | OneBit(i % 8);
    forall j: nat | j / 8 < bits.Length
      ensures Bit(bits[..], j) <==> j == i || Bit(was, j)
    {
      if j / 8 == i / 8 {
        BitSet(was[i / 8], i % 8, j % 8);
      }
    }
  }

  /** The bit of the filter that a hash value selects, in a filter of `2^n` bits */
  function Index(hashv: nat, n: nat): nat {
    And(hashv, Pow2(n) - 1)
  }

  lemma IndexFits(hashv: nat, n: nat)
    ensures Index(hashv, n) / 8 < ByteLength(n)
  {
    AllMask(hashv, n);
  }
}
