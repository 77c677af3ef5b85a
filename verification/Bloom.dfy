/** The Bloom filter of the negative cache (l3_negative.rs BloomFilter, hash_index). */
module Bloom {

  const WORD: nat := 0x1_0000_0000_0000_0000

  /** The two base hashes of a key. */
  datatype Hashes = Hashes(h1: nat, h2: nat)

  /** The i-th probed bit: double hashing in wrapping 64-bit arithmetic. */
  function HashIndex(h: Hashes, i: nat, bitCount: nat): (p: nat)
    requires bitCount > 0
    ensures p < bitCount
  {
    ((h.h1 + (i * h.h2) % WORD) % WORD) % bitCount
  }

  // Reducing the product first changes nothing.
  lemma WrapAdd(a: nat, b: nat)
    ensures (a + b % WORD) % WORD == (a + b) % WORD
  {
    var q := b / WORD;
    assert a + b == a + b % WORD + q * WORD;
  }

  /** The probed bits are the values h1 + i * h2 in 64-bit arithmetic, for i below the number of
      hashes, each reduced to the filter. */
  lemma {:induction false} ProbesExactly(h: Hashes, n: nat, bitCount: nat, p: nat)
    requires bitCount > 0
    ensures p in Probes(h, n, bitCount) <==> exists i: nat :: i < n && Probe(h, i, bitCount) == p
  {
    if n > 0 {
      ProbesExactly(h, n - 1, bitCount, p);
      WrapAdd(h.h1, (n - 1) * h.h2);
      assert HashIndex(h, n - 1, bitCount) == Probe(h, n - 1, bitCount);
    }
  }

  ghost function Probe(h: Hashes, i: nat, bitCount: nat): nat
    requires bitCount > 0
  {
    ((h.h1 + i * h.h2) % 0x1_0000_0000_0000_0000) % bitCount
  }

  /** The first n bits probed for a key. */
  ghost function Probes(h: Hashes, n: nat, bitCount: nat): (s: set<nat>)
    requires bitCount > 0
    ensures forall p | p in s :: p < bitCount
  {
    if n == 0 then {} else Probes(h, n - 1, bitCount) + {HashIndex(h, n - 1, bitCount)}
  }

  predicate TestBit(byte: bv8, k: nat)
    requires k < 8
  {
    (byte >> k) & 1 != 0
  }

  function SetBit(byte: bv8, k: nat): bv8
    requires k < 8
  {
    byte | (1 << k)
  }

  lemma SetBitSets(byte: bv8, k: nat, j: nat)
    requires k < 8 && j < 8
    ensures TestBit(SetBit(byte, k), j) <==> j == k || TestBit(byte, j)
  {
    if k < 4 {
      assert k == 0 || k == 1 || k == 2 || k == 3;
    } else {
      assert k == 4 || k == 5 || k == 6 || k == 7;
    }
  }

  lemma ZeroByte(j: nat)
    requires j < 8
    ensures !TestBit(0, j)
  {
  }

  class BloomFilter {
    const bits: array<bv8>
    const hashCount: nat

    ghost predicate Valid()
    {
      bits.Length > 0 && hashCount > 0
    }

    function BitCount(): nat { 8 * bits.Length }

    /** Whether a bit is set. */
    ghost predicate IsSet(p: nat)
      reads bits
    {
      p / 8 < bits.Length && TestBit(bits[p / 8], p % 8)
    }

    constructor (sizeBytes: nat, hashCount: nat)
      requires sizeBytes > 0 && hashCount > 0
      ensures Valid() && fresh(bits) && BitCount() == 8 * sizeBytes && this.hashCount == hashCount
      ensures forall p: nat :: !IsSet(p)
    {
      bits := new bv8[sizeBytes](_ => 0);
      this.hashCount := hashCount;
      new;
      forall p: nat ensures !IsSet(p) {
        ZeroByte(p % 8);
      }
    }

    /** Sets one bit and no other. */
    method Set(p: nat)
      requires p < BitCount()
      modifies bits
      ensures forall q: nat :: IsSet(q) <==> q == p || old(IsSet(q))
    {
      bits[p / 8] := SetBit(bits[p / 8], p % 8);
      forall q: nat ensures IsSet(q) <==> q == p || old(IsSet(q)) {
        if q / 8 == p / 8 {
          SetBitSets(old(bits[p / 8]), p % 8, q % 8);
        }
      }
    }

    /** Inserting sets exactly the probed bits. */
    method Insert(h: Hashes)
      requires Valid()
      modifies bits
      ensures forall p: nat :: IsSet(p) <==> p in Probes(h, hashCount, BitCount()) || old(IsSet(p))
    {
      for i := 0 to hashCount
        invariant forall p: nat :: IsSet(p) <==> p in Probes(h, i, BitCount()) || old(IsSet(p))
      {
        Set(HashIndex(h, i, BitCount()));
      }
    }

    /** A key may be present exactly when all its probed bits are set. */
    method Contains(h: Hashes) returns (maybe: bool)
      requires Valid()
      ensures maybe <==> forall p: nat | p in Probes(h, hashCount, BitCount()) :: IsSet(p)
    {
      for i := 0 to hashCount
        invariant forall p: nat | p in Probes(h, i, BitCount()) :: IsSet(p)
      {
        var p := HashIndex(h, i, BitCount());
        if !TestBit(bits[p / 8], p % 8) {
          assert p in Probes(h, i + 1, BitCount()) && !IsSet(p);
          ProbesGrow(h, i + 1, hashCount, BitCount());
          return false;
        }
      }
      return true;
    }
  }

  lemma {:induction false} ProbesGrow(h: Hashes, m: nat, n: nat, bitCount: nat)
    requires m <= n && bitCount > 0
    ensures Probes(h, m, bitCount) <= Probes(h, n, bitCount)
  {
    if m < n {
      ProbesGrow(h, m, n - 1, bitCount);
    }
  }
}
