/** The Bloom filter kept with every sorted file (internal/storage/sstable/bloom_filter.go). */
module Bloom {
  import opened ByteStrings

  type uint32 = x: int | 0 <= x < 0x1_0000_0000

  /** FNV-1a over `data`, continued from h. */
  function Fnv(h: bv32, data: Bytes): bv32
    decreases |data|
  {
    if data == [] then h else Fnv(FnvStep(h, data[0]), data[1..])
  }

  function FnvStep(h: bv32, b: byte): bv32 {
    (h ^ (b as bv32)) * 16777619
  }

  /** The two base hashes; the second is the hash of the first followed by a salt byte, never 0. */
  function Hash(key: Bytes): (uint32, uint32) {
    var h1 := Fnv(2166136261, key) as int;
    var h2 := Fnv(2166136261, LittleEndian(h1, 4) + [1]) as int;
    (h1, if h2 == 0 then 1 else h2)
  }

  /** The bit the i-th probe looks at; sums and products wrap at 32 bits. */
  function Probe(hash: (uint32, uint32), i: nat, totalBitCount: nat): (r: nat)
    requires totalBitCount > 0
    ensures r < totalBitCount
  {
    (hash.0 + i * hash.1) % 0x1_0000_0000 % totalBitCount
  }

  function Mask(bit: nat): bv8
    requires bit < 8
  {
    (1 as bv8) << bit
  }

  predicate BitSet(bits: seq<bv8>, p: nat)
    requires p < |bits| * 8
  {
    bits[p / 8] & Mask(p % 8) != 0
  }

  lemma MaskMeetsItselfOnly(a: nat, b: nat)
    requires a < 8 && b < 8
    ensures Mask(a) & Mask(b) != 0 <==> a == b
  {
  }

  /** Setting one bit sets that bit and no other. */
  lemma SetBit(bits: seq<bv8>, p: nat, q: nat)
    requires p < |bits| * 8 && q < |bits| * 8
    ensures BitSet(bits[p / 8 := bits[p / 8] | Mask(p % 8)], q) <==> BitSet(bits, q) || p == q
  {
    MaskMeetsItselfOnly(p % 8, q % 8);
    if p / 8 == q / 8 {
      OrMeets(bits[p / 8], Mask(p % 8), Mask(q % 8));
    }
  }

  lemma OrMeets(x: bv8, y: bv8, m: bv8)
    ensures (x | y) & m != 0 <==> x & m != 0 || y & m != 0
  {
  }

  /** p is among the first n probes. */
  ghost predicate Probed(hash: (uint32, uint32), n: nat, totalBitCount: nat, p: nat)
    requires totalBitCount > 0
  {
    exists i :: 0 <= i < n && p == Probe(hash, i, totalBitCount)
  }

  lemma NoProbes(hash: (uint32, uint32), totalBitCount: nat, p: nat)
    requires totalBitCount > 0
    ensures !Probed(hash, 0, totalBitCount, p)
  {
  }

  lemma ProbedNext(hash: (uint32, uint32), n: nat, totalBitCount: nat, p: nat)
    requires totalBitCount > 0
    ensures Probed(hash, n + 1, totalBitCount, p) <==> Probed(hash, n, totalBitCount, p) || p == Probe(hash, n, totalBitCount)
  {
    hide Probe;
  }

  /** All probes of a key hit set bits: what MayContain answers. */
  predicate MayHold(bits: seq<bv8>, numHashes: nat, totalBitCount: nat, key: Bytes)
    requires 0 < totalBitCount <= |bits| * 8
  {
    forall i :: 0 <= i < numHashes ==> BitSet(bits, Probe(Hash(key), i, totalBitCount))
  }

  class BloomFilter {
    var bits: seq<bv8>
    var numHashes: nat
    var totalBitCount: nat

    ghost predicate Valid()
      reads this
    {
      0 < totalBitCount <= |bits| * 8 && 1 <= numHashes <= 30 && |bits| == (totalBitCount + 7) / 8
    }

    /** The optimal number of probes is the caller's bitsPerKey * ln 2 truncated, passed as k. */
    constructor (numKeys: int, bitsPerKey: nat, k: int)
      ensures Valid()
      ensures numHashes == (if k < 1 then 1 else if k > 30 then 30 else k)
      ensures totalBitCount == (if numKeys < 0 || numKeys * bitsPerKey < 64 then 64 else numKeys * bitsPerKey)
      ensures forall p :: 0 <= p < |bits| * 8 ==> !BitSet(bits, p)
    {
      var count: int := if numKeys < 0 then 0 else numKeys * bitsPerKey;
      if count < 64 {
        count := 64;
      }
      totalBitCount := count;
      numHashes := if k < 1 then 1 else if k > 30 then 30 else k;
      bits := seq((count + 7) / 8, _ => 0);
    }

    /** Rebuilds a filter from its stored bytes: the bit count is now a multiple of 8. */
    constructor FromBytes(data: seq<bv8>, numHashes: nat)
      requires data != []
      ensures Valid() && bits == data && totalBitCount == |data| * 8
      ensures this.numHashes == if numHashes < 1 then 1 else if numHashes > 30 then 30 else numHashes
    {
      bits := data;
      this.numHashes := if numHashes < 1 then 1 else if numHashes > 30 then 30 else numHashes;
      totalBitCount := |data| * 8;
    }

    method Add(key: Bytes)
      requires Valid()
      modifies this`bits
      ensures Valid()
      ensures forall p :: 0 <= p < |bits| * 8 ==>
        (BitSet(bits, p) <==> BitSet(old(bits), p) || Probed(Hash(key), numHashes, totalBitCount, p))
    {
      hide Hash, Probe, BitSet, Probed, Mask;
      var hash := Hash(key);
      var i: nat := 0;
      forall p: nat
        ensures !Probed(hash, 0, totalBitCount, p)
      {
        NoProbes(hash, totalBitCount, p);
      }
      while i < numHashes
        invariant 0 <= i <= numHashes && |bits| == old(|bits|)
        invariant forall p :: 0 <= p < |bits| * 8 ==>
          (BitSet(bits, p) <==> BitSet(old(bits), p) || Probed(hash, i, totalBitCount, p))
      {
        var target := Probe(hash, i, totalBitCount);
        ghost var before := bits;
        bits := bits[target / 8 := bits[target / 8] | Mask(target % 8)];
        forall p | 0 <= p < |bits| * 8
          ensures BitSet(bits, p) <==> BitSet(before, p) || p == target
        {
          SetBit(before, target, p);
        }
        forall p: nat
          ensures Probed(hash, i + 1, totalBitCount, p) <==> Probed(hash, i, totalBitCount, p) || p == target
        {
          ProbedNext(hash, i, totalBitCount, p);
        }
        i := i + 1;
      }
    }

    method MayContain(key: Bytes) returns (r: bool)
      requires Valid()
      ensures r == MayHold(bits, numHashes, totalBitCount, key)
    {
      var hash := Hash(key);
      var i := 0;
      while i < numHashes
        invariant 0 <= i <= numHashes
        invariant forall j :: 0 <= j < i ==> BitSet(bits, Probe(hash, j, totalBitCount))
      {
        if !BitSet(bits, Probe(hash, i, totalBitCount)) {
          return false;
        }
        i := i + 1;
      }
      return true;
    }
  }

  /** The bits after adding all keys, whatever the order: exactly the probed ones. */
  ghost predicate HoldsExactly(bits: seq<bv8>, numHashes: nat, totalBitCount: nat, keys: set<Bytes>)
    requires 0 < totalBitCount <= |bits| * 8
  {
    forall p :: 0 <= p < |bits| * 8 ==>
      (BitSet(bits, p) <==> exists k :: k in keys && Probed(Hash(k), numHashes, totalBitCount, p))
  }

  /** Stored and read back, the filter answers as before when the bit count is a multiple of 8:
      in particular no key that was added is ever denied. */
  lemma NoFalseNegativeAfterReload(bits: seq<bv8>, numHashes: nat, totalBitCount: nat, keys: set<Bytes>, key: Bytes)
    requires 0 < totalBitCount <= |bits| * 8 && |bits| == (totalBitCount + 7) / 8
    requires HoldsExactly(bits, numHashes, totalBitCount, keys) && key in keys
    requires totalBitCount % 8 == 0
    ensures MayHold(bits, numHashes, |bits| * 8, key)
  {
    assert |bits| * 8 == totalBitCount;
  }

  /** The probes of the reloaded filter are those of the written one, for all hashes, exactly then. */
  lemma ReloadKeepsProbesIff(totalBitCount: nat)
    requires 0 < totalBitCount < 0x1_0000_0000
    ensures (forall h: (uint32, uint32), i: nat :: Probe(h, i, totalBitCount) == Probe(h, i, (totalBitCount + 7) / 8 * 8))
            <==> totalBitCount % 8 == 0
  {
    var reloaded := (totalBitCount + 7) / 8 * 8;
    if totalBitCount % 8 == 0 {
      hide Probe;
      assert reloaded == totalBitCount;
    } else {
      FirstProbeOfItself(totalBitCount, totalBitCount);
      FirstProbeOfItself(totalBitCount, reloaded);
      assert Probe((totalBitCount, 1), 0, totalBitCount) != Probe((totalBitCount, 1), 0, reloaded);
    }
  }

  lemma FirstProbeOfItself(n: nat, totalBitCount: nat)
    requires 0 < n <= totalBitCount && n < 0x1_0000_0000
    ensures Probe((n, 1), 0, totalBitCount) == if n == totalBitCount then 0 else n
  {
  }

  /** With 70 bits for 7 keys, the written filter holds the key "a" and the reloaded one denies it. */
  lemma ReloadDeniesAnAddedKey(bits: seq<bv8>)
    requires |bits| == 9 && HoldsExactly(bits, 6, 70, {[97]})
    ensures MayHold(bits, 6, 70, [97]) && !MayHold(bits, 6, 72, [97])
  {
    hide Fnv, FnvStep, Hash, Mask;
    HashOfA();
    var h: (uint32, uint32) := (3826002220, 1475763005);
    ProbesOfA();
    assert !Probed(h, 6, 70, 52);
    assert !BitSet(bits, 52);
    forall i | 0 <= i < 6
      ensures BitSet(bits, Probe(h, i, 70))
    {
      assert Probed(h, 6, 70, Probe(h, i, 70));
    }
  }

  lemma ProbesOfA()
    ensures Probe((3826002220, 1475763005), 0, 72) == 52
    ensures forall i :: 0 <= i < 6 ==> Probe((3826002220, 1475763005), i, 70) != 52
  {
    assert (3826002220 + 0 * 1475763005) % 0x1_0000_0000 == 3826002220;
    assert (3826002220 + 1 * 1475763005) % 0x1_0000_0000 == 1006797929;
    assert (3826002220 + 2 * 1475763005) % 0x1_0000_0000 == 2482560934;
    assert (3826002220 + 3 * 1475763005) % 0x1_0000_0000 == 3958323939;
    assert (3826002220 + 4 * 1475763005) % 0x1_0000_0000 == 1139119648;
    assert (3826002220 + 5 * 1475763005) % 0x1_0000_0000 == 2614882653;
  }

  lemma HashOfA()
    ensures Hash([97]) == (3826002220, 1475763005)
  {
    assert FnvStep(2166136261, 97) == 3826002220;
    assert Fnv(2166136261, [97]) == Fnv(3826002220, []);
    assert LittleEndian(3826002220, 4) == [44] + ([41] + LittleEndian(58380, 2));
    assert LittleEndian(58380, 2) == [12] + ([228] + LittleEndian(0, 0));
    FnvOfFive(2166136261, 44, 41, 12, 228, 1);
    assert LittleEndian(3826002220, 4) + [1] == [44, 41, 12, 228, 1];
    assert FnvStep(2166136261, 44) == 688690635;
    assert FnvStep(688690635, 41) == 2161111750;
    assert FnvStep(2161111750, 12) == 2438673406;
    assert FnvStep(2438673406, 228) == 3968954862;
    assert FnvStep(3968954862, 1) == 1475763005;
  }

  lemma FnvOfFive(h: bv32, a: byte, b: byte, c: byte, d: byte, e: byte)
    ensures Fnv(h, [a, b, c, d, e]) == FnvStep(FnvStep(FnvStep(FnvStep(FnvStep(h, a), b), c), d), e)
  {
    hide FnvStep;
    var h1 := FnvStep(h, a);
    var h2 := FnvStep(h1, b);
    var h3 := FnvStep(h2, c);
    assert [a, b, c, d, e][1..] == [b, c, d, e] && [b, c, d, e][1..] == [c, d, e] && [c, d, e][1..] == [d, e];
    assert Fnv(h, [a, b, c, d, e]) == Fnv(h1, [b, c, d, e]);
    assert Fnv(h1, [b, c, d, e]) == Fnv(h2, [c, d, e]);
    assert Fnv(h2, [c, d, e]) == Fnv(h3, [d, e]);
    assert [d, e][1..] == [e] && [e][1..] == [];
    assert Fnv(h3, [d, e]) == Fnv(FnvStep(h3, d), [e]);
    assert Fnv(FnvStep(h3, d), [e]) == FnvStep(FnvStep(h3, d), e);
  }
}
