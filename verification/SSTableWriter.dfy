/** Writing a sorted file: Add and Close (internal/storage/sstable/writer.go). */
module SSTableWriter {
  import opened ByteStrings
  import opened Tables
  import opened SSTableFormat
  import opened Bloom

  datatype AddError = Ok | ErrKeyTooLarge | ErrValueTooLarge | ErrKeysOutOfOrder

  function KeysOf(run: seq<Record>): set<Bytes> {
    set i | 0 <= i < |run| :: run[i].key
  }

  function BytesOf(bits: seq<bv8>): Bytes {
    seq(|bits|, i requires 0 <= i < |bits| => bits[i] as int)
  }

  function SizeOfIndex(index: seq<IndexEntry>): nat {
    if index == [] then 0
    else SizeOfIndex(index[..|index| - 1]) + INDEX_ENTRY_HEADER_SIZE + |index[|index| - 1].key|
  }

  lemma {:induction false} SizeOfIndexBlock(index: seq<IndexEntry>)
    ensures |IndexBlock(index)| == SizeOfIndex(index)
  {
    if index != [] {
      SizeOfIndexBlock(index[..|index| - 1]);
    }
  }

  /** The bits and hash count of a filter to which exactly the keys of the run were added. */
  ghost predicate FilterOf(bits: seq<bv8>, numHashes: nat, totalBitCount: nat, run: seq<Record>) {
    && 0 < totalBitCount && |bits| == (totalBitCount + 7) / 8 && 1 <= numHashes <= 30
    && HoldsExactly(bits, numHashes, totalBitCount, KeysOf(run))
  }

  /** The bits for this many expected keys, at ten a key. */
  function FilterBits(expectedKeys: nat): nat {
    if expectedKeys * 10 < 64 then 64 else expectedKeys * 10
  }

  /** The number of probes that a filter makes of the optimal one: from one to thirty. */
  function Probes(k: int): nat {
    if k < 1 then 1 else if k > 30 then 30 else k
  }

  /** Adding a key keeps the filter exact. */
  lemma AddKeepsExact(before: seq<bv8>, bits: seq<bv8>, numHashes: nat, totalBitCount: nat, run: seq<Record>, r: Record)
    requires |bits| == |before| && 0 < totalBitCount <= |bits| * 8
    requires HoldsExactly(before, numHashes, totalBitCount, KeysOf(run))
    requires forall p :: 0 <= p < |bits| * 8 ==>
               (BitSet(bits, p) <==> BitSet(before, p) || Probed(Hash(r.key), numHashes, totalBitCount, p))
    ensures HoldsExactly(bits, numHashes, totalBitCount, KeysOf(run + [r]))
  {
    hide BitSet, Probed, Hash;
    var keys := KeysOf(run + [r]);
    assert keys == KeysOf(run) + {r.key} by {
      assert (run + [r])[|run|] == r;
      forall i | 0 <= i < |run| ensures (run + [r])[i] == run[i] {}
    }
  }

  lemma AppendRecord(run: seq<Record>, r: Record, blockSize: nat)
    ensures DataBlock(run + [r]) == DataBlock(run) + EncodeEntry(r)
    ensures var index, offset := SparseIndex(run, blockSize), |DataBlock(run)|;
            SparseIndex(run + [r], blockSize) ==
            if index == [] || offset - index[|index| - 1].offset >= blockSize
            then index + [IndexEntry(r.key, offset)] else index
  {
    hide EncodeEntry, LittleEndian;
    assert (run + [r])[..|run|] == run;
  }

  lemma LimitsAppend(run: seq<Record>, r: Record)
    requires WithinLimits(run) && |r.key| < 0x1_0000 && |ValueBytes(r.entry)| < 0x1_0000_0000
    ensures WithinLimits(run + [r])
  {
  }

  /** The entry count is a 32-bit number. */
  function NextOf(count: nat): nat {
    (count + 1) % 0x1_0000_0000
  }

  function Wrapped(n: nat): nat {
    n % 0x1_0000_0000
  }

  lemma NextCount(n: nat)
    ensures NextOf(Wrapped(n)) == Wrapped(n + 1)
  {
  }

  /** Only after an empty key is a key accepted that does not ascend. */
  ghost predicate InOrder(run: seq<Record>) {
    (forall i :: 0 <= i < |run| ==> run[i].key != []) ==> Sorted(run)
  }

  class Writer {
    /** What has been written to the file so far. */
    var file: Bytes
    const bloomFilter: BloomFilter
    var offset: nat
    var lastIndexOffset: nat
    var entryCount: nat
    var index: seq<IndexEntry>
    var lastKey: Bytes
    const indexBlockSize: nat
    ghost var run: seq<Record>

    ghost predicate Valid()
      reads this, bloomFilter
    {
      && indexBlockSize > 0
      && file == DataBlock(run) && offset == |file|
      && index == SparseIndex(run, indexBlockSize)
      && (index != [] ==> lastIndexOffset == index[|index| - 1].offset)
      && entryCount == Wrapped(|run|)
      && lastKey == (if run == [] then [] else run[|run| - 1].key)
      && WithinLimits(run) && InOrder(run)
      && bloomFilter.Valid()
      && HoldsExactly(bloomFilter.bits, bloomFilter.numHashes, bloomFilter.totalBitCount, KeysOf(run))
    }

    /** The caller has checked the options; k is the number of probes for ten bits a key. */
    constructor (expectedKeys: nat, indexBlockSize: nat, k: int)
      requires indexBlockSize > 0
      ensures Valid()
      ensures run == []
      ensures this.indexBlockSize == indexBlockSize
      ensures fresh(bloomFilter)
      ensures bloomFilter.totalBitCount == FilterBits(expectedKeys) == (if expectedKeys * 10 < 64 then 64 else expectedKeys * 10)
      ensures bloomFilter.numHashes == (if k < 1 then 1 else if k > 30 then 30 else k)
    {
      var filter := new BloomFilter(expectedKeys, 10, k);
      bloomFilter := filter;
      file, offset, lastIndexOffset, entryCount, index, lastKey, run := [], 0, 0, 0, [], [], [];
      this.indexBlockSize := indexBlockSize;
    }

    method Add(r: Record) returns (err: AddError)
      requires Valid()
      modifies this, bloomFilter
      ensures Valid()
      ensures err == if |r.key| > 0xFFFF then ErrKeyTooLarge
                     else if |ValueBytes(r.entry)| > 0xFFFF_FFFF then ErrValueTooLarge
                     else if old(lastKey) != [] && !Less(old(lastKey), r.key) then ErrKeysOutOfOrder
                     else Ok
      ensures run == if err.Ok? then old(run) + [r] else old(run)
      ensures bloomFilter.totalBitCount == old(bloomFilter.totalBitCount)
      ensures bloomFilter.numHashes == old(bloomFilter.numHashes)
    {
      hide Valid;
      if |r.key| > 0xFFFF {
        return ErrKeyTooLarge;
      }
      if |ValueBytes(r.entry)| > 0xFFFF_FFFF {
        return ErrValueTooLarge;
      }
      if lastKey != [] && !Less(lastKey, r.key) {
        return ErrKeysOutOfOrder;
      }
      Append(r);
      return Ok;
    }

    /** Appends an accepted entry and updates the running state. */
    method Append(r: Record)
      requires Valid() && |r.key| <= 0xFFFF && |ValueBytes(r.entry)| <= 0xFFFF_FFFF
      requires lastKey != [] ==> Less(lastKey, r.key)
      modifies this, bloomFilter
      ensures Valid()
      ensures run == old(run) + [r]
      ensures bloomFilter.totalBitCount == old(bloomFilter.totalBitCount)
      ensures bloomFilter.numHashes == old(bloomFilter.numHashes)
    {
      hide InOrder, HoldsExactly, EncodeEntry, Sorted, BitSet, Probed, Hash, Mask, Less, DataBlock, SparseIndex,
        WithinLimits, KeysOf, LittleEndian, Probe, BloomFilter.Valid, NextOf, Wrapped;
      AppendRecord(run, r, indexBlockSize);
      LimitsAppend(run, r);
      SortedAppend(run, r);
      AddToFilter(r);
      AddToIndex(r);
      file := file + EncodeEntry(r);
      offset := offset + ENTRY_HEADER_SIZE + |r.key| + |ValueBytes(r.entry)|;
      NextCount(|run|);
      entryCount := NextOf(entryCount);
      lastKey := r.key;
      run := run + [r];
    }

    /** An index entry for the first record, and for every one that starts a new block. */
    method AddToIndex(r: Record)
      requires index != [] ==> lastIndexOffset == index[|index| - 1].offset
      modifies this`index, this`lastIndexOffset
      ensures index == if old(index) == [] || offset - old(index)[|old(index)| - 1].offset >= indexBlockSize
                       then old(index) + [IndexEntry(r.key, offset)] else old(index)
      ensures index != [] ==> lastIndexOffset == index[|index| - 1].offset
    {
      if index == [] || offset - lastIndexOffset >= indexBlockSize {
        index := index + [IndexEntry(r.key, offset)];
        lastIndexOffset := offset;
      }
    }

    method AddToFilter(r: Record)
      requires bloomFilter.Valid() && HoldsExactly(bloomFilter.bits, bloomFilter.numHashes, bloomFilter.totalBitCount, KeysOf(run))
      modifies bloomFilter`bits
      ensures bloomFilter.Valid()
      ensures HoldsExactly(bloomFilter.bits, bloomFilter.numHashes, bloomFilter.totalBitCount, KeysOf(run + [r]))
    {
      hide HoldsExactly, BitSet, Probed, Hash, KeysOf;
      ghost var before := bloomFilter.bits;
      bloomFilter.Add(r.key);
      AddKeepsExact(before, bloomFilter.bits, bloomFilter.numHashes, bloomFilter.totalBitCount, run, r);
    }

    /** The bytes that Close leaves on disk. */
    method Close() returns (bytes: Bytes)
      requires Valid()
      ensures bytes == FileOf(run, indexBlockSize, BytesOf(bloomFilter.bits), bloomFilter.numHashes)
    {
      hide DataBlock, SparseIndex, HoldsExactly, EncodeIndexEntry, LittleEndian, Footer, Sorted, WithinLimits;
      var indexOffset := offset;
      var out := file;
      for i := 0 to |index|
        invariant out == file + IndexBlock(index[..i])
      {
        assert index[..i + 1][..i] == index[..i];
        out := out + EncodeIndexEntry(index[i]);
      }
      assert index[..|index|] == index;
      var bloomOffset := |out|;
      out := out + BytesOf(bloomFilter.bits);
      CountWraps(indexOffset, bloomOffset, bloomFilter.numHashes, |run|);
      bytes := out + Footer(indexOffset, bloomOffset, bloomFilter.numHashes, entryCount);
    }

    /** The size the file would have if closed now: what Close then writes. */
    method CurrentSize() returns (size: nat)
      requires Valid()
      ensures size == |FileOf(run, indexBlockSize, BytesOf(bloomFilter.bits), bloomFilter.numHashes)|
      ensures size == FileSize(run, indexBlockSize, |bloomFilter.bits|)
    {
      var indexSize := |index| * INDEX_ENTRY_HEADER_SIZE;
      for i := 0 to |index|
        invariant indexSize == SizeOfIndex(index[..i]) + (|index| - i) * INDEX_ENTRY_HEADER_SIZE
      {
        assert index[..i + 1][..i] == index[..i];
        indexSize := indexSize + |index[i].key|;
      }
      assert index[..|index|] == index;
      SizeOfIndexBlock(index);
      size := offset + indexSize + |bloomFilter.bits| + FOOTER_SIZE;
    }
  }

  /** The entry count is kept on 32 bits, as it is written. */
  lemma CountWraps(indexOffset: nat, bloomOffset: nat, numHashes: byte, count: nat)
    ensures Footer(indexOffset, bloomOffset, numHashes, count) == Footer(indexOffset, bloomOffset, numHashes, count % 0x1_0000_0000)
  {
    LittleEndianWraps(count, 4);
    assert Pow256(2) == 256 * Pow256(1) && Pow256(4) == 256 * 256 * Pow256(2);
  }

  /** The size of a file with this run and so many filter bytes. */
  function FileSize(run: seq<Record>, blockSize: nat, filterBytes: nat): nat {
    |DataBlock(run)| + |IndexBlock(SparseIndex(run, blockSize))| + filterBytes + FOOTER_SIZE
  }

  lemma SortedAppend(run: seq<Record>, r: Record)
    requires InOrder(run) && (run == [] || run[|run| - 1].key == [] || Less(run[|run| - 1].key, r.key))
    ensures InOrder(run + [r])
  {
    if forall i :: 0 <= i < |run + [r]| ==> (run + [r])[i].key != [] {
      forall i | 0 <= i < |run|
        ensures run[i].key != []
      {
        assert (run + [r])[i] == run[i];
      }
      forall i | 0 <= i < |run|
        ensures Less(run[i].key, r.key)
      {
        if i < |run| - 1 {
          LessTransitive(run[i].key, run[|run| - 1].key, r.key);
        }
      }
    }
  }
}
