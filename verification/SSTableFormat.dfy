/** The layout of a sorted file: data block, sparse index, filter block, footer
    (internal/storage/sstable/writer.go, constants.go). */
module SSTableFormat {
  import opened ByteStrings
  import opened Tables

  const ENTRY_HEADER_SIZE: nat := 7
  const INDEX_ENTRY_HEADER_SIZE: nat := 10
  const FOOTER_SIZE: nat := 25
  const MAGIC_NUMBER: nat := 0x5045_4E47

  datatype IndexEntry = IndexEntry(key: Bytes, offset: nat)

  function ValueBytes(e: Entry): Bytes {
    match e
    case Put(v) => v
    case Tombstone => []
  }

  function OpcodeByte(e: Entry): byte {
    match e
    case Put(_) => 0
    case Tombstone => 1
  }

  function EncodeEntry(r: Record): (b: Bytes)
    ensures |b| == ENTRY_HEADER_SIZE + |r.key| + |ValueBytes(r.entry)|
  {
    LittleEndian(|r.key|, 2) + LittleEndian(|ValueBytes(r.entry)|, 4) + [OpcodeByte(r.entry)] + r.key + ValueBytes(r.entry)
  }

  function DataBlock(run: seq<Record>): Bytes {
    if run == [] then [] else DataBlock(run[..|run| - 1]) + EncodeEntry(run[|run| - 1])
  }

  /** Where the i-th entry starts. */
  function Offset(run: seq<Record>, i: nat): nat
    requires i <= |run|
  {
    |DataBlock(run[..i])|
  }

  /** An index entry for the first key, and then whenever a block's worth of bytes went by. */
  function SparseIndex(run: seq<Record>, blockSize: nat): (index: seq<IndexEntry>)
    ensures run == [] <==> index == []
  {
    if run == [] then []
    else
      var rest := SparseIndex(run[..|run| - 1], blockSize);
      var offset := |DataBlock(run[..|run| - 1])|;
      if rest == [] || offset - rest[|rest| - 1].offset >= blockSize
      then rest + [IndexEntry(run[|run| - 1].key, offset)] else rest
  }

  function EncodeIndexEntry(e: IndexEntry): (b: Bytes)
    ensures |b| == INDEX_ENTRY_HEADER_SIZE + |e.key|
  {
    LittleEndian(|e.key|, 2) + LittleEndian(e.offset, 8) + e.key
  }

  function IndexBlock(index: seq<IndexEntry>): Bytes {
    if index == [] then [] else IndexBlock(index[..|index| - 1]) + EncodeIndexEntry(index[|index| - 1])
  }

  function Footer(indexOffset: nat, bloomOffset: nat, numHashes: byte, entryCount: nat): (b: Bytes)
    ensures |b| == FOOTER_SIZE
  {
    LittleEndian(indexOffset, 8) + LittleEndian(bloomOffset, 8) + [numHashes] + LittleEndian(entryCount, 4)
    + LittleEndian(MAGIC_NUMBER, 4)
  }

  function FileOf(run: seq<Record>, blockSize: nat, bloomBytes: Bytes, numHashes: byte): Bytes {
    var data, index := DataBlock(run), IndexBlock(SparseIndex(run, blockSize));
    data + index + bloomBytes + Footer(|data|, |data| + |index|, numHashes, |run|)
  }

  /** The limits Add enforces, entry by entry. */
  ghost predicate WithinLimits(run: seq<Record>) {
    forall i :: 0 <= i < |run| ==> |run[i].key| < 0x1_0000 && |ValueBytes(run[i].entry)| < 0x1_0000_0000
  }

  /** The file fits the widths of the offsets and of the entry count. */
  ghost predicate FitsFormat(run: seq<Record>, blockSize: nat, bloomBytes: Bytes) {
    && WithinLimits(run) && |run| < 0x1_0000_0000
    && |DataBlock(run)| + |IndexBlock(SparseIndex(run, blockSize))| + |bloomBytes| + FOOTER_SIZE < 0x8000_0000_0000_0000
  }

  // ------------------------------------------------------------- the data block

  lemma {:induction false} DataBlockOfConcatenation(a: seq<Record>, b: seq<Record>)
    ensures DataBlock(a + b) == DataBlock(a) + DataBlock(b)
  {
    hide EncodeEntry;
    if b == [] {
      assert a + b == a;
    } else {
      assert (a + b)[..|a + b| - 1] == a + b[..|b| - 1];
      DataBlockOfConcatenation(a, b[..|b| - 1]);
    }
  }

  lemma DataBlockOfOne(r: Record)
    ensures DataBlock([r]) == EncodeEntry(r)
  {
    assert [r][..0] == [];
  }

  /** The i-th entry lies between its offset and the next one. */
  lemma EntryInDataBlock(run: seq<Record>, i: nat)
    requires i < |run|
    ensures Offset(run, i) + |EncodeEntry(run[i])| == Offset(run, i + 1) <= |DataBlock(run)|
    ensures DataBlock(run)[Offset(run, i)..Offset(run, i + 1)] == EncodeEntry(run[i])
  {
    var a, r, b := run[..i], run[i], run[i + 1..];
    assert run[..i + 1] == a + [r] && run == (a + [r]) + b;
    DataBlockOfConcatenation(a, [r]);
    DataBlockOfConcatenation(a + [r], b);
    DataBlockOfOne(r);
  }

  lemma {:induction false} OffsetsAscend(run: seq<Record>, i: nat, j: nat)
    requires i <= j <= |run|
    ensures Offset(run, i) <= Offset(run, j)
    ensures i < j ==> Offset(run, i) + ENTRY_HEADER_SIZE <= Offset(run, j)
    decreases j - i
  {
    if i < j {
      EntryInDataBlock(run, i);
      OffsetsAscend(run, i + 1, j);
    }
  }

  lemma OffsetEnds(run: seq<Record>)
    ensures Offset(run, 0) == 0
    ensures Offset(run, |run|) == |DataBlock(run)|
  {
    assert run[..|run|] == run && run[..0] == [];
  }

  lemma OffsetOfPrefix(run: seq<Record>, i: nat, n: nat)
    requires i <= n <= |run|
    ensures Offset(run[..n], i) == Offset(run, i)
  {
    assert run[..n][..i] == run[..i];
  }

  // ------------------------------------------------------------ the sparse index

  /** Every index entry points at an entry of the run, in ascending order, the first at the start. */
  ghost predicate IndexFor(run: seq<Record>, index: seq<IndexEntry>, at: seq<nat>) {
    && |at| == |index| && (run == [] <==> index == []) && (index != [] ==> at[0] == 0)
    && (forall j :: 0 <= j < |at| ==> at[j] < |run| && index[j] == IndexEntry(run[at[j]].key, Offset(run, at[j])))
    && (forall i, j :: 0 <= i < j < |at| ==> at[i] < at[j])
  }

  function Offsets(run: seq<Record>): (o: seq<nat>)
    ensures |o| == |run|
  {
    seq(|run|, i requires 0 <= i < |run| => Offset(run, i))
  }

  /** Two index entries are a block or more apart, and every other record starts less than a block behind its own. */
  ghost predicate Spaced(offsets: seq<nat>, at: seq<nat>, blockSize: nat) {
    && (forall j :: 0 <= j < |at| ==> at[j] < |offsets|)
    && (forall j :: 0 < j < |at| ==> offsets[at[j]] >= offsets[at[j - 1]] + blockSize)
    && (forall j, i :: 0 <= j < |at| && at[j] < i < (if j + 1 < |at| then at[j + 1] else |offsets|) ==>
          offsets[i] < offsets[at[j]] + blockSize)
  }

  lemma {:induction false} SparseIndexPointsIn(run: seq<Record>, blockSize: nat) returns (at: seq<nat>)
    ensures IndexFor(run, SparseIndex(run, blockSize), at)
    ensures Spaced(Offsets(run), at, blockSize)
  {
    hide Spaced, Offsets, Offset;
    if run == [] {
      NoneSpaced(run, blockSize);
      at := [];
    } else {
      var n := |run| - 1;
      var before := SparseIndexPointsIn(run[..n], blockSize);
      IndexForExtends(run, SparseIndex(run[..n], blockSize), before);
      LastEntry(run[..n], SparseIndex(run[..n], blockSize), before);
      SpacedExtends(Offsets(run[..n]), before, |DataBlock(run[..n])|, blockSize);
      OffsetsAppend(run);
      at := if |SparseIndex(run, blockSize)| == |before| then before else before + [n];
    }
  }

  lemma NoneSpaced(run: seq<Record>, blockSize: nat)
    ensures Spaced(Offsets(run), [], blockSize)
    ensures IndexFor([], [], [])
  {
  }

  lemma LastEntry(run: seq<Record>, index: seq<IndexEntry>, at: seq<nat>)
    requires IndexFor(run, index, at)
    ensures |at| == |index|
    ensures index != [] ==> at[|at| - 1] < |Offsets(run)| && index[|index| - 1].offset == Offsets(run)[at[|at| - 1]]
    ensures index == [] ==> |Offsets(run)| == 0
  {
    hide Offset;
  }

  lemma OffsetsAppend(run: seq<Record>)
    requires run != []
    ensures var n := |run| - 1; |Offsets(run[..n])| == n && Offsets(run) == Offsets(run[..n]) + [|DataBlock(run[..n])|]
  {
    var n := |run| - 1;
    forall i | 0 <= i < n
      ensures Offset(run[..n], i) == Offset(run, i)
    {
      OffsetOfPrefix(run, i, n);
    }
    hide DataBlock;
  }

  lemma SpacedExtends(offsets: seq<nat>, at: seq<nat>, x: nat, blockSize: nat)
    requires Spaced(offsets, at, blockSize) && (at == [] ==> offsets == [])
    ensures var far := at == [] || x - offsets[at[|at| - 1]] >= blockSize;
            Spaced(offsets + [x], if far then at + [|offsets|] else at, blockSize)
  {
    var far := at == [] || x - offsets[at[|at| - 1]] >= blockSize;
    var after, all := if far then at + [|offsets|] else at, offsets + [x];
    assert forall j :: 0 <= j < |at| ==> after[j] == at[j];
    forall j, i | 0 <= j < |after| && after[j] < i < (if j + 1 < |after| then after[j + 1] else |all|)
      ensures all[i] < all[after[j]] + blockSize
    {
      if i == |offsets| {
        assert !far && j == |at| - 1;
      }
    }
  }

  /** An index of all entries but the last serves the whole run, with or without one for the last. */
  lemma IndexForExtends(run: seq<Record>, index: seq<IndexEntry>, at: seq<nat>)
    requires run != [] && IndexFor(run[..|run| - 1], index, at)
    ensures index != [] ==> IndexFor(run, index, at)
    ensures IndexFor(run, index + [IndexEntry(run[|run| - 1].key, |DataBlock(run[..|run| - 1])|)], at + [|run| - 1])
  {
    hide DataBlock;
    var n := |run| - 1;
    forall j | 0 <= j < |at|
      ensures at[j] < n
      ensures index[j] == IndexEntry(run[at[j]].key, Offset(run, at[j]))
    {
      OffsetOfPrefix(run, at[j], n);
    }
    assert run[..n] == [] ==> n == 0;
  }
}
