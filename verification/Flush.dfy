/** Dumping a frozen memtable into a level-0 file (internal/storage/engine.go:478-527): the entries are written
    in the order of the memtable's iterator, tombstones included, or not at all if one exceeds the format. */
module Flush {
  import opened ByteStrings
  import opened Tables
  import opened SkipLists
  import opened Bloom
  import opened SSTableFormat
  import W = SSTableWriter
  import opened SSTableReader
  import opened Levels

  const DEFAULT_INDEX_BLOCK_SIZE: nat := 4096

  lemma CursorShows(c: Cursor)
    requires c.Valid()
    ensures c.hasCurrent <==> c.Rest() != []
    ensures c.hasCurrent ==> c.Rest()[0] == Record(c.currKey, EntryOf(c.currVal, c.currDel))
  {
    hide WellLinked;
  }

  /** Entries of a sorted run are never out of order: only the limits can stop one. */
  method AddNext(w: W.Writer, ghost run: seq<Record>, ghost i: nat, r: Record) returns (err: W.AddError)
    requires w.Valid() && i < |run| && w.run == run[..i] && r == run[i] && Sorted(run)
    modifies w, w.bloomFilter
    ensures w.Valid()
    ensures w.bloomFilter.totalBitCount == old(w.bloomFilter.totalBitCount)
    ensures w.bloomFilter.numHashes == old(w.bloomFilter.numHashes)
    ensures err.Ok? ==> w.run == run[..i + 1]
    ensures !err.Ok? ==> !WithinLimits(run)
  {
    hide DataBlock, SparseIndex, HoldsExactly, WithinLimits, Less;
    LastBefore(w, run, i);
    err := w.Add(r);
    OverLimits(run, i);
    assert run[..i + 1] == run[..i] + [run[i]];
  }

  lemma LastBefore(w: W.Writer, run: seq<Record>, i: nat)
    requires w.Valid() && i < |run| && w.run == run[..i] && Sorted(run)
    ensures w.lastKey != [] ==> Less(w.lastKey, run[i].key)
  {
    hide DataBlock, SparseIndex, HoldsExactly, WithinLimits, Less;
  }

  lemma OverLimits(run: seq<Record>, i: nat)
    requires i < |run|
    ensures |run[i].key| > 0xFFFF || |ValueBytes(run[i].entry)| > 0xFFFF_FFFF ==> !WithinLimits(run)
  {
  }

  /** The loop over the memtable: all entries, unless one is over the limits. */
  method WriteAll(w: W.Writer, cursor: Cursor, ghost run: seq<Record>) returns (ok: bool, written: seq<Record>)
    requires w.Valid() && w.run == [] && cursor.Valid() && cursor.Rest() == run && Sorted(run)
    modifies w, w.bloomFilter, cursor
    ensures w.Valid()
    ensures w.bloomFilter.totalBitCount == old(w.bloomFilter.totalBitCount)
    ensures w.bloomFilter.numHashes == old(w.bloomFilter.numHashes)
    ensures ok ==> w.run == written == run
    ensures !ok ==> !WithinLimits(run)
  {
    hide W.Writer.Valid, Sorted, WithinLimits, Cursor.Valid, Cursor.Rest;
    ghost var i: nat := 0;
    written := [];
    assert run[0..] == run;
    CursorShows(cursor);
    while cursor.hasCurrent
      invariant cursor.Valid() && w.Valid()
      invariant i <= |run| && w.run == written == run[..i] && cursor.Rest() == run[i..] && (cursor.hasCurrent <==> i < |run|)
      invariant w.bloomFilter.totalBitCount == old(w.bloomFilter.totalBitCount)
      invariant w.bloomFilter.numHashes == old(w.bloomFilter.numHashes)
      decreases |run| - i
    {
      CursorShows(cursor);
      assert run[i] == run[i..][0] && run[i..][1..] == run[i + 1..];
      var r := Record(cursor.currKey, EntryOf(cursor.currVal, cursor.currDel));
      var err := AddNext(w, run, i, r);
      if !err.Ok? {
        return false, written;
      }
      cursor.Next();
      CursorShows(cursor);
      written := written + [r];
      i := i + 1;
    }
    assert run[..i] == run;
    ok := true;
  }

  /** The file written, closed and opened again, unless an entry exceeds the widths of the format: that fails
      the flush. Its filter survives the reload when the bits for the expected number of keys fill whole bytes. */
  method WriteMemTableToSSTable(mem: SkipList, fileID: int, expectedKeys: nat, k: int)
    returns (file: Option<SSTable>, reader: Option<Reader>, ghost at: seq<nat>)
    requires mem.Valid() && mem.Run() != []
    ensures file.Some? ==> WithinLimits(mem.Run()) && file.value.fileID == fileID && file.value.run == mem.Run()
    ensures file.Some? ==>
              && W.FilterOf(file.value.bits, if k < 1 then 1 else if k > 30 then 30 else k, W.FilterBits(expectedKeys), mem.Run())
              && file.value.numHashes == (if k < 1 then 1 else if k > 30 then 30 else k)
              && reader.Some? && reader.value.file == FileOf(mem.Run(), 4096, W.BytesOf(file.value.bits), file.value.numHashes)
    ensures file.Some? && W.FilterBits(expectedKeys) % 8 == 0 ==> file.value.Valid()
    ensures Fits(mem.Run(), expectedKeys) ==>
              file.Some? && reader.Some? && reader.value.Represents(mem.Run(), at)
              && reader.value.bloomBytes == W.BytesOf(file.value.bits) && reader.value.numHashes == file.value.numHashes
  {
    hide W.Writer.Valid, Sorted, WellLinked, RunOf, SSTable.Valid, Cursor.Valid, Cursor.Rest;
    hide Reader.Represents, FileOf, W.FilterOf, W.FilterBits, WithinLimits, W.FileSize;
    reader, at := None, [];
    ghost var run := mem.Run();
    mem.RunIsSorted();
    var w := new W.Writer(expectedKeys, DEFAULT_INDEX_BLOCK_SIZE, k);
    var cursor := mem.NewIterator();
    var ok, written := WriteAll(w, cursor, run);
    if !ok {
      return None, reader, at;
    }
    FinishedFile(w, run, fileID);
    var res;
    res, at := CloseAndOpen(w);
    if res.Failure? {
      return None, reader, at;
    }
    reader := Some(res.value);
    file := Some(SSTable(fileID, written, w.bloomFilter.bits, w.bloomFilter.numHashes));
  }

  /** The offsets and the entry count fit the widths of the format. */
  ghost predicate Fits(run: seq<Record>, expectedKeys: nat) {
    && WithinLimits(run) && |run| < 0x1_0000_0000
    && W.FileSize(run, DEFAULT_INDEX_BLOCK_SIZE, (W.FilterBits(expectedKeys) + 7) / 8) < 0x8000_0000_0000_0000
  }

  /** So does the file of a table, whose entries in order are one run only. */
  ghost predicate Flushable(t: Table, expectedKeys: nat) {
    forall run :: Sorted(run) && RunTable(run) == t ==> Fits(run, expectedKeys)
  }

  method CloseAndOpen(w: W.Writer) returns (res: Result<Reader>, ghost at: seq<nat>)
    requires w.Valid() && Sorted(w.run)
    ensures WithinLimits(w.run) && |w.run| < 0x1_0000_0000
            && W.FileSize(w.run, w.indexBlockSize, (w.bloomFilter.totalBitCount + 7) / 8) < 0x8000_0000_0000_0000 ==>
              res.Success? && res.value.Represents(w.run, at)
              && res.value.bloomBytes == W.BytesOf(w.bloomFilter.bits) && res.value.numHashes == w.bloomFilter.numHashes
    ensures w.bloomFilter.numHashes <= 30
    ensures res.Success? ==> res.value.file == FileOf(w.run, w.indexBlockSize, W.BytesOf(w.bloomFilter.bits), w.bloomFilter.numHashes)
  {
    hide Sorted, Reader.Represents, DataBlock, SparseIndex, WithinLimits, FileOf, HoldsExactly;
    var bytes := w.Close();
    res, at := Open(bytes, w.run, w.indexBlockSize, W.BytesOf(w.bloomFilter.bits), w.bloomFilter.numHashes);
  }

  /** A lookup in the file that a memtable was flushed to is the lookup in the memtable: the whole way through
      Add, Close, Open, and Get. */
  method FlushAndGet(mem: SkipList, fileID: int, expectedKeys: nat, k: int, key: Bytes) returns (res: Option<Result<Option<Entry>>>)
    requires mem.Valid() && mem.Run() != []
    ensures Fits(mem.Run(), expectedKeys) ==> res == Some(Success(Find(mem.Run(), key)))
  {
    hide SkipList.Valid, WellLinked, RunOf, SSTable.Valid, Reader.Represents, Fits;
    var file, reader, at := WriteMemTableToSSTable(mem, fileID, expectedKeys, k);
    if reader.None? {
      return None;
    }
    var found := Get(reader.value, key, mem.Run(), at);
    res := Some(found);
  }

  lemma FinishedFile(w: W.Writer, run: seq<Record>, fileID: int)
    requires w.Valid() && w.run == run && run != [] && Sorted(run) && forall i :: 0 <= i < |run| ==> run[i].key != []
    ensures WithinLimits(run)
    ensures W.FilterOf(w.bloomFilter.bits, w.bloomFilter.numHashes, w.bloomFilter.totalBitCount, run)
    ensures w.bloomFilter.totalBitCount % 8 == 0 ==> SSTable(fileID, run, w.bloomFilter.bits, w.bloomFilter.numHashes).Valid()
  {
    hide DataBlock, SparseIndex, MayHold, HoldsExactly, Sorted;
    var f := w.bloomFilter;
    if f.totalBitCount % 8 == 0 {
      forall i | 0 <= i < |run|
        ensures MayHold(f.bits, f.numHashes, |f.bits| * 8, run[i].key)
      {
        NoFalseNegativeAfterReload(f.bits, f.numHashes, f.totalBitCount, W.KeysOf(run), run[i].key);
      }
    }
  }
}
