/** Reading a sorted file: Open, Get over the sparse index, and cursors
    (internal/storage/sstable/reader.go, iterator.go). */
module SSTableReader {
  import opened ByteStrings
  import opened Tables
  import opened SSTableFormat

  /** file.ReadAt: n bytes at an offset, or an error beyond the end. */
  function ReadAt(file: Bytes, offset: nat, n: nat): Option<Bytes> {
    if offset + n <= |file| then Some(file[offset..offset + n]) else None
  }

  /** The header of a data entry: key length, value length, opcode. */
  datatype Header = Header(keyLen: nat, valLen: nat, op: byte)

  function ParseHeader(b: Bytes): Header
    requires |b| == ENTRY_HEADER_SIZE
  {
    Header(FromLittleEndian(b[..2]), FromLittleEndian(b[2..6]), b[6])
  }

  lemma Widths()
    ensures Pow256(2) == 0x1_0000
    ensures Pow256(4) == 0x1_0000_0000
    ensures Pow256(8) == 0x1_0000_0000_0000_0000
  {
    assert Pow256(2) == 256 * Pow256(1);
    assert Pow256(4) == 256 * 256 * Pow256(2);
    assert Pow256(6) == 256 * 256 * Pow256(4);
    assert Pow256(8) == 256 * 256 * Pow256(6);
  }

  /** An encoded entry decodes to its parts. */
  lemma ParseEntry(r: Record)
    requires |r.key| < 0x1_0000 && |ValueBytes(r.entry)| < 0x1_0000_0000
    ensures ParseHeader(EncodeEntry(r)[..ENTRY_HEADER_SIZE]) ==
            Header(|r.key|, |ValueBytes(r.entry)|, OpcodeByte(r.entry))
    ensures EncodeEntry(r)[ENTRY_HEADER_SIZE..ENTRY_HEADER_SIZE + |r.key|] == r.key
    ensures EncodeEntry(r)[ENTRY_HEADER_SIZE + |r.key|..] == ValueBytes(r.entry)
  {
    var k, v := LittleEndian(|r.key|, 2), LittleEndian(|ValueBytes(r.entry)|, 4);
    var h := EncodeEntry(r)[..ENTRY_HEADER_SIZE];
    assert h == k + v + [OpcodeByte(r.entry)];
    assert h[..2] == k && h[2..6] == v && h[6] == OpcodeByte(r.entry);
    Widths();
    LittleEndianRoundTrip(|r.key|, 2);
    LittleEndianRoundTrip(|ValueBytes(r.entry)|, 4);
  }

  /** The data block of the file holds the i-th record at its offset. */
  lemma ReadEntry(file: Bytes, run: seq<Record>, i: nat)
    requires i < |run| && WithinLimits(run) && |DataBlock(run)| <= |file| && file[..|DataBlock(run)|] == DataBlock(run)
    ensures var o, r := Offset(run, i), run[i];
            && Offset(run, i + 1) == o + ENTRY_HEADER_SIZE + |r.key| + |ValueBytes(r.entry)| <= |DataBlock(run)|
            && ParseHeader(file[o..o + ENTRY_HEADER_SIZE]) == Header(|r.key|, |ValueBytes(r.entry)|, OpcodeByte(r.entry))
            && file[o + ENTRY_HEADER_SIZE..o + ENTRY_HEADER_SIZE + |r.key|] == r.key
            && file[o + ENTRY_HEADER_SIZE + |r.key|..o + ENTRY_HEADER_SIZE + |r.key| + |ValueBytes(r.entry)|] == ValueBytes(r.entry)
  {
    hide EncodeEntry, DataBlock;
    EntryInDataBlock(run, i);
    var o, r, o' := Offset(run, i), run[i], Offset(run, i + 1);
    var e, k := EncodeEntry(r), ENTRY_HEADER_SIZE + |r.key|;
    SliceOfSlice(file, 0, |DataBlock(run)|, o, o');
    assert file[o..o'] == e;
    ParseEntry(r);
    SliceOfSlice(file, o, o', 0, ENTRY_HEADER_SIZE);
    SliceOfSlice(file, o, o', ENTRY_HEADER_SIZE, k);
    SliceOfSlice(file, o, o', k, |e|);
  }

  lemma SliceOfSlice(s: Bytes, lo: nat, hi: nat, a: nat, b: nat)
    requires lo <= hi <= |s| && a <= b <= hi - lo
    ensures s[lo..hi][a..b] == s[lo + a..lo + b]
  {
    var inner, outer := s[lo..hi][a..b], s[lo + a..lo + b];
    forall k | 0 <= k < b - a
      ensures inner[k] == outer[k]
    {
      assert inner[k] == s[lo..hi][a + k];
    }
  }

  datatype ReadError = ErrCorrupted | ErrInvalidMagic | ErrReaderClosed
  datatype Result<+T> = Success(value: T) | Failure(error: ReadError)

  /** The first index entry above a key: what sort.Search over the sparse index returns. */
  ghost predicate IsUpperBound(index: seq<IndexEntry>, key: Bytes, p: nat) {
    && p <= |index|
    && (forall j :: 0 <= j < p ==> !Less(key, index[j].key))
    && (forall j :: p <= j < |index| ==> Less(key, index[j].key))
  }

  ghost predicate IndexAscends(index: seq<IndexEntry>) {
    forall i, j :: 0 <= i < j < |index| ==> Less(index[i].key, index[j].key)
  }

  /** sort.Search for the first index entry with a greater key. */
  method UpperBound(index: seq<IndexEntry>, key: Bytes) returns (p: nat)
    ensures p <= |index|
    ensures IndexAscends(index) ==> IsUpperBound(index, key, p)
  {
    var low, high := 0, |index|;
    while low < high
      invariant 0 <= low <= high <= |index|
      invariant IndexAscends(index) ==> forall j :: 0 <= j < low ==> !Less(key, index[j].key)
      invariant IndexAscends(index) ==> forall j :: high <= j < |index| ==> Less(key, index[j].key)
    {
      var mid := (low + high) / 2;
      if !Less(key, index[mid].key) {
        if IndexAscends(index) {
          LessIsStrictTotalOrder();
          forall j | 0 <= j <= mid
            ensures !Less(key, index[j].key)
          {
            assert j < mid ==> Less(index[j].key, index[mid].key);
          }
        }
        low := mid + 1;
      } else {
        if IndexAscends(index) {
          LessIsStrictTotalOrder();
          forall j | mid <= j < |index|
            ensures Less(key, index[j].key)
          {
            assert mid < j ==> Less(index[mid].key, index[j].key);
          }
        }
        high := mid;
      }
    }
    p := low;
  }

  /** What an open reader knows of the file it was given. */
  datatype Reader = Reader(file: Bytes, index: seq<IndexEntry>, maxKey: Option<Bytes>, entryCount: nat, indexOffset: nat,
                           bloomBytes: Bytes, numHashes: byte)
  {
    /** The file holds exactly this sorted run, and the index points into it. */
    ghost predicate Represents(run: seq<Record>, at: seq<nat>) {
      && Sorted(run) && WithinLimits(run) && indexOffset == |DataBlock(run)| <= |file| < 0x8000_0000_0000_0000
      && file[..indexOffset] == DataBlock(run)
      && IndexFor(run, index, at)
      && maxKey == (if run == [] then None else Some(run[|run| - 1].key))
    }
  }

  lemma IndexOfSortedAscends(run: seq<Record>, index: seq<IndexEntry>, at: seq<nat>)
    requires Sorted(run) && IndexFor(run, index, at)
    ensures IndexAscends(index)
  {
  }

  /** The block that must hold a key: it starts at or before the key, and the next starts after it. */
  lemma BlockOf(run: seq<Record>, index: seq<IndexEntry>, at: seq<nat>, key: Bytes, p: nat) returns (first: nat, last: nat)
    requires Sorted(run) && IndexFor(run, index, at) && IsUpperBound(index, key, p) && p > 0
    ensures first < last <= |run| && !Less(key, run[first].key)
    ensures index[p - 1].offset == Offset(run, first)
    ensures (if p < |index| then index[p].offset else |DataBlock(run)|) == Offset(run, last)
    ensures forall i :: 0 <= i < first ==> Less(run[i].key, key)
    ensures forall i :: last <= i < |run| ==> Less(key, run[i].key)
  {
    first := at[p - 1];
    last := if p < |index| then at[p] else |run|;
    OffsetEnds(run);
    OutsideBlock(run, first, last, key);
  }

  lemma OutsideBlock(run: seq<Record>, first: nat, last: nat, key: Bytes)
    requires Sorted(run) && first < last <= |run| && !Less(key, run[first].key)
    requires last < |run| ==> Less(key, run[last].key)
    ensures forall i :: 0 <= i < first ==> Less(run[i].key, key)
    ensures forall i :: last <= i < |run| ==> Less(key, run[i].key)
  {
    LessIsStrictTotalOrder();
    hide Less;
    forall i | last <= i < |run|
      ensures Less(key, run[i].key)
    {
      assert last < i ==> Less(run[last].key, run[i].key);
    }
    forall i | 0 <= i < first
      ensures Less(run[i].key, key)
    {
      assert Less(run[i].key, run[first].key);
    }
  }

  /** What a lookup in a run answers. */
  function Find(run: seq<Record>, key: Bytes): Option<Entry> {
    if key in RunTable(run) then Some(RunTable(run)[key]) else None
  }

  lemma FindAt(run: seq<Record>, key: Bytes, i: nat)
    requires Sorted(run) && i <= |run| && forall j :: 0 <= j < i ==> Less(run[j].key, key)
    requires i < |run| ==> !Less(run[i].key, key)
    ensures Find(run, key) == if i < |run| && run[i].key == key then Some(run[i].entry) else None
  {
    RunLookup(run, key, i);
  }

  method Get(r: Reader, key: Bytes, ghost run: seq<Record>, ghost at: seq<nat>) returns (res: Result<Option<Entry>>)
    ensures r.Represents(run, at) ==> res == Success(Find(run, key))
  {
    hide RunTable, DataBlock, Less;
    if r.index == [] {
      if r.Represents(run, at) {
        FindAt(run, key, 0);
      }
      return Success(None);
    }
    var idx := UpperBound(r.index, key);
    ghost var rep := r.Represents(run, at);
    if rep {
      IndexOfSortedAscends(run, r.index, at);
    }
    if idx == 0 {
      if rep {
        LessTotal(key, run[0].key);
        FindAt(run, key, 0);
      }
      return Success(None);
    }
    var startOffset := r.index[idx - 1].offset;
    var endOffset := if idx < |r.index| then r.index[idx].offset else r.indexOffset;
    ghost var first, last := 0, 0;
    if rep {
      first, last := BlockOf(run, r.index, at, key, idx);
      OffsetsAscend(run, first, last);
      OffsetsAscend(run, last, |run|);
      OffsetEnds(run);
    }
    if startOffset > 0x7FFF_FFFF_FFFF_FFFF || endOffset > 0x7FFF_FFFF_FFFF_FFFF {
      return Failure(ErrCorrupted);
    }
    if startOffset >= r.indexOffset || endOffset > r.indexOffset || startOffset >= endOffset {
      return Failure(ErrCorrupted);
    }
    res := ScanBlock(r.file, startOffset, endOffset, key, rep, run, first, last);
  }

  /** The scan of one block, entry by entry. */
  method ScanBlock(file: Bytes, startOffset: nat, endOffset: nat, key: Bytes,
                   ghost rep: bool, ghost run: seq<Record>, ghost first: nat, ghost last: nat)
    returns (res: Result<Option<Entry>>)
    requires rep ==> Sorted(run) && WithinLimits(run) && |DataBlock(run)| <= |file| && file[..|DataBlock(run)|] == DataBlock(run)
    requires rep ==> first < last <= |run| && startOffset == Offset(run, first) && endOffset == Offset(run, last)
    requires rep ==> forall i :: 0 <= i < first ==> Less(run[i].key, key)
    requires rep ==> forall i :: last <= i < |run| ==> Less(key, run[i].key)
    ensures rep ==> res == Success(Find(run, key))
  {
    hide RunTable, DataBlock, Less;
    var curr := startOffset;
    ghost var i := first;
    while curr < endOffset
      invariant rep ==> first <= i <= last && curr == Offset(run, i) && forall j :: 0 <= j < i ==> Less(run[j].key, key)
      decreases endOffset - curr
    {
      if rep {
        OffsetsAscend(run, i, last);
        ReadEntry(file, run, i);
        OffsetsAscend(run, i + 1, last);
      }
      if curr + ENTRY_HEADER_SIZE > endOffset {
        return Failure(ErrCorrupted);
      }
      var header := ReadAt(file, curr, ENTRY_HEADER_SIZE);
      if header.None? {
        return Failure(ErrCorrupted);
      }
      var h := ParseHeader(header.value);
      var entryLen := ENTRY_HEADER_SIZE + h.keyLen + h.valLen;
      if curr + entryLen > endOffset {
        return Failure(ErrCorrupted);
      }
      var keyBuf := ReadAt(file, curr + ENTRY_HEADER_SIZE, h.keyLen);
      if keyBuf.None? {
        return Failure(ErrCorrupted);
      }
      LessTotal(keyBuf.value, key);
      if keyBuf.value == key {
        if rep {
          FindAt(run, key, i);
        }
        if h.op == 1 {
          return Success(Some(Tombstone));
        } else if h.op != 0 {
          return Failure(ErrCorrupted);
        }
        var val := ReadAt(file, curr + ENTRY_HEADER_SIZE + h.keyLen, h.valLen);
        if val.None? {
          return Failure(ErrCorrupted);
        }
        return Success(Some(Put(val.value)));
      } else if Less(key, keyBuf.value) {
        if rep {
          FindAt(run, key, i);
        }
        return Success(None);
      }
      curr := curr + entryLen;
      i := i + 1;
    }
    if rep {
      OffsetsAscend(run, i, last);
      if last < |run| {
        LessTotal(key, run[last].key);
      }
      FindAt(run, key, last);
    }
    return Success(None);
  }

  /** Scans from one offset to the first entry at or above a key. */
  method FindOffsetAtOrAfter(r: Reader, startOffset: nat, startKey: Bytes, ghost run: seq<Record>, ghost at: seq<nat>, ghost first: nat)
    returns (res: Result<nat>, ghost i: nat)
    requires r.Represents(run, at) ==> first <= |run| && startOffset == Offset(run, first)
    requires r.Represents(run, at) ==> forall j :: 0 <= j < first ==> Less(run[j].key, startKey)
    ensures r.Represents(run, at) ==> i <= |run| && res == Success(Offset(run, i)) && FromKey(run, startKey) == run[i..]
  {
    hide DataBlock, Less;
    var curr := startOffset;
    i := first;
    ghost var rep := r.Represents(run, at);
    while curr < r.indexOffset
      invariant rep ==> i <= |run| && curr == Offset(run, i) && forall j :: 0 <= j < i ==> Less(run[j].key, startKey)
      decreases r.indexOffset - curr
    {
      if rep {
        OffsetEnds(run);
        OffsetsAscend(run, i, |run|);
        ReadEntry(r.file, run, i);
        OffsetsAscend(run, i + 1, |run|);
      }
      var header := ReadAt(r.file, curr, ENTRY_HEADER_SIZE);
      if header.None? {
        return Failure(ErrCorrupted), i;
      }
      var h := ParseHeader(header.value);
      var entryLen := ENTRY_HEADER_SIZE + h.keyLen + h.valLen;
      if curr + entryLen > r.indexOffset {
        return Failure(ErrCorrupted), i;
      }
      var keyBuf := ReadAt(r.file, curr + ENTRY_HEADER_SIZE, h.keyLen);
      if keyBuf.None? {
        return Failure(ErrCorrupted), i;
      }
      if !Less(keyBuf.value, startKey) {
        if rep {
          FromKeyAt(run, startKey, i);
        }
        return Success(curr), i;
      }
      curr := curr + entryLen;
      i := i + 1;
    }
    if rep {
      OffsetEnds(run);
      OffsetsAscend(run, i, |run|);
      FromKeyAt(run, startKey, i);
    }
    return Success(r.indexOffset), i;
  }

  method NewIteratorAt(r: Reader, startKey: Bytes, ghost run: seq<Record>, ghost at: seq<nat>) returns (res: Result<FileCursor>)
    ensures r.Represents(run, at) ==> res.Success? && fresh(res.value) && !res.value.hasCurrent
    ensures r.Represents(run, at) ==> res.value.Reads(run) && res.value.Rest(run) == FromKey(run, startKey)
  {
    hide DataBlock, Less;
    var startOffset := 0;
    ghost var rep, i := r.Represents(run, at), 0;
    if rep {
      OffsetEnds(run);
    }
    if startKey != [] && r.index != [] {
      var idx := UpperBound(r.index, startKey);
      ghost var first := 0;
      if rep {
        IndexOfSortedAscends(run, r.index, at);
        if idx > 0 {
          ghost var last;
          first, last := BlockOf(run, r.index, at, startKey, idx);
        }
      }
      startOffset := if idx == 0 then 0 else r.index[idx - 1].offset;
      if startOffset < r.indexOffset {
        var target;
        target, i := FindOffsetAtOrAfter(r, startOffset, startKey, run, at, first);
        if target.Failure? {
          return Failure(target.error);
        }
        startOffset := target.value;
      } else if rep {
        OffsetsAscend(run, first, |run|);
        assert false;
      }
    } else if rep {
      NothingBelowEmpty(run, startKey);
    }
    var cursor := new FileCursor(r.file, r.indexOffset, startOffset, i);
    return Success(cursor);
  }

  lemma NothingBelowEmpty(run: seq<Record>, startKey: Bytes)
    requires startKey == [] || run == []
    ensures FromKey(run, startKey) == run[0..]
  {
  }

  class FileCursor {
    const file: Bytes
    const limitOffset: nat
    var currOffset: nat
    var key: Bytes
    var value: Bytes
    var op: byte
    var failed: bool
    var hasCurrent: bool
    ghost var pos: nat

    /** The cursor reads the data block of this run, and the next entry to read is at index pos. */
    ghost predicate Reads(run: seq<Record>)
      reads this
    {
      && WithinLimits(run) && limitOffset == |DataBlock(run)| <= |file| && file[..limitOffset] == DataBlock(run)
      && !failed && pos <= |run| && currOffset == Offset(run, pos)
    }

    /** What Next has still to deliver. */
    ghost function Rest(run: seq<Record>): seq<Record>
      requires Reads(run)
      reads this
    {
      run[pos..]
    }

    constructor (file: Bytes, limitOffset: nat, startOffset: nat, ghost pos: nat)
      ensures this.file == file
      ensures this.limitOffset == limitOffset
      ensures currOffset == startOffset
      ensures this.pos == pos && !failed && !hasCurrent
    {
      this.file, this.limitOffset, currOffset, this.pos := file, limitOffset, startOffset, pos;
      key, value, op, failed, hasCurrent := [], [], 0, false, false;
    }

    method Next(ghost run: seq<Record>)
      modifies this
      ensures old(Reads(run)) ==> Reads(run)
      ensures old(Reads(run)) ==> Delivered(old(Rest(run)), Rest(run), hasCurrent, key, value, op)
      ensures old(failed) ==> failed
      ensures hasCurrent <==> !failed && old(currOffset) < limitOffset
    {
      hide DataBlock, WithinLimits, EncodeEntry;
      if failed || currOffset >= limitOffset {
        if Reads(run) {
          OffsetEnds(run);
          OffsetsAscend(run, pos, |run|);
        }
        hasCurrent := false;
        return;
      }
      var entry := DecodeEntry(file, currOffset, limitOffset, run, pos);
      if entry.None? {
        failed, hasCurrent := true, false;
        return;
      }
      op, key, value := entry.value.op, entry.value.key, entry.value.value;
      currOffset := entry.value.end;
      pos := pos + 1;
      hasCurrent := true;
    }
  }

  /** What one Next delivers: the first of the rest, or the end. */
  ghost predicate Delivered(rest: seq<Record>, after: seq<Record>, hasCurrent: bool, key: Bytes, value: Bytes, op: byte) {
    if rest == [] then !hasCurrent && after == []
    else hasCurrent && op <= 1 && rest == [Record(key, EntryOf(value, op == 1))] + after
  }

  datatype Decoded = Decoded(op: byte, key: Bytes, value: Bytes, end: nat)

  method DecodeEntry(file: Bytes, offset: nat, limit: nat, ghost run: seq<Record>, ghost i: nat) returns (res: Option<Decoded>)
    requires offset < limit
    ensures WithinLimits(run) && limit == |DataBlock(run)| <= |file| && file[..limit] == DataBlock(run) && i <= |run| && offset == Offset(run, i)
            ==> i < |run| && res == Some(Decoded(OpcodeByte(run[i].entry), run[i].key, ValueBytes(run[i].entry), Offset(run, i + 1)))
    ensures res.Some? ==> res.value.op <= 1
  {
    hide DataBlock, WithinLimits, FromLittleEndian, ParseHeader;
    if WithinLimits(run) && limit == |DataBlock(run)| <= |file| && file[..limit] == DataBlock(run) && i <= |run| && offset == Offset(run, i) {
      OffsetEnds(run);
      ReadEntry(file, run, i);
    }
    var header := ReadAt(file, offset, ENTRY_HEADER_SIZE);
    if header.None? {
      return None;
    }
    var h := ParseHeader(header.value);
    var end := offset + ENTRY_HEADER_SIZE + h.keyLen + h.valLen;
    if h.op > 1 || end > limit {
      return None;
    }
    var k := ReadAt(file, offset + ENTRY_HEADER_SIZE, h.keyLen);
    var v := ReadAt(file, offset + ENTRY_HEADER_SIZE + h.keyLen, h.valLen);
    if k.None? || v.None? {
      return None;
    }
    return Some(Decoded(h.op, k.value, v.value, end));
  }

  // ------------------------------------------------------------------- opening

  /** Entries within the widths and inside the data block, ascending in key and offset. */
  ghost predicate WellPlaced(index: seq<IndexEntry>, indexOffset: nat) {
    && (forall j :: 0 <= j < |index| ==> |index[j].key| < 0x1_0000 && index[j].offset < 0x1_0000_0000_0000_0000)
    && (forall j :: 0 <= j < |index| ==> index[j].offset + ENTRY_HEADER_SIZE <= indexOffset)
    && (forall j :: 0 < j < |index| ==> Less(index[j - 1].key, index[j].key) && index[j - 1].offset < index[j].offset)
  }

  lemma WellPlacedAppend(index: seq<IndexEntry>, indexOffset: nat, e: IndexEntry)
    requires WellPlaced(index, indexOffset)
    requires |e.key| < 0x1_0000 && e.offset < 0x1_0000_0000_0000_0000 && e.offset + ENTRY_HEADER_SIZE <= indexOffset
    requires index != [] ==> Less(index[|index| - 1].key, e.key) && index[|index| - 1].offset < e.offset
    ensures WellPlaced(index + [e], indexOffset)
  {
    hide Less;
  }

  lemma WellPlacedAt(index: seq<IndexEntry>, indexOffset: nat, j: nat)
    requires WellPlaced(index, indexOffset) && j < |index|
    ensures |index[j].key| < 0x1_0000
    ensures index[j].offset < 0x1_0000_0000_0000_0000
    ensures index[j].offset + ENTRY_HEADER_SIZE <= indexOffset
    ensures j > 0 ==> Less(index[j - 1].key, index[j].key) && index[j - 1].offset < index[j].offset
  {
    hide Less;
  }

  /** The index blocks that Open accepts. */
  ghost predicate Acceptable(index: seq<IndexEntry>, expectedCount: nat, indexOffset: nat) {
    && WellPlaced(index, indexOffset)
    && (index == [] <==> expectedCount == 0) && |index| <= expectedCount
    && (index != [] ==> index[0].offset == 0)
  }

  lemma IndexEntryAt(index: seq<IndexEntry>, j: nat)
    requires j < |index| && |index[j].key| < 0x1_0000 && index[j].offset < 0x1_0000_0000_0000_0000
    ensures var data, p := IndexBlock(index), |IndexBlock(index[..j])|;
            && |IndexBlock(index[..j + 1])| == p + INDEX_ENTRY_HEADER_SIZE + |index[j].key| <= |data|
            && FromLittleEndian(data[p..p + 2]) == |index[j].key|
            && FromLittleEndian(data[p + 2..p + 10]) == index[j].offset
            && data[p + 10..p + 10 + |index[j].key|] == index[j].key
  {
    hide IndexBlock, EncodeIndexEntry, LittleEndian, FromLittleEndian;
    var e, p := index[j], |IndexBlock(index[..j])|;
    IndexEntryBytes(index, j);
    var ee, data := EncodeIndexEntry(e), IndexBlock(index);
    ParseIndexEntryBytes(e);
    assert ee == data[p..p + |ee|];
    assert ee[..2] == data[p..p + 2] && ee[2..10] == data[p + 2..p + 10] && ee[10..] == data[p + 10..p + 10 + |e.key|];
  }

  lemma IndexEntryBytes(index: seq<IndexEntry>, j: nat)
    requires j < |index|
    ensures var p := |IndexBlock(index[..j])|;
            && |IndexBlock(index[..j + 1])| == p + |EncodeIndexEntry(index[j])| <= |IndexBlock(index)|
            && IndexBlock(index)[p..p + |EncodeIndexEntry(index[j])|] == EncodeIndexEntry(index[j])
  {
    hide EncodeIndexEntry;
    var e, a, b := index[j], index[..j], index[j + 1..];
    assert index[..j + 1] == a + [e] && index == (a + [e]) + b && [e][..0] == [];
    IndexBlockOfConcatenation(a, [e]);
    IndexBlockOfConcatenation(a + [e], b);
  }

  lemma ParseIndexEntryBytes(e: IndexEntry)
    requires |e.key| < 0x1_0000 && e.offset < 0x1_0000_0000_0000_0000
    ensures FromLittleEndian(EncodeIndexEntry(e)[..2]) == |e.key|
    ensures FromLittleEndian(EncodeIndexEntry(e)[2..10]) == e.offset
    ensures EncodeIndexEntry(e)[10..] == e.key
  {
    hide LittleEndian, FromLittleEndian;
    var k, o, ee := LittleEndian(|e.key|, 2), LittleEndian(e.offset, 8), EncodeIndexEntry(e);
    assert ee == k + o + e.key;
    assert ee[..2] == k && ee[2..10] == o;
    Widths();
    LittleEndianRoundTrip(|e.key|, 2);
    LittleEndianRoundTrip(e.offset, 8);
  }

  lemma {:induction false} IndexBlockOfConcatenation(a: seq<IndexEntry>, b: seq<IndexEntry>)
    ensures IndexBlock(a + b) == IndexBlock(a) + IndexBlock(b)
  {
    hide EncodeIndexEntry;
    if b == [] {
      assert a + b == a;
    } else {
      assert (a + b)[..|a + b| - 1] == a + b[..|b| - 1];
      IndexBlockOfConcatenation(a, b[..|b| - 1]);
    }
  }

  lemma IndexBlockEnds(index: seq<IndexEntry>, n: nat)
    requires n <= |index|
    ensures |IndexBlock(index[..n])| <= |IndexBlock(index)|
    ensures n == |index| ==> index[..n] == index
    ensures |IndexBlock(index[..n])| == |IndexBlock(index)| <==> n == |index|
  {
    assert index == index[..n] + index[n..];
    IndexBlockOfConcatenation(index[..n], index[n..]);
    assert index[..|index|] == index;
  }

  /** Succeeds exactly on the encodings of acceptable indexes, and then with that index. */
  method ParseIndex(data: Bytes, expectedCount: nat, indexOffset: nat, ghost index: seq<IndexEntry>)
    returns (res: Result<seq<IndexEntry>>)
    ensures res.Success? ==> data == IndexBlock(res.value) && Acceptable(res.value, expectedCount, indexOffset)
    ensures data == IndexBlock(index) && Acceptable(index, expectedCount, indexOffset) ==> res == Success(index)
    ensures res.Failure? ==> res == Failure(ErrCorrupted)
  {
    hide IndexBlock, EncodeIndexEntry, Less, WellPlaced, LittleEndian, FromLittleEndian;
    ghost var rep := data == IndexBlock(index) && Acceptable(index, expectedCount, indexOffset);
    var entries: seq<IndexEntry> := [];
    var pos := 0;
    Widths();
    EmptyIndexBlock(indexOffset);
    while pos < |data|
      invariant pos <= |data| && IndexBlock(entries) == data[..pos] && WellPlaced(entries, indexOffset)
      invariant rep ==> |entries| <= |index| && entries == index[..|entries|]
      decreases |data| - pos
    {
      ghost var n := |entries|;
      if rep {
        IndexBlockEnds(index, n);
        WellPlacedAt(index, indexOffset, n);
        IndexEntryAt(index, n);
      }
      if pos + INDEX_ENTRY_HEADER_SIZE > |data| {
        return Failure(ErrCorrupted);
      }
      var keyLen := FromLittleEndian(data[pos..pos + 2]);
      var offset := FromLittleEndian(data[pos + 2..pos + 10]);
      LittleEndianOfRead(data[pos..pos + 2]);
      LittleEndianOfRead(data[pos + 2..pos + 10]);
      if offset > indexOffset || indexOffset - offset < ENTRY_HEADER_SIZE {
        return Failure(ErrCorrupted);
      }
      if pos + INDEX_ENTRY_HEADER_SIZE + keyLen > |data| {
        return Failure(ErrCorrupted);
      }
      var key := data[pos + 10..pos + 10 + keyLen];
      if entries != [] {
        var prev := entries[|entries| - 1];
        if !Less(prev.key, key) || offset <= prev.offset {
          return Failure(ErrCorrupted);
        }
      }
      AppendIndexEntry(data, entries, pos, IndexEntry(key, offset));
      WellPlacedAppend(entries, indexOffset, IndexEntry(key, offset));
      entries := entries + [IndexEntry(key, offset)];
      pos := pos + INDEX_ENTRY_HEADER_SIZE + keyLen;
    }
    if rep {
      IndexBlockEnds(index, |entries|);
      assert entries == index;
    }
    if expectedCount == 0 {
      if entries != [] {
        return Failure(ErrCorrupted);
      }
    } else if entries == [] || |entries| > expectedCount || entries[0].offset != 0 {
      return Failure(ErrCorrupted);
    }
    return Success(entries);
  }

  lemma EmptyIndexBlock(indexOffset: nat)
    ensures IndexBlock([]) == [] && WellPlaced([], indexOffset)
  {
  }

  lemma AppendIndexEntry(data: Bytes, entries: seq<IndexEntry>, pos: nat, e: IndexEntry)
    requires pos + INDEX_ENTRY_HEADER_SIZE + |e.key| <= |data| && IndexBlock(entries) == data[..pos]
    requires LittleEndian(|e.key|, 2) == data[pos..pos + 2] && LittleEndian(e.offset, 8) == data[pos + 2..pos + 10]
    requires e.key == data[pos + 10..pos + 10 + |e.key|]
    ensures IndexBlock(entries + [e]) == data[..pos + INDEX_ENTRY_HEADER_SIZE + |e.key|]
  {
    Widths();
    hide LittleEndian;
    assert (entries + [e])[..|entries|] == entries;
    assert data[..pos + 10 + |e.key|] == data[..pos] + (data[pos..pos + 2] + data[pos + 2..pos + 10] + data[pos + 10..pos + 10 + |e.key|]);
  }

  datatype FooterFields = FooterFields(indexOffset: nat, bloomOffset: nat, numHashes: byte, entryCount: nat, magic: nat)

  function ParseFooter(b: Bytes): FooterFields
    requires |b| == FOOTER_SIZE
  {
    FooterFields(FromLittleEndian(b[..8]), FromLittleEndian(b[8..16]), b[16], FromLittleEndian(b[17..21]), FromLittleEndian(b[21..25]))
  }

  lemma ParseFooterBytes(indexOffset: nat, bloomOffset: nat, numHashes: byte, entryCount: nat)
    requires indexOffset < 0x1_0000_0000_0000_0000 && bloomOffset < 0x1_0000_0000_0000_0000 && entryCount < 0x1_0000_0000
    ensures ParseFooter(Footer(indexOffset, bloomOffset, numHashes, entryCount)) ==
            FooterFields(indexOffset, bloomOffset, numHashes, entryCount, MAGIC_NUMBER)
  {
    hide LittleEndian, FromLittleEndian;
    var i, b, c, m := LittleEndian(indexOffset, 8), LittleEndian(bloomOffset, 8), LittleEndian(entryCount, 4), LittleEndian(MAGIC_NUMBER, 4);
    var f := Footer(indexOffset, bloomOffset, numHashes, entryCount);
    assert f == i + b + [numHashes] + c + m;
    assert f[..8] == i && f[8..16] == b && f[16] == numHashes && f[17..21] == c && f[21..25] == m;
    Widths();
    LittleEndianRoundTrip(indexOffset, 8);
    LittleEndianRoundTrip(bloomOffset, 8);
    LittleEndianRoundTrip(entryCount, 4);
    LittleEndianRoundTrip(MAGIC_NUMBER, 4);
  }

  /** A finished file comes apart into its four blocks. */
  lemma FileParts(run: seq<Record>, blockSize: nat, bloomBytes: Bytes, numHashes: byte)
    ensures var file, data, index := FileOf(run, blockSize, bloomBytes, numHashes), DataBlock(run), IndexBlock(SparseIndex(run, blockSize));
            var d, i, b := |data|, |data| + |index|, |data| + |index| + |bloomBytes|;
            && |file| == b + FOOTER_SIZE
            && file[..d] == data && file[d..i] == index && file[i..b] == bloomBytes
            && file[b..] == Footer(d, i, numHashes, |run|)
  {
    hide DataBlock, IndexBlock, SparseIndex, Footer;
  }

  /** The sparse index of a sorted run that fits is one that Open accepts. */
  lemma SparseIndexAcceptable(run: seq<Record>, blockSize: nat, at: seq<nat>)
    requires Sorted(run) && WithinLimits(run) && |DataBlock(run)| < 0x8000_0000_0000_0000
    requires IndexFor(run, SparseIndex(run, blockSize), at)
    ensures Acceptable(SparseIndex(run, blockSize), |run|, |DataBlock(run)|)
  {
    hide DataBlock, SparseIndex, Less;
    var index := SparseIndex(run, blockSize);
    OffsetEnds(run);
    forall j | 0 <= j < |index|
      ensures index[j].offset + ENTRY_HEADER_SIZE <= |DataBlock(run)|
    {
      OffsetsAscend(run, at[j], |run|);
    }
    forall j | 0 < j < |index|
      ensures Less(index[j - 1].key, index[j].key)
      ensures index[j - 1].offset < index[j].offset
    {
      OffsetsAscend(run, at[j - 1], at[j]);
    }
    AscendingIsShort(at, |run|);
  }

  lemma {:induction false} AscendingIsShort(at: seq<nat>, n: nat)
    requires forall i, j :: 0 <= i < j < |at| ==> at[i] < at[j]
    requires forall i :: 0 <= i < |at| ==> at[i] < n
    ensures |at| <= n
  {
    if at != [] {
      AscendingIsShort(at[..|at| - 1], at[|at| - 1]);
    }
  }

  lemma EntriesHaveHeaders(run: seq<Record>, i: nat)
    requires i <= |run|
    ensures i * ENTRY_HEADER_SIZE <= Offset(run, i)
  {
    if i > 0 {
      EntriesHaveHeaders(run, i - 1);
      EntryInDataBlock(run, i - 1);
    }
  }

  /** What a footer and the index before it must be for a file to open, and what is then read from them. */
  ghost predicate HeaderRead(file: Bytes, r: Reader) {
    && |file| >= 25 && var end := |file| - 25; var f := ParseFooter(file[end..]);
    && f.magic == 0x5045_4E47 && f.indexOffset <= f.bloomOffset <= end && f.entryCount * 7 <= f.indexOffset
    && file[f.indexOffset..f.bloomOffset] == IndexBlock(r.index) && Acceptable(r.index, f.entryCount, f.indexOffset)
    && r.file == file && r.entryCount == f.entryCount && r.indexOffset == f.indexOffset
    && r.bloomBytes == file[f.bloomOffset..end] && r.numHashes == f.numHashes && (r.maxKey.None? <==> f.entryCount == 0)
  }

  /** Every finished file opens, and the reader represents the run that was written. No other footer or index than one
      that fits the file is accepted. */
  method Open(file: Bytes, ghost run: seq<Record>, ghost blockSize: nat, ghost bloomBytes: Bytes, ghost numHashes: byte)
    returns (res: Result<Reader>, ghost at: seq<nat>)
    ensures file == FileOf(run, blockSize, bloomBytes, numHashes) && Sorted(run) && FitsFormat(run, blockSize, bloomBytes) ==>
              res.Success? && res.value.Represents(run, at) && res.value.index == SparseIndex(run, blockSize)
              && res.value.entryCount == |run| && res.value.bloomBytes == bloomBytes && res.value.numHashes == numHashes
    ensures res.Success? ==> res.value.file == file && HeaderRead(file, res.value)
    ensures |file| < 25 ==> res == Failure(ErrCorrupted)
    ensures |file| >= 25 ==> (res == Failure(ErrInvalidMagic) <==> FromLittleEndian(file[|file| - 4..]) != 0x5045_4E47)
  {
    hide DataBlock, IndexBlock, SparseIndex, Footer, Less, FromLittleEndian, ParseFooter, FileOf, Sorted, WithinLimits;
    at := [];
    ghost var rep := file == FileOf(run, blockSize, bloomBytes, numHashes) && Sorted(run) && FitsFormat(run, blockSize, bloomBytes);
    ghost var index := SparseIndex(run, blockSize);
    if rep {
      FileParts(run, blockSize, bloomBytes, numHashes);
      ParseFooterBytes(|DataBlock(run)|, |DataBlock(run)| + |IndexBlock(index)|, numHashes, |run|);
      at := SparseIndexPointsIn(run, blockSize);
      SparseIndexAcceptable(run, blockSize, at);
      EntriesHaveHeaders(run, |run|);
      OffsetEnds(run);
    }
    if |file| < FOOTER_SIZE {
      return Failure(ErrCorrupted), at;
    }
    var footerStart := |file| - FOOTER_SIZE;
    var f := ParseFooter(file[footerStart..]);
    MagicAtEnd(file);
    if f.magic != MAGIC_NUMBER {
      return Failure(ErrInvalidMagic), at;
    }
    if f.indexOffset > footerStart || f.bloomOffset > footerStart || f.bloomOffset < f.indexOffset {
      return Failure(ErrCorrupted), at;
    }
    if f.entryCount > 0 && f.entryCount * ENTRY_HEADER_SIZE > f.indexOffset {
      return Failure(ErrCorrupted), at;
    }
    var parsed := ParseIndex(file[f.indexOffset..f.bloomOffset], f.entryCount, f.indexOffset, index);
    if parsed.Failure? {
      return Failure(parsed.error), at;
    }
    var bloomData := file[f.bloomOffset..footerStart];
    var maxKey: Option<Bytes> := None;
    if f.entryCount > 0 {
      maxKey := FindMaxKey(file, parsed.value[|parsed.value| - 1].offset, f.indexOffset, rep, run, if rep then at[|at| - 1] else 0);
      if maxKey.None? {
        return Failure(ErrCorrupted), at;
      }
    }
    res := Success(Reader(file, parsed.value, maxKey, f.entryCount, f.indexOffset, bloomData, f.numHashes));
  }

  lemma MagicAtEnd(file: Bytes)
    requires |file| >= FOOTER_SIZE
    ensures ParseFooter(file[|file| - FOOTER_SIZE..]).magic == FromLittleEndian(file[|file| - 4..])
  {
    hide FromLittleEndian;
    assert file[|file| - FOOTER_SIZE..][21..25] == file[|file| - 4..];
  }

  /** Walks the last block to its last entry. */
  method FindMaxKey(file: Bytes, lastBlockOffset: nat, indexOffset: nat, ghost rep: bool, ghost run: seq<Record>, ghost first: nat)
    returns (maxKey: Option<Bytes>)
    requires rep ==> WithinLimits(run) && |DataBlock(run)| <= |file| && file[..|DataBlock(run)|] == DataBlock(run)
    requires rep ==> first < |run| && lastBlockOffset == Offset(run, first) && indexOffset == |DataBlock(run)|
    ensures rep ==> maxKey == Some(run[|run| - 1].key)
  {
    hide DataBlock, WithinLimits, FromLittleEndian, ParseHeader;
    var curr := lastBlockOffset;
    ghost var i: nat := first;
    while curr < indexOffset
      invariant rep ==> i < |run| && curr == Offset(run, i)
      decreases indexOffset - curr
    {
      if rep {
        OffsetEnds(run);
        ReadEntry(file, run, i);
        OffsetsAscend(run, i + 1, |run|);
      }
      var header := ReadAt(file, curr, ENTRY_HEADER_SIZE);
      if header.None? {
        return None;
      }
      var h := ParseHeader(header.value);
      var entryLen := ENTRY_HEADER_SIZE + h.keyLen + h.valLen;
      if curr + entryLen > indexOffset {
        return None;
      }
      if curr + entryLen == indexOffset {
        return ReadAt(file, curr + ENTRY_HEADER_SIZE, h.keyLen);
      }
      curr := curr + entryLen;
      i := i + 1;
    }
    if rep {
      OffsetEnds(run);
      OffsetsAscend(run, i, |run|);
    }
    return None;
  }

  /** A file represents one run only. */
  lemma FileDeterminesRun(r: Reader, run: seq<Record>, at: seq<nat>, other: seq<Record>, at': seq<nat>)
    requires r.Represents(run, at) && r.Represents(other, at')
    ensures other == run
  {
    DataBlockIsInjective(run, other);
  }

  lemma {:induction false} DataBlockIsInjective(a: seq<Record>, b: seq<Record>)
    requires WithinLimits(a) && WithinLimits(b) && DataBlock(a) == DataBlock(b)
    ensures a == b
    decreases |a|
  {
    hide DataBlock, FromLittleEndian, ParseHeader;
    OffsetEnds(a);
    OffsetEnds(b);
    if a == [] || b == [] {
      EntriesHaveHeaders(a, |a|);
      EntriesHaveHeaders(b, |b|);
    } else {
      var file := DataBlock(a);
      OffsetEnds(a[1..]);
      ReadEntry(file, a, 0);
      ReadEntry(file, b, 0);
      assert a[0] == b[0];
      assert a == [a[0]] + a[1..] && b == [b[0]] + b[1..];
      DataBlockOfConcatenation([a[0]], a[1..]);
      DataBlockOfConcatenation([b[0]], b[1..]);
      DataBlockIsInjective(a[1..], b[1..]);
    }
  }
}
