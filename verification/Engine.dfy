/** The engine object: foreground writes and reads, and the steps of the background workers
    (internal/storage/engine.go, workers.go). */
module Engine {
  import opened ByteStrings
  import opened Tables
  import opened SkipLists
  import opened Levels
  import opened EngineModel
  import opened MergeIterators
  import opened Flush
  import W = SSTableWriter

  datatype Op = OpPut(key: Bytes, value: Bytes) | OpDelete(key: Bytes) | OpOther(key: Bytes)

  datatype WriteResult = Written | EmptyKey | InvalidType | BatchTooLarge | FlushFailed | Stalled | ApplyFailed

  datatype GetResult = ErrEmptyKey | NotFound | Found(value: Bytes)

  function EntryOfOp(op: Op): Entry {
    if op.OpPut? then Put(op.value) else Tombstone
  }

  function RecordsOf(ops: seq<Op>): (r: seq<Record>)
    ensures |r| == |ops| && forall i :: 0 <= i < |r| ==> r[i] == Record(ops[i].key, EntryOfOp(ops[i]))
  {
    seq(|ops|, i requires 0 <= i < |ops| => Record(ops[i].key, EntryOfOp(ops[i])))
  }

  /** The sizes of keys and values of a batch. */
  function RawSize(ops: seq<Op>): nat {
    if ops == [] then 0
    else RawSize(ops[..|ops| - 1]) + |ops[|ops| - 1].key| + SizeOfEntry(EntryOfOp(ops[|ops| - 1]))
  }

  function OpError(op: Op): WriteResult {
    if op.key == [] then EmptyKey else if op.OpOther? then InvalidType else Written
  }

  /** The first operation with an empty key or of an unknown type decides. */
  function BatchError(ops: seq<Op>): (err: WriteResult)
    ensures err == Written || err == EmptyKey || err == InvalidType
  {
    if ops == [] then Written
    else if OpError(ops[0]) != Written then OpError(ops[0])
    else BatchError(ops[1..])
  }

  predicate Faulty(op: Op) {
    op.key == [] || op.OpOther?
  }

  predicate FirstFaultAt(ops: seq<Op>, i: nat) {
    i < |ops| && Faulty(ops[i]) && forall j :: 0 <= j < i ==> !Faulty(ops[j])
  }

  /** The first faulty operation gives the error: an empty key before an unknown type. */
  lemma {:induction false} FirstFault(ops: seq<Op>, i: nat)
    requires FirstFaultAt(ops, i)
    ensures BatchError(ops) == if ops[i].key == [] then EmptyKey else InvalidType
  {
    if i > 0 {
      assert forall j :: 0 <= j < i - 1 ==> ops[1..][j] == ops[j + 1];
      FirstFault(ops[1..], i - 1);
    }
  }

  lemma {:induction false} NoErrorIffNoFault(ops: seq<Op>)
    ensures BatchError(ops) == Written <==> forall i :: 0 <= i < |ops| ==> !Faulty(ops[i])
  {
    if ops != [] {
      NoErrorIffNoFault(ops[1..]);
      assert forall i :: 0 < i < |ops| ==> ops[i] == ops[1..][i - 1];
    }
  }

  lemma NoErrorAnywhere(ops: seq<Op>, i: nat)
    requires BatchError(ops) == Written && i < |ops|
    ensures ops[i].key != [] && !ops[i].OpOther?
  {
    hide BatchError;
    NoErrorIffNoFault(ops);
  }

  /** When no key occurs twice, the size of a batch is that of the table it makes. */
  lemma {:induction false} RawSizeOfDistinct(ops: seq<Op>)
    requires forall i, j :: 0 <= i < j < |ops| ==> ops[i].key != ops[j].key
    ensures RawSize(ops) == TableSize(Replay(map[], RecordsOf(ops)))
    ensures forall k :: k in Replay(map[], RecordsOf(ops)) <==> exists i :: 0 <= i < |ops| && ops[i].key == k
    decreases |ops|
  {
    hide TableSize;
    if ops == [] {
      EmptySize();
    } else {
      var front, op := ops[..|ops| - 1], ops[|ops| - 1];
      RawSizeOfDistinct(front);
      assert RecordsOf(ops)[..|ops| - 1] == RecordsOf(front);
      TableSizeOfWrite(Replay(map[], RecordsOf(front)), op.key, EntryOfOp(op));
      assert op.key !in Replay(map[], RecordsOf(front));
    }
  }

  lemma EmptySize()
    ensures TableSize(map[]) == 0
  {
  }

  method ValidateOperations(ops: seq<Op>) returns (err: WriteResult, size: nat)
    ensures err == BatchError(ops)
    ensures size == if err == Written then RawSize(ops) else 0
  {
    size := 0;
    assert ops[0..] == ops;
    for i := 0 to |ops|
      invariant BatchError(ops) == BatchError(ops[i..]) && size == RawSize(ops[..i])
    {
      assert ops[i..][1..] == ops[i + 1..] && ops[..i + 1][..i] == ops[..i];
      if |ops[i].key| == 0 {
        return EmptyKey, 0;
      }
      match ops[i]
      case OpPut(key, value) => size := size + (|key| + |value|);
      case OpDelete(key) => size := size + |key|;
      case OpOther(_) => return InvalidType, 0;
    }
    assert ops[..|ops|] == ops;
    err := Written;
  }

  // ------------------------------------------------------------- frozen memtables

  ghost predicate Holds(m: SkipList, t: Table)
    reads m, m.Repr
  {
    (forall i :: 0 <= i < |m.tower| ==> m.tower[i] in m.Repr) && m in m.Repr && m.Valid() && m.Contents() == t && m.Run() != []
  }

  /** Memtables that no longer change: each holds its table, and none is empty. */
  ghost predicate Hold(mems: seq<SkipList>, tables: seq<Table>)
    reads mems, set i, o | 0 <= i < |mems| && o in mems[i].Repr :: o
  {
    |mems| == |tables| && forall i :: 0 <= i < |mems| ==> Holds(mems[i], tables[i])
  }

  ghost predicate Apart(mem: SkipList, mems: seq<SkipList>)
    reads mem, mems
  {
    forall i :: 0 <= i < |mems| ==> mems[i].Repr !! mem.Repr
  }

  ghost predicate Outside(o: object, mems: seq<SkipList>)
    reads mems
  {
    forall i :: 0 <= i < |mems| ==> o != mems[i] && o !in mems[i].Repr
  }

  /** A fresh memtable touches nothing that was frozen before. */
  method NewMemTable(maxSize: int, maxLevel: int, ghost mems: seq<SkipList>, ghost tables: seq<Table>) returns (m: SkipList)
    requires Hold(mems, tables)
    ensures m.Valid() && fresh(m.Repr) && m.Contents() == map[] && m.currentSizeBytes == 0 && m.maxSizeBytes == maxSize
    ensures Hold(mems, tables) && Apart(m, mems)
  {
    hide WellLinked, RunOf, SizeOfRun, RunTable;
    m := new SkipList(maxSize, maxLevel);
    FreshIsEmpty(m);
  }

  lemma HoldAppend(mems: seq<SkipList>, tables: seq<Table>, m: SkipList)
    requires Hold(mems, tables) && m.Valid() && m.Run() != []
    ensures Hold(mems + [m], tables + [m.Contents()])
  {
    hide WellLinked, RunTable;
  }

  lemma OutsideAppend(o: object, mems: seq<SkipList>, m: SkipList)
    requires Outside(o, mems) && o != m && o !in m.Repr
    ensures Outside(o, mems + [m])
  {
  }

  lemma HoldTail(mems: seq<SkipList>, tables: seq<Table>)
    requires Hold(mems, tables) && mems != []
    ensures Hold(mems[1..], tables[1..])
  {
  }

  /** One operation on a memtable: it fails only for want of room, and costs at most its own size. */
  method Apply(mem: SkipList, op: Op, ghost mems: seq<SkipList>, ghost tables: seq<Table>) returns (err: WriteError)
    requires mem.Valid() && op.key != [] && Hold(mems, tables) && Apart(mem, mems)
    requires mem.currentSizeBytes + |op.key| + SizeOfEntry(EntryOfOp(op)) <= mem.maxSizeBytes
    modifies mem.Repr
    ensures mem.Valid()
    ensures fresh(mem.Repr - old(mem.Repr))
    ensures Hold(mems, tables)
    ensures Apart(mem, mems)
    ensures forall i :: 0 <= i < |mems| ==> mems[i].Repr == old(mems[i].Repr)
    ensures err == Ok
    ensures mem.Contents() == old(mem.Contents())[op.key := EntryOfOp(op)]
    ensures mem.currentSizeBytes <= old(mem.currentSizeBytes) + |op.key| + SizeOfEntry(EntryOfOp(op))
  {
    hide WellLinked, RunOf, RunTable, SizeOfRun;
    ghost var before := mem.Contents();
    if op.OpPut? {
      err := mem.Put(op.key, op.value);
    } else {
      err := mem.Delete(op.key);
    }
  }

  /** The loop that applies a logged batch: it never runs out of room. */
  method ApplyBatch(mem: SkipList, ops: seq<Op>, ghost mems: seq<SkipList>, ghost tables: seq<Table>) returns (err: WriteError)
    requires mem.Valid() && Hold(mems, tables) && Apart(mem, mems) && BatchError(ops) == Written
    requires mem.currentSizeBytes + RawSize(ops) <= mem.maxSizeBytes
    modifies mem.Repr
    ensures mem.Valid()
    ensures fresh(mem.Repr - old(mem.Repr))
    ensures Hold(mems, tables)
    ensures Apart(mem, mems)
    ensures forall i :: 0 <= i < |mems| ==> mems[i].Repr == old(mems[i].Repr)
    ensures err == Ok
    ensures mem.Contents() == Replay(old(mem.Contents()), RecordsOf(ops))
    ensures mem.currentSizeBytes <= old(mem.currentSizeBytes) + RawSize(ops)
  {
    hide WellLinked, RunOf, RunTable, SizeOfRun, Hold, Apart, BatchError;
    ghost var before, size := mem.Contents(), mem.currentSizeBytes;
    for i := 0 to |ops|
      invariant mem.Valid() && fresh(mem.Repr - old(mem.Repr)) && Hold(mems, tables) && Apart(mem, mems)
      invariant forall j :: 0 <= j < |mems| ==> mems[j].Repr == old(mems[j].Repr)
      invariant mem.Contents() == Replay(before, RecordsOf(ops[..i]))
      invariant mem.currentSizeBytes <= size + RawSize(ops[..i]) && RawSize(ops[..i]) <= RawSize(ops)
    {
      NoErrorAnywhere(ops, i);
      RawSizeGrows(ops, i);
      assert ops[..i + 1][..i] == ops[..i] && RecordsOf(ops[..i + 1])[..i] == RecordsOf(ops[..i]);
      err := Apply(mem, ops[i], mems, tables);
    }
    assert ops[..|ops|] == ops;
    err := Ok;
  }

  lemma {:induction false} RawSizeGrows(ops: seq<Op>, i: nat)
    requires i < |ops|
    ensures RawSize(ops[..i + 1]) == RawSize(ops[..i]) + |ops[i].key| + SizeOfEntry(EntryOfOp(ops[i])) <= RawSize(ops)
    decreases |ops| - i
  {
    assert ops[..i + 1][..i] == ops[..i];
    if i + 1 == |ops| {
      assert ops[..i + 1] == ops;
    } else {
      RawSizeGrows(ops, i + 1);
    }
  }

  ghost function QueueOf(tables: seq<Table>, ids: seq<int>): (q: seq<Frozen>)
    requires |tables| == |ids|
    ensures |q| == |ids| && forall i :: 0 <= i < |q| ==> q[i] == Frozen(tables[i], ids[i])
  {
    seq(|ids|, i requires 0 <= i < |ids| => Frozen(tables[i], ids[i]))
  }

  /** The end of a sequence grows with it. */
  lemma EndAppend<T>(s: seq<T>, n: nat, x: T)
    requires n <= |s|
    ensures (s + [x])[|s + [x]| - (n + 1)..] == s[|s| - n..] + [x]
  {
  }

  lemma QueueAppend(tables: seq<Table>, ids: seq<int>, t: Table, id: int)
    requires |tables| == |ids|
    ensures QueueOf(tables + [t], ids + [id]) == QueueOf(tables, ids) + [Frozen(t, id)]
  {
  }

  /** How many memtables must leave a queue of n before another one may join it. */
  function ToFlush(n: nat, limit: nat): nat {
    if n < limit then 0 else n - limit + 1
  }

  /** The memtable frozen after the k oldest of the queue were flushed. */
  ghost predicate MadeRoom(before: Memory, k: nat, m: Memory) {
    exists f :: OldestFlushed(before, k, f) && m == Freeze(f)
  }

  lemma RoomMade(before: Memory, k: nat, m: Memory)
    requires OldestFlushed(before, k, m)
    ensures MadeRoom(before, k, Freeze(m))
  {
    hide OldestFlushed, Freeze;
  }

  /** A frozen memtable need not fit the format of the files. */
  ghost predicate SomeUnflushable(m: Memory, expectedKeys: nat) {
    exists i :: 0 <= i < |m.frozen| && !Flushable(m.frozen[i].table, expectedKeys)
  }

  lemma NextToFlush(before: Memory, k: nat, m: Memory, expectedKeys: nat)
    requires OldestFlushed(before, k, m) && m.frozen != [] && !Flushable(m.frozen[0].table, expectedKeys)
    ensures SomeUnflushable(before, expectedKeys)
  {
    hide Flushable;
    assert m.frozen[0] == before.frozen[k];
  }

  // -------------------------------------------------------------------- the engine

  class DbEngine {
    const maxMemTableSize: int
    const maxImmMemtables: nat
    const memTableMaxLevel: int
    const flushEstimatedKeys: nat
    const numHashes: int

    var memtable: SkipList
    var activeWALSegmentID: int
    /** The records of the active log segment. */
    var wal: seq<Record>
    var immMemtables: seq<SkipList>
    var immWALSegmentIDs: seq<int>
    var level0: seq<SSTable>
    var level1: seq<SSTable>
    var nextSegmentID: int
    var flushedSegmentID: int

    /** Every memtable ever frozen, with its table; the queue is the end of it. */
    ghost var kept: seq<SkipList>
    ghost var tables: seq<Table>

    ghost predicate Valid()
      reads this, memtable, memtable.tower, kept, set i, o | 0 <= i < |kept| && o in kept[i].Repr :: o
    {
      && memtable.Valid() && this !in memtable.Repr
      && memtable.currentSizeBytes <= maxMemTableSize <= memtable.maxSizeBytes
      && memtable.Contents() == Replay(map[], wal)
      && Stored() && Apart(memtable, kept)
    }

    /** Everything behind the memtable. */
    ghost predicate Stored()
      reads this, kept, set i, o | 0 <= i < |kept| && o in kept[i].Repr :: o
    {
      && 0 < maxMemTableSize && W.FilterBits(flushEstimatedKeys) % 8 == 0
      && |kept| == |tables| && Hold(kept, tables) && Outside(this, kept)
      && |immMemtables| == |immWALSegmentIDs| <= |kept| && immMemtables == kept[|kept| - |immMemtables|..]
      && AllValid(level0) && AllValid(level1) && Disjoint(level1)
    }

    ghost function Queue(): (q: seq<Frozen>)
      reads `tables, `immMemtables, `immWALSegmentIDs
      requires |tables| >= |immMemtables| == |immWALSegmentIDs|
      ensures |q| == |immMemtables|
    {
      QueueOf(tables[|tables| - |immMemtables|..], immWALSegmentIDs)
    }

    /** The state as a value. */
    ghost function View(): Memory
      reads this, memtable, memtable.tower
      requires |memtable.tower| > 0 && |tables| >= |immMemtables| == |immWALSegmentIDs|
    {
      Memory(memtable.Contents(), activeWALSegmentID, Queue(), level0, level1, nextSegmentID, flushedSegmentID)
    }

    constructor (maxMemTableSize: int, maxImmMemtables: nat, memTableMaxLevel: int, flushEstimatedKeys: nat, numHashes: int)
      requires 0 < maxMemTableSize && W.FilterBits(flushEstimatedKeys) % 8 == 0
      ensures Valid()
      ensures View() == Memory(map[], 1, [], [], [], 2, 0)
      ensures this.maxMemTableSize == maxMemTableSize && this.maxImmMemtables == maxImmMemtables
      ensures this.memTableMaxLevel == memTableMaxLevel
      ensures this.flushEstimatedKeys == flushEstimatedKeys && this.numHashes == numHashes
      ensures wal == [] && fresh(memtable.Repr) && memtable.currentSizeBytes == 0
    {
      this.maxMemTableSize, this.maxImmMemtables, this.memTableMaxLevel := maxMemTableSize, maxImmMemtables, memTableMaxLevel;
      this.flushEstimatedKeys, this.numHashes := flushEstimatedKeys, numHashes;
      memtable := new SkipList(maxMemTableSize, memTableMaxLevel);
      activeWALSegmentID, wal, nextSegmentID, flushedSegmentID := 1, [], 2, 0;
      immMemtables, immWALSegmentIDs, level0, level1 := [], [], [], [];
      kept, tables := [], [];
    }

    /** Reopened on the levels of the manifest with the memtable that the log replays to, which has no size
        limit of its own. */
    constructor Recovered(maxMemTableSize: int, maxImmMemtables: nat, memTableMaxLevel: int, flushEstimatedKeys: nat, numHashes: int,
                          recoveryMem: SkipList, replayed: seq<Record>, level0: seq<SSTable>, level1: seq<SSTable>,
                          activeWALSegmentID: int, nextSegmentID: int, flushedSegmentID: int)
      requires 0 < maxMemTableSize && W.FilterBits(flushEstimatedKeys) % 8 == 0
      requires recoveryMem.Valid() && recoveryMem.currentSizeBytes <= maxMemTableSize <= recoveryMem.maxSizeBytes
      requires recoveryMem.Contents() == Replay(map[], replayed)
      requires AllValid(level0) && AllValid(level1) && Disjoint(level1)
      ensures Valid()
      ensures View() == Memory(Replay(map[], replayed), activeWALSegmentID, [], level0, level1, nextSegmentID, flushedSegmentID)
      ensures memtable == recoveryMem && wal == replayed
      ensures this.maxMemTableSize == maxMemTableSize && this.maxImmMemtables == maxImmMemtables
      ensures this.memTableMaxLevel == memTableMaxLevel
      ensures this.flushEstimatedKeys == flushEstimatedKeys && this.numHashes == numHashes
    {
      this.maxMemTableSize, this.maxImmMemtables, this.memTableMaxLevel := maxMemTableSize, maxImmMemtables, memTableMaxLevel;
      this.flushEstimatedKeys, this.numHashes := flushEstimatedKeys, numHashes;
      memtable, wal := recoveryMem, replayed;
      this.activeWALSegmentID, this.nextSegmentID, this.flushedSegmentID := activeWALSegmentID, nextSegmentID, flushedSegmentID;
      this.level0, this.level1 := level0, level1;
      immMemtables, immWALSegmentIDs, kept, tables := [], [], [], [];
    }

    /** The memtable joins the queue, a fresh one takes over. */
    method FreezeActiveMemTable()
      requires Valid() && memtable.currentSizeBytes > 0
      modifies this
      ensures Valid() && View() == Freeze(old(View())) && wal == []
      ensures immMemtables == old(immMemtables) + [old(memtable)]
      ensures fresh(memtable.Repr) && memtable.currentSizeBytes == 0
      ensures old(kept) <= kept && old(tables) <= tables
    {
      hide WellLinked, RunOf, RunTable, SizeOfRun, Replay, QueueOf, SSTable.Valid, Disjoint, Hold, Apart, AllValid;
      Enqueue();
      var newSegmentID := nextSegmentID;
      nextSegmentID := nextSegmentID + 1;
      StartMemTable(newSegmentID);
    }

    method StartMemTable(segmentID: int)
      requires Stored()
      modifies this`memtable, this`activeWALSegmentID, this`wal
      ensures Valid() && fresh(memtable.Repr) && memtable.currentSizeBytes == 0
      ensures View() == Memory(map[], segmentID, old(Queue()), level0, level1, nextSegmentID, flushedSegmentID)
      ensures wal == []
    {
      hide WellLinked, RunOf, RunTable, SizeOfRun, Replay, QueueOf, SSTable.Valid, Disjoint, Hold, Apart, AllValid;
      ReplayNothing();
      memtable := NewMemTable(maxMemTableSize, memTableMaxLevel, kept, tables);
      activeWALSegmentID := segmentID;
      wal := [];
    }

    method Enqueue()
      requires Valid() && memtable.currentSizeBytes > 0
      modifies this`immMemtables, this`immWALSegmentIDs, this`kept, this`tables
      ensures |kept| == |tables| && Hold(kept, tables) && Outside(this, kept)
      ensures |immMemtables| == |immWALSegmentIDs| <= |kept| && immMemtables == kept[|kept| - |immMemtables|..]
      ensures Queue() == old(Queue()) + [Frozen(memtable.Contents(), activeWALSegmentID)]
      ensures immMemtables == old(immMemtables) + [memtable]
      ensures old(kept) <= kept && old(tables) <= tables
    {
      hide WellLinked, RunOf, RunTable, SizeOfRun, Replay, QueueOf, SSTable.Valid, Disjoint, Hold, Apart, AllValid, Outside;
      NotEmpty(memtable);
      HoldAppend(kept, tables, memtable);
      OutsideAppend(this, kept, memtable);
      EndAppend(kept, |immMemtables|, memtable);
      EndAppend(tables, |immMemtables|, memtable.Contents());
      QueueAppend(tables[|tables| - |immMemtables|..], immWALSegmentIDs, memtable.Contents(), activeWALSegmentID);
      immMemtables := immMemtables + [memtable];
      immWALSegmentIDs := immWALSegmentIDs + [activeWALSegmentID];
      kept, tables := kept + [memtable], tables + [memtable.Contents()];
    }

    /** Room for a batch: freezes the memtable when the batch would overflow it, and waits for the flush
        worker while the queue is full. With nothing to flush that wait never ends. */
    method MakeRoom(batchSize: int) returns (res: WriteResult)
      requires Valid() && 0 <= batchSize <= maxMemTableSize
      modifies this
      ensures Valid() && Meaning(View()) == old(Meaning(View()))
      ensures fresh(memtable.Repr - old(memtable.Repr))
      ensures old(kept) <= kept
      ensures old(tables) <= tables
      ensures res == Written || res == FlushFailed || (res == Stalled && maxImmMemtables == 0)
      ensures res == Written ==> memtable.currentSizeBytes + batchSize <= maxMemTableSize
      ensures old(memtable.currentSizeBytes) + batchSize <= maxMemTableSize ==> res == Written && View() == old(View())
      ensures old(memtable.currentSizeBytes) + batchSize > maxMemTableSize && res == Written ==>
                MadeRoom(old(View()), ToFlush(old(|immMemtables|), maxImmMemtables), View())
      ensures res == FlushFailed ==> SomeUnflushable(old(View()), flushEstimatedKeys)
      ensures |immMemtables| <= if |old(immMemtables)| > maxImmMemtables then |old(immMemtables)| else maxImmMemtables
    {
      hide WellLinked, RunOf, RunTable, SizeOfRun, Replay, QueueOf, SSTable.Valid, Disjoint, Hold, Apart, AllValid, Outside;
      hide Meaning, Freeze, OldestFlushed, MadeRoom, Flushable, SomeUnflushable, RegisterFlushed;
      ghost var before, n, toFlush := View(), |immMemtables|, ToFlush(|immMemtables|, maxImmMemtables);
      ghost var k: nat := 0;
      ghost var frozen := false;
      NoneFlushed(before);
      while memtable.currentSizeBytes + batchSize > maxMemTableSize
        invariant Valid() && Meaning(View()) == Meaning(before)
        invariant fresh(memtable.Repr - old(memtable.Repr)) && old(kept) <= kept && old(tables) <= tables
        invariant old(memtable.currentSizeBytes) + batchSize <= maxMemTableSize ==>
                    View() == before && memtable.currentSizeBytes == old(memtable.currentSizeBytes)
        invariant if frozen then memtable.currentSizeBytes == 0 && MadeRoom(before, toFlush, View())
                  else
                    && memtable.currentSizeBytes == old(memtable.currentSizeBytes) && OldestFlushed(before, k, View())
                    && |immMemtables| == n - k && k <= toFlush
        invariant |immMemtables| <= if n > maxImmMemtables then n else maxImmMemtables
        decreases memtable.currentSizeBytes, |immMemtables|
      {
        if |immMemtables| >= maxImmMemtables {
          if |immMemtables| == 0 {
            return Stalled;
          }
          ghost var m := View();
          var done := FlushOldest();
          if !done {
            NextToFlush(before, k, m, flushEstimatedKeys);
            return FlushFailed;
          }
          OneMoreFlushed(before, k, m, level0[0]);
          k := k + 1;
        } else {
          frozen := true;
          FreezeKeepsMeaning(View());
          RoomMade(before, k, View());
          FreezeActiveMemTable();
        }
      }
      res := Written;
    }

    /** A batch changes the meaning by exactly its operations, in order, or not at all; once there is
        room, applying what was logged cannot run out of it. */
    method WriteBatch(ops: seq<Op>) returns (res: WriteResult)
      requires Valid()
      modifies this, memtable.Repr
      ensures Valid()
      ensures fresh(memtable.Repr - old(memtable.Repr))
      ensures old(kept) <= kept
      ensures old(tables) <= tables
      ensures Meaning(View()) == if res == Written then Write(old(Meaning(View())), RecordsOf(ops)) else old(Meaning(View()))
      ensures BatchError(ops) != Written ==> res == BatchError(ops) && View() == old(View())
      ensures BatchError(ops) == Written ==>
                var size := RawSize(ops) + if maxMemTableSize > 1024 then 64 * |ops| else 0;
                if size > maxMemTableSize then res == BatchTooLarge && View() == old(View())
                else if old(memtable.currentSizeBytes) + size <= maxMemTableSize then res == Written && View() == Write'(old(View()), RecordsOf(ops))
                else
                  && (res == Written || res == FlushFailed || (res == Stalled && maxImmMemtables == 0))
                  && (res == Written ==> exists m :: MadeRoom(old(View()), ToFlush(old(|immMemtables|), maxImmMemtables), m)
                                                     && View() == Write'(m, RecordsOf(ops)))
      ensures res == FlushFailed ==> SomeUnflushable(old(View()), flushEstimatedKeys)
      ensures |immMemtables| <= if |old(immMemtables)| > maxImmMemtables then |old(immMemtables)| else maxImmMemtables
    {
      hide WellLinked, RunOf, RunTable, SizeOfRun, QueueOf, SSTable.Valid, Disjoint, Hold, Apart;
      hide Meaning, RawSize, BatchError, Write, Write', MadeRoom, SomeUnflushable;
      if |ops| == 0 {
        EmptyBatch(View(), Meaning(View()));
        return Written;
      }
      var err, batchRawSize := ValidateOperations(ops);
      if err != Written {
        return err;
      }
      var batchSize := batchRawSize;
      if maxMemTableSize > 1024 {
        batchSize := batchSize + |ops| * 64;
      }
      if batchSize > maxMemTableSize {
        return BatchTooLarge;
      }
      res := MakeRoom(batchSize);
      if res == Written {
        LogAndApply(ops);
      }
    }

    /** The records go to the log first, then to the memtable. */
    method LogAndApply(ops: seq<Op>)
      requires Valid() && BatchError(ops) == Written && memtable.currentSizeBytes + RawSize(ops) <= maxMemTableSize
      modifies this`wal, memtable.Repr
      ensures Valid()
      ensures fresh(memtable.Repr - old(memtable.Repr))
      ensures kept == old(kept)
      ensures tables == old(tables)
      ensures wal == old(wal) + RecordsOf(ops)
      ensures View() == Write'(old(View()), RecordsOf(ops))
      ensures Meaning(View()) == Write(old(Meaning(View())), RecordsOf(ops))
    {
      hide WellLinked, RunOf, RunTable, SizeOfRun, QueueOf, SSTable.Valid, Disjoint, Hold, Apart, Meaning, RawSize, BatchError, Write, Replay;
      ReplayOfConcatenation(map[], wal, RecordsOf(ops));
      WriteChangesMeaning(View(), RecordsOf(ops));
      wal := wal + RecordsOf(ops);
      var err := ApplyBatch(memtable, ops, kept, tables);
    }

    /** The newest layer that holds the key decides: memtable, queue from its end, files. */
    method Get(key: Bytes) returns (res: GetResult)
      requires Valid()
      ensures res == if key == [] then GetResult.ErrEmptyKey
                     else if key in Meaning(View()) then Found(Meaning(View())[key])
                     else NotFound
    {
      hide WellLinked, RunOf, RunTable, SizeOfRun, Replay, SSTable.Valid, Disjoint, Apart, Meaning, Overlay, NewestFirst, Hold;
      if |key| == 0 {
        return GetResult.ErrEmptyKey;
      }
      ghost var m := View();
      ResultIsMeaning(m, key);
      LayerByLayer(m, key);
      var err, found, entry := memtable.Get(key);
      if found {
        return ResultOf(Some(entry));
      }
      QueueHolds();
      var queued := SearchQueue(immMemtables, key, m.frozen);
      if queued.Some? {
        return ResultOf(queued);
      }
      var inFiles, probed := SearchLevels(level0, level1, key);
      return ResultOf(inFiles);
    }

    /** A scan delivers, in ascending order, exactly the part of the meaning with the prefix. */
    method Scan(prefix: Bytes) returns (scan: MergingIterator)
      requires Valid()
      ensures fresh(scan)
      ensures fresh(scan.iters)
      ensures scan.Ready()
      ensures scan.Buffered()
      ensures !scan.closed
      ensures scan.Contents() == Prefixed(Meaning(View()), prefix)
    {
      hide WellLinked, RunOf, RunTable, SizeOfRun, Replay, SSTable.Valid, Disjoint, Apart, Overlay, NewestFirst, Sorted;
      ghost var m := View();
      SortedRun(memtable);
      var active := Entries(memtable);
      QueueHolds();
      var frozen := RunsNewestFirst(immMemtables, m.frozen);
      var runs := [active] + frozen;
      assert TablesOfRuns(runs) == [m.active] + NewestFirst(m.frozen);
      scan := ScanInternal(prefix, runs, level0, level1);
      MatchingIsPrefixed(m, prefix);
    }

    lemma QueueHolds()
      requires Valid()
      ensures Hold(immMemtables, TablesIn(Queue()))
    {
      hide Holds;
      var n := |immMemtables|;
      forall i | 0 <= i < n
        ensures Holds(immMemtables[i], Queue()[i].table)
      {
        assert Holds(kept[|kept| - n + i], tables[|tables| - n + i]);
      }
    }

    /** The flushed file becomes the newest of level 0, its memtable leaves the queue. */
    method RegisterFlushedSSTable(file: SSTable, segmentID: int)
      requires Valid() && immMemtables != [] && file.Valid() && segmentID == immWALSegmentIDs[0]
      modifies this`level0, this`immMemtables, this`immWALSegmentIDs, this`flushedSegmentID
      ensures Valid() && View() == RegisterFlushed(old(View()), file) && immMemtables == old(immMemtables)[1..]
    {
      hide WellLinked, RunOf, RunTable, SizeOfRun, Replay, QueueOf, SSTable.Valid, Disjoint, Hold, Apart;
      QueueTail(tables[|tables| - |immMemtables|..], immWALSegmentIDs);
      var n := |immMemtables|;
      assert kept[|kept| - n..][1..] == kept[|kept| - (n - 1)..];
      assert tables[|tables| - n..][1..] == tables[|tables| - (n - 1)..];
      level0 := [file] + level0;
      immMemtables := immMemtables[1..];
      immWALSegmentIDs := immWALSegmentIDs[1..];
      flushedSegmentID := segmentID;
    }

    /** Writes the oldest frozen memtable to a file named after its log segment; an entry over the limits of the
        file format makes it fail. */
    method WriteOldest() returns (file: Option<SSTable>)
      requires Valid() && immMemtables != []
      ensures file.Some? ==>
                file.value.Valid() && file.value.fileID == immWALSegmentIDs[0] && file.value.Contents() == View().frozen[0].table
      ensures Flushable(View().frozen[0].table, flushEstimatedKeys) ==> file.Some?
    {
      hide WellLinked, RunOf, RunTable, SizeOfRun, Replay, SSTable.Valid, Disjoint, Apart, Meaning, Fits, W.FilterOf;
      SortedRun(immMemtables[0]);
      ghost var j := |kept| - |immMemtables|;
      assert immMemtables[0] == kept[j] && Holds(kept[j], tables[j]);
      var reader;
      ghost var at;
      file, reader, at := WriteMemTableToSSTable(immMemtables[0], immWALSegmentIDs[0], flushEstimatedKeys, numHashes);
    }

    /** One round of the flush worker: without a frozen memtable it does nothing. */
    method FlushOldest() returns (done: bool)
      requires Valid()
      modifies this`level0, this`immMemtables, this`immWALSegmentIDs, this`flushedSegmentID
      ensures Valid() && Meaning(View()) == old(Meaning(View()))
      ensures done ==> |old(immMemtables)| > 0 && level0 != [] && level0[0].Valid()
      ensures done ==> View() == RegisterFlushed(old(View()), level0[0]) && immMemtables == old(immMemtables)[1..]
      ensures done ==> level0[0].fileID == old(immWALSegmentIDs[0]) && level0[0].Contents() == old(View()).frozen[0].table
      ensures !done ==> View() == old(View()) && immMemtables == old(immMemtables)
      ensures old(|immMemtables| > 0 && Flushable(View().frozen[0].table, flushEstimatedKeys)) ==> done
    {
      hide WellLinked, RunOf, RunTable, SizeOfRun, Replay, QueueOf, SSTable.Valid, Disjoint, Apart, Meaning, Hold, SSTable.Contents, Flushable;
      if |immMemtables| == 0 {
        return false;
      }
      var file := WriteOldest();
      if file.None? {
        return false;
      }
      FlushKeepsMeaning(View(), file.value);
      RegisterFlushedSSTable(file.value, immWALSegmentIDs[0]);
      done := true;
    }

    /** The commit of a compaction whose outputs show what its inputs show, with whatever was flushed
        to level 0 since it began on top. */
    method CommitLevels(obsolete: seq<SSTable>, outputs: seq<SSTable>, nextID: int, ghost inputs0: seq<SSTable>, ghost added: seq<SSTable>)
      requires Valid() && AllValid(outputs) && Disjoint(outputs)
      requires level0 == added + inputs0 && obsolete == inputs0 + level1
      requires forall i :: 0 <= i < |added| ==> added[i] !in obsolete
      requires Live(Overlay(TablesOf(outputs))) == Live(Overlay(TablesOf(inputs0) + TablesOf(level1)))
      modifies this`level0, this`level1, this`nextSegmentID
      ensures Valid() && level0 == added && level1 == outputs
      ensures View() == Commit(old(View()), obsolete, outputs, nextID)
      ensures nextSegmentID == if nextID > old(nextSegmentID) then nextID else old(nextSegmentID)
      ensures old(AllBelow(level0, nextSegmentID)) && AllBelow(outputs, nextID) ==>
                AllBelow(level0, nextSegmentID) && AllBelow(level1, nextSegmentID)
      ensures Meaning(View()) == old(Meaning(View()))
    {
      hide WellLinked, RunOf, RunTable, SizeOfRun, Replay, QueueOf, SSTable.Valid, Disjoint, Hold, Apart, Live, Overlay;
      CommitKeepsMeaning(View(), added, inputs0, outputs);
      PrefixValid(added, inputs0);
      ghost var committed := CommitCompaction(View(), obsolete, outputs);
      var newL0 := KeepOthers(level0, obsolete);
      SwapLevels(newL0, outputs, if nextID > nextSegmentID then nextID else nextSegmentID);
      IdsDoNotMatter(committed, nextSegmentID);
    }

    method SwapLevels(newL0: seq<SSTable>, newL1: seq<SSTable>, nextID: int)
      requires Valid() && AllValid(newL0) && AllValid(newL1) && Disjoint(newL1)
      modifies this`level0, this`level1, this`nextSegmentID
      ensures Valid() && View() == old(View()).(level0 := newL0, level1 := newL1, nextSegmentID := nextID)
    {
      hide WellLinked, RunOf, RunTable, SizeOfRun, Replay, QueueOf, SSTable.Valid, AllValid, Disjoint, Hold, Apart;
      level0, level1, nextSegmentID := newL0, newL1, nextID;
    }
  }

  // ------------------------------------------------------------------ reading

  lemma {:induction false} NewestFirstAt(q: seq<Frozen>, i: nat)
    requires i < |q|
    ensures NewestFirst(q)[|q| - 1 - i] == q[i].table
  {
    if i < |q| - 1 {
      NewestFirstAt(q[..|q| - 1], i);
    }
  }

  /** What a reader makes of the newest entry of a key. */
  function ResultOf(e: Option<Entry>): GetResult {
    match e
    case Some(Put(v)) => Found(v)
    case _ => NotFound
  }

  /** The entries of a plain map whose key has the prefix. */
  ghost function Prefixed(c: Contents, prefix: Bytes): Contents {
    map k | k in c && HasPrefix(k, prefix) :: c[k]
  }

  lemma MatchingIsPrefixed(m: Memory, prefix: Bytes)
    ensures Matching(Overlay(Layers(m)), prefix) == Prefixed(Meaning(m), prefix)
  {
    hide Overlay, HasPrefix;
  }

  lemma ResultIsMeaning(m: Memory, key: Bytes)
    ensures ResultOf(Lookup(Overlay(Layers(m)), key)) == if key in Meaning(m) then Found(Meaning(m)[key]) else NotFound
  {
    hide Overlay;
  }

  /** The newest layer that holds a key decides. */
  lemma LayerByLayer(m: Memory, key: Bytes)
    ensures Lookup(Overlay(Layers(m)), key) ==
            if key in m.active then Some(m.active[key])
            else if Lookup(Overlay(NewestFirst(m.frozen)), key).Some? then Lookup(Overlay(NewestFirst(m.frozen)), key)
            else Lookup(Overlay(TablesOf(m.level0) + TablesOf(m.level1)), key)
  {
    hide Overlay, NewestFirst;
    var queue, files := NewestFirst(m.frozen), TablesOf(m.level0) + TablesOf(m.level1);
    assert Layers(m) == [m.active] + (queue + files);
    OverlayOfConcatenation([m.active], queue + files);
    OverlayOfConcatenation(queue, files);
    OverlayOfOne(m.active);
  }

  lemma OverlayOfOne(t: Table)
    ensures Overlay([t]) == t
  {
    assert [t][1..] == [];
  }

  function TablesIn(q: seq<Frozen>): (t: seq<Table>)
    ensures |t| == |q| && forall i :: 0 <= i < |t| ==> t[i] == q[i].table
  {
    seq(|q|, i requires 0 <= i < |q| => q[i].table)
  }

  /** Frozen memtables searched from the end of the queue. */
  method SearchQueue(mems: seq<SkipList>, key: Bytes, ghost q: seq<Frozen>) returns (res: Option<Entry>)
    requires Hold(mems, TablesIn(q)) && key != []
    ensures res == Lookup(Overlay(NewestFirst(q)), key)
  {
    hide WellLinked, RunOf, RunTable, Overlay;
    ghost var tables := NewestFirst(q);
    for i := |mems| downto 0
      invariant forall j :: 0 <= j < |mems| - i ==> key !in tables[j]
    {
      NewestFirstAt(q, i);
      assert Holds(mems[i], TablesIn(q)[i]);
      var err, found, entry := mems[i].Get(key);
      if found {
        OverlayAt(tables, key);
        assert key in tables[|mems| - 1 - i];
        return Some(entry);
      }
    }
    OverlayAt(tables, key);
    res := None;
  }

  /** The entries of a memtable, in order, as its iterator shows them. */
  method Entries(mem: SkipList) returns (run: seq<Record>)
    requires mem.Valid()
    ensures run == mem.Run()
  {
    hide WellLinked, RunOf;
    var cursor := mem.NewIterator();
    ghost var all := cursor.Rest();
    run := Drain(cursor);
  }

  method Drain(cursor: Cursor) returns (run: seq<Record>)
    requires cursor.Valid()
    modifies cursor
    ensures run == old(cursor.Rest())
  {
    hide Cursor.Valid, Cursor.Rest;
    run := [];
    CursorShows(cursor);
    while cursor.hasCurrent
      invariant cursor.Valid() && run + cursor.Rest() == old(cursor.Rest()) && (cursor.hasCurrent <==> cursor.Rest() != [])
      decreases |cursor.Rest()|
    {
      CursorShows(cursor);
      ghost var rest := cursor.Rest();
      run := run + [Record(cursor.currKey, EntryOf(cursor.currVal, cursor.currDel))];
      cursor.Next();
      CursorShows(cursor);
    }
  }

  lemma SortedRun(mem: SkipList)
    requires mem.Valid()
    ensures Sorted(mem.Run()) && RunTable(mem.Run()) == mem.Contents()
  {
  }

  /** The runs of memtables given oldest first, newest first. */
  method RunsNewestFirst(mems: seq<SkipList>, ghost q: seq<Frozen>) returns (runs: seq<seq<Record>>)
    requires |mems| == |q| && Hold(mems, TablesIn(q))
    ensures AllSorted(runs) && TablesOfRuns(runs) == NewestFirst(q)
  {
    hide WellLinked, RunOf, RunTable, Sorted;
    ghost var tables := TablesIn(q);
    runs := [];
    for i := |mems| downto 0
      invariant |runs| == |mems| - i && AllSorted(runs)
      invariant forall j :: 0 <= j < |runs| ==> RunTable(runs[j]) == tables[|mems| - 1 - j]
    {
      assert Holds(mems[i], tables[i]);
      SortedRun(mems[i]);
      var run := Entries(mems[i]);
      runs := runs + [run];
    }
    forall j | 0 <= j < |runs|
      ensures TablesOfRuns(runs)[j] == NewestFirst(q)[j]
    {
      NewestFirstAt(q, |q| - 1 - j);
    }
  }

  lemma PrefixValid(a: seq<SSTable>, b: seq<SSTable>)
    requires AllValid(a + b)
    ensures AllValid(a)
  {
    hide SSTable.Valid;
    assert forall i :: 0 <= i < |a| ==> (a + b)[i] == a[i];
  }

  lemma WithoutOfNone(obsolete: seq<SSTable>)
    ensures Without([], obsolete) == []
  {
  }

  lemma {:induction false} WithoutAppend(files: seq<SSTable>, f: SSTable, obsolete: seq<SSTable>)
    ensures Without(files + [f], obsolete) == Without(files, obsolete) + if f in obsolete then [] else [f]
  {
    if files == [] {
      assert [f][1..] == [];
    } else {
      WithoutAppend(files[1..], f, obsolete);
      assert (files + [f])[1..] == files[1..] + [f];
    }
  }

  /** The files of level 0 that were not inputs, concurrent flushes among them. */
  method KeepOthers(files: seq<SSTable>, obsolete: seq<SSTable>) returns (kept: seq<SSTable>)
    ensures kept == Without(files, obsolete)
  {
    kept := [];
    WithoutOfNone(obsolete);
    for i := 0 to |files|
      invariant kept == Without(files[..i], obsolete)
    {
      WithoutAppend(files[..i], files[i], obsolete);
      assert files[..i + 1] == files[..i] + [files[i]];
      if files[i] !in obsolete {
        kept := kept + [files[i]];
      }
    }
    assert files[..|files|] == files;
  }

  lemma IdsDoNotMatter(m: Memory, id: int)
    ensures Meaning(m.(nextSegmentID := id)) == Meaning(m)
  {
  }

  lemma QueueTail(tables: seq<Table>, ids: seq<int>)
    requires |tables| == |ids| && ids != []
    ensures QueueOf(tables[1..], ids[1..]) == QueueOf(tables, ids)[1..]
    ensures QueueOf(tables, ids)[0] == Frozen(tables[0], ids[0])
  {
  }

  lemma EmptyBatch(m: Memory, c: Contents)
    ensures Write'(m, RecordsOf([])) == m
    ensures BatchError([]) == Written
    ensures RawSize([]) == 0
    ensures Write(c, RecordsOf([])) == c
  {
  }

  lemma ReplayNothing()
    ensures Replay(map[], []) == map[] && RunTable([]) == map[]
  {
  }

  lemma FreshIsEmpty(mem: SkipList)
    requires mem.Valid() && mem.Run() == []
    ensures mem.currentSizeBytes == 0 && mem.Contents() == map[]
  {
    hide WellLinked;
  }

  lemma NotEmpty(mem: SkipList)
    requires mem.Valid() && mem.currentSizeBytes > 0
    ensures mem.Run() != []
  {
    hide WellLinked, RunOf;
  }
}
