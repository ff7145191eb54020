/** Point-in-time snapshots of the engine (internal/storage/snapshot.go). */
module Snapshots {
  import opened ByteStrings
  import opened Tables
  import opened SkipLists
  import opened Levels
  import opened EngineModel
  import opened MergeIterators
  import opened Engine

  datatype SnapshotResult<+T> = Answer(value: T) | ErrSnapshotClosed

  class DbSnapshot {
    /** The frozen memtables, newest first. */
    const imm: seq<SkipList>
    const level0: seq<SSTable>
    const level1: seq<SSTable>
    var closed: bool
    /** The queue at the time, oldest first, its place among all memtables ever frozen, and the map. */
    ghost const queue: seq<Frozen>
    ghost const place: nat
    ghost const meaning: Contents

    /** The memtables of this snapshot are memtables the engine froze, with the tables they had then. */
    ghost predicate Of(e: DbEngine)
      reads e
    {
      && place + |queue| <= |e.kept| == |e.tables|
      && imm == Reversed(e.kept[place..place + |queue|]) && TablesIn(queue) == e.tables[place..place + |queue|]
      && AllValid(level0) && AllValid(level1) && Disjoint(level1)
      && meaning == Live(Overlay(NewestFirst(queue) + TablesOf(level0) + TablesOf(level1)))
    }

    constructor (imm: seq<SkipList>, level0: seq<SSTable>, level1: seq<SSTable>,
                 ghost queue: seq<Frozen>, ghost place: nat, ghost meaning: Contents)
      ensures this.imm == imm
      ensures this.level0 == level0
      ensures this.level1 == level1
      ensures !closed
      ensures this.queue == queue
      ensures this.place == place
      ensures this.meaning == meaning
    {
      this.imm, this.level0, this.level1, closed := imm, level0, level1, false;
      this.queue, this.place, this.meaning := queue, place, meaning;
    }

    /** The sources of a scan are newest first, as they are stored: whatever the engine did since, it
        delivers the map as of the snapshot. */
    method Scan(e: DbEngine, prefix: Bytes) returns (res: SnapshotResult<MergingIterator>)
      requires e.Valid() && Of(e)
      ensures res.ErrSnapshotClosed? <==> closed
      ensures res.Answer? ==>
                && fresh(res.value) && fresh(res.value.iters) && res.value.Ready() && res.value.Buffered() && !res.value.closed
                && res.value.Contents() == Prefixed(meaning, prefix)
    {
      hide WellLinked, RunOf, RunTable, Overlay, NewestFirst, Sorted, SSTable.Valid, Disjoint, Apart, Replay, Live;
      if closed {
        return ErrSnapshotClosed;
      }
      Unchanged(e);
      var runs := RunsAsStored(imm, queue);
      var scan := ScanInternal(prefix, runs, level0, level1);
      MatchingOf(NewestFirst(queue) + TablesOf(level0) + TablesOf(level1), prefix);
      res := Answer(scan);
    }

    lemma Unchanged(e: DbEngine)
      requires e.Valid() && Of(e)
      ensures HoldReversed(imm, queue)
    {
      hide Holds;
      forall i | 0 <= i < |queue|
        ensures Holds(imm[|queue| - 1 - i], queue[i].table)
      {
        assert Holds(e.kept[place + i], e.tables[place + i]);
        assert imm[|queue| - 1 - i] == e.kept[place..place + |queue|][i];
        assert queue[i].table == TablesIn(queue)[i] == e.tables[place..place + |queue|][i];
      }
    }

    /** The loop starts at the last index, where the oldest memtable is: the oldest entry wins. */
    method Get(e: DbEngine, key: Bytes) returns (res: SnapshotResult<GetResult>)
      requires e.Valid() && Of(e)
      ensures key == [] ==> res == Answer(GetResult.ErrEmptyKey)
      ensures key != [] && closed ==> res == ErrSnapshotClosed
      ensures key != [] && !closed ==> res == Answer(OldestFirst(queue, TablesOf(level0) + TablesOf(level1), key))
    {
      hide WellLinked, RunOf, RunTable, Overlay, NewestFirst, SSTable.Valid, Disjoint, Apart, Replay, Hold;
      if |key| == 0 {
        return Answer(GetResult.ErrEmptyKey);
      }
      if closed {
        return ErrSnapshotClosed;
      }
      Unchanged(e);
      var queued := SearchFromLast(imm, key, queue);
      ghost var files := TablesOf(level0) + TablesOf(level1);
      QueueThenFiles(TablesIn(queue), files, key);
      if queued.Some? {
        return Answer(ResultOf(queued));
      }
      var inFiles, probed := SearchLevels(level0, level1, key);
      res := Answer(ResultOf(inFiles));
    }

    method Close()
      modifies this
      ensures closed
    {
      closed := true;
    }
  }

  function Reversed<T>(s: seq<T>): (r: seq<T>)
    ensures |r| == |s| && forall i :: 0 <= i < |s| ==> r[i] == s[|s| - 1 - i]
  {
    seq(|s|, i requires 0 <= i < |s| => s[|s| - 1 - i])
  }

  method NewestToOldest(mems: seq<SkipList>) returns (imm: seq<SkipList>)
    ensures imm == Reversed(mems)
  {
    imm := [];
    for i := 0 to |mems|
      invariant imm == Reversed(mems[..i])
    {
      imm := [mems[i]] + imm;
      assert mems[..i + 1][..i] == mems[..i];
    }
    assert mems[..|mems|] == mems;
  }

  ghost predicate HoldReversed(mems: seq<SkipList>, q: seq<Frozen>)
    reads mems, set i, o | 0 <= i < |mems| && o in mems[i].Repr :: o
  {
    |mems| == |q| && forall i :: 0 <= i < |q| ==> Holds(mems[|q| - 1 - i], q[i].table)
  }

  lemma QueuePlaces(e: DbEngine)
    requires e.Valid()
    ensures |e.immMemtables| <= |e.kept| == |e.tables|
    ensures |e.Queue()| == |e.immMemtables|
    ensures AllValid(e.level0)
    ensures AllValid(e.level1)
    ensures Disjoint(e.level1)
    ensures e.View().frozen == e.Queue()
    ensures e.View().level0 == e.level0
    ensures e.View().level1 == e.level1
    ensures e.View().active == e.memtable.Contents()
    ensures e.immMemtables == e.kept[|e.kept| - |e.immMemtables|..]
    ensures TablesIn(e.Queue()) == e.tables[|e.kept| - |e.immMemtables|..]
  {
    hide WellLinked, RunTable, Hold, Apart, SSTable.Valid, Disjoint, Replay;
  }

  lemma MeaningWithoutActive(m: Memory)
    requires m.active == map[]
    ensures Meaning(m) == Live(Overlay(NewestFirst(m.frozen) + TablesOf(m.level0) + TablesOf(m.level1)))
  {
    hide Overlay, Live, NewestFirst;
    var layers := NewestFirst(m.frozen) + TablesOf(m.level0) + TablesOf(m.level1);
    assert Layers(m) == [map[]] + layers;
    EmptyOnTop(layers);
  }

  lemma EmptyOnTop(layers: seq<Table>)
    ensures Overlay([map[]] + layers) == Overlay(layers)
  {
    assert ([map[]] + layers)[1..] == layers;
  }

  lemma MatchingOf(layers: seq<Table>, prefix: Bytes)
    ensures Matching(Overlay(layers), prefix) == Prefixed(Live(Overlay(layers)), prefix)
  {
    hide Overlay, HasPrefix;
  }

  method RunsAsStored(mems: seq<SkipList>, ghost q: seq<Frozen>) returns (runs: seq<seq<Record>>)
    requires HoldReversed(mems, q)
    ensures AllSorted(runs) && TablesOfRuns(runs) == NewestFirst(q)
  {
    hide WellLinked, RunOf, RunTable, Sorted, NewestFirst;
    runs := [];
    for i := 0 to |mems|
      invariant |runs| == i && AllSorted(runs)
      invariant forall j :: 0 <= j < i ==> RunTable(runs[j]) == q[|q| - 1 - j].table
    {
      assert Holds(mems[|q| - 1 - (|q| - 1 - i)], q[|q| - 1 - i].table);
      SortedRun(mems[i]);
      var run := Entries(mems[i]);
      runs := runs + [run];
    }
    forall j | 0 <= j < |runs|
      ensures TablesOfRuns(runs)[j] == NewestFirst(q)[j]
    {
      NewestFirstAt(q, |q| - 1 - j);
    }
  }

  method SearchFromLast(mems: seq<SkipList>, key: Bytes, ghost q: seq<Frozen>) returns (res: Option<Entry>)
    requires HoldReversed(mems, q) && key != []
    ensures res == Lookup(Overlay(TablesIn(q)), key)
  {
    hide WellLinked, RunOf, RunTable, Overlay;
    ghost var tables := TablesIn(q);
    for i := |mems| downto 0
      invariant forall j :: 0 <= j < |mems| - i ==> key !in tables[j]
    {
      assert Holds(mems[|q| - 1 - (|q| - 1 - i)], q[|q| - 1 - i].table);
      var err, found, entry := mems[i].Get(key);
      if found {
        OverlayAt(tables, key);
        assert key in tables[|mems| - 1 - i];
        return Some(entry);
      }
    }
    OverlayAt(tables, key);
    res := None;
  }

  /** What Get answers: the oldest frozen memtable first, then the files. */
  ghost function OldestFirst(q: seq<Frozen>, files: seq<Table>, key: Bytes): GetResult {
    ResultOf(Lookup(Overlay(TablesIn(q) + files), key))
  }

  /** What the snapshot stands for: the newest first. */
  ghost function NewestWins(q: seq<Frozen>, files: seq<Table>, key: Bytes): GetResult {
    ResultOf(Lookup(Overlay(NewestFirst(q) + files), key))
  }

  lemma QueueThenFiles(queue: seq<Table>, files: seq<Table>, key: Bytes)
    ensures Lookup(Overlay(queue + files), key) ==
            if Lookup(Overlay(queue), key).Some? then Lookup(Overlay(queue), key) else Lookup(Overlay(files), key)
  {
    OverlayOfConcatenation(queue, files);
  }

  /** Snapshot takes what the engine means: if the memtable holds anything it is frozen first. */
  method Snapshot(e: DbEngine) returns (s: DbSnapshot)
    requires e.Valid()
    modifies e
    ensures e.Valid() && Meaning(e.View()) == old(Meaning(e.View()))
    ensures e.View() == Frozen'(old(e.View())) && fresh(e.memtable.Repr - old(e.memtable.Repr))
    ensures old(e.kept) <= e.kept && old(e.tables) <= e.tables
    ensures fresh(s)
    ensures s.Of(e)
    ensures !s.closed
    ensures s.meaning == Meaning(e.View())
    ensures s.queue == e.View().frozen && s.level0 == e.View().level0 && s.level1 == e.View().level1
  {
    hide WellLinked, RunOf, RunTable, SizeOfRun, Replay, SSTable.Valid, Disjoint, Hold, Apart, Meaning, QueueOf;
    Rotate(e);
    s := Copy(e);
  }

  /** A memtable that holds anything is frozen. */
  function Frozen'(m: Memory): Memory {
    if m.active == map[] then m else Freeze(m)
  }

  method Rotate(e: DbEngine)
    requires e.Valid()
    modifies e
    ensures e.Valid() && Meaning(e.View()) == old(Meaning(e.View())) && e.View().active == map[]
    ensures e.View() == Frozen'(old(e.View())) && fresh(e.memtable.Repr - old(e.memtable.Repr))
    ensures old(e.kept) <= e.kept && old(e.tables) <= e.tables
  {
    hide WellLinked, RunOf, RunTable, SizeOfRun, Replay, SSTable.Valid, Disjoint, Hold, Apart, Meaning, QueueOf;
    var size := e.memtable.Size();
    EmptyMemtable(e);
    if size > 0 {
      FreezeKeepsMeaning(e.View());
      e.FreezeActiveMemTable();
    }
  }

  method Copy(e: DbEngine) returns (s: DbSnapshot)
    requires e.Valid() && e.View().active == map[]
    ensures fresh(s)
    ensures s.Of(e)
    ensures !s.closed
    ensures s.meaning == Meaning(e.View())
    ensures s.queue == e.View().frozen && s.level0 == e.View().level0 && s.level1 == e.View().level1
  {
    hide WellLinked, RunOf, RunTable, SizeOfRun, Replay, SSTable.Valid, Disjoint, Hold, Apart, Meaning, QueueOf, Live, Overlay, NewestFirst;
    var imm := NewestToOldest(e.immMemtables);
    QueuePlaces(e);
    MeaningWithoutActive(e.View());
    s := new DbSnapshot(imm, e.level0, e.level1, e.Queue(), |e.kept| - |e.immMemtables|, Meaning(e.View()));
    assert s.imm == Reversed(e.kept[s.place..s.place + |s.queue|]) && TablesIn(s.queue) == e.tables[s.place..s.place + |s.queue|];
  }

  lemma EmptyMemtable(e: DbEngine)
    requires e.Valid()
    ensures e.View().active == map[] <==> e.memtable.currentSizeBytes == 0
  {
    hide WellLinked, Replay, Hold;
    var run := e.memtable.Run();
    ReplayNothing();
    e.memtable.RunIsSorted();
    SizeZeroIffEmpty(run);
    if run != [] {
      RunTableAt(run, 0);
    }
  }

  /** Later work of the engine only adds to the memtables ever frozen, so a snapshot stays as it was. */
  twostate lemma SnapshotSurvives(e: DbEngine, s: DbSnapshot)
    requires old(s.Of(e)) && old(e.kept) <= e.kept && old(e.tables) <= e.tables && |e.kept| == |e.tables|
    ensures s.Of(e)
  {
    hide AllValid, Disjoint, Live, Overlay;
    var kept, tables := old(e.kept), old(e.tables);
    assert e.kept[..|kept|] == kept && e.tables[..|tables|] == tables;
    assert kept[s.place..s.place + |s.queue|] == e.kept[s.place..s.place + |s.queue|];
    assert tables[s.place..s.place + |s.queue|] == e.tables[s.place..s.place + |s.queue|];
  }

  // --------------------------------------------------------------- when Get is right

  ghost predicate OldestHolder(q: seq<Frozen>, key: Bytes, i: nat) {
    i < |q| && key in q[i].table && forall j :: 0 <= j < i ==> key !in q[j].table
  }

  ghost predicate NewestHolder(q: seq<Frozen>, key: Bytes, i: nat) {
    i < |q| && key in q[i].table && forall j :: i < j < |q| ==> key !in q[j].table
  }

  lemma {:induction false} HoldersExist(q: seq<Frozen>, key: Bytes, n: nat) returns (i: nat, j: nat)
    requires n < |q| && key in q[n].table
    ensures OldestHolder(q, key, i) && NewestHolder(q, key, j)
  {
    i, j := n, n;
    while exists m :: 0 <= m < i && key in q[m].table
      invariant i < |q| && key in q[i].table
      decreases i
    {
      var m :| 0 <= m < i && key in q[m].table;
      i := m;
    }
    while exists m :: j < m < |q| && key in q[m].table
      invariant j < |q| && key in q[j].table
      decreases |q| - j
    {
      var m :| j < m < |q| && key in q[m].table;
      j := m;
    }
  }

  lemma HolderDecides(q: seq<Frozen>, files: seq<Table>, key: Bytes, i: nat, j: nat)
    requires OldestHolder(q, key, i) && NewestHolder(q, key, j)
    ensures OldestFirst(q, files, key) == ResultOf(Some(q[i].table[key]))
    ensures NewestWins(q, files, key) == ResultOf(Some(q[j].table[key]))
  {
    hide Overlay, NewestFirst;
    QueueThenFiles(TablesIn(q), files, key);
    QueueThenFiles(NewestFirst(q), files, key);
    OverlayAt(TablesIn(q), key);
    OverlayAt(NewestFirst(q), key);
    forall m | 0 <= m < |q|
      ensures NewestFirst(q)[|q| - 1 - m] == q[m].table
    {
      NewestFirstAt(q, m);
    }
    assert forall p :: 0 <= p < |q| ==> NewestFirst(q)[p] == q[|q| - 1 - p].table;
  }

  /** Get of a snapshot answers for its map exactly when the oldest and the newest frozen memtable that
      hold the key show the same of it. */
  lemma SnapshotGetIsRightIff(q: seq<Frozen>, files: seq<Table>, key: Bytes)
    ensures OldestFirst(q, files, key) == NewestWins(q, files, key) <==>
            forall i: nat, j: nat :: OldestHolder(q, key, i) && NewestHolder(q, key, j) ==>
              ResultOf(Some(q[i].table[key])) == ResultOf(Some(q[j].table[key]))
  {
    hide Overlay, NewestFirst, OldestFirst, NewestWins;
    if n :| 0 <= n < |q| && key in q[n].table {
      var i, j := HoldersExist(q, key, n);
      HolderDecides(q, files, key, i, j);
      forall i': nat, j': nat | OldestHolder(q, key, i') && NewestHolder(q, key, j')
        ensures i' == i && j' == j
      {
      }
    } else {
      NobodyHolds(q, files, key);
    }
  }

  lemma NobodyHolds(q: seq<Frozen>, files: seq<Table>, key: Bytes)
    requires forall n :: 0 <= n < |q| ==> key !in q[n].table
    ensures OldestFirst(q, files, key) == NewestWins(q, files, key)
  {
    hide Overlay, NewestFirst;
    QueueThenFiles(TablesIn(q), files, key);
    QueueThenFiles(NewestFirst(q), files, key);
    OverlayAt(TablesIn(q), key);
    OverlayAt(NewestFirst(q), key);
    forall p | 0 <= p < |q|
      ensures key !in NewestFirst(q)[p]
    {
      NewestFirstAt(q, |q| - 1 - p);
    }
  }

  /** So it does with at most one frozen memtable, or when no two of them share a key. */
  lemma SnapshotGetIsRight(q: seq<Frozen>, files: seq<Table>, key: Bytes)
    requires |q| <= 1 || forall i, j :: 0 <= i < j < |q| ==> q[i].table.Keys !! q[j].table.Keys
    ensures OldestFirst(q, files, key) == NewestWins(q, files, key)
  {
    hide OldestFirst, NewestWins;
    SnapshotGetIsRightIff(q, files, key);
    forall i: nat, j: nat | OldestHolder(q, key, i) && NewestHolder(q, key, j)
      ensures i == j
    {
      assert key in q[i].table.Keys && key in q[j].table.Keys;
    }
  }

  /** NewestWins is the lookup in the snapshot's map. */
  lemma NewestWinsIsMeaning(q: seq<Frozen>, files: seq<Table>, key: Bytes)
    ensures var c := Live(Overlay(NewestFirst(q) + files));
            NewestWins(q, files, key) == if key in c then Found(c[key]) else NotFound
  {
    hide Overlay, NewestFirst;
  }

  /** A value written to an empty memtable and frozen by a snapshot. */
  method WriteAndSnapshot(e: DbEngine, key: Bytes, v: byte) returns (s: DbSnapshot)
    requires e.Valid() && 0 < |key| < 100 && e.maxMemTableSize == 1000 && e.View().active == map[]
    modifies e, e.memtable.Repr
    ensures e.Valid() && e.View() == Freeze(old(e.View()).(active := T(key, v))) && fresh(e.memtable.Repr - old(e.memtable.Repr))
    ensures s.Of(e) && !s.closed && s.queue == e.View().frozen && s.level0 == e.View().level0 && s.level1 == e.View().level1
  {
    hide WellLinked, RunOf, RunTable, SizeOfRun, Replay, SSTable.Valid, Disjoint, Hold, Apart, Meaning, QueueOf, Write, DbSnapshot.Of, BatchError, RawSize;
    OneBatch(key, v);
    EmptyMemtable(e);
    var res := e.WriteBatch([OpPut(key, [v])]);
    assert key in T(key, v);
    s := Snapshot(e);
  }

  /** A value written, a snapshot taken, the value overwritten, another snapshot taken: while the engine
      answers the new value, Get of the younger snapshot answers the old one. */
  method SnapshotGetCanBeStale(key: Bytes) returns (now: GetResult, snapped: SnapshotResult<GetResult>)
    requires 0 < |key| < 100
    ensures now == Found([2]) && snapped == Answer(Found([1]))
  {
    hide WellLinked, RunOf, RunTable, SizeOfRun, Replay, SSTable.Valid, AllValid, Disjoint, Hold, Apart, Outside, Meaning, QueueOf, OldestFirst, DbSnapshot.Of, TablesIn;
    var e := new DbEngine(1000, 2, 12, 0, 6);
    var older := WriteAndSnapshot(e, key, 1);
    var younger := WriteAndSnapshot(e, key, 2);
    assert younger.queue == [Frozen(T(key, 1), 1), Frozen(T(key, 2), 2)];
    TwoFrozen(e.View(), key);
    now := e.Get(key);
    snapped := younger.Get(e, key);
  }

  function T(key: Bytes, v: byte): Table {
    map[key := Put([v])]
  }

  lemma OneBatch(key: Bytes, v: byte)
    requires key != []
    ensures var ops := [OpPut(key, [v])];
            && BatchError(ops) == Written && RawSize(ops) == |key| + 1
            && Replay(map[], RecordsOf(ops)) == T(key, v)
  {
    var ops := [OpPut(key, [v])];
    assert ops[1..] == [] && ops[..0] == [];
    assert RecordsOf(ops) == [Record(key, Put([v]))];
    assert RecordsOf(ops)[..0] == [];
    assert RawSize(ops) == RawSize(ops[..0]) + |key| + SizeOfEntry(Put([v]));
  }

  lemma TwoFrozen(m: Memory, key: Bytes)
    requires m.active == map[] && m.frozen == [Frozen(T(key, 1), 1), Frozen(T(key, 2), 2)] && m.level0 == [] && m.level1 == []
    ensures key in Meaning(m) && Meaning(m)[key] == [2]
    ensures OldestFirst(m.frozen, TablesOf([]) + TablesOf([]), key) == Found([1])
  {
    var q, files := m.frozen, TablesOf([]) + TablesOf([]);
    assert OldestHolder(q, key, 0) && NewestHolder(q, key, 1);
    HolderDecides(q, files, key, 0, 1);
    MeaningWithoutActive(m);
    assert NewestFirst(q) + TablesOf([]) + TablesOf([]) == NewestFirst(q) + files;
    NewestWinsIsMeaning(q, files, key);
  }
}
