/** Three runs of the engine that lose an acknowledged write: why the hypotheses on compaction ids and
    on repeated crashes are needed (internal/storage/workers.go:189, internal/storage/engine.go:416-430, 599-602). */
module LostWrites {
  import opened ByteStrings
  import opened Tables
  import opened Bloom
  import opened Levels
  import opened EngineModel
  import Compactor
  import opened Compaction
  import opened Recovery
  import opened CrashRecovery
  import opened RepeatedCrashes
  import opened LossyCrashes

  /** Reachable from an empty directory. */
  ghost predicate Reachable(s: State, c: Course) {
    Leads(c, Initial(s.limit), s)
  }

  // ------------------------------------------------------------- the runs

  const KEY: Bytes := [1]
  const OTHER: Bytes := [2]
  function Value(v: byte): Record {
    Record(KEY, Put([v]))
  }

  function OtherValue(v: byte): Record {
    Record(OTHER, Put([v]))
  }

  lemma OneEntrySize(key: Bytes, v: byte)
    ensures TableSize(map[key := Put([v])]) == |key| + 1
  {
    EmptyTableSize();
    TableSizeOfWrite(map[], key, Put([v]));
    assert map[][key := Put([v])] == map[key := Put([v])];
  }

  lemma TwoEntriesSize(v: byte, w: byte)
    ensures TableSize(map[KEY := Put([v]), OTHER := Put([w])]) == 4
  {
    OneEntrySize(KEY, v);
    TableSizeOfWrite(T(v), OTHER, Put([w]));
    assert T(v)[OTHER := Put([w])] == map[KEY := Put([v]), OTHER := Put([w])];
  }

  /** An entry of two bytes finds room in a memtable that leaves two. */
  lemma HasRoomForOne(s: State, r: Record)
    requires |r.key| == 1 && SizeOfEntry(r.entry) == 1 && TableSize(s.memory.active) + 2 <= s.limit <= 1024
    ensures HasRoom(s, r)
  {
    assert [r][..0] == [];
    assert SizeOfRun([r]) == SizeOfRun([r][..0]) + |r.key| + SizeOfEntry(r.entry);
  }

  lemma EmptyHasRoom(s: State, r: Record)
    requires |r.key| == 1 && SizeOfEntry(r.entry) == 1 && s.memory.active == map[] && 2 <= s.limit <= 1024
    ensures HasRoom(s, r)
  {
    EmptyTableSize();
    HasRoomForOne(s, r);
  }

  /** A file with one record. */
  function FileWith(id: int, v: byte): SSTable {
    SSTable(id, [Value(v)], [255], 1)
  }

  lemma ReplayOfWrites(v: byte, w: byte)
    ensures Replay(map[], [Value(v)]) == map[KEY := Put([v])]
    ensures Replay(map[KEY := Put([v])], [Value(w)]) == map[KEY := Put([w])]
  {
    assert [Value(v)][..0] == [] && [Value(w)][..0] == [];
  }

  lemma FileIsValid(id: int, v: byte)
    ensures FileWith(id, v).Valid() && FileWith(id, v).Contents() == map[KEY := Put([v])]
  {
    ReplayOfWrites(v, v);
    hide BitSet;
    forall p: nat | p < 8
      ensures BitSet([255], p)
    {
      AllBitsSet(p);
    }
    assert FileWith(id, v).Contents() == Replay(map[], [Value(v)]);
  }

  function T(v: byte): Table {
    map[KEY := Put([v])]
  }

  function Both(v: byte, w: byte): Table {
    map[KEY := Put([v]), OTHER := Put([w])]
  }

  lemma ReplayOfBoth(v: byte, w: byte)
    ensures Replay(map[], [Value(v), OtherValue(w)]) == Both(v, w)
    ensures Replay(map[], [OtherValue(w)]) == map[OTHER := Put([w])]
  {
    ReplayOfWrites(v, v);
    var ops := [Value(v), OtherValue(w)];
    assert ops[..1] == [Value(v)] && ops[1] == OtherValue(w) && [OtherValue(w)][..0] == [];
    assert Replay(map[], ops) == Replay(map[], ops[..1])[OTHER := Put([w])];
    assert T(v)[OTHER := Put([w])] == Both(v, w);
  }

  lemma LoggedFirst(wal: seq<Segment>, r: Record)
    requires wal != [] && wal[|wal| - 1].ops == []
    ensures LogTo(wal, r) == wal[..|wal| - 1] + [Segment(wal[|wal| - 1].id, [r])]
  {
    assert [] + [r] == [r];
  }

  /** Value 1 frozen in segment 1, the rotation recorded, nothing flushed yet. */
  function BeforeFirstCrash(): State {
    State(4, Memory(map[], 2, [Frozen(T(1), 1)], [], [], 3, 0), Disk(Manifest([], [], 3, 0), [Segment(1, [Value(1)]), Segment(2, [])]),
          Idle, Steady, None, [], [], [], 0, [[Value(1)]], [], [])
  }

  lemma ReachBeforeFirstCrash()
    ensures Reachable(BeforeFirstCrash(), AnyStep)
  {
    hide Leads, Replay, HasRoom;
    var s := Initial(4);
    LeadsNowhere(AnyStep, s);
    EmptyHasRoom(s, Value(1));
    LeadsWrote(AnyStep, s, s, Value(1));
    ReplayOfWrites(1, 1);
    LoggedFirst(s.disk.wal, Value(1));
    assert [] + [Value(1)] == [Value(1)];
    assert KEY in T(1);
    LeadsFrozen(AnyStep, s, Wrote(s, Value(1)));
    var f := FrozenState(Wrote(s, Value(1)));
    assert f.memory == BeforeFirstCrash().memory && f.disk.wal == BeforeFirstCrash().disk.wal;
    LeadsRotated(AnyStep, s, f);
    assert Rotated(f) == BeforeFirstCrash();
  }

  /** After recovery the memtable holds the records of both segments, but only segment 2 is named with it. */
  function AfterFirstCrash(): State {
    State(4, Memory(T(1), 2, [], [], [], 3, 0), Disk(Manifest([], [], 3, 0), [Segment(1, [Value(1)]), Segment(2, [])]),
          Idle, Steady, None, [], [], [], 0, [], [Value(1)], [])
  }

  lemma PendingOfTwo()
    ensures Pending([Segment(1, [Value(1)]), Segment(2, [])], 0) == [Value(1)]
  {
    var wal := [Segment(1, [Value(1)]), Segment(2, [])];
    assert wal[..1] == [Segment(1, [Value(1)])];
    PendingOfOne(wal[0], 0);
  }

  lemma ReachAfterFirstCrash()
    ensures Reachable(AfterFirstCrash(), AnyStep)
  {
    hide Leads, Replay, Pending, TableSize;
    ReachBeforeFirstCrash();
    PendingOfTwo();
    ReplayOfWrites(1, 1);
    OneEntrySize(KEY, 1);
    assert Resumed(BeforeFirstCrash()) == AfterFirstCrash();
    LeadsOn(AnyStep, Initial(4), BeforeFirstCrash(), AfterFirstCrash());
  }

  /** Value 2 written, frozen and flushed as file 2: the log file of segment 2 is gone, that of segment 1
      is not. The watermark covers it for now. */
  function AfterFlush(): State {
    State(4, Memory(map[], 3, [], [FileWith(2, 2)], [], 4, 2),
          Disk(Manifest([FileWith(2, 2)], [], 4, 2), [Segment(1, [Value(1)]), Segment(3, [])]),
          Idle, Steady, None, [], [], [Value(1), Value(2)], 2, [], [], [])
  }

  /** ... before that flush, once the rotation is recorded. */
  function BeforeFlush(): State {
    State(4, Memory(map[], 3, [Frozen(T(2), 2)], [], [], 4, 0),
          Disk(Manifest([], [], 4, 0), [Segment(1, [Value(1)]), Segment(2, [Value(2)]), Segment(3, [])]),
          Idle, Steady, None, [], [], [], 0, [[Value(1), Value(2)]], [], [])
  }

  lemma ReachBeforeFlush()
    ensures Reachable(BeforeFlush(), AnyStep)
  {
    hide Leads, Replay, HasRoom, TableSize;
    var a, r := AfterFirstCrash(), Value(2);
    ReachAfterFirstCrash();
    OneEntrySize(KEY, 1);
    HasRoomForOne(a, r);
    LeadsWrote(AnyStep, Initial(4), a, r);
    ReplayOfWrites(1, 2);
    LoggedFirst(a.disk.wal, r);
    assert KEY in T(2) && [Value(1)] + [Value(2)] == [Value(1), Value(2)];
    LeadsFrozen(AnyStep, Initial(4), Wrote(a, r));
    LeadsRotated(AnyStep, Initial(4), FrozenState(Wrote(a, r)));
    var f := Rotated(FrozenState(Wrote(a, r)));
    assert f.memory == BeforeFlush().memory && f.disk.wal == BeforeFlush().disk.wal;
    assert f == BeforeFlush();
  }

  lemma ReachAfterFlush()
    ensures Reachable(AfterFlush(), AnyStep)
  {
    hide Leads, RunTable, SSTable.Valid;
    var f := BeforeFlush();
    ReachBeforeFlush();
    FileIsValid(2, 2);
    LeadsFlushed(AnyStep, Initial(4), f, FileWith(2, 2));
    RemoveMiddle(f.disk.wal);
    assert [FileWith(2, 2)] + [] == [FileWith(2, 2)];
    assert Flushed(f, FileWith(2, 2)) == AfterFlush();
  }

  /** Another key written and frozen; the manifest of that rotation leaves the watermark out. */
  function BeforeSecondCrash(): State {
    State(4, Memory(map[], 4, [Frozen(map[OTHER := Put([9])], 3)], [FileWith(2, 2)], [], 5, 2),
          Disk(Manifest([FileWith(2, 2)], [], 5, 0), [Segment(1, [Value(1)]), Segment(3, [OtherValue(9)]), Segment(4, [])]),
          Idle, Steady, None, [], [], [Value(1), Value(2)], 2, [[OtherValue(9)]], [], [])
  }

  lemma ReachBeforeSecondCrash()
    ensures Reachable(BeforeSecondCrash(), AnyStep)
  {
    hide Leads, Replay, RunTable, SSTable.Valid, HasRoom, TableSize;
    var a, r := AfterFlush(), OtherValue(9);
    ReachAfterFlush();
    EmptyHasRoom(a, r);
    LeadsWrote(AnyStep, Initial(4), a, r);
    ReplayOfBoth(1, 9);
    LoggedFirst(a.disk.wal, r);
    assert [] + [r] == [r];
    assert OTHER in map[OTHER := Put([9])];
    LeadsFrozen(AnyStep, Initial(4), Wrote(a, r));
    LeadsRotated(AnyStep, Initial(4), FrozenState(Wrote(a, r)));
    var f := Rotated(FrozenState(Wrote(a, r)));
    assert f.memory == BeforeSecondCrash().memory && f.disk.wal == BeforeSecondCrash().disk.wal;
    assert f == BeforeSecondCrash();
  }

  lemma RemoveMiddle(wal: seq<Segment>)
    requires |wal| == 3 && wal[0].id == 1 && wal[1].id == 2 && wal[2].id == 3
    ensures RemoveSegment(wal, 2) == [wal[0], wal[2]]
  {
    var last := [wal[2]];
    assert wal[1..] == [wal[1]] + last && wal[1..][1..] == last && last[1..] == [];
    assert RemoveSegment(last, 2) == [wal[2]] + RemoveSegment([], 2);
    assert RemoveSegment(wal[1..], 2) == last;
  }

  lemma OneLayer(m: Memory, t: Table)
    requires Layers(m) == [m.active] + [t]
    ensures Overlay(Layers(m)) == t + m.active
  {
    OneOnTop(m.active, [t]);
    assert [t][1..] == [];
  }

  lemma PendingOfSecondCrash()
    ensures Pending(BeforeSecondCrash().disk.wal, 0) == [Value(1), OtherValue(9)]
  {
    var wal := BeforeSecondCrash().disk.wal;
    assert wal == [wal[0]] + ([wal[1]] + [wal[2]]);
    PendingOfConcatenation([wal[0]], [wal[1]] + [wal[2]], 0);
    PendingOfConcatenation([wal[1]], [wal[2]], 0);
    PendingOfOne(wal[0], 0);
    PendingOfOne(wal[1], 0);
    PendingOfOne(wal[2], 0);
  }

  /** After a crash that left a record behind in a log file, a second crash can bring an overwritten value back. */
  lemma SecondCrashLosesAWrite()
    ensures exists s, s' ::
              && Reachable(s, AnyStep) && Quiet(s) && CrashAndRecover(s, s')
              && Meaning(s.memory) == map[KEY := [2], OTHER := [9]] && Meaning(s'.memory) == map[KEY := [1], OTHER := [9]]
  {
    hide Leads, Replay, Pending, RunTable, TableSize, Meaning;
    var s := BeforeSecondCrash();
    ReachBeforeSecondCrash();
    PendingOfSecondCrash();
    ReplayOfBoth(1, 9);
    TwoEntriesSize(1, 9);
    assert CrashAndRecover(s, Resumed(s));
    MeaningBeforeSecondCrash();
    MeaningAfterSecondCrash(Resumed(s).memory);
  }

  lemma MeaningBeforeSecondCrash()
    ensures Meaning(BeforeSecondCrash().memory) == map[KEY := [2], OTHER := [9]]
  {
    hide RunTable;
    var m := BeforeSecondCrash().memory;
    FileIsValid(2, 2);
    var o: Table := map[OTHER := Put([9])];
    assert m.frozen[..0] == [] && NewestFirst(m.frozen) == [o];
    assert Layers(m) == [map[]] + ([o] + [T(2)]);
    OneOnTop(map[], [o] + [T(2)]);
    OneOnTop(o, [T(2)]);
    assert [T(2)][1..] == [];
  }

  lemma MeaningAfterSecondCrash(m: Memory)
    requires m.active == Both(1, 9) && m.frozen == [] && m.level0 == [FileWith(2, 2)] && m.level1 == []
    ensures Meaning(m) == map[KEY := [1], OTHER := [9]]
  {
    hide RunTable;
    FileIsValid(2, 2);
    assert Layers(m) == [m.active] + [T(2)];
    OneLayer(m, T(2));
  }

  // a compaction takes its id before a younger memtable is flushed under a smaller one

  /** Value 1 flushed as file 1. */
  function OneFlushed(limit: int): State {
    State(limit, Memory(map[], 2, [], [FileWith(1, 1)], [], 3, 1),
          Disk(Manifest([FileWith(1, 1)], [], 3, 1), [Segment(2, [])]),
          Idle, Steady, None, [], [], [Value(1)], 1, [], [], [])
  }

  lemma ReachOneFlushed(limit: int, c: Course)
    requires 2 <= limit <= 1024 && c != IdsAgreeing
    ensures Reachable(OneFlushed(limit), c)
  {
    hide Leads, Replay, RunTable, SSTable.Valid, HasRoom;
    var s := Initial(limit);
    LeadsNowhere(c, s);
    EmptyHasRoom(s, Value(1));
    LeadsWrote(c, s, s, Value(1));
    ReplayOfWrites(1, 1);
    LoggedFirst(s.disk.wal, Value(1));
    assert [] + [Value(1)] == [Value(1)];
    assert KEY in T(1);
    LeadsFrozen(c, s, Wrote(s, Value(1)));
    LeadsRotated(c, s, FrozenState(Wrote(s, Value(1))));
    var f := Rotated(FrozenState(Wrote(s, Value(1))));
    assert f.memory == Memory(map[], 2, [Frozen(T(1), 1)], [], [], 3, 0);
    assert f.disk.wal == [Segment(1, [Value(1)]), Segment(2, [])];
    FileIsValid(1, 1);
    LeadsFlushed(c, s, f, FileWith(1, 1));
    RemoveFirst(f.disk.wal);
    assert [FileWith(1, 1)] + [] == [FileWith(1, 1)];
    assert Flushed(f, FileWith(1, 1)) == OneFlushed(limit);
  }

  /** Then a compaction started, and value 2 written. */
  function DuringCompaction(): State {
    State(4, Memory(T(2), 2, [], [FileWith(1, 1)], [], 4, 1),
          Disk(Manifest([FileWith(1, 1)], [], 3, 1), [Segment(2, [Value(2)])]),
          Idle, Steady, Some(Job(3, [FileWith(1, 1)], [], None)), [], [], [Value(1)], 1, [], [Value(2)], [])
  }

  lemma ReachDuringCompaction()
    ensures Reachable(DuringCompaction(), NoCrash)
  {
    hide Leads, Replay, RunTable, SSTable.Valid, HasRoom;
    ReachOneFlushed(4, NoCrash);
    ReplayOfWrites(2, 2);
    var g := OneFlushed(4);
    var c := g.(job := Some(Job(3, [FileWith(1, 1)], [], None)), memory := g.memory.(nextSegmentID := 4));
    assert BeginCompaction(g, c);
    LeadsOn(NoCrash, Initial(4), g, c);
    EmptyHasRoom(c, Value(2));
    LeadsWrote(NoCrash, Initial(4), c, Value(2));
    LoggedFirst(c.disk.wal, Value(2));
    assert [] + [Value(2)] == [Value(2)];
    assert Wrote(c, Value(2)) == DuringCompaction();
  }

  lemma RemoveFirst(wal: seq<Segment>)
    requires |wal| == 2 && wal[0].id == 1 && wal[1].id == 2
    ensures RemoveSegment(wal, 1) == [wal[1]]
  {
    var last := [wal[1]];
    assert wal[1..] == last && last[1..] == [];
    assert RemoveSegment(last, 1) == [wal[1]] + RemoveSegment([], 1);
  }

  /** Merging files of one key keeps the value of the file with the largest id. */
  lemma MergesTo(inputs: seq<SSTable>, newest: nat, v: byte, id: int)
    requires newest < |inputs| && inputs[newest] == FileWith(inputs[newest].fileID, v)
    requires forall i :: 0 <= i < |inputs| ==> |inputs[i].run| == 1 && inputs[i].run[0].key == KEY
    requires forall i :: 0 <= i < |inputs| && i != newest ==> inputs[i].fileID < inputs[newest].fileID
    ensures MergedFrom(inputs, [FileWith(id, v)])
  {
    var out := [FileWith(id, v)];
    FileIsValid(id, v);
    assert RunsOf(out)[..0] == [] && RunsOf(out)[0] == [Value(v)];
    assert Compactor.Flatten(RunsOf(out)) == [Value(v)];
    assert RunTable([Value(v)]) == T(v);
    forall key
      ensures Compactor.Settled(InputsOf(inputs), true, [Value(v)], key)
    {
      hide RunTable;
      if key == KEY {
        assert inputs[newest].run[0].key == KEY;
        assert Compactor.HoldsNewest(InputsOf(inputs), KEY, newest, 0);
      }
    }
  }

  /** The outcome of the first compaction, then value 2 flushed under id 2: in the levels file 2 lies on file 3. */
  function BeforeSecondCompaction(): State {
    State(4, Memory(map[], 4, [], [FileWith(2, 2)], [FileWith(3, 1)], 5, 2),
          Disk(Manifest([FileWith(2, 2)], [FileWith(3, 1)], 5, 2), [Segment(4, [])]),
          Idle, Steady, None, [], [], [Value(1), Value(2)], 2, [], [], [])
  }

  lemma ReachCompacted(s: State, outputs: seq<SSTable>)
    requires Reachable(s, NoCrash) && s.job.Some? && !ManifestLocked(s) && OutputsOf(s.job.value, outputs)
    requires Without(s.memory.level0, s.job.value.Inputs()) == [] && |outputs| == 1 && s.limit == 4
    ensures Reachable(CompactionRecorded(s, outputs), NoCrash)
    ensures var r := CompactionRecorded(s, outputs);
            SwapLevels(r, r.(job := None, memory := CommitCompaction(r.memory, s.job.value.Inputs(), outputs)))
  {
    hide Leads, MergedFrom;
    assert [] + outputs == outputs;
    assert RecordCompaction(s, CompactionRecorded(s, outputs));
    LeadsOn(NoCrash, Initial(4), s, CompactionRecorded(s, outputs));
  }

  /** The first compaction wrote file 3; value 2 is still in memory. */
  function AfterCompaction(): State {
    State(4, Memory(T(2), 2, [], [], [FileWith(3, 1)], 4, 1),
          Disk(Manifest([], [FileWith(3, 1)], 4, 1), [Segment(2, [Value(2)])]),
          Idle, Steady, None, [], [], [Value(1)], 1, [], [Value(2)], [])
  }

  lemma ReachAfterCompaction()
    ensures Reachable(AfterCompaction(), NoCrash)
  {
    hide Leads, Replay, RunTable, SSTable.Valid, MergedFrom;
    var d := DuringCompaction();
    ReachDuringCompaction();
    var inputs := [FileWith(1, 1)] + [];
    assert inputs[0].run == [Value(1)];
    MergesTo(inputs, 0, 1, 3);
    assert Without([FileWith(1, 1)], inputs) == [] by { assert [FileWith(1, 1)][1..] == []; }
    ReachCompacted(d, [FileWith(3, 1)]);
    var r := CompactionRecorded(d, [FileWith(3, 1)]);
    LeadsOn(NoCrash, Initial(4), r, r.(job := None, memory := CommitCompaction(r.memory, inputs, [FileWith(3, 1)])));
    assert r.(job := None, memory := CommitCompaction(r.memory, inputs, [FileWith(3, 1)])) == AfterCompaction();
  }

  lemma ReachBeforeSecondCompaction()
    ensures Reachable(BeforeSecondCompaction(), NoCrash)
  {
    hide Leads, Replay, RunTable, SSTable.Valid, MergedFrom;
    var c := AfterCompaction();
    ReachAfterCompaction();
    assert KEY in T(2);
    LeadsFrozen(NoCrash, Initial(4), c);
    LeadsRotated(NoCrash, Initial(4), FrozenState(c));
    var f := Rotated(FrozenState(c));
    assert f.memory == Memory(map[], 4, [Frozen(T(2), 2)], [], [FileWith(3, 1)], 5, 1);
    assert f.disk.wal == [Segment(2, [Value(2)]), Segment(4, [])];
    FileIsValid(2, 2);
    LeadsFlushed(NoCrash, Initial(4), f, FileWith(2, 2));
    RemoveSecond(f.disk.wal);
    assert [FileWith(2, 2)] + [] == [FileWith(2, 2)] && [Value(1)] + [Value(2)] == [Value(1), Value(2)];
    assert Flushed(f, FileWith(2, 2)) == BeforeSecondCompaction();
  }

  lemma RemoveSecond(wal: seq<Segment>)
    requires |wal| == 2 && wal[0].id == 2 && wal[1].id == 4
    ensures RemoveSegment(wal, 2) == [wal[1]]
  {
    var last := [wal[1]];
    assert wal[1..] == last && last[1..] == [];
    assert RemoveSegment(last, 2) == [wal[1]] + RemoveSegment([], 2);
  }

  /** A run without crashes whose second compaction brings an overwritten value back: file 3, written by
      the first one, is older than file 2 but has the larger id. */
  lemma CompactionLosesAWrite()
    ensures exists s, s' ::
              && Reachable(s, NoCrash) && SwapLevels(s, s')
              && Meaning(s.memory) == map[KEY := [2]] && Meaning(s'.memory) == map[KEY := [1]]
  {
    hide Leads, Replay, RunTable, SSTable.Valid, MergedFrom, Meaning;
    var b := BeforeSecondCompaction();
    ReachBeforeSecondCompaction();
    var l0, l1 := [FileWith(2, 2)], [FileWith(3, 1)];
    var c := b.(job := Some(Job(5, l0, l1, None)), memory := b.memory.(nextSegmentID := 6));
    assert BeginCompaction(b, c);
    LeadsOn(NoCrash, Initial(4), b, c);
    var inputs := l0 + l1;
    assert inputs[0].run == [Value(2)] && inputs[1].run == [Value(1)];
    MergesTo(inputs, 1, 1, 5);
    assert Without(l0, inputs) == [] by { assert l0[1..] == []; }
    ReachCompacted(c, [FileWith(5, 1)]);
    var r := CompactionRecorded(c, [FileWith(5, 1)]);
    var e := r.(job := None, memory := CommitCompaction(r.memory, inputs, [FileWith(5, 1)]));
    OneFile(e.memory);
    TwoFiles(r.memory);
  }

  lemma OneFile(m: Memory)
    requires m.active == map[] && m.frozen == [] && m.level0 == [] && m.level1 == [FileWith(5, 1)]
    ensures Meaning(m) == map[KEY := [1]]
  {
    hide Replay, RunTable;
    FileIsValid(5, 1);
    assert Layers(m) == [map[]] + [T(1)];
    OneLayer(m, T(1));
  }

  lemma TwoFiles(m: Memory)
    requires m.active == map[] && m.frozen == [] && m.level0 == [FileWith(2, 2)] && m.level1 == [FileWith(3, 1)]
    ensures Meaning(m) == map[KEY := [2]]
  {
    hide Replay, RunTable;
    FileIsValid(2, 2);
    FileIsValid(3, 1);
    assert Layers(m) == [map[]] + ([T(2)] + [T(1)]);
    OneOnTop(map[], [T(2)] + [T(1)]);
    OneOnTop(T(2), [T(1)]);
    assert [T(1)][1..] == [];
  }

  // a freeze takes the id after one that a compaction has reserved and no manifest has seen

  /** With room for one entry only: value 2 frozen in segment 2 and the rotation recorded, a compaction started,
      another key frozen in segment 3, and log 5 created, but not yet in the manifest. */
  function BeforeStartupFlush(): State {
    State(3, Memory(map[], 5, [Frozen(T(2), 2), Frozen(map[OTHER := Put([3])], 3)], [FileWith(1, 1)], [], 6, 1),
          Disk(Manifest([FileWith(1, 1)], [], 4, 0), [Segment(2, [Value(2)]), Segment(3, [OtherValue(3)]), Segment(5, [])]),
          Idle, LogCreated, Some(Job(4, [FileWith(1, 1)], [], None)), [], [],
          [Value(1)], 1, [[Value(2)], [OtherValue(3)]], [], [])
  }

  lemma ReachBeforeStartupFlush()
    ensures Reachable(BeforeStartupFlush(), AnyStep)
  {
    hide Leads, Replay, HasRoom;
    var g := OneFlushed(3);
    ReachOneFlushed(3, AnyStep);
    EmptyHasRoom(g, Value(2));
    LeadsWrote(AnyStep, Initial(3), g, Value(2));
    ReplayOfWrites(2, 2);
    ReplayOfBoth(2, 3);
    LoggedFirst(g.disk.wal, Value(2));
    assert [] + [Value(2)] == [Value(2)] && [] + [OtherValue(3)] == [OtherValue(3)];
    assert KEY in T(2) && OTHER in map[OTHER := Put([3])];
    LeadsFrozen(AnyStep, Initial(3), Wrote(g, Value(2)));
    LeadsRotated(AnyStep, Initial(3), FrozenState(Wrote(g, Value(2))));
    var r := Rotated(FrozenState(Wrote(g, Value(2))));
    assert r.memory == Memory(map[], 3, [Frozen(T(2), 2)], [FileWith(1, 1)], [], 4, 1);
    assert r.disk.wal == [Segment(2, [Value(2)]), Segment(3, [])];
    var c := r.(job := Some(Job(4, [FileWith(1, 1)], [], None)), memory := r.memory.(nextSegmentID := 5));
    assert BeginCompaction(r, c);
    LeadsOn(AnyStep, Initial(3), r, c);
    EmptyHasRoom(c, OtherValue(3));
    LeadsWrote(AnyStep, Initial(3), c, OtherValue(3));
    LoggedFirst(c.disk.wal, OtherValue(3));
    LeadsFrozen(AnyStep, Initial(3), Wrote(c, OtherValue(3)));
    assert FrozenState(Wrote(c, OtherValue(3))) == BeforeStartupFlush();
  }

  lemma PendingOfStartup()
    ensures Pending(BeforeStartupFlush().disk.wal, 0) == [Value(2), OtherValue(3)]
  {
    var wal := BeforeStartupFlush().disk.wal;
    assert wal == [wal[0]] + ([wal[1]] + [wal[2]]);
    PendingOfConcatenation([wal[0]], [wal[1]] + [wal[2]], 0);
    PendingOfConcatenation([wal[1]], [wal[2]], 0);
    PendingOfOne(wal[0], 0);
    PendingOfOne(wal[1], 0);
    PendingOfOne(wal[2], 0);
  }

  lemma StartupLogAscends()
    ensures var s := BeforeStartupFlush();
            LogAscends(s.disk.wal) && HighestSegment(s.disk.wal) > s.disk.manifest.nextSegmentID
  {
  }

  /** The replayed memtable does not fit: its two entries go to file 4. Logging goes on in segment 5, which the
      watermark covers. */
  lemma ReachAfterStartupFlush() returns (file: SSTable)
    ensures file.Contents() == Both(2, 3)
    ensures var p := FlushedAtStart(BeforeStartupFlush(), file);
            Reachable(p, AnyStep) && p.disk.wal == [Segment(5, [])]
  {
    hide Leads, Replay, Pending, RunTable, SSTable.Valid, RemoveUpTo, TableSize;
    var s := BeforeStartupFlush();
    ReachBeforeStartupFlush();
    PendingOfStartup();
    ReplayOfBoth(2, 3);
    TwoEntriesSize(2, 3);
    file := FileOf([Value(2), OtherValue(3)], 4);
    assert IsRecoveryFile(s, file);
    LeadsOn(AnyStep, Initial(3), s, FlushedAtStart(s, file));
    StartupLogAscends();
    hide LogAscends;
    FlushedLog(s, file);
  }

  /** A value written after a recovery that flushed the replayed memtable is gone after the next crash. */
  lemma StartupFlushLosesAWrite()
    ensures exists s, s' ::
              && Reachable(s, AnyStep) && Quiet(s) && CrashAndRecover(s, s')
              && Meaning(s.memory) == map[KEY := [4], OTHER := [3]] && Meaning(s'.memory) == map[KEY := [2], OTHER := [3]]
  {
    hide Leads, Replay, Pending, RunTable, SSTable.Valid, HasRoom;
    var file := ReachAfterStartupFlush();
    var p, r := FlushedAtStart(BeforeStartupFlush(), file), Value(4);
    EmptyHasRoom(p, r);
    LeadsWrote(AnyStep, Initial(3), p, r);
    StartupLogAscends();
    hide LogAscends, HighestSegment;
    NothingReplayed(BeforeStartupFlush(), file, [r]);
    MeaningOnDisk(BeforeStartupFlush(), file);
    MeaningOfStartupFlush(p.memory, file);
    hide RecoveredContents, Meaning, Write, CrashAndRecover;
    assert [Segment(5, [])][0 := Segment(5, [r])] == [Segment(5, [r])];
    SkippedIsGone(p, r);
    assert Reachable(Wrote(p, r), AnyStep);
  }

  lemma MeaningOfStartupFlush(m: Memory, file: SSTable)
    requires m.active == map[] && m.frozen == [] && m.level0 == [file] + [FileWith(1, 1)] && m.level1 == []
    requires file.Contents() == Both(2, 3)
    ensures Meaning(m) == map[KEY := [2], OTHER := [3]]
    ensures Write(map[KEY := [2], OTHER := [3]], [Value(4)]) == map[KEY := [4], OTHER := [3]]
  {
    hide Replay, RunTable;
    FileIsValid(1, 1);
    assert Layers(m) == [map[]] + ([Both(2, 3)] + [T(1)]);
    OneOnTop(map[], [Both(2, 3)] + [T(1)]);
    OneOnTop(Both(2, 3), [T(1)]);
    assert [T(1)][1..] == [];
    assert [Value(4)][..0] == [];
  }
}
