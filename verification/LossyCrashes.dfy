/** Exactly which crashes can be followed by the loss of a write (internal/storage/engine.go:408-475). */
module LossyCrashes {
  import opened ByteStrings
  import opened Tables
  import opened Bloom
  import opened Levels
  import opened EngineModel
  import opened Recovery
  import opened CrashRecovery
  import opened RepeatedCrashes

  /** The steps of a stretch of a run: any step or crash, any step, or any step whose compactions meet
      the hypothesis on ids. */
  datatype Course = AnyStep | NoCrash | IdsAgreeing

  ghost predicate Goes(c: Course, s: State, s': State) {
    match c
    case AnyStep => Next(s, s') || CrashAndRecover(s, s')
    case NoCrash => Next(s, s')
    case IdsAgreeing => SoundStep(s, s')
  }

  ghost predicate IsStretch(c: Course, run: seq<State>) {
    run != [] && forall i :: 0 <= i < |run| - 1 ==> Goes(c, run[i], run[i + 1])
  }

  ghost predicate Leads(c: Course, from: State, s: State) {
    exists run: seq<State> :: IsStretch(c, run) && run[0] == from && run[|run| - 1] == s
  }

  /** A run from here, without crashes and with its compactions meeting the hypothesis, may be followed by
      a crash after which readers see something else than before and the logged records. */
  ghost predicate CanLose(from: State) {
    exists s, s' :: Leads(IdsAgreeing, from, s) && Loses(s, s')
  }

  ghost predicate Loses(s: State, s': State) {
    CrashAndRecover(s, s') && Meaning(s'.memory) != Write(Meaning(s.memory), s.logged)
  }

  lemma LeadsNowhere(c: Course, s: State)
    ensures Leads(c, s, s)
  {
    assert IsStretch(c, [s]) && [s][|[s]| - 1] == s;
  }

  lemma LeadsOn(c: Course, from: State, s: State, s': State)
    requires Leads(c, from, s) && Goes(c, s, s')
    ensures Leads(c, from, s')
  {
    hide Goes;
    var run: seq<State> :| IsStretch(c, run) && run[0] == from && run[|run| - 1] == s;
    var longer := run + [s'];
    assert longer[|longer| - 1] == s';
    assert IsStretch(c, longer);
  }

  // ------------------------------------------------------------- stretches of a run

  predicate Quiet(s: State) {
    !InFlight(s) && s.rotation == Steady && s.disk.wal != []
  }

  ghost predicate HasRoom(s: State, r: Record) {
    r.key != [] && TableSize(s.memory.active) + BatchBytes([r], s.limit) <= s.limit
  }

  /** One record written, logged and acknowledged. */
  function Wrote(s: State, r: Record): State
    requires s.disk.wal != []
  {
    s.(memory := Write'(s.memory, [r]), current := s.current + [r], disk := s.disk.(wal := LogTo(s.disk.wal, r)))
  }

  lemma LeadsWrote(c: Course, from: State, s: State, r: Record)
    requires Leads(c, from, s) && Quiet(s) && HasRoom(s, r)
    ensures Leads(c, from, Wrote(s, r)) && Quiet(Wrote(s, r))
  {
    hide Leads, TableSize, BatchBytes;
    var s1 := s.(batch := [r]);
    assert BeginBatch(s, s1);
    LeadsOn(c, from, s, s1);
    var s2 := s1.(batch := [], logged := [r], disk := s.disk.(wal := LogTo(s.disk.wal, r)));
    assert [r][1..] == [] && [] + [r] == [r];
    assert LogRecord(s1, s2);
    LeadsOn(c, from, s1, s2);
    assert ApplyBatch(s2, Wrote(s, r));
    LeadsOn(c, from, s2, Wrote(s, r));
  }

  function FrozenState(s: State): State {
    s.(memory := Freeze(s.memory), rotation := LogCreated, queue := s.queue + [s.current], current := [],
       disk := s.disk.(wal := s.disk.wal + [Segment(s.memory.nextSegmentID, [])]))
  }

  lemma LeadsFrozen(c: Course, from: State, s: State)
    requires Leads(c, from, s) && Quiet(s) && s.memory.active != map[]
    ensures Leads(c, from, FrozenState(s))
  {
    hide Leads;
    var s1 := s.(memory := Freeze(s.memory), rotation := FrozenOnly, queue := s.queue + [s.current], current := []);
    assert FreezeActive(s, s1);
    LeadsOn(c, from, s, s1);
    assert CreateLog(s1, FrozenState(s));
    LeadsOn(c, from, s1, FrozenState(s));
  }

  function Rotated(s: State): State {
    s.(rotation := Steady, durable := |s.inFiles|,
       disk := s.disk.(manifest := Manifest(s.memory.level0, s.memory.level1, s.memory.nextSegmentID, 0)))
  }

  lemma LeadsRotated(c: Course, from: State, s: State)
    requires Leads(c, from, s) && s.rotation == LogCreated && !ManifestLocked(s)
    ensures Leads(c, from, Rotated(s))
  {
    hide Leads;
    assert RecordRotation(s, Rotated(s));
    LeadsOn(c, from, s, Rotated(s));
  }

  /** The oldest frozen memtable flushed, recorded, and its log file removed. */
  function Flushed(s: State, file: SSTable): State
    requires s.memory.frozen != [] && s.queue != []
  {
    var m := RegisterFlushed(s.memory, file);
    var ops := s.inFiles + s.queue[0];
    s.(memory := m, inFiles := ops, durable := |ops|, queue := s.queue[1..], flushing := [],
       disk := Disk(Manifest(m.level0, m.level1, m.nextSegmentID, m.flushedSegmentID), RemoveSegment(s.disk.wal, m.flushedSegmentID)))
  }

  lemma LeadsFlushed(c: Course, from: State, s: State, file: SSTable)
    requires Leads(c, from, s) && s.phase == Idle && s.rotation == Steady && !ManifestLocked(s) && s.memory.frozen != [] && s.queue != []
    requires file.Valid() && file.Contents() == s.memory.frozen[0].table && file.fileID == s.memory.frozen[0].segment && NewName(s, file)
    ensures Leads(c, from, Flushed(s, file))
  {
    hide Leads, SSTable.Valid, RunTable, RemoveSegment;
    var s1 := FlushRegistered(s, file);
    assert RegisterFlush(s, s1);
    LeadsOn(c, from, s, s1);
    var s2 := s1.(phase := Recorded, durable := |s1.inFiles|,
                  disk := s1.disk.(manifest := Manifest(s1.memory.level0, s1.memory.level1, s1.memory.nextSegmentID, s1.memory.flushedSegmentID)));
    assert RecordFlush(s1, s2);
    LeadsOn(c, from, s1, s2);
    assert s2.(phase := Idle, flushing := [], disk := s2.disk.(wal := RemoveSegment(s2.disk.wal, s2.memory.flushedSegmentID))) == Flushed(s, file);
    assert RemoveLog(s2, Flushed(s, file));
    LeadsOn(c, from, s2, Flushed(s, file));
  }

  // ------------------------------------------------------- safe crashes lose nothing

  lemma {:induction false} SoundStretch(run: seq<State>)
    requires IsStretch(IdsAgreeing, run) && Sound(run[0])
    ensures Sound(run[|run| - 1])
    decreases |run|
  {
    hide Sound, SoundStep, SafeCrash;
    if |run| > 1 {
      var m := |run| - 1;
      assert Goes(IdsAgreeing, run[m - 1], run[m]);
      SoundStretch(run[..m]);
      StepMeans(run[m - 1], run[m]);
    }
  }

  lemma SoundLosesNothing(from: State)
    requires Sound(from)
    ensures !CanLose(from)
  {
    hide Sound, Meaning, Write, CrashAndRecover, Goes;
    forall s, s' | Leads(IdsAgreeing, from, s) && CrashAndRecover(s, s')
      ensures Meaning(s'.memory) == Write(Meaning(s.memory), s.logged)
    {
      var run: seq<State> :| IsStretch(IdsAgreeing, run) && run[0] == from && run[|run| - 1] == s;
      SoundStretch(run);
      CrashMeans(s, s');
    }
  }

  // ------------------------------------------------------------- what recovery replays

  /** A record put at its place in a sorted run. */
  lemma Placed(run: seq<Record>, r: Record) returns (run': seq<Record>)
    requires Sorted(run) && Keyed(run) && r.key != []
    ensures Sorted(run') && Keyed(run') && run' != []
    ensures RunTable(run') == RunTable(run)[r.key := r.entry]
  {
    hide RunTable, Less;
    var p := FromKeySelects(run, r.key);
    LessIsStrictTotalOrder();
    if p < |run| && run[p].key == r.key {
      run' := run[p := r];
      TableOfUpdate(run, p, r);
    } else {
      run' := run[..p] + [r] + run[p..];
      TableOfInsertion(run, p, r);
      forall i, j | 0 <= i < j < |run'|
        ensures Less(run'[i].key, run'[j].key)
      {
        assert j > p ==> run'[j] == run[j - 1];
        assert i > p ==> run'[i] == run[i - 1];
      }
    }
  }

  lemma {:induction false} SortedRunOf(ops: seq<Record>) returns (run: seq<Record>)
    requires Keyed(ops)
    ensures Sorted(run) && Keyed(run) && RunTable(run) == Replay(map[], ops) && (ops != [] ==> run != [])
  {
    if ops == [] {
      run := [];
    } else {
      var m := |ops| - 1;
      run := SortedRunOf(ops[..m]);
      run := Placed(run, ops[m]);
    }
  }

  lemma AllBitsSet(p: nat)
    requires p < 8
    ensures BitSet([255], p)
  {
    assert Mask(p) != 0;
  }

  /** Every memtable with records can be written to a file of level 0. */
  lemma FileOf(ops: seq<Record>, id: int) returns (file: SSTable)
    requires ops != [] && Keyed(ops)
    ensures file.Valid() && file.Contents() == Replay(map[], ops) && file.fileID == id
  {
    hide Sorted, RunTable, BitSet;
    var run := SortedRunOf(ops);
    forall p: nat | p < 8
      ensures BitSet([255], p)
    {
      AllBitsSet(p);
    }
    file := SSTable(id, run, [255], 1);
  }

  lemma {:induction false} PendingHas(wal: seq<Segment>, i: nat, r: Record)
    requires i < |wal| && LogAscends(wal) && r in wal[i].ops
    ensures r in Pending(wal, 0)
  {
    if i < |wal| - 1 {
      PendingHas(wal[..|wal| - 1], i, r);
    }
  }

  lemma {:induction false} PendingKeyed(wal: seq<Segment>, flushed: int)
    requires LogAscends(wal)
    ensures Keyed(Pending(wal, flushed))
  {
    if wal != [] {
      PendingKeyed(wal[..|wal| - 1], flushed);
    }
  }

  lemma {:induction false} PendingFits(wal: seq<Segment>, flushed: int, limit: int)
    requires forall i :: 0 <= i < |wal| ==> KeysFit(wal[i].ops, limit)
    ensures KeysFit(Pending(wal, flushed), limit)
  {
    if wal != [] {
      PendingFits(wal[..|wal| - 1], flushed, limit);
    }
  }

  /** From any disk whose records have keys, recovery leads somewhere. */
  lemma SomeRecovery(s: State) returns (s': State)
    requires s.durable <= |s.inFiles| && Keyed(Pending(s.disk.wal, s.disk.manifest.flushedSegmentID)) && s.limit >= 0
    requires AllBelow(s.disk.manifest.level0, s.disk.manifest.nextSegmentID) && AllBelow(s.disk.manifest.level1, s.disk.manifest.nextSegmentID)
    ensures CrashAndRecover(s, s')
  {
    hide Pending, TableSize, SSTable.Valid, RunTable, Keyed, HighestSegment, OpenLog, RemoveUpTo;
    var ops := Pending(s.disk.wal, s.disk.manifest.flushedSegmentID);
    s' := Resumed(s);
    if TableSize(ReplayedTable(s.disk)) > s.limit {
      if ops == [] {
        EmptyTableSize();
        ReplayOfNothing();
      }
      var file := FileOf(ops, s.disk.manifest.nextSegmentID);
      assert IsRecoveryFile(s, file);
      s' := FlushedAtStart(s, file);
    }
  }

  lemma WriteNothing(c: Contents)
    ensures Write(c, []) == c
  {
  }

  lemma ManifestIds(s: State)
    requires Sound(s)
    ensures 0 <= s.disk.manifest.flushedSegmentID < s.disk.manifest.nextSegmentID
  {
    hide FrozenMatch, FilesShow, LogMatches, JobMatches, LevelsSound, LogSound;
    var n: nat :| Behind(s, n);
  }

  /** A record that changes what a reader sees of its key. */
  function Contrary(key: Bytes, seen: bool): Record {
    Record(key, if seen then Tombstone else Put([]))
  }

  lemma ContraryIsSeen(c: Contents, key: Bytes, seen: bool)
    ensures key in Write(c, [Contrary(key, seen)]) <==> !seen
  {
    WriteAt(c, [Contrary(key, seen)], key);
    assert [Contrary(key, seen)][..0] == [];
  }

  /** A record without a value finds room in an empty memtable. */
  lemma BareHasRoom(s: State, r: Record)
    requires s.memory.active == map[] && r.key != [] && SizeOfEntry(r.entry) == 0 && |r.key| + Overhead(s.limit) <= s.limit
    ensures HasRoom(s, r)
  {
    EmptyTableSize();
    assert [r][..0] == [];
    assert SizeOfRun([r]) == SizeOfRun([r][..0]) + |r.key| + SizeOfEntry(r.entry);
  }

  // ---------------------------------------------------- a log file above which nothing is replayed

  /** Once the new log file lies at or below the watermark, nothing written to it is ever replayed. */
  lemma NothingReplayed(s: State, file: SSTable, ops: seq<Record>)
    requires LogAscends(s.disk.wal) && s.durable <= |s.inFiles|
    requires HighestSegment(s.disk.wal) > s.disk.manifest.nextSegmentID
    ensures var p := FlushedAtStart(s, file);
            && p.disk.wal == [Segment(p.memory.activeSegment, [])]
            && Pending([Segment(p.memory.activeSegment, ops)], p.disk.manifest.flushedSegmentID) == []
            && RecoveredContents(p.disk.(wal := [Segment(p.memory.activeSegment, ops)])) == RecoveredContents(p.disk)
  {
    hide RemoveUpTo, HighestSegment;
    var p := FlushedAtStart(s, file);
    FlushedLog(s, file);
    PendingOfOne(Segment(p.memory.activeSegment, ops), p.disk.manifest.flushedSegmentID);
    PendingOfOne(Segment(p.memory.activeSegment, []), p.disk.manifest.flushedSegmentID);
  }

  lemma MeaningOnDisk(s: State, file: SSTable)
    requires LogAscends(s.disk.wal) && s.durable <= |s.inFiles|
    ensures var p := FlushedAtStart(s, file);
            Meaning(p.memory) == RecoveredContents(p.disk)
  {
    hide RemoveUpTo, Overlay, Live;
    var p := FlushedAtStart(s, file);
    FlushedLog(s, file);
    PendingOfOne(Segment(p.memory.activeSegment, []), p.disk.manifest.flushedSegmentID);
    ResumedMeaning(p);
    ReplayOfNothing();
    assert Layers(Resumed(p).memory) == Layers(p.memory);
  }

  /** What is replayed is not empty, so a key of one byte fits. */
  lemma ByteFits(s: State, file: SSTable)
    requires LogFits(s) && LogAscends(s.disk.wal) && IsRecoveryFile(s, file)
    ensures 1 + Overhead(s.limit) <= s.limit
  {
    var ops := Pending(s.disk.wal, s.disk.manifest.flushedSegmentID);
    PendingFits(s.disk.wal, s.disk.manifest.flushedSegmentID, s.limit);
    PendingKeyed(s.disk.wal, s.disk.manifest.flushedSegmentID);
    hide Pending, LogFits, LogAscends;
    RunTableKeys(file.run, file.run[0].key);
    RunTableKeys(ops, file.run[0].key);
    var i :| 0 <= i < |ops| && ops[i].key == file.run[0].key;
  }

  lemma FlushAtStartLoses(s: State, file: SSTable)
    requires Sound(s) && IsRecoveryFile(s, file) && HighestSegment(s.disk.wal) > s.disk.manifest.nextSegmentID
    ensures CanLose(FlushedAtStart(s, file))
  {
    SoundMeans(s);
    ByteFits(s, file);
    hide Meaning, RecoveredContents, IsRecoveryFile, RemoveUpTo, Behind, HighestSegment, CanLose, LogAscends, LogFits, NamesBelow, Pending;
    var p, key: Bytes := FlushedAtStart(s, file), [1];
    var r := Contrary(key, key in Meaning(p.memory));
    NothingReplayed(s, file, [r]);
    MeaningOnDisk(s, file);
    BareHasRoom(p, r);
    SkippedIsLost(p, r);
  }

  /** What is written to such a log file is gone after the next crash. */
  lemma SkippedIsGone(p: State, r: Record)
    requires p.disk.wal == [Segment(p.memory.activeSegment, [])] && p.durable <= |p.inFiles| && p.limit >= 0
    requires Pending([Segment(p.memory.activeSegment, [r])], p.disk.manifest.flushedSegmentID) == []
    requires RecoveredContents(p.disk.(wal := [Segment(p.memory.activeSegment, [r])])) == Meaning(p.memory)
    ensures Meaning(Wrote(p, r).memory) == Write(Meaning(p.memory), [r])
    ensures CrashAndRecover(Wrote(p, r), Resumed(Wrote(p, r)))
    ensures Meaning(Resumed(Wrote(p, r)).memory) == Meaning(p.memory)
  {
    hide Meaning, RecoveredContents, Write, Pending, TableSize;
    assert [] + [r] == [r];
    WriteChangesMeaning(p.memory, [r]);
    ResumedMeaning(Wrote(p, r));
    assert Wrote(p, r).disk.wal == [Segment(p.memory.activeSegment, [r])];
    ReplayOfNothing();
    EmptyTableSize();
  }

  lemma SkippedIsLost(p: State, r: Record)
    requires !InFlight(p) && p.rotation == Steady && p.disk.wal == [Segment(p.memory.activeSegment, [])]
    requires p.durable <= |p.inFiles| && HasRoom(p, r) && r == Contrary(r.key, r.key in Meaning(p.memory))
    requires Pending([Segment(p.memory.activeSegment, [r])], p.disk.manifest.flushedSegmentID) == []
    requires RecoveredContents(p.disk.(wal := [Segment(p.memory.activeSegment, [r])])) == Meaning(p.memory)
    ensures CanLose(p)
  {
    hide Meaning, RecoveredContents, Leads, Replay, Write, Pending, TableSize, CrashAndRecover;
    LeadsNowhere(IdsAgreeing, p);
    LeadsWrote(IdsAgreeing, p, p, r);
    SkippedIsGone(p, r);
    ContraryIsSeen(Meaning(p.memory), r.key, r.key in Meaning(p.memory));
    WriteNothing(Meaning(Wrote(p, r).memory));
    assert Loses(Wrote(p, r), Resumed(Wrote(p, r)));
  }

  // ------------------------------------------------------------- a log file left behind

  /** The name of the file to which the memtable will be flushed is not in use. */
  ghost predicate NameFree(s: State) {
    forall f :: f in s.memory.level0 + s.memory.level1 ==> f.fileID != s.memory.activeSegment
  }

  /** Between two writes, with nothing frozen and no compaction running. */
  ghost predicate Ready(p: State) {
    && Quiet(p) && p.memory.frozen == [] && p.queue == [] && p.phase == Idle && p.job == None && p.limit >= 0
    && LogAscends(p.disk.wal) && p.disk.wal[|p.disk.wal| - 1].id == p.memory.activeSegment < p.memory.nextSegmentID
    && AllBelow(p.memory.level0, p.memory.nextSegmentID) && AllBelow(p.memory.level1, p.memory.nextSegmentID) && NameFree(p)
    && p.memory.active == Replay(map[], p.current) && Keyed(p.current)
  }

  /** The log files that are no longer written. */
  function Left(p: State): seq<Segment>
    requires p.disk.wal != []
  {
    p.disk.wal[..|p.disk.wal| - 1]
  }

  function Last(p: State): Segment
    requires p.disk.wal != []
  {
    p.disk.wal[|p.disk.wal| - 1]
  }

  /** The memtable frozen, the rotation recorded, and the flush that this wakes done. */
  function Drained(p: State, file: SSTable): State {
    Flushed(Rotated(FrozenState(p)), file)
  }

  lemma LeadsDrained(from: State, p: State, file: SSTable)
    requires Leads(IdsAgreeing, from, p) && Ready(p) && p.memory.active != map[]
    requires file.Valid() && file.Contents() == p.memory.active && file.fileID == p.memory.activeSegment
    ensures Leads(IdsAgreeing, from, Drained(p, file))
    ensures Meaning(Drained(p, file).memory) == Meaning(p.memory)
  {
    hide Leads, SSTable.Valid, RunTable, Replay, Meaning, RemoveSegment, LogAscends, AllBelow, Keyed;
    LeadsFrozen(IdsAgreeing, from, p);
    LeadsRotated(IdsAgreeing, from, FrozenState(p));
    var f := Rotated(FrozenState(p));
    LeadsFlushed(IdsAgreeing, from, f, file);
    FreezeKeepsMeaning(p.memory);
    FlushKeepsMeaning(f.memory, file);
  }

  /** Only the log file of the flushed memtable is gone. */
  lemma DrainedIsReady(p: State, file: SSTable)
    requires Ready(p) && file.fileID == p.memory.activeSegment
    ensures var q := Drained(p, file);
            && Ready(q) && q.memory.active == map[] && q.limit == p.limit
            && Left(q) == Left(p) && Last(q) == Segment(q.memory.activeSegment, [])
  {
    var q := Drained(p, file);
    DrainedLog(p.disk.wal, p.memory.nextSegmentID);
    var fresh' := Segment(p.memory.nextSegmentID, []);
    assert q.disk.wal == Left(p) + [fresh'];
    LeftAscends(p.disk.wal);
    CreateKeepsAscending(Left(p), p.memory.nextSegmentID);
    hide LogAscends;
    ReplayOfNothing();
  }

  lemma LeftAscends(wal: seq<Segment>)
    requires LogAscends(wal) && wal != []
    ensures LogAscends(wal[..|wal| - 1])
    ensures var left := wal[..|wal| - 1];
            forall i :: 0 <= i < |left| ==> left[i].id < wal[|wal| - 1].id
  {
  }

  lemma DrainedLog(wal: seq<Segment>, next: int)
    requires LogAscends(wal) && wal != [] && wal[|wal| - 1].id < next
    ensures RemoveSegment(wal + [Segment(next, [])], wal[|wal| - 1].id) == wal[..|wal| - 1] + [Segment(next, [])]
  {
    LeftAscends(wal);
    hide LogAscends, RemoveSegment;
    var left, last, new' := wal[..|wal| - 1], wal[|wal| - 1], Segment(next, []);
    assert wal + [new'] == left + ([last] + [new']);
    RemoveOne(left, last, [new']);
  }

  lemma RemoveOne(before: seq<Segment>, g: Segment, after: seq<Segment>)
    requires forall i :: 0 <= i < |before| ==> before[i].id < g.id
    requires forall i :: 0 <= i < |after| ==> g.id < after[i].id
    ensures RemoveSegment(before + ([g] + after), g.id) == before + after
  {
    RemoveFromConcatenation(before, [g] + after, g.id);
    RemoveSegmentElsewhere(before, g.id);
    RemoveSegmentElsewhere(after, g.id);
    assert ([g] + after)[1..] == after;
  }

  lemma WroteIsReady(p: State, r: Record)
    requires Ready(p) && p.memory.active == map[] && r.key != []
    ensures var q := Wrote(p, r);
            && Ready(q) && q.memory.active == map[r.key := r.entry] && q.limit == p.limit
            && Left(q) == Left(p) && Last(q) == Segment(Last(p).id, Last(p).ops + [r])
    ensures Meaning(Wrote(p, r).memory) == Write(Meaning(p.memory), [r])
  {
    hide Meaning, Write, AllBelow;
    WriteChangesMeaning(p.memory, [r]);
    LogToKeepsAscending(p.disk.wal, r);
    hide LogAscends;
    ReplayOfConcatenation(map[], p.current, [r]);
    assert [r][..0] == [];
    assert Replay(map[], [r]) == map[r.key := r.entry];
  }

  /** Writes that empty the memtable first, if need be. */
  lemma MakeEmpty(from: State, p: State) returns (q: State)
    requires Leads(IdsAgreeing, from, p) && Ready(p)
    ensures Leads(IdsAgreeing, from, q) && Ready(q) && q.memory.active == map[] && q.limit == p.limit
    ensures Left(q) == Left(p) && Meaning(q.memory) == Meaning(p.memory)
  {
    if p.memory.active == map[] {
      q := p;
    } else {
      if p.current == [] {
        ReplayOfNothing();
      }
      var file := FileOf(p.current, p.memory.activeSegment);
      hide Ready, Leads, SSTable.Valid, Meaning, Left, RunTable;
      LeadsDrained(from, p, file);
      DrainedIsReady(p, file);
      q := Drained(p, file);
    }
  }

  /** One record written to an empty memtable, and flushed. */
  lemma WriteAndDrain(from: State, p: State, r: Record) returns (q: State)
    requires Leads(IdsAgreeing, from, p) && Ready(p) && p.memory.active == map[] && HasRoom(p, r)
    ensures Leads(IdsAgreeing, from, q) && Ready(q) && q.memory.active == map[] && q.limit == p.limit
    ensures Left(q) == Left(p) && Last(q).ops == [] && Meaning(q.memory) == Write(Meaning(p.memory), [r])
  {
    LeadsWrote(IdsAgreeing, from, p, r);
    WroteIsReady(p, r);
    var w := Wrote(p, r);
    assert r.key in w.memory.active;
    if w.current == [] {
      ReplayOfNothing();
    }
    var file := FileOf(w.current, w.memory.activeSegment);
    hide Ready, Leads, SSTable.Valid, Meaning, Left, Last, RunTable, Write, HasRoom;
    LeadsDrained(from, w, file);
    DrainedIsReady(w, file);
    q := Drained(w, file);
  }

  /** One more record and a rotation: its manifest leaves the watermark out, so that the log files left behind
      are replayed again, although they are older than the files. */
  lemma WriteAndRotate(from: State, p: State, r: Record) returns (t: State)
    requires Leads(IdsAgreeing, from, p) && Ready(p) && p.memory.active == map[] && HasRoom(p, r) && Last(p).ops == []
    ensures Leads(IdsAgreeing, from, t) && t.durable <= |t.inFiles| && t.logged == [] && t.limit == p.limit
    ensures Meaning(t.memory) == Write(Meaning(p.memory), [r])
    ensures Pending(t.disk.wal, t.disk.manifest.flushedSegmentID) == Pending(Left(p), 0) + [r]
    ensures Keyed(Pending(t.disk.wal, t.disk.manifest.flushedSegmentID))
    ensures AllBelow(t.disk.manifest.level0, t.disk.manifest.nextSegmentID) && AllBelow(t.disk.manifest.level1, t.disk.manifest.nextSegmentID)
  {
    LeadsWrote(IdsAgreeing, from, p, r);
    WroteIsReady(p, r);
    var w := Wrote(p, r);
    assert r.key in w.memory.active;
    LeadsFrozen(IdsAgreeing, from, w);
    LeadsRotated(IdsAgreeing, from, FrozenState(w));
    FreezeKeepsMeaning(w.memory);
    t := Rotated(FrozenState(w));
    hide Leads, Meaning, Write, HasRoom;
    assert [] + [r] == [r];
    RotatedPending(p, r, w, t.disk.wal);
  }

  lemma RotatedPending(p: State, r: Record, w: State, wal: seq<Segment>)
    requires Ready(p) && Ready(w) && Left(w) == Left(p) && Last(w) == Segment(Last(p).id, [r])
    requires wal == w.disk.wal + [Segment(w.memory.nextSegmentID, [])] && r.key != []
    ensures Pending(wal, 0) == Pending(Left(p), 0) + [r]
    ensures Keyed(Pending(wal, 0))
  {
    var left, last, new' := Left(p), Last(w), Segment(w.memory.nextSegmentID, []);
    assert w.disk.wal == Left(w) + [last];
    assert wal == left + ([last] + [new']);
    LeftAscends(p.disk.wal);
    PendingKeyed(left, 0);
    assert last.id > 0;
    hide Ready;
    PendingOfLastTwo(left, last, new');
  }

  lemma PendingOfLastTwo(left: seq<Segment>, last: Segment, new': Segment)
    requires last.id > 0 && new'.ops == []
    ensures Pending(left + ([last] + [new']), 0) == Pending(left, 0) + last.ops
  {
    hide Pending;
    PendingOfConcatenation(left, [last] + [new'], 0);
    PendingOfConcatenation([last], [new'], 0);
    PendingOfOne(last, 0);
    PendingOfOne(new', 0);
  }

  /** A key of a record left behind. */
  lemma StaleKey(left: seq<Segment>, limit: int) returns (key: Bytes)
    requires LogAscends(left) && !NoRecords(left) && forall i :: 0 <= i < |left| ==> KeysFit(left[i].ops, limit)
    ensures key != [] && key in Replay(map[], Pending(left, 0)) && |key| + Overhead(limit) <= limit
  {
    var i :| 0 <= i < |left| && left[i].ops != [];
    key := left[i].ops[0].key;
    hide Pending, Replay;
    PendingHas(left, i, left[i].ops[0]);
    LastWriteMember(Pending(left, 0), key);
    ReplayAt(map[], Pending(left, 0), key);
  }

  lemma ResumedIsReady(s: State)
    requires Sound(s) && s.durable <= |s.inFiles| && NameFree(Resumed(s)) && s.limit >= 0
    ensures Ready(Resumed(s)) && Resumed(s).disk.wal != []
  {
    ManifestIds(s);
    ResumedLog(s);
    PendingKeyed(s.disk.wal, s.disk.manifest.flushedSegmentID);
    hide Behind, Pending, Replay, OpenLog, HighestSegment, NameFree, LogFits, LogAscends, AllBelow;
    AllBelowLater(s.disk.manifest.level0, s.disk.manifest.nextSegmentID, Resumed(s).memory.nextSegmentID);
    AllBelowLater(s.disk.manifest.level1, s.disk.manifest.nextSegmentID, Resumed(s).memory.nextSegmentID);
  }

  lemma AllBelowLater(files: seq<SSTable>, id: int, later: int)
    requires AllBelow(files, id) && id <= later
    ensures AllBelow(files, later)
  {
  }

  lemma ResumedLeft(s: State)
    requires LogFits(s) && LogAscends(s.disk.wal) && s.durable <= |s.inFiles|
    requires 0 <= s.disk.manifest.flushedSegmentID < s.disk.manifest.nextSegmentID
    ensures Resumed(s).disk.wal != [] && LogAscends(Left(Resumed(s)))
    ensures var left := Left(Resumed(s));
            forall i :: 0 <= i < |left| ==> KeysFit(left[i].ops, s.limit)
  {
    ResumedLog(s);
    hide Pending, Replay, OpenLog, HighestSegment, KeysFit;
    LeftAscends(Resumed(s).disk.wal);
  }

  lemma LeftKey(s: State) returns (key: Bytes)
    requires LogFits(s) && LogAscends(s.disk.wal) && s.durable <= |s.inFiles|
    requires 0 <= s.disk.manifest.flushedSegmentID < s.disk.manifest.nextSegmentID
    requires Resumed(s).disk.wal != [] && !NoRecords(Left(Resumed(s)))
    ensures key != [] && |key| + Overhead(s.limit) <= s.limit
    ensures key in Replay(map[], Pending(Left(Resumed(s)), 0))
  {
    hide LogFits, LogAscends, KeysFit, NoRecords, Resumed, Pending, Replay, Left;
    ResumedLeft(s);
    key := StaleKey(Left(Resumed(s)), s.limit);
  }

  lemma LeftIsRest(p: State)
    requires p.disk.wal != []
    ensures NothingLeft(p.disk.wal) <==> NoRecords(Left(p))
  {
  }

  lemma ResumeLoses(s: State)
    requires Sound(s) && s.durable <= |s.inFiles| && NameFree(Resumed(s))
    requires Resumed(s).disk.wal != [] && !NothingLeft(Resumed(s).disk.wal)
    ensures CanLose(Resumed(s))
  {
    assert Resumed(s).limit == s.limit;
    ManifestIds(s);
    hide NothingLeft, Resumed, CanLose, Ready, Pending, Replay, Left, LogFits, LogAscends, Behind, NamesBelow;
    assert !NoRecords(Left(Resumed(s))) by { LeftIsRest(Resumed(s)); }
    var key := LeftKey(s);
    ResumedIsReady(s);
    RevivesKey(Resumed(s), key);
  }

  /** A change to a key that the log files left behind hold is undone by a crash after its flush and the next
      rotation. */
  lemma RevivesKey(p: State, key: Bytes)
    requires Ready(p) && key != [] && |key| + Overhead(p.limit) <= p.limit && p.disk.wal != []
    requires key in Replay(map[], Pending(Left(p), 0))
    ensures CanLose(p)
  {
    hide Meaning, Write, Leads, Ready, Replay, Pending, Left, Last, HasRoom, CrashAndRecover, AllBelow, Keyed;
    var stale := Pending(Left(p), 0);
    var seen := Replay(map[], stale)[key].Put?;
    var r, other := Contrary(key, seen), Record(if key == [1] then [2] else [1], Put([]));
    LeadsNowhere(IdsAgreeing, p);
    var p0 := MakeEmpty(p, p);
    BareHasRoom(p0, r);
    var p1 := WriteAndDrain(p, p0, r);
    BareHasRoom(p1, other);
    var t := WriteAndRotate(p, p1, other);
    StaleIsSeen(t, stale, other, key);
    ContraryIsSeen(Meaning(p.memory), key, seen);
    UnseenByOther(Meaning(p1.memory), other, key);
    var t' := SomeRecovery(t);
    RecoveredMeaning(t, t');
    WriteNothing(Meaning(t.memory));
    assert Loses(t, t');
  }

  lemma UnseenByOther(c: Contents, r: Record, key: Bytes)
    requires r.key != key
    ensures key in Write(c, [r]) <==> key in c
  {
    WriteAt(c, [r], key);
    assert [r][..0] == [];
  }

  /** What is replayed decides what recovery shows. */
  lemma StaleIsSeen(s: State, ops: seq<Record>, r: Record, key: Bytes)
    requires Pending(s.disk.wal, s.disk.manifest.flushedSegmentID) == ops + [r] && r.key != key
    requires key in Replay(map[], ops)
    ensures key in RecoveredContents(s.disk) <==> Replay(map[], ops)[key].Put?
  {
    hide Pending, Overlay, Replay;
    ReplayOfConcatenation(map[], ops, [r]);
    ReplayAt(Replay(map[], ops), [r], key);
    assert LastWrite([r], key) == None by { assert [r][..0] == []; }
  }

  // ------------------------------------------------------------------ which crashes

  /** The replayed memtable kept: a write can be lost later exactly when a log file other than the one
      that is resumed still holds a record. */
  lemma ResumeLosesIff(s: State)
    requires Sound(s) && CrashAndRecover(s, Resumed(s)) && NameFree(Resumed(s))
    ensures CanLose(Resumed(s)) <==> exists i :: 0 <= i < |Resumed(s).disk.wal| - 1 && Resumed(s).disk.wal[i].ops != []
  {
    hide Behind, CanLose, CrashAndRecover, NamesBelow, LogFits;
    SoundMeans(s);
    ManifestIds(s);
    ResumedLog(s);
    if NothingLeft(Resumed(s).disk.wal) {
      ResumeKeepsSound(s);
      SoundLosesNothing(Resumed(s));
    } else {
      ResumeLoses(s);
    }
  }

  /** The replayed memtable flushed at once: exactly when the last log file has an id above the next one
      of the manifest. */
  lemma FlushAtStartLosesIff(s: State, file: SSTable)
    requires Sound(s) && IsRecoveryFile(s, file)
    ensures CanLose(FlushedAtStart(s, file)) <==> HighestSegment(s.disk.wal) > s.disk.manifest.nextSegmentID
  {
    SoundMeans(s);
    hide Sound, CanLose, IsRecoveryFile, HighestSegment;
    if HighestSegment(s.disk.wal) <= s.disk.manifest.nextSegmentID {
      FlushAtStartKeepsSound(s, file);
      SoundLosesNothing(FlushedAtStart(s, file));
    } else {
      FlushAtStartLoses(s, file);
    }
  }

  /** The crashes that runs may contain without losing a write are exactly the safe ones. */
  lemma CrashCanLoseIff(s: State, s': State)
    requires Sound(s) && CrashAndRecover(s, s') && NameFree(s')
    ensures CanLose(s') <==> !SafeCrash(s, s')
  {
    hide Sound, CanLose, NameFree, IsRecoveryFile, HighestSegment, NothingLeft, TableSize;
    if SafeCrash(s, s') {
      CrashKeepsSound(s, s');
      SoundLosesNothing(s');
    } else if TableSize(ReplayedTable(s.disk)) <= s.limit {
      ResumeLoses(s);
    } else {
      var file: SSTable :| IsRecoveryFile(s, file) && s' == FlushedAtStart(s, file);
      FlushAtStartLoses(s, file);
    }
  }
}
