/** Crashes at any step, and what recovery makes of them (internal/storage/engine.go:408-475). */
module CrashRecovery {
  import opened ByteStrings
  import opened Tables
  import opened Levels
  import opened EngineModel
  import opened Compaction
  import opened Recovery

  // -------------------------------------------------- what a crash leaves on disk

  lemma {:induction false} PendingOfConcatenation(a: seq<Segment>, b: seq<Segment>, flushed: int)
    ensures Pending(a + b, flushed) == Pending(a, flushed) + Pending(b, flushed)
  {
    if b == [] {
      assert a + b == a;
    } else {
      assert (a + b)[..|a + b| - 1] == a + b[..|b| - 1];
      PendingOfConcatenation(a, b[..|b| - 1], flushed);
    }
  }

  lemma {:induction false} PendingOfQueue(frozen: seq<Frozen>, queue: seq<seq<Record>>, flushed: int)
    requires |frozen| == |queue| && forall i :: 0 <= i < |frozen| ==> flushed < frozen[i].segment
    ensures Pending(QueueSegments(frozen, queue), flushed) == Concat(queue)
  {
    if queue != [] {
      var m := |queue| - 1;
      PendingOfQueue(frozen[..m], queue[..m], flushed);
      assert QueueSegments(frozen, queue)[..m] == QueueSegments(frozen[..m], queue[..m]);
    }
  }

  lemma PendingOfOne(g: Segment, flushed: int)
    ensures Pending([g], flushed) == if g.id > flushed then g.ops else []
  {
    assert Pending([g][..0], flushed) == [];
  }

  lemma PendingOfLog(s: State)
    requires LogMatches(s) && IdsAscend(s)
    ensures var flushed, m := s.disk.manifest.flushedSegmentID, s.memory;
            Pending(s.disk.wal, flushed) ==
            (if flushed < m.flushedSegmentID then s.flushing else []) + (Concat(s.queue) + (s.current + s.logged))
  {
    hide Pending, Concat;
    var flushed, m := s.disk.manifest.flushedSegmentID, s.memory;
    var a := if s.phase == Idle then [] else [Segment(m.flushedSegmentID, s.flushing)];
    var q := QueueSegments(m.frozen, s.queue);
    var c := if s.rotation == FrozenOnly then [] else [Segment(m.activeSegment, s.current + s.logged)];
    assert s.disk.wal == a + (q + c);
    PendingOfConcatenation(a, q + c, flushed);
    PendingOfConcatenation(q, c, flushed);
    PendingOfQueue(m.frozen, s.queue, flushed);
    PendingOfNone(flushed);
    PendingOfOne(Segment(m.activeSegment, s.current + s.logged), flushed);
    PendingOfOne(Segment(m.flushedSegmentID, s.flushing), flushed);
  }

  lemma PendingOfNone(flushed: int)
    ensures Pending([], flushed) == []
  {
  }

  lemma SuffixOfConcatenation<T>(a: seq<T>, b: seq<T>, c: seq<T>, d: seq<T>, from: nat)
    requires from <= |a|
    ensures (a + (b + c) + d)[from..] == a[from..] + (b + (c + d))
    ensures (a + (b + c) + d)[..from] == a[..from]
  {
  }

  /** Recovery replays a suffix of the history that begins inside what the manifest's files hold. */
  lemma PendingIsSuffix(s: State) returns (from: nat)
    requires LogMatches(s) && IdsAscend(s) && s.durable <= |s.inFiles|
    ensures from <= s.durable
    ensures Pending(s.disk.wal, s.disk.manifest.flushedSegmentID) == History(s)[from..]
    ensures History(s)[..s.durable] == s.inFiles[..s.durable]
    ensures s.durable <= |History(s)|
  {
    hide Pending, Concat, ExpectedLog;
    PendingOfLog(s);
    from := |s.inFiles| - if s.disk.manifest.flushedSegmentID < s.memory.flushedSegmentID then |s.flushing| else 0;
    SuffixOfConcatenation(s.inFiles, Concat(s.queue), s.current, s.logged, from);
    SuffixOfConcatenation(s.inFiles, Concat(s.queue), s.current, s.logged, s.durable);
  }

  /** What a reader sees after recovery: every acknowledged write, then the records of the batch in
      flight that reached the log, whatever step the crash interrupts. */
  lemma RecoveredIsHistory(s: State)
    requires Inv(s)
    ensures RecoveredContents(s.disk) == Write(map[], History(s))
  {
    hide FrozenMatch, JobMatches, LevelsSound, Overlay, Live, Write, Replay, Concat, ExpectedLog;
    var from := PendingIsSuffix(s);
    var d := s.disk;
    var base, pending := Overlay(TablesOf(d.manifest.level0) + TablesOf(d.manifest.level1)), Pending(d.wal, d.manifest.flushedSegmentID);
    ReplayOverBase(base, map[], pending);
    assert base + map[] == base;
    SuffixReplayIsHarmless(map[], History(s), from, s.durable);
  }

  // ------------------------------------------------------------------ recovery

  /** Opening the log writer creates its file when it is not there. */
  function OpenLog(wal: seq<Segment>, id: int): seq<Segment> {
    if wal != [] && wal[|wal| - 1].id == id then wal else wal + [Segment(id, [])]
  }

  function RemoveUpTo(wal: seq<Segment>, id: int): seq<Segment> {
    if wal == [] then []
    else if wal[0].id <= id then RemoveUpTo(wal[1..], id)
    else [wal[0]] + RemoveUpTo(wal[1..], id)
  }

  /** The memtable that recovery replays the log into. */
  function ReplayedTable(d: Disk): Table {
    Replay(map[], Pending(d.wal, d.manifest.flushedSegmentID))
  }

  /** The replayed memtable fits: it becomes the active one and logging resumes in the highest
      segment, or in a new one if that was flushed. */
  function Resumed(s: State): State
    requires s.durable <= |s.inFiles|
  {
    var d, m := s.disk, s.disk.manifest;
    var pending, high := Pending(d.wal, m.flushedSegmentID), HighestSegment(d.wal);
    var active := if high <= m.flushedSegmentID then m.nextSegmentID else high;
    var next := if active >= m.nextSegmentID then active + 1 else m.nextSegmentID;
    State(s.limit, Memory(Replay(map[], pending), active, [], m.level0, m.level1, next, m.flushedSegmentID),
          Disk(m.(nextSegmentID := next), OpenLog(d.wal, active)), Idle, Steady, None,
          [], [], s.inFiles[..s.durable], s.durable, [], pending, [])
  }

  /** The replayed memtable is over the size limit: it becomes a file of level 0. */
  function FlushedAtStart(s: State, file: SSTable): State
    requires s.durable <= |s.inFiles|
  {
    var d, m := s.disk, s.disk.manifest;
    var pending, high := Pending(d.wal, m.flushedSegmentID), HighestSegment(d.wal);
    var next := m.nextSegmentID + 2;
    var ops := s.inFiles[..s.durable] + pending;
    State(s.limit, Memory(map[], m.nextSegmentID + 1, [], [file] + m.level0, m.level1, next, high),
          Disk(Manifest([file] + m.level0, m.level1, next, high), OpenLog(RemoveUpTo(d.wal, high), m.nextSegmentID + 1)),
          Idle, Steady, None, [], [], ops, |ops|, [], [], [])
  }

  ghost predicate IsRecoveryFile(s: State, file: SSTable) {
    var d := s.disk;
    && file.Valid() && file.Contents() == ReplayedTable(d)
    && file.fileID == d.manifest.nextSegmentID && forall f :: f in d.manifest.level0 + d.manifest.level1 ==> f.fileID != file.fileID
  }

  /** A crash in any state, and recovery from the disk it leaves: the replayed memtable is kept if it fits. */
  ghost predicate CrashAndRecover(s: State, s': State) {
    && s.durable <= |s.inFiles|
    && if TableSize(ReplayedTable(s.disk)) <= s.limit then s' == Resumed(s)
       else exists file: SSTable :: IsRecoveryFile(s, file) && s' == FlushedAtStart(s, file)
  }

  /** The recovered engine means every acknowledged write and then the logged records. */
  lemma RecoveryIsExact(s: State, s': State)
    requires Inv(s) && CrashAndRecover(s, s')
    ensures Meaning(s'.memory) == Write(map[], History(s))
  {
    hide Inv, Meaning, History, RecoveredContents;
    RecoveredIsHistory(s);
    RecoveredMeaning(s, s');
  }

  lemma RecoveredMeaning(s: State, s': State)
    requires CrashAndRecover(s, s')
    ensures Meaning(s'.memory) == RecoveredContents(s.disk)
  {
    hide Meaning, RecoveredContents;
    if TableSize(ReplayedTable(s.disk)) <= s.limit {
      ResumedMeaning(s);
    } else {
      var file: SSTable :| IsRecoveryFile(s, file) && s' == FlushedAtStart(s, file);
      FlushedAtStartMeaning(s, file);
    }
  }

  lemma ResumedMeaning(s: State)
    requires s.durable <= |s.inFiles|
    ensures Meaning(Resumed(s).memory) == RecoveredContents(s.disk)
  {
    hide Overlay, Live, Replay, Pending, OpenLog, HighestSegment;
    var m := Resumed(s).memory;
    var levels := TablesOf(m.level0) + TablesOf(m.level1);
    assert NewestFirst([]) == [];
    assert Layers(m) == [m.active] + levels;
    OneOnTop(m.active, levels);
  }

  lemma FlushedAtStartMeaning(s: State, file: SSTable)
    requires s.durable <= |s.inFiles| && IsRecoveryFile(s, file)
    ensures Meaning(FlushedAtStart(s, file).memory) == RecoveredContents(s.disk)
  {
    hide Overlay, Live, Replay, Pending, OpenLog, HighestSegment, SSTable.Valid, RunTable;
    var l0, l1 := s.disk.manifest.level0, s.disk.manifest.level1;
    var m := FlushedAtStart(s, file).memory;
    var levels := TablesOf(l0) + TablesOf(l1);
    TablesOfConcatenation([file], l0);
    assert TablesOf([file]) == [file.Contents()];
    assert NewestFirst([]) == [];
    assert Layers(m) == [map[]] + ([file.Contents()] + levels);
    OneOnTop(file.Contents(), levels);
    OneOnTop(map[], [file.Contents()] + levels);
    assert Overlay([file.Contents()] + levels) + map[] == Overlay([file.Contents()] + levels);
  }

  lemma OneOnTop(t: Table, tables: seq<Table>)
    ensures Overlay([t] + tables) == Overlay(tables) + t
  {
    assert ([t] + tables)[1..] == tables;
  }

  lemma {:induction false} RemoveAll(wal: seq<Segment>, id: int)
    requires forall i :: 0 <= i < |wal| ==> wal[i].id <= id
    ensures RemoveUpTo(wal, id) == []
  {
    if wal != [] {
      RemoveAll(wal[1..], id);
    }
  }

  // --------------------------------------------------------------------- steps

  /** The operations a step adds to the contents: those of the batch it acknowledges, or those of the
      batch in flight that a crash finds in the log. */
  function Committed(s: State, s': State): seq<Record> {
    if s'.logged == [] then s.logged else []
  }

  lemma NextKeepsInv(s: State, s': State)
    requires Inv(s) && Next(s, s') && (RecordCompaction(s, s') ==> CompactionIdsAgree(s))
    ensures Inv(s')
    ensures Acknowledged(s') == Acknowledged(s) + Committed(s, s')
  {
    hide Inv, CompactionIdsAgree, Acknowledged;
    if BeginBatch(s, s') { BeginBatchKeepsInv(s, s'); }
    else if LogRecord(s, s') { LogRecordKeepsInv(s, s'); }
    else if ApplyBatch(s, s') { ApplyBatchKeepsInv(s, s'); }
    else if FreezeActive(s, s') { FreezeKeepsInv(s, s'); }
    else if CreateLog(s, s') { CreateLogKeepsInv(s, s'); }
    else if RecordRotation(s, s') { RecordRotationKeepsInv(s, s'); }
    else if RegisterFlush(s, s') { RegisterFlushKeepsInv(s, s'); }
    else if RecordFlush(s, s') { RecordFlushKeepsInv(s, s'); }
    else if RemoveLog(s, s') { RemoveLogKeepsInv(s, s'); }
    else if BeginCompaction(s, s') { BeginCompactionKeepsInv(s, s'); }
    else if RecordCompaction(s, s') { RecordCompactionKeepsInv(s, s'); }
    else { SwapLevelsKeepsInv(s, s'); }
  }
}
