/** Runs with any number of crashes: which crashes may be followed by more
    (internal/storage/engine.go:408-475). */
module RepeatedCrashes {
  import opened ByteStrings
  import opened Tables
  import opened Levels
  import opened EngineModel
  import opened Compaction
  import opened Recovery
  import opened CrashRecovery

  // ------------------------------------------------- log files that recovery left behind

  predicate NoRecords(wal: seq<Segment>) {
    forall i :: 0 <= i < |wal| ==> wal[i].ops == []
  }

  function WithLog(s: State, wal: seq<Segment>): State {
    s.(disk := s.disk.(wal := wal))
  }

  /** Without its first n log files, which hold no record, the state is as in a run without crashes. */
  ghost predicate Behind(s: State, n: nat) {
    n <= |s.disk.wal| && NoRecords(s.disk.wal[..n]) && Inv(WithLog(s, s.disk.wal[n..]))
  }

  /** Log files have ascending ids, none above that of the active memtable, and keyed records. */
  ghost predicate LogAscends(wal: seq<Segment>) {
    && (forall i :: 0 <= i < |wal| ==> 0 < wal[i].id && Keyed(wal[i].ops))
    && forall i, j :: 0 <= i < j < |wal| ==> wal[i].id < wal[j].id
  }

  ghost predicate LogSound(s: State) {
    && LogAscends(s.disk.wal) && Keyed(s.batch)
    && (forall i :: 0 <= i < |s.disk.wal| ==> s.disk.wal[i].id <= s.memory.activeSegment)
    && (s.rotation == FrozenOnly ==> forall i :: 0 <= i < |s.disk.wal| ==> s.disk.wal[i].id < s.memory.activeSegment)
  }

  /** Each key would fit an empty memtable. */
  predicate KeysFit(ops: seq<Record>, limit: int) {
    forall i :: 0 <= i < |ops| ==> |ops[i].key| + Overhead(limit) <= limit
  }

  ghost predicate LogFits(s: State) {
    KeysFit(s.batch, s.limit) && forall i :: 0 <= i < |s.disk.wal| ==> KeysFit(s.disk.wal[i].ops, s.limit)
  }

  /** No file has an id that is still to be given. */
  ghost predicate NamesBelow(s: State) {
    && AllBelow(s.memory.level0, s.memory.nextSegmentID) && AllBelow(s.memory.level1, s.memory.nextSegmentID)
    && AllBelow(s.disk.manifest.level0, s.disk.manifest.nextSegmentID) && AllBelow(s.disk.manifest.level1, s.disk.manifest.nextSegmentID)
    && (s.job.Some? && s.job.value.recorded.Some? ==> AllBelow(s.job.value.recorded.value, s.memory.nextSegmentID))
  }

  /** The states of a run whose crashes left no record behind. */
  ghost predicate Sound(s: State) {
    LogSound(s) && LogFits(s) && NamesBelow(s) && exists n: nat :: Behind(s, n)
  }

  lemma InitialIsSound(limit: int)
    ensures Sound(Initial(limit))
  {
    hide Inv, LogSound, LogFits, NamesBelow, Behind, Initial;
    InitialLog(limit);
    InitialBehind(limit);
  }

  lemma InitialLog(limit: int)
    ensures LogSound(Initial(limit)) && LogFits(Initial(limit)) && NamesBelow(Initial(limit))
  {
  }

  lemma InitialBehind(limit: int)
    ensures Behind(Initial(limit), 0)
  {
    hide Inv;
    InitialInv(limit);
    var s := Initial(limit);
    assert s.disk.wal[0..] == s.disk.wal && WithLog(s, s.disk.wal) == s;
  }

  /** Files without records change nothing about a recovery. */
  lemma {:induction false} PendingOfEmpty(wal: seq<Segment>, flushed: int)
    requires NoRecords(wal)
    ensures Pending(wal, flushed) == []
  {
    if wal != [] {
      PendingOfEmpty(wal[..|wal| - 1], flushed);
    }
  }

  lemma PendingBehind(s: State, n: nat, flushed: int)
    requires Behind(s, n)
    ensures Pending(s.disk.wal, flushed) == Pending(s.disk.wal[n..], flushed)
  {
    hide Inv;
    var wal := s.disk.wal;
    assert wal == wal[..n] + wal[n..];
    PendingOfConcatenation(wal[..n], wal[n..], flushed);
    PendingOfEmpty(wal[..n], flushed);
  }

  /** What such a state means, and what recovery would make of its disk. */
  lemma SoundMeans(s: State)
    requires Sound(s)
    ensures s.durable <= |s.inFiles| && LevelsSound(s.memory.level0, s.memory.level1)
    ensures Meaning(s.memory) == Write(map[], Acknowledged(s))
    ensures RecoveredContents(s.disk) == Write(Meaning(s.memory), s.logged)
  {
    hide LogSound, Meaning, Write, FilesShow, LevelsSound, FrozenMatch, JobMatches, Pending, Overlay, Live, Replay, TablesOf, Concat;
    var n: nat :| Behind(s, n);
    var t := WithLog(s, s.disk.wal[n..]);
    MeaningIsAcknowledged(t);
    RecoveredIsHistory(t);
    WriteOfConcatenation(map[], Acknowledged(s), s.logged);
    PendingBehind(s, n, s.disk.manifest.flushedSegmentID);
  }

  // ----------------------------------------------------------------------- steps

  lemma {:induction false} RemoveFromConcatenation(a: seq<Segment>, b: seq<Segment>, id: int)
    ensures RemoveSegment(a + b, id) == RemoveSegment(a, id) + RemoveSegment(b, id)
  {
    if a == [] {
      assert a + b == b;
    } else {
      assert (a + b)[1..] == a[1..] + b;
      RemoveFromConcatenation(a[1..], b, id);
    }
  }

  lemma {:induction false} RemoveFromEmpty(wal: seq<Segment>, id: int)
    requires NoRecords(wal)
    ensures NoRecords(RemoveSegment(wal, id))
  {
    if wal != [] {
      RemoveFromEmpty(wal[1..], id);
    }
  }

  /** The steps that leave the log directory alone. */
  ghost predicate KeepsLog(s: State, s': State) {
    s'.disk.wal == s.disk.wal && !LogRecord(s, s') && !CreateLog(s, s') && !RemoveLog(s, s')
  }

  lemma QuietStep(s: State, s': State, n: nat)
    requires Behind(s, n) && Next(s, s') && KeepsLog(s, s') && (RecordCompaction(s, s') ==> CompactionIdsAgree(s))
    ensures Behind(s', n) && Acknowledged(s') == Acknowledged(s) + Committed(s, s')
  {
    hide Inv, Concat, IdsAgree;
    var t, t' := WithLog(s, s.disk.wal[n..]), WithLog(s', s.disk.wal[n..]);
    if BeginBatch(s, s') { assert BeginBatch(t, t'); BeginBatchKeepsInv(t, t'); }
    else if ApplyBatch(s, s') { ApplyBatchKeepsInv(t, t'); }
    else if FreezeActive(s, s') { FreezeKeepsInv(t, t'); }
    else if RecordRotation(s, s') { RecordRotationKeepsInv(t, t'); }
    else if RegisterFlush(s, s') { assert RegisterFlush(t, t'); RegisterFlushKeepsInv(t, t'); }
    else if RecordFlush(s, s') { RecordFlushKeepsInv(t, t'); }
    else if BeginCompaction(s, s') { BeginCompactionKeepsInv(t, t'); }
    else if RecordCompaction(s, s') { assert RecordCompaction(t, t'); RecordCompactionKeepsInv(t, t'); }
    else { SwapLevelsKeepsInv(t, t'); }
  }

  /** Logging appends to the last file, a rotation adds one, and a flush removes one. */
  lemma LogStep(s: State, s': State, n: nat) returns (n': nat)
    requires Behind(s, n) && (LogRecord(s, s') || CreateLog(s, s') || RemoveLog(s, s'))
    ensures Behind(s', n') && Acknowledged(s') == Acknowledged(s) + Committed(s, s')
  {
    hide FrozenMatch, FilesShow, IdsAscend, JobMatches, LevelsSound, Concat;
    var wal := s.disk.wal;
    var t := WithLog(s, wal[n..]);
    n' := n;
    if LogRecord(s, s') {
      assert wal[n..] != [];
      assert s'.disk.wal[n..] == LogTo(wal[n..], s.batch[0]) && s'.disk.wal[..n] == wal[..n];
      var t' := WithLog(s', s'.disk.wal[n..]);
      hide Inv;
      LogRecordKeepsInv(t, t');
    } else if CreateLog(s, s') {
      assert s'.disk.wal[n..] == wal[n..] + [Segment(s.memory.activeSegment, [])] && s'.disk.wal[..n] == wal[..n];
      hide Inv;
      CreateLogKeepsInv(t, WithLog(s', s'.disk.wal[n..]));
    } else {
      var id := s.memory.flushedSegmentID;
      var left := RemoveSegment(wal[..n], id);
      n' := |left|;
      assert wal == wal[..n] + wal[n..];
      RemoveFromConcatenation(wal[..n], wal[n..], id);
      RemoveFromEmpty(wal[..n], id);
      assert s'.disk.wal[..n'] == left && s'.disk.wal[n'..] == RemoveSegment(wal[n..], id);
      hide Inv;
      RemoveLogKeepsInv(t, WithLog(s', s'.disk.wal[n'..]));
    }
  }

  lemma {:induction false} RemovedFrom(wal: seq<Segment>, id: int)
    ensures forall i :: 0 <= i < |RemoveSegment(wal, id)| ==> RemoveSegment(wal, id)[i] in wal
  {
    if wal != [] {
      RemovedFrom(wal[1..], id);
    }
  }

  lemma {:induction false} RemoveKeepsAscending(wal: seq<Segment>, id: int)
    requires LogAscends(wal)
    ensures LogAscends(RemoveSegment(wal, id))
  {
    hide Keyed;
    if wal != [] {
      RemoveKeepsAscending(wal[1..], id);
      RemovedFrom(wal[1..], id);
      var rest := RemoveSegment(wal[1..], id);
      forall i | 0 <= i < |rest|
        ensures wal[0].id < rest[i].id
      {
        var j :| 0 <= j < |wal[1..]| && wal[1..][j] == rest[i];
      }
    }
  }

  lemma LogToKeepsAscending(wal: seq<Segment>, r: Record)
    requires wal != [] && LogAscends(wal) && r.key != []
    ensures LogAscends(LogTo(wal, r))
  {
    assert Keyed(wal[|wal| - 1].ops + [r]);
    hide Keyed;
  }

  lemma CreateKeepsAscending(wal: seq<Segment>, id: int)
    requires LogAscends(wal) && 0 < id && forall i :: 0 <= i < |wal| ==> wal[i].id < id
    ensures LogAscends(wal + [Segment(id, [])])
  {
    assert Keyed([]);
  }

  /** The steps that write no log file. */
  lemma LogUntouched(s: State, s': State)
    requires Next(s, s') && !LogRecord(s, s') && !RemoveLog(s, s') && !CreateLog(s, s')
    ensures s'.disk.wal == s.disk.wal && s'.limit == s.limit
    ensures BeginBatch(s, s') || s'.batch == s.batch || s'.batch == []
    ensures s.memory.activeSegment < s.memory.nextSegmentID ==> s.memory.activeSegment <= s'.memory.activeSegment
    ensures s.memory.activeSegment < s.memory.nextSegmentID && s'.rotation == FrozenOnly ==>
              s.rotation == FrozenOnly || s.memory.activeSegment < s'.memory.activeSegment
  {
    hide MergedFrom, DistinctIds, OutputsReplace, SSTable.Valid, Replay, Without;
  }

  lemma NextKeepsLogSound(s: State, s': State)
    requires LogSound(s) && Next(s, s') && 0 < s.memory.activeSegment < s.memory.nextSegmentID
    ensures LogSound(s')
  {
    hide LogAscends, Next, ApplyBatch, FreezeActive, RecordRotation, RegisterFlush, RecordFlush;
    hide BeginCompaction, RecordCompaction, SwapLevels;
    if LogRecord(s, s') {
      LogToKeepsAscending(s.disk.wal, s.batch[0]);
    } else if RemoveLog(s, s') {
      RemoveKeepsAscending(s.disk.wal, s.memory.flushedSegmentID);
      RemovedFrom(s.disk.wal, s.memory.flushedSegmentID);
    } else if CreateLog(s, s') {
      CreateKeepsAscending(s.disk.wal, s.memory.activeSegment);
    } else {
      LogUntouched(s, s');
      assert Keyed(s'.batch);
    }
  }

  /** A record takes no more room than its batch. */
  lemma {:induction false} FitsInBatch(ops: seq<Record>, i: nat)
    requires i < |ops|
    ensures |ops[i].key| <= SizeOfRun(ops)
  {
    if i < |ops| - 1 {
      FitsInBatch(ops[..|ops| - 1], i);
    }
  }

  lemma BatchKeysFit(ops: seq<Record>, limit: int)
    requires BatchBytes(ops, limit) <= limit
    ensures KeysFit(ops, limit)
  {
    forall i | 0 <= i < |ops|
      ensures |ops[i].key| + Overhead(limit) <= limit
    {
      FitsInBatch(ops, i);
    }
  }

  lemma NextKeepsFits(s: State, s': State)
    requires LogFits(s) && Next(s, s')
    ensures LogFits(s')
  {
    hide KeysFit, SizeOfRun;
    hide Next, ApplyBatch, FreezeActive, RecordRotation, RegisterFlush, RecordFlush, BeginCompaction, RecordCompaction, SwapLevels;
    NothingFits(s.limit);
    if LogRecord(s, s') {
      RecordFits(s.disk.wal[|s.disk.wal| - 1].ops, s.batch, s.limit);
    } else if RemoveLog(s, s') {
      RemovedFrom(s.disk.wal, s.memory.flushedSegmentID);
    } else if CreateLog(s, s') {
    } else {
      LogUntouched(s, s');
      if BeginBatch(s, s') {
        BatchKeysFit(s'.batch, s.limit);
      }
    }
  }

  lemma NothingFits(limit: int)
    ensures KeysFit([], limit)
  {
  }

  lemma RecordFits(logged: seq<Record>, batch: seq<Record>, limit: int)
    requires batch != [] && KeysFit(logged, limit) && KeysFit(batch, limit)
    ensures KeysFit(logged + [batch[0]], limit)
    ensures KeysFit(batch[1..], limit)
  {
  }

  lemma NextKeepsNames(s: State, s': State)
    requires NamesBelow(s) && Next(s, s') && IdsAscend(s)
    ensures NamesBelow(s')
  {
    hide SSTable.Valid, OutputsReplace, MergedFrom, DistinctIds;
    if RegisterFlush(s, s') {
      assert s.memory.frozen[0].segment < s.memory.nextSegmentID;
    } else if RecordCompaction(s, s') {
      WithoutIsPart(s.memory.level0, s.job.value.Inputs(), s.memory.nextSegmentID);
    } else if SwapLevels(s, s') {
      WithoutIsPart(s.memory.level0, s.job.value.Inputs(), s.memory.nextSegmentID);
    }
  }

  lemma NextKeepsSound(s: State, s': State)
    requires Sound(s) && Next(s, s') && (RecordCompaction(s, s') ==> CompactionIdsAgree(s))
    ensures Sound(s') && Acknowledged(s') == Acknowledged(s) + Committed(s, s')
  {
    hide LogSound, Acknowledged, CompactionIdsAgree, FrozenMatch, FilesShow, LogMatches, JobMatches, LevelsSound;
    var n: nat :| Behind(s, n);
    NextKeepsLogSound(s, s');
    NextKeepsFits(s, s');
    NextKeepsNames(s, s');
    hide Behind, LogFits, NamesBelow;
    if KeepsLog(s, s') {
      QuietStep(s, s', n);
    } else {
      n := LogStep(s, s', n);
    }
    assert Behind(s', n);
  }

  // --------------------------------------------------------------------- crashes

  /** Only the active log file may hold records. */
  predicate NothingLeft(wal: seq<Segment>) {
    wal != [] && NoRecords(wal[..|wal| - 1])
  }

  /** Logging resumes in the last log file, or in a new one when all are flushed. */
  lemma ResumedLog(s: State)
    requires LogAscends(s.disk.wal) && s.durable <= |s.inFiles|
    requires 0 <= s.disk.manifest.flushedSegmentID < s.disk.manifest.nextSegmentID
    ensures var p, wal, flushed := Resumed(s), s.disk.wal, s.disk.manifest.flushedSegmentID;
            && flushed < p.memory.activeSegment < p.memory.nextSegmentID
            && (p.disk.wal == wal != [] || (p.disk.wal == wal + [Segment(p.memory.activeSegment, [])]
                                            && forall i :: 0 <= i < |wal| ==> wal[i].id <= flushed))
            && p.disk.wal[|p.disk.wal| - 1].id == p.memory.activeSegment
    ensures LogSound(Resumed(s))
  {
    assert Keyed([]);
    hide Pending, Keyed;
    var p, wal := Resumed(s), s.disk.wal;
    assert wal != [] ==> forall i :: 0 <= i < |wal| ==> wal[i].id <= wal[|wal| - 1].id;
    assert LogAscends(p.disk.wal);
  }

  lemma {:induction false} PendingOfOld(wal: seq<Segment>, flushed: int)
    requires forall i :: 0 <= i < |wal| ==> wal[i].id <= flushed
    ensures Pending(wal, flushed) == []
  {
    if wal != [] {
      PendingOfOld(wal[..|wal| - 1], flushed);
    }
  }

  /** The records replayed are those of the log file that is resumed. */
  lemma ResumedRecords(s: State)
    requires LogAscends(s.disk.wal) && s.durable <= |s.inFiles| && NothingLeft(Resumed(s).disk.wal)
    requires 0 <= s.disk.manifest.flushedSegmentID < s.disk.manifest.nextSegmentID
    ensures var p := Resumed(s);
            p.disk.wal[|p.disk.wal| - 1] == Segment(p.memory.activeSegment, p.current + p.logged)
  {
    ResumedLog(s);
    var p, wal, flushed := Resumed(s), s.disk.wal, s.disk.manifest.flushedSegmentID;
    hide LogSound, LogAscends;
    assert p.current + p.logged == Pending(wal, flushed);
    if p.disk.wal == wal {
      PendingOfEmpty(wal[..|wal| - 1], flushed);
    } else {
      PendingOfOld(wal, flushed);
    }
  }

  lemma ResumeKeepsSound(s: State)
    requires Sound(s) && NothingLeft(Resumed(s).disk.wal)
    ensures Sound(Resumed(s))
  {
    hide Pending, LogAscends, JobMatches, FrozenMatch, LogMatches, FilesShow, LevelsSound, Replay, OpenLog;
    var n: nat :| Behind(s, n);
    var p := Resumed(s);
    ResumedLog(s);
    ResumedRecords(s);
    var m := |p.disk.wal| - 1;
    var t := WithLog(p, p.disk.wal[m..]);
    assert t.inFiles[..|t.inFiles|] == s.inFiles[..s.durable];
    ResumedMatches(t);
    assert Behind(p, m);
  }

  lemma ResumedMatches(t: State)
    requires t.memory.frozen == [] && t.queue == [] && t.phase == Idle && t.rotation == Steady && t.job == None
    requires t.disk.wal == [Segment(t.memory.activeSegment, t.current + t.logged)] && t.flushing == []
    requires t.durable == |t.inFiles|
    ensures FrozenMatch(t.memory.frozen, t.queue)
    ensures LogMatches(t)
    ensures JobMatches(t.job, t.memory.level0, t.memory.level1)
  {
    assert QueueSegments([], []) == [];
    assert t.disk.wal == ExpectedLog(t);
  }

  /** After the flush no log file is left but a new one. */
  lemma FlushedLog(s: State, file: SSTable)
    requires LogAscends(s.disk.wal) && s.durable <= |s.inFiles|
    ensures FlushedAtStart(s, file).disk.wal == [Segment(s.disk.manifest.nextSegmentID + 1, [])]
    ensures 0 < HighestSegment(s.disk.wal)
  {
    var wal, high := s.disk.wal, HighestSegment(s.disk.wal);
    forall i | 0 <= i < |wal|
      ensures wal[i].id <= high
    {
      assert i < |wal| - 1 ==> wal[i].id < wal[|wal| - 1].id;
    }
    RemoveAll(wal, high);
  }

  lemma FlushAtStartKeepsSound(s: State, file: SSTable)
    requires Sound(s) && IsRecoveryFile(s, file) && HighestSegment(s.disk.wal) <= s.disk.manifest.nextSegmentID
    ensures Sound(FlushedAtStart(s, file))
  {
    hide Pending, LogAscends, JobMatches, FrozenMatch, LogMatches, FilesShow, LevelsSound, Replay, RemoveUpTo, SSTable.Valid, RunTable;
    var n: nat :| Behind(s, n);
    var p, m := FlushedAtStart(s, file), s.disk.manifest;
    FlushedLog(s, file);
    FlushedLogSound(s, file);
    assert p.inFiles[..|p.inFiles|] == p.inFiles;
    FlushedShows(m.level0, m.level1, s.inFiles[..s.durable], file, Pending(s.disk.wal, m.flushedSegmentID));
    PrependSound(m.level0, m.level1, file);
    assert p.current + p.logged == [];
    ResumedMatches(p);
    ReplayOfNothing();
    assert p.disk.wal[0..] == p.disk.wal && WithLog(p, p.disk.wal) == p;
    assert Behind(p, 0);
  }

  lemma FlushedLogSound(s: State, file: SSTable)
    requires LogAscends(s.disk.wal) && s.durable <= |s.inFiles|
    requires 0 <= s.disk.manifest.flushedSegmentID < s.disk.manifest.nextSegmentID
    ensures LogSound(FlushedAtStart(s, file))
  {
    FlushedLog(s, file);
    hide RemoveUpTo, HighestSegment, Pending;
    assert Keyed([]);
  }

  lemma ReplayOfNothing()
    ensures Replay(map[], []) == map[]
  {
  }

  // ------------------------------------------------------------------ whole runs

  /** A step of the engine, with the hypothesis on compactions. */
  ghost predicate SoundStep(s: State, s': State) {
    Next(s, s') && (RecordCompaction(s, s') ==> CompactionIdsAgree(s))
  }

  /** A crash whose recovery leaves no record behind in a log file that is no longer written, and
      whose new log file lies above the watermark. */
  ghost predicate SafeCrash(s: State, s': State) {
    && s.durable <= |s.inFiles|
    && if TableSize(ReplayedTable(s.disk)) <= s.limit then s' == Resumed(s) && NothingLeft(s'.disk.wal)
       else HighestSegment(s.disk.wal) <= s.disk.manifest.nextSegmentID
            && exists file: SSTable :: IsRecoveryFile(s, file) && s' == FlushedAtStart(s, file)
  }

  ghost predicate IsRun(run: seq<State>) {
    run != [] && run[0] == Initial(run[0].limit)
    && forall i :: 0 <= i < |run| - 1 ==> SoundStep(run[i], run[i + 1]) || SafeCrash(run[i], run[i + 1])
  }

  /** What a plain map that was written to in order would hold after the run. */
  ghost function Reference(run: seq<State>): Contents {
    if |run| <= 1 then map[]
    else Write(Reference(run[..|run| - 1]), Committed(run[|run| - 2], run[|run| - 1]))
  }

  lemma CrashKeepsSound(s: State, s': State)
    requires Sound(s) && SafeCrash(s, s')
    ensures Sound(s') && s'.logged == []
  {
    hide Sound, IsRecoveryFile, HighestSegment;
    if TableSize(ReplayedTable(s.disk)) <= s.limit {
      ResumeKeepsSound(s);
    } else {
      var file: SSTable :| IsRecoveryFile(s, file) && s' == FlushedAtStart(s, file);
      FlushAtStartKeepsSound(s, file);
    }
  }

  /** After any crash the engine means what it meant before, with the logged records written. */
  lemma CrashMeans(s: State, s': State)
    requires Sound(s) && CrashAndRecover(s, s')
    ensures Meaning(s'.memory) == Write(Meaning(s.memory), s.logged)
  {
    hide Sound, CrashAndRecover, Meaning, RecoveredContents;
    RecoveredMeaning(s, s');
    SoundMeans(s);
  }

  lemma StepMeans(s: State, s': State)
    requires Sound(s) && (SoundStep(s, s') || SafeCrash(s, s'))
    ensures Sound(s')
    ensures Meaning(s'.memory) == Write(Meaning(s.memory), Committed(s, s'))
  {
    hide Sound, Meaning, Write, Next, RecordCompaction, CompactionIdsAgree, Acknowledged;
    if SoundStep(s, s') {
      NextKeepsSound(s, s');
      SoundMeans(s);
      SoundMeans(s');
      WriteOfConcatenation(map[], Acknowledged(s), Committed(s, s'));
    } else {
      CrashKeepsSound(s, s');
      CrashMeans(s, s');
    }
  }

  /** Any number of freezes, flushes, compactions and safe crashes, at any point between any two
      writes: the engine means the plain map, the search through its levels is sound, and the disk
      would recover to that map and the logged records of the batch in flight. */
  lemma {:induction false} EveryRunMeansItsWrites(run: seq<State>)
    requires IsRun(run)
    ensures var last := run[|run| - 1];
            && Sound(last) && Meaning(last.memory) == Reference(run)
            && LevelsSound(last.memory.level0, last.memory.level1)
            && RecoveredContents(last.disk) == Write(Reference(run), last.logged)
            && forall s' :: CrashAndRecover(last, s') ==> Meaning(s'.memory) == Write(Reference(run), last.logged)
    decreases |run|
  {
    hide Sound, Meaning, Write, SoundStep, SafeCrash, CrashAndRecover, RecoveredContents, Acknowledged, LevelsSound;
    var last := run[|run| - 1];
    if |run| == 1 {
      InitialIsSound(last.limit);
      SoundMeans(last);
      NothingWrittenYet(last.limit);
    } else {
      EveryRunMeansItsWrites(run[..|run| - 1]);
      StepMeans(run[|run| - 2], last);
    }
    SoundMeans(last);
    forall s' | CrashAndRecover(last, s')
      ensures Meaning(s'.memory) == Write(Reference(run), last.logged)
    {
      CrashMeans(last, s');
    }
  }

  lemma NothingWrittenYet(limit: int)
    ensures Write(map[], Acknowledged(Initial(limit))) == map[]
  {
    assert Acknowledged(Initial(limit)) == [];
  }
}
