/** The engine as a step system over memory and disk (internal/storage/engine.go, workers.go). */
module Recovery {
  import opened ByteStrings
  import opened Tables
  import opened Levels
  import opened EngineModel
  import opened Compaction
  import Compactor

  /** What manifest.json holds. */
  datatype Manifest = Manifest(level0: seq<SSTable>, level1: seq<SSTable>, nextSegmentID: int, flushedSegmentID: int)

  /** A log file. */
  datatype Segment = Segment(id: int, ops: seq<Record>)

  /** What survives a crash. */
  datatype Disk = Disk(manifest: Manifest, wal: seq<Segment>)

  /** The flush worker: idle, the flushed file registered, or also recorded in the manifest. */
  datatype FlushPhase = Idle | Registered | Recorded

  /** A rotation: none, memtable frozen, or also the new log created. */
  datatype Rotation = Steady | FrozenOnly | LogCreated

  /** A running compaction: the id reserved for it, its inputs, and its outputs once the manifest has them. */
  datatype Job = Job(firstID: int, inputs0: seq<SSTable>, inputs1: seq<SSTable>, recorded: Option<seq<SSTable>>)
  {
    function Inputs(): seq<SSTable> {
      inputs0 + inputs1
    }
  }

  /** The limit is MaxMemTableSize. The last five fields are history: the operations in the files of memory's levels and how many
      of them the manifest's files hold, those of the frozen memtables and of the active one, and
      those of the segment being flushed. */
  datatype State = State(limit: int, memory: Memory, disk: Disk, phase: FlushPhase, rotation: Rotation, job: Option<Job>,
                         logged: seq<Record>, batch: seq<Record>,
                         inFiles: seq<Record>, durable: nat, queue: seq<seq<Record>>, current: seq<Record>,
                         flushing: seq<Record>)

  function Concat(queue: seq<seq<Record>>): seq<Record> {
    if queue == [] then [] else Concat(queue[..|queue| - 1]) + queue[|queue| - 1]
  }

  /** Every acknowledged write, in order. */
  function Acknowledged(s: State): seq<Record> {
    s.inFiles + (Concat(s.queue) + s.current)
  }

  /** ... and the records of the batch in flight that have reached the log. */
  function History(s: State): seq<Record> {
    Acknowledged(s) + s.logged
  }

  // --------------------------------------------------------------------- steps

  /** manifestMu is held from registering a flush to recording it, and while a compaction commits. */
  predicate ManifestLocked(s: State) {
    s.phase == Registered || (s.job.Some? && s.job.value.recorded.Some?)
  }

  predicate InFlight(s: State) {
    s.batch != [] || s.logged != []
  }

  /** A key is never empty: such a batch is refused before it is logged. */
  predicate Keyed(ops: seq<Record>) {
    forall i :: 0 <= i < |ops| ==> ops[i].key != []
  }

  /** The room that a batch must find: its keys and values, and for each record some overhead unless the limit
      is tiny. */
  function BatchBytes(ops: seq<Record>, limit: int): nat {
    SizeOfRun(ops) + |ops| * Overhead(limit)
  }

  function Overhead(limit: int): nat {
    if limit > 1024 then 64 else 0
  }

  ghost predicate BeginBatch(s: State, s': State) {
    exists ops: seq<Record> ::
      && !InFlight(s) && s.rotation == Steady && Keyed(ops)
      && TableSize(s.memory.active) + BatchBytes(ops, s.limit) <= s.limit && s' == s.(batch := ops)
  }

  /** One more record of the batch is on disk; a crash may come between any two. */
  ghost predicate LogRecord(s: State, s': State) {
    && s.batch != [] && s.disk.wal != [] && s.rotation == Steady
    && s' == s.(batch := s.batch[1..], logged := s.logged + [s.batch[0]],
                disk := s.disk.(wal := LogTo(s.disk.wal, s.batch[0])))
  }

  /** The active segment is the last one. */
  function LogTo(wal: seq<Segment>, r: Record): seq<Segment>
    requires wal != []
  {
    var last := wal[|wal| - 1];
    wal[|wal| - 1 := last.(ops := last.ops + [r])]
  }

  /** The logged batch is applied to the memtable and acknowledged. */
  ghost predicate ApplyBatch(s: State, s': State) {
    && s.batch == [] && s.logged != []
    && s' == s.(memory := Write'(s.memory, s.logged), current := s.current + s.logged, logged := [])
  }

  /** Because the next batch would overflow the memtable, or for a snapshot of it. */
  ghost predicate FreezeActive(s: State, s': State) {
    && !InFlight(s) && s.rotation == Steady && s.memory.active != map[]
    && s' == s.(memory := Freeze(s.memory), rotation := FrozenOnly, queue := s.queue + [s.current], current := [])
  }

  ghost predicate CreateLog(s: State, s': State) {
    && s.rotation == FrozenOnly
    && s' == s.(rotation := LogCreated, disk := s.disk.(wal := s.disk.wal + [Segment(s.memory.activeSegment, [])]))
  }

  /** The manifest of a rotation leaves FlushedSegmentID out: it reads back as 0. */
  ghost predicate RecordRotation(s: State, s': State) {
    && s.rotation == LogCreated && !ManifestLocked(s)
    && s' == s.(rotation := Steady, durable := |s.inFiles|,
                disk := s.disk.(manifest := Manifest(s.memory.level0, s.memory.level1, s.memory.nextSegmentID, 0)))
  }

  /** The state after the flush of the oldest frozen memtable is registered. */
  function FlushRegistered(s: State, file: SSTable): State
    requires s.memory.frozen != [] && s.queue != []
  {
    s.(memory := RegisterFlushed(s.memory, file), phase := Registered,
       inFiles := s.inFiles + s.queue[0], flushing := s.queue[0], queue := s.queue[1..])
  }

  /** Each rotation wakes the flush worker for one memtable, once its manifest is written: it never gets to the
      memtable of a rotation that is still under way. */
  ghost predicate RegisterFlush(s: State, s': State) {
    exists file: SSTable ::
      && s.phase == Idle && !ManifestLocked(s) && s.memory.frozen != [] && s.queue != []
      && (s.rotation == Steady || |s.memory.frozen| > 1)
      && file.Valid() && file.Contents() == s.memory.frozen[0].table && file.fileID == s.memory.frozen[0].segment
      && NewName(s, file) && s' == FlushRegistered(s, file)
  }

  /** File names in use are not reused. */
  ghost predicate NewName(s: State, file: SSTable) {
    forall f :: f in s.memory.level0 + s.memory.level1 ==> f.fileID != file.fileID
  }

  ghost predicate RecordFlush(s: State, s': State) {
    && s.phase == Registered
    && s' == s.(phase := Recorded, durable := |s.inFiles|,
                disk := s.disk.(manifest := Manifest(s.memory.level0, s.memory.level1, s.memory.nextSegmentID, s.memory.flushedSegmentID)))
  }

  function RemoveSegment(wal: seq<Segment>, id: int): seq<Segment> {
    if wal == [] then []
    else if wal[0].id == id then RemoveSegment(wal[1..], id)
    else [wal[0]] + RemoveSegment(wal[1..], id)
  }

  ghost predicate RemoveLog(s: State, s': State) {
    && s.phase == Recorded
    && s' == s.(phase := Idle, flushing := [], disk := s.disk.(wal := RemoveSegment(s.disk.wal, s.memory.flushedSegmentID)))
  }

  ghost predicate BeginCompaction(s: State, s': State) {
    && s.job.None?
    && s' == s.(job := Some(Job(s.memory.nextSegmentID, s.memory.level0, s.memory.level1, None)),
                memory := s.memory.(nextSegmentID := s.memory.nextSegmentID + 1))
  }

  /** The outputs count upward from the one reserved id. */
  ghost predicate OutputsOf(j: Job, outputs: seq<SSTable>) {
    MergedFrom(j.Inputs(), outputs) && forall i :: 0 <= i < |outputs| ==> outputs[i].fileID == j.firstID + i
  }

  /** The state with the new levels in the manifest. */
  function CompactionRecorded(s: State, outputs: seq<SSTable>): State
    requires s.job.Some?
  {
    var j := s.job.value;
    var next := if j.firstID + |outputs| > s.memory.nextSegmentID then j.firstID + |outputs| else s.memory.nextSegmentID;
    s.(job := Some(j.(recorded := Some(outputs))), durable := |s.inFiles|, memory := s.memory.(nextSegmentID := next),
       disk := s.disk.(manifest := Manifest(Without(s.memory.level0, j.Inputs()), outputs, next, s.memory.flushedSegmentID)))
  }

  ghost predicate RecordCompaction(s: State, s': State) {
    exists outputs: seq<SSTable> ::
      && s.job.Some? && !ManifestLocked(s) && OutputsOf(s.job.value, outputs)
      && DistinctIds(Without(s.memory.level0, s.job.value.Inputs()) + outputs)
      && s' == CompactionRecorded(s, outputs)
  }

  ghost predicate SwapLevels(s: State, s': State) {
    && s.job.Some? && s.job.value.recorded.Some?
    && s' == s.(job := None,
                memory := CommitCompaction(s.memory, s.job.value.Inputs(), s.job.value.recorded.value))
  }

  /** What the two steps of a commit together do to the engine. */
  lemma CommitIsTwoSteps(s: State, outputs: seq<SSTable>, s': State)
    requires s.job.Some? && SwapLevels(CompactionRecorded(s, outputs), s')
    ensures s'.memory == Commit(s.memory, s.job.value.Inputs(), outputs, s.job.value.firstID + |outputs|)
    ensures s'.disk.manifest.level0 == s'.memory.level0 && s'.disk.manifest.level1 == s'.memory.level1
    ensures s'.disk.manifest.nextSegmentID == s'.memory.nextSegmentID
  {
    hide Without;
  }

  ghost predicate Next(s: State, s': State) {
    || BeginBatch(s, s') || LogRecord(s, s') || ApplyBatch(s, s')
    || FreezeActive(s, s') || CreateLog(s, s') || RecordRotation(s, s')
    || RegisterFlush(s, s') || RecordFlush(s, s') || RemoveLog(s, s')
    || BeginCompaction(s, s') || RecordCompaction(s, s') || SwapLevels(s, s')
  }

  // ------------------------------------------------------------------ recovery

  /** The operations of the segments above the watermark, in order of their ids. */
  function Pending(wal: seq<Segment>, flushed: int): seq<Record> {
    if wal == [] then []
    else Pending(wal[..|wal| - 1], flushed) + if wal[|wal| - 1].id > flushed then wal[|wal| - 1].ops else []
  }

  function HighestSegment(wal: seq<Segment>): int {
    if wal == [] then 1 else wal[|wal| - 1].id
  }

  /** What a reader sees after recovery from this disk. */
  ghost function RecoveredContents(d: Disk): Contents {
    Live(Overlay(TablesOf(d.manifest.level0) + TablesOf(d.manifest.level1)) + Replay(map[], Pending(d.wal, d.manifest.flushedSegmentID)))
  }

  // ----------------------------------------------------------------- invariant

  /** The frozen memtables with their operations, as log segments. */
  function QueueSegments(frozen: seq<Frozen>, queue: seq<seq<Record>>): seq<Segment>
    requires |frozen| == |queue|
  {
    seq(|frozen|, i requires 0 <= i < |frozen| => Segment(frozen[i].segment, queue[i]))
  }

  /** The log directory: the segment just flushed until it is removed, one per frozen memtable,
      and the active one. */
  function ExpectedLog(s: State): seq<Segment>
    requires |s.memory.frozen| == |s.queue|
  {
    (if s.phase == Idle then [] else [Segment(s.memory.flushedSegmentID, s.flushing)])
    + QueueSegments(s.memory.frozen, s.queue)
    + (if s.rotation == FrozenOnly then [] else [Segment(s.memory.activeSegment, s.current + s.logged)])
  }

  ghost predicate FrozenMatch(frozen: seq<Frozen>, queue: seq<seq<Record>>) {
    |frozen| == |queue| && forall i :: 0 <= i < |queue| ==> frozen[i].table == Replay(map[], queue[i])
  }

  /** The files of two levels show exactly what these operations leave. */
  ghost predicate FilesShow(level0: seq<SSTable>, level1: seq<SSTable>, ops: seq<Record>) {
    Live(Overlay(TablesOf(level0) + TablesOf(level1))) == Write(map[], ops)
  }

  ghost predicate LogMatches(s: State) {
    && |s.memory.frozen| == |s.queue|
    && s.disk.wal == ExpectedLog(s)
    && (s.rotation == FrozenOnly ==> s.current == [] && s.logged == [] && s.batch == [])
    && (s.phase == Idle ==> s.flushing == [])
    && |s.flushing| <= |s.inFiles| && s.inFiles[|s.inFiles| - |s.flushing|..] == s.flushing
    && s.durable == |s.inFiles| - (if s.phase == Registered then |s.flushing| else 0)
  }

  ghost predicate IdsAscend(s: State) {
    && (forall i, j :: 0 <= i < j < |s.memory.frozen| ==> s.memory.frozen[i].segment < s.memory.frozen[j].segment)
    && (forall i :: 0 <= i < |s.memory.frozen| ==> s.memory.flushedSegmentID < s.memory.frozen[i].segment < s.memory.activeSegment)
    && s.memory.flushedSegmentID < s.memory.activeSegment < s.memory.nextSegmentID
    && 0 <= s.disk.manifest.flushedSegmentID <= s.memory.flushedSegmentID
    && (s.phase == Registered ==> s.disk.manifest.flushedSegmentID < s.memory.flushedSegmentID)
    && s.disk.manifest.flushedSegmentID < s.disk.manifest.nextSegmentID
  }

  /** What the search through the levels relies on. */
  ghost predicate LevelsSound(level0: seq<SSTable>, level1: seq<SSTable>) {
    AllValid(level0) && AllValid(level1) && Disjoint(level1) && DistinctIds(level0 + level1)
  }

  /** A running compaction: its inputs are still the bottom of the levels, under what was flushed
      since; once recorded, its outputs show what they show. */
  ghost predicate JobMatches(job: Option<Job>, level0: seq<SSTable>, level1: seq<SSTable>) {
    job.Some? ==>
      var j := job.value;
      && level1 == j.inputs1 && |j.inputs0| <= |level0| && level0[|level0| - |j.inputs0|..] == j.inputs0
      && (j.recorded.Some? ==> OutputsReplace(j, level0, j.recorded.value))
  }

  ghost predicate OutputsReplace(j: Job, level0: seq<SSTable>, outputs: seq<SSTable>) {
    && LevelsSound(Without(level0, j.Inputs()), outputs)
    && Live(Overlay(TablesOf(outputs))) == Live(Overlay(TablesOf(j.inputs0) + TablesOf(j.inputs1)))
  }

  ghost predicate Inv(s: State) {
    && FrozenMatch(s.memory.frozen, s.queue) && s.memory.active == Replay(map[], s.current)
    && FilesShow(s.memory.level0, s.memory.level1, s.inFiles)
    && s.durable <= |s.inFiles| && FilesShow(s.disk.manifest.level0, s.disk.manifest.level1, s.inFiles[..s.durable])
    && LogMatches(s) && IdsAscend(s) && JobMatches(s.job, s.memory.level0, s.memory.level1)
    && LevelsSound(s.memory.level0, s.memory.level1) && LevelsSound(s.disk.manifest.level0, s.disk.manifest.level1)
  }

  /** The hypothesis on a compaction: on every key, the ids of its inputs agree with recency. */
  ghost predicate CompactionIdsAgree(s: State) {
    s.job.Some? ==> forall key :: IdsAgree(s.job.value.Inputs(), key)
  }

  /** An engine opened on an empty directory. */
  function Initial(limit: int): State {
    State(limit, Memory(map[], 1, [], [], [], 2, 0), Disk(Manifest([], [], 2, 0), [Segment(1, [])]), Idle, Steady, None,
          [], [], [], 0, [], [], [])
  }

  lemma InitialInv(limit: int)
    ensures Inv(Initial(limit))
  {
    var s := Initial(limit);
    assert TablesOf([]) == [];
    assert s.disk.wal == ExpectedLog(s);
  }

  // ---------------------------------------------------------- main consequences

  lemma {:induction false} QueueOverlay(frozen: seq<Frozen>, queue: seq<seq<Record>>)
    requires FrozenMatch(frozen, queue)
    ensures Overlay(NewestFirst(frozen)) == Replay(map[], Concat(queue))
  {
    if queue != [] {
      var m := |queue| - 1;
      QueueOverlay(frozen[..m], queue[..m]);
      assert NewestFirst(frozen)[1..] == NewestFirst(frozen[..m]);
      ReplayOfConcatenation(map[], Concat(queue[..m]), queue[m]);
      ReplayIsOverlay(Replay(map[], Concat(queue[..m])), queue[m]);
    }
  }

  lemma MemtablesOverlay(m: Memory, queue: seq<seq<Record>>, current: seq<Record>)
    requires FrozenMatch(m.frozen, queue) && m.active == Replay(map[], current)
    ensures Overlay([m.active] + NewestFirst(m.frozen)) == Replay(map[], Concat(queue) + current)
  {
    QueueOverlay(m.frozen, queue);
    var top := [m.active] + NewestFirst(m.frozen);
    assert top[1..] == NewestFirst(m.frozen);
    ReplayOfConcatenation(map[], Concat(queue), current);
    ReplayIsOverlay(Replay(map[], Concat(queue)), current);
  }

  /** In every state the engine means exactly the acknowledged writes, in order. */
  lemma MeaningIsAcknowledged(s: State)
    requires Inv(s)
    ensures Meaning(s.memory) == Write(map[], Acknowledged(s))
  {
    hide FrozenMatch, LogMatches, JobMatches, LevelsSound, IdsAscend, Overlay, Live, Write, Replay, NewestFirst, Concat;
    var m, ops := s.memory, Concat(s.queue) + s.current;
    MemtablesOverlay(m, s.queue, s.current);
    MeaningOverFiles(m);
    ReplayOverBase(Files(m), map[], ops);
    assert Files(m) + map[] == Files(m);
    WriteOfConcatenation(map[], s.inFiles, ops);
  }

  // --------------------------------------------------- every step keeps the invariant

  lemma BeginBatchKeepsInv(s: State, s': State)
    requires Inv(s) && BeginBatch(s, s')
    ensures Inv(s') && Acknowledged(s') == Acknowledged(s)
  {
    hide FrozenMatch, FilesShow, JobMatches, LevelsSound, Replay, Write, Without;
  }

  lemma LogRecordKeepsInv(s: State, s': State)
    requires Inv(s) && LogRecord(s, s')
    ensures Inv(s') && Acknowledged(s') == Acknowledged(s)
  {
    hide FrozenMatch, FilesShow, JobMatches, LevelsSound, Replay, Write, Without;
    assert s.current + (s.logged + [s.batch[0]]) == (s.current + s.logged) + [s.batch[0]];
    assert s'.disk.wal == ExpectedLog(s');
  }

  lemma ApplyBatchKeepsInv(s: State, s': State)
    requires Inv(s) && ApplyBatch(s, s')
    ensures Inv(s') && Acknowledged(s') == Acknowledged(s) + s.logged
  {
    hide FrozenMatch, FilesShow, JobMatches, LevelsSound, Replay, Write, Without;
    ReplayOfConcatenation(map[], s.current, s.logged);
    assert (s.current + s.logged) + [] == s.current + s.logged;
    assert Acknowledged(s') == Acknowledged(s) + s.logged;
    assert s'.disk.wal == ExpectedLog(s');
  }

  lemma FreezeKeepsInv(s: State, s': State)
    requires Inv(s) && FreezeActive(s, s')
    ensures Inv(s') && Acknowledged(s') == Acknowledged(s)
  {
    hide FrozenMatch, FilesShow, JobMatches, LevelsSound, Write, Without;
    FrozenMatchAppend(s.memory.frozen, s.queue, Frozen(s.memory.active, s.memory.activeSegment), s.current);
    FreezeLog(s, s');
    assert s'.queue[..|s.queue|] == s.queue;
    assert Concat(s'.queue) + [] == Concat(s.queue) + s.current;
  }

  lemma FrozenMatchAppend(frozen: seq<Frozen>, queue: seq<seq<Record>>, f: Frozen, ops: seq<Record>)
    requires FrozenMatch(frozen, queue) && f.table == Replay(map[], ops)
    ensures FrozenMatch(frozen + [f], queue + [ops])
  {
  }

  /** The active segment becomes the segment of the youngest frozen memtable. */
  lemma FreezeLog(s: State, s': State)
    requires |s.memory.frozen| == |s.queue| && FreezeActive(s, s')
    ensures |s'.memory.frozen| == |s'.queue|
    ensures ExpectedLog(s') == ExpectedLog(s)
  {
    assert s.current + s.logged == s.current;
    assert QueueSegments(s'.memory.frozen, s'.queue) ==
           QueueSegments(s.memory.frozen, s.queue) + [Segment(s.memory.activeSegment, s.current)];
  }

  lemma CreateLogKeepsInv(s: State, s': State)
    requires Inv(s) && CreateLog(s, s')
    ensures Inv(s') && Acknowledged(s') == Acknowledged(s)
  {
    hide FrozenMatch, FilesShow, JobMatches, LevelsSound, Replay, Write, Without;
    assert s.current + s.logged == [];
    assert s'.disk.wal == ExpectedLog(s');
  }

  lemma RecordRotationKeepsInv(s: State, s': State)
    requires Inv(s) && RecordRotation(s, s')
    ensures Inv(s') && Acknowledged(s') == Acknowledged(s)
  {
    hide FrozenMatch, FilesShow, JobMatches, LevelsSound, Replay, Write, Without;
    assert s.inFiles[..|s.inFiles|] == s.inFiles;
    assert s'.disk.wal == ExpectedLog(s');
  }

  lemma RecordFlushKeepsInv(s: State, s': State)
    requires Inv(s) && RecordFlush(s, s')
    ensures Inv(s') && Acknowledged(s') == Acknowledged(s)
  {
    hide FrozenMatch, FilesShow, JobMatches, LevelsSound, Replay, Write, Without;
    assert s.inFiles[..|s.inFiles|] == s.inFiles;
    assert s'.disk.wal == ExpectedLog(s');
  }

  lemma {:induction false} ConcatHead(queue: seq<seq<Record>>)
    requires queue != []
    ensures Concat(queue) == queue[0] + Concat(queue[1..])
  {
    if |queue| == 1 {
      assert queue[..0] == [] && queue[1..] == [];
    } else {
      ConcatHead(queue[..|queue| - 1]);
      assert queue[..|queue| - 1][1..] == queue[1..][..|queue[1..]| - 1];
    }
  }

  /** No other segment carries the id of the one just flushed. */
  lemma {:induction false} RemoveSegmentElsewhere(wal: seq<Segment>, id: int)
    requires forall i :: 0 <= i < |wal| ==> wal[i].id != id
    ensures RemoveSegment(wal, id) == wal
  {
    if wal != [] {
      RemoveSegmentElsewhere(wal[1..], id);
    }
  }

  lemma RemoveLogKeepsInv(s: State, s': State)
    requires Inv(s) && RemoveLog(s, s')
    ensures Inv(s') && Acknowledged(s') == Acknowledged(s)
  {
    hide FrozenMatch, FilesShow, JobMatches, LevelsSound, Replay, Write, Without;
    var rest := ExpectedLog(s');
    assert s.disk.wal == [Segment(s.memory.flushedSegmentID, s.flushing)] + rest;
    assert s.disk.wal[1..] == rest;
    RemoveSegmentElsewhere(rest, s.memory.flushedSegmentID);
  }

  lemma RegisterFlushKeepsInv(s: State, s': State)
    requires Inv(s) && RegisterFlush(s, s')
    ensures Inv(s') && Acknowledged(s') == Acknowledged(s)
  {
    hide FrozenMatch, FilesShow, JobMatches, LevelsSound, Replay, Write, Without, Disjoint, SSTable.Valid;
    var file: SSTable :|
      && file.Valid() && file.Contents() == s.memory.frozen[0].table && file.fileID == s.memory.frozen[0].segment
      && NewName(s, file) && s' == FlushRegistered(s, file);
    ConcatHead(s.queue);
    assert Acknowledged(s') == Acknowledged(s);
    FrozenMatchTail(s.memory.frozen, s.queue);
    FlushedShows(s.memory.level0, s.memory.level1, s.inFiles, file, s.queue[0]);
    RegisterFlushLog(s, file);
    PrependSound(s.memory.level0, s.memory.level1, file);
    PrependUnderJob(s.job, s.memory.level0, s.memory.level1, file);
    assert s'.inFiles[..s'.durable] == s.inFiles[..s.durable];
  }

  lemma FrozenMatchTail(frozen: seq<Frozen>, queue: seq<seq<Record>>)
    requires FrozenMatch(frozen, queue) && frozen != []
    ensures FrozenMatch(frozen[1..], queue[1..])
    ensures frozen[0].table == Replay(map[], queue[0])
  {
  }

  lemma FlushedShows(level0: seq<SSTable>, level1: seq<SSTable>, before: seq<Record>, file: SSTable, ops: seq<Record>)
    requires FilesShow(level0, level1, before) && file.Contents() == Replay(map[], ops)
    ensures FilesShow([file] + level0, level1, before + ops)
  {
    hide RunTable, Live, Replay, Write;
    var below := TablesOf(level0) + TablesOf(level1);
    TablesOfConcatenation([file], level0);
    assert TablesOf([file] + level0) + TablesOf(level1) == [file.Contents()] + below;
    assert ([file.Contents()] + below)[1..] == below;
    ReplayOverBase(Overlay(below), map[], ops);
    assert Overlay(below) + map[] == Overlay(below);
    WriteOfConcatenation(map[], before, ops);
  }

  lemma RegisterFlushLog(s: State, file: SSTable)
    requires LogMatches(s) && IdsAscend(s) && s.memory.frozen != [] && s.phase == Idle
    ensures LogMatches(FlushRegistered(s, file))
    ensures IdsAscend(FlushRegistered(s, file))
  {
    var s' := FlushRegistered(s, file);
    assert QueueSegments(s.memory.frozen, s.queue) ==
           [Segment(s.memory.frozen[0].segment, s.queue[0])] + QueueSegments(s'.memory.frozen, s'.queue);
    assert s'.disk.wal == ExpectedLog(s');
  }

  lemma PrependSound(level0: seq<SSTable>, level1: seq<SSTable>, file: SSTable)
    requires LevelsSound(level0, level1) && file.Valid()
    requires forall f :: f in level0 + level1 ==> f.fileID != file.fileID
    ensures LevelsSound([file] + level0, level1)
  {
    hide SSTable.Valid, Disjoint;
    var files := level0 + level1;
    assert ([file] + level0) + level1 == [file] + files;
    forall i | 0 <= i < |[file] + files|
      ensures i > 0 ==> ([file] + files)[i].fileID != file.fileID
    {
      if i > 0 {
        assert ([file] + files)[i] == files[i - 1] && files[i - 1] in files;
      }
    }
  }

  lemma PrependUnderJob(job: Option<Job>, level0: seq<SSTable>, level1: seq<SSTable>, file: SSTable)
    requires JobMatches(job, level0, level1) && (job.Some? ==> job.value.recorded.None?)
    ensures JobMatches(job, [file] + level0, level1)
  {
    if job.Some? {
      var n := |level0| - |job.value.inputs0|;
      assert ([file] + level0)[n + 1..] == level0[n..];
    }
  }

  lemma BeginCompactionKeepsInv(s: State, s': State)
    requires Inv(s) && BeginCompaction(s, s')
    ensures Inv(s') && Acknowledged(s') == Acknowledged(s)
  {
    assert s.memory.level0[0..] == s.memory.level0;
    assert JobMatches(s'.job, s'.memory.level0, s'.memory.level1);
    hide FrozenMatch, FilesShow, JobMatches, LevelsSound, Replay, Write, Without;
    assert s'.disk.wal == ExpectedLog(s');
  }

  /** The inputs of a running compaction, and what was flushed since. */
  lemma JobSplit(j: Job, level0: seq<SSTable>, level1: seq<SSTable>) returns (added: seq<SSTable>)
    requires JobMatches(Some(j), level0, level1) && LevelsSound(level0, level1)
    ensures level0 == added + j.inputs0 && level1 == j.inputs1
    ensures AllValid(j.Inputs())
    ensures DistinctIds(j.Inputs())
    ensures AllValid(added)
    ensures Without(level0, j.Inputs()) == added && forall i :: 0 <= i < |added| ==> added[i] !in j.Inputs()
  {
    hide SSTable.Valid, Disjoint, OutputsReplace, Without;
    var n := |level0| - |j.inputs0|;
    added := level0[..n];
    var all, inputs := level0 + level1, j.Inputs();
    assert all == added + inputs;
    forall i | 0 <= i < |inputs|
      ensures inputs[i] == all[n + i]
    {
    }
    forall i | 0 <= i < |added|
      ensures added[i] == all[i]
    {
    }
    WithoutKeepsAdded(added, j.inputs0, inputs);
  }

  /** Under the hypothesis the outputs show what the inputs show. */
  lemma OutputsShowInputs(j: Job, level0: seq<SSTable>, level1: seq<SSTable>, outputs: seq<SSTable>)
    requires JobMatches(Some(j), level0, level1) && LevelsSound(level0, level1)
    requires MergedFrom(j.Inputs(), outputs) && DistinctIds(Without(level0, j.Inputs()) + outputs)
    requires forall key :: IdsAgree(j.Inputs(), key)
    ensures OutputsReplace(j, level0, outputs)
  {
    hide Overlay, Live, Without, AllValid, DistinctIds, IdsAgree;
    var added := JobSplit(j, level0, level1);
    CompactionKeepsMeaningIff(j.Inputs(), outputs);
    TablesOfConcatenation(j.inputs0, j.inputs1);
    OutputsDisjoint(j.Inputs(), outputs);
  }

  lemma OutputsDisjoint(inputs: seq<SSTable>, outputs: seq<SSTable>)
    requires MergedFrom(inputs, outputs)
    ensures Disjoint(outputs)
  {
    Compactor.SegmentsAscend(RunsOf(outputs));
    forall i, j, p, q | 0 <= i < j < |outputs| && 0 <= p < |outputs[i].run| && 0 <= q < |outputs[j].run|
      ensures Less(outputs[i].run[p].key, outputs[j].run[q].key)
    {
      assert RunsOf(outputs)[i][p] == outputs[i].run[p] && RunsOf(outputs)[j][q] == outputs[j].run[q];
    }
  }

  /** The new levels show what the old ones show. */
  lemma NewLevelsShowOld(m: Memory, j: Job, outputs: seq<SSTable>, ops: seq<Record>)
    requires JobMatches(Some(j), m.level0, m.level1) && LevelsSound(m.level0, m.level1) && OutputsReplace(j, m.level0, outputs)
    requires FilesShow(m.level0, m.level1, ops)
    ensures FilesShow(Without(m.level0, j.Inputs()), outputs, ops)
  {
    hide Overlay, Live, LevelsSound, Write, Without, JobMatches;
    var added := JobSplit(j, m.level0, m.level1);
    CommitKeepsMeaning(m, added, j.inputs0, outputs);
  }

  lemma RecordCompactionKeepsInv(s: State, s': State)
    requires Inv(s) && RecordCompaction(s, s') && CompactionIdsAgree(s)
    ensures Inv(s') && Acknowledged(s') == Acknowledged(s)
  {
    hide FrozenMatch, FilesShow, JobMatches, LevelsSound, Replay, Write, Without, IdsAgree, OutputsReplace, DistinctIds, MergedFrom;
    var j := s.job.value;
    var outputs: seq<SSTable> :|
      OutputsOf(j, outputs) && DistinctIds(Without(s.memory.level0, j.Inputs()) + outputs) && s' == CompactionRecorded(s, outputs);
    OutputsShowInputs(j, s.memory.level0, s.memory.level1, outputs);
    NewLevelsShowOld(s.memory, j, outputs, s.inFiles);
    assert s.inFiles[..|s.inFiles|] == s.inFiles;
    assert LevelsSound(Without(s.memory.level0, j.Inputs()), outputs) by { ReplacementSound(j, s.memory.level0, outputs); }
    JobRecorded(j, s.memory.level0, s.memory.level1, outputs);
    assert s'.disk.wal == ExpectedLog(s');
  }

  lemma ReplacementSound(j: Job, level0: seq<SSTable>, outputs: seq<SSTable>)
    requires OutputsReplace(j, level0, outputs)
    ensures LevelsSound(Without(level0, j.Inputs()), outputs)
  {
  }

  lemma JobRecorded(j: Job, level0: seq<SSTable>, level1: seq<SSTable>, outputs: seq<SSTable>)
    requires JobMatches(Some(j), level0, level1) && OutputsReplace(j, level0, outputs)
    ensures JobMatches(Some(j.(recorded := Some(outputs))), level0, level1)
  {
    hide Overlay, Live, LevelsSound, Without;
  }

  lemma SwapLevelsKeepsInv(s: State, s': State)
    requires Inv(s) && SwapLevels(s, s')
    ensures Inv(s') && Acknowledged(s') == Acknowledged(s)
  {
    hide FrozenMatch, FilesShow, OutputsReplace, LevelsSound, Replay, Write, Without;
    var j := s.job.value;
    NewLevelsShowOld(s.memory, j, j.recorded.value, s.inFiles);
    ReplacementSound(j, s.memory.level0, j.recorded.value);
    assert s'.disk.wal == ExpectedLog(s');
  }
}
