/** The in-memory state of the engine as a value, its background steps, and what they mean
    (internal/storage/engine.go, workers.go). */
module EngineModel {
  import opened ByteStrings
  import opened Tables
  import opened SSTableFormat
  import opened Levels
  import opened Compactor

  /** A frozen memtable and the log segment that holds its operations. */
  datatype Frozen = Frozen(table: Table, segment: int)

  /** The layers, the memtable queue oldest first as it is kept, the levels in slice order. */
  datatype Memory = Memory(active: Table, activeSegment: int, frozen: seq<Frozen>,
                           level0: seq<SSTable>, level1: seq<SSTable>, nextSegmentID: int, flushedSegmentID: int)

  ghost function NewestFirst(frozen: seq<Frozen>): (t: seq<Table>)
    ensures |t| == |frozen|
  {
    if frozen == [] then [] else [frozen[|frozen| - 1].table] + NewestFirst(frozen[..|frozen| - 1])
  }

  ghost function Files(m: Memory): Table {
    Overlay(TablesOf(m.level0) + TablesOf(m.level1))
  }

  /** All layers, newest first. */
  ghost function Layers(m: Memory): seq<Table> {
    [m.active] + NewestFirst(m.frozen) + TablesOf(m.level0) + TablesOf(m.level1)
  }

  /** The plain map the engine stands for. */
  ghost function Meaning(m: Memory): Contents {
    Live(Overlay(Layers(m)))
  }

  // --------------------------------------------------------------------- steps

  /** The memtable joins the queue and a fresh one takes over, with the next segment. */
  function Freeze(m: Memory): Memory {
    m.(active := map[], activeSegment := m.nextSegmentID, nextSegmentID := m.nextSegmentID + 1,
       frozen := m.frozen + [Frozen(m.active, m.activeSegment)])
  }

  /** The oldest frozen memtable becomes the newest file of level 0. */
  function RegisterFlushed(m: Memory, file: SSTable): Memory
    requires m.frozen != []
  {
    m.(frozen := m.frozen[1..], level0 := [file] + m.level0, flushedSegmentID := m.frozen[0].segment)
  }

  /** The files of level 0 that were not inputs of the compaction. */
  function Without(files: seq<SSTable>, obsolete: seq<SSTable>): seq<SSTable> {
    if files == [] then []
    else if files[0] in obsolete then Without(files[1..], obsolete)
    else [files[0]] + Without(files[1..], obsolete)
  }

  function CommitCompaction(m: Memory, inputs: seq<SSTable>, outputs: seq<SSTable>): Memory {
    m.(level0 := Without(m.level0, inputs), level1 := outputs)
  }

  /** The whole commit: the levels are replaced, and no id up to those of the outputs is given again. */
  function Commit(m: Memory, inputs: seq<SSTable>, outputs: seq<SSTable>, nextID: int): Memory {
    CommitCompaction(m, inputs, outputs).(nextSegmentID := if nextID > m.nextSegmentID then nextID else m.nextSegmentID)
  }

  ghost predicate AllBelow(files: seq<SSTable>, id: int) {
    forall f :: f in files ==> f.fileID < id
  }

  /** The state once the k oldest frozen memtables are flushed: each file has the id of its log segment. */
  ghost predicate OldestFlushed(before: Memory, k: nat, m: Memory) {
    && k <= |before.frozen| && |m.level0| == k + |before.level0| && m.level0[k..] == before.level0
    && m == before.(frozen := before.frozen[k..], level0 := m.level0,
                    flushedSegmentID := if k == 0 then before.flushedSegmentID else before.frozen[k - 1].segment)
    && forall i :: 0 <= i < k ==>
         m.level0[k - 1 - i].fileID == before.frozen[i].segment && m.level0[k - 1 - i].Contents() == before.frozen[i].table
  }

  lemma NoneFlushed(m: Memory)
    ensures OldestFlushed(m, 0, m)
  {
  }

  lemma OneMoreFlushed(before: Memory, k: nat, m: Memory, file: SSTable)
    requires OldestFlushed(before, k, m) && m.frozen != []
    requires file.fileID == m.frozen[0].segment && file.Contents() == m.frozen[0].table
    ensures OldestFlushed(before, k + 1, RegisterFlushed(m, file))
  {
    hide SSTable.Contents;
    var r := RegisterFlushed(m, file);
    assert before.frozen[k..][1..] == before.frozen[k + 1..];
    assert r.level0[k + 1..] == m.level0[k..];
    forall i | 0 <= i < k + 1
      ensures r.level0[k - i].fileID == before.frozen[i].segment && r.level0[k - i].Contents() == before.frozen[i].table
    {
      if i < k {
        assert r.level0[k - i] == m.level0[k - 1 - i];
      }
    }
  }

  lemma {:induction false} WithoutIsPart(files: seq<SSTable>, obsolete: seq<SSTable>, id: int)
    requires AllBelow(files, id)
    ensures AllBelow(Without(files, obsolete), id)
  {
    if files != [] {
      WithoutIsPart(files[1..], obsolete, id);
    }
  }

  /** With its next id above those of its outputs, a commit leaves no file of an id that is still to be given. */
  lemma CommitKeepsNames(m: Memory, inputs: seq<SSTable>, outputs: seq<SSTable>, nextID: int)
    requires AllBelow(m.level0, m.nextSegmentID) && AllBelow(outputs, nextID)
    ensures var c := Commit(m, inputs, outputs, nextID);
            AllBelow(c.level0, c.nextSegmentID) && AllBelow(c.level1, c.nextSegmentID)
  {
    hide Without;
    WithoutIsPart(m.level0, inputs, m.nextSegmentID);
  }

  function Write'(m: Memory, ops: seq<Record>): Memory {
    m.(active := Replay(m.active, ops))
  }

  // ------------------------------------------------------------ what they mean

  lemma {:induction false} NewestFirstOfConcatenation(a: seq<Frozen>, b: seq<Frozen>)
    ensures NewestFirst(a + b) == NewestFirst(b) + NewestFirst(a)
  {
    if b == [] {
      assert a + b == a;
    } else {
      assert (a + b)[..|a + b| - 1] == a + b[..|b| - 1];
      NewestFirstOfConcatenation(a, b[..|b| - 1]);
    }
  }

  lemma TablesOfConcatenation(a: seq<SSTable>, b: seq<SSTable>)
    ensures TablesOf(a + b) == TablesOf(a) + TablesOf(b)
  {
  }

  /** Freezing changes nothing a reader sees. */
  lemma FreezeKeepsMeaning(m: Memory)
    ensures Meaning(Freeze(m)) == Meaning(m)
  {
    var f := Freeze(m);
    hide TablesOf, Live;
    NewestFirstOfConcatenation(m.frozen, [Frozen(m.active, m.activeSegment)]);
    assert NewestFirst([Frozen(m.active, m.activeSegment)]) == [m.active];
    assert Layers(f) == [map[]] + Layers(m);
    assert Layers(f)[1..] == Layers(m);
    assert Overlay(Layers(f)) == Overlay(Layers(m)) + map[] == Overlay(Layers(m));
  }

  /** Registering the flush of the oldest frozen memtable leaves the layers as they were. */
  lemma FlushKeepsMeaning(m: Memory, file: SSTable)
    requires m.frozen != [] && file.Contents() == m.frozen[0].table
    ensures Layers(RegisterFlushed(m, file)) == Layers(m)
    ensures Meaning(RegisterFlushed(m, file)) == Meaning(m)
  {
    hide Overlay, Live, RunTable;
    assert m.frozen == [m.frozen[0]] + m.frozen[1..];
    NewestFirstOfConcatenation([m.frozen[0]], m.frozen[1..]);
    assert NewestFirst([m.frozen[0]]) == [m.frozen[0].table];
    TablesOfConcatenation([file], m.level0);
    assert TablesOf([file]) == [file.Contents()];
  }

  /** A batch changes the meaning by exactly its operations, in order. */
  lemma WriteChangesMeaning(m: Memory, ops: seq<Record>)
    ensures Meaning(Write'(m, ops)) == Write(Meaning(m), ops)
  {
    var below := Overlay(Layers(m)[1..]);
    assert Layers(Write'(m, ops))[1..] == Layers(m)[1..];
    ReplayOverBase(below, m.active, ops);
  }

  /** The part of the layers below a prefix. */
  lemma MeaningOverFiles(m: Memory)
    ensures Meaning(m) == Live(Files(m) + Overlay([m.active] + NewestFirst(m.frozen)))
  {
    var top := [m.active] + NewestFirst(m.frozen);
    assert Layers(m) == top + (TablesOf(m.level0) + TablesOf(m.level1));
    OverlayOfConcatenation(top, TablesOf(m.level0) + TablesOf(m.level1));
  }

  lemma {:induction false} WithoutKeepsAdded(added: seq<SSTable>, replaced: seq<SSTable>, obsolete: seq<SSTable>)
    requires forall i :: 0 <= i < |added| ==> added[i] !in obsolete
    requires forall i :: 0 <= i < |replaced| ==> replaced[i] in obsolete
    ensures Without(added + replaced, obsolete) == added
  {
    if added == [] {
      assert added + replaced == replaced;
      if replaced != [] {
        assert replaced[1..] == [] + replaced[1..];
        WithoutKeepsAdded([], replaced[1..], obsolete);
      }
    } else {
      assert (added + replaced)[1..] == added[1..] + replaced && (added + replaced)[0] == added[0];
      WithoutKeepsAdded(added[1..], replaced, obsolete);
    }
  }

  /** Replacing the bottom files by files with the same live content keeps the meaning, whatever
      was flushed on top meanwhile. */
  lemma CommitKeepsMeaning(m: Memory, flushedMeanwhile: seq<SSTable>, inputs0: seq<SSTable>, outputs: seq<SSTable>)
    requires m.level0 == flushedMeanwhile + inputs0
    requires forall i :: 0 <= i < |flushedMeanwhile| ==> flushedMeanwhile[i] !in inputs0 + m.level1
    requires Live(Overlay(TablesOf(outputs))) == Live(Overlay(TablesOf(inputs0) + TablesOf(m.level1)))
    ensures CommitCompaction(m, inputs0 + m.level1, outputs).level0 == flushedMeanwhile
    ensures Live(Files(CommitCompaction(m, inputs0 + m.level1, outputs))) == Live(Files(m))
    ensures Meaning(CommitCompaction(m, inputs0 + m.level1, outputs)) == Meaning(m)
  {
    var c := CommitCompaction(m, inputs0 + m.level1, outputs);
    WithoutKeepsAdded(flushedMeanwhile, inputs0, inputs0 + m.level1);
    var on, out := TablesOf(flushedMeanwhile), TablesOf(outputs);
    TablesOfConcatenation(flushedMeanwhile, inputs0);
    assert TablesOf(m.level0) + TablesOf(m.level1) == on + (TablesOf(inputs0) + TablesOf(m.level1));
    OverlayOfConcatenation(on, TablesOf(inputs0) + TablesOf(m.level1));
    OverlayOfConcatenation(on, out);
    LiveBottomSuffices(Overlay(TablesOf(inputs0) + TablesOf(m.level1)), Overlay(out), Overlay(on));
    assert Live(Files(c)) == Live(Files(m));
    MeaningOverFiles(m);
    MeaningOverFiles(c);
    LiveBottomSuffices(Files(m), Files(c), Overlay([m.active] + NewestFirst(m.frozen)));
  }
}
