/** Merge compaction (internal/storage/compactor/worker.go). */
module Compactor {
  import opened ByteStrings
  import opened Tables
  import opened MergeHeaps
  import opened SSTableFormat
  import opened SSTableWriter

  /** An input file: its records and the id in its name. */
  datatype Input = Input(run: seq<Record>, fileID: int)

  /** What Task.Validate guarantees of the ids, and Add of the records. */
  ghost predicate ValidInputs(inputs: seq<Input>) {
    && (forall i, j :: 0 <= i < j < |inputs| ==> inputs[i].fileID != inputs[j].fileID)
    && (forall i :: 0 <= i < |inputs| ==> Sorted(inputs[i].run) && WithinLimits(inputs[i].run))
    && (forall i, p :: 0 <= i < |inputs| && 0 <= p < |inputs[i].run| ==> inputs[i].run[p].key != [])
  }

  /** Input i holds the key at place p, and no input with a larger id holds it. */
  ghost predicate HoldsNewest(inputs: seq<Input>, key: Bytes, i: nat, p: nat) {
    && i < |inputs| && p < |inputs[i].run| && inputs[i].run[p].key == key
    && forall j, q :: 0 <= j < |inputs| && 0 <= q < |inputs[j].run| && inputs[j].run[q].key == key ==>
         inputs[j].fileID <= inputs[i].fileID
  }

  /** The output says of a key what the input with the largest id says, except that a bottom-level
      merge drops tombstones. */
  ghost predicate Settled(inputs: seq<Input>, bottom: bool, out: seq<Record>, key: Bytes) {
    && (forall i: nat, p: nat :: HoldsNewest(inputs, key, i, p) ==>
         (if bottom && inputs[i].run[p].entry.Tombstone? then key !in RunTable(out)
          else key in RunTable(out) && RunTable(out)[key] == inputs[i].run[p].entry))
    && (key in RunTable(out) ==> exists i: nat, p: nat :: HoldsNewest(inputs, key, i, p))
  }

  // ---------------------------------------------------------------- the frontier

  function NodeOf(inputs: seq<Input>, pos: seq<nat>, s: nat): MergeNode
    requires s < |inputs| == |pos| && pos[s] < |inputs[s].run|
  {
    MergeNode(inputs[s].run[pos[s]], inputs[s].fileID, s, pos[s])
  }

  ghost predicate OnFrontier(inputs: seq<Input>, pos: seq<nat>, n: MergeNode)
    requires |inputs| == |pos|
  {
    n.src < |inputs| && pos[n.src] < |inputs[n.src].run| && n == NodeOf(inputs, pos, n.src)
  }

  /** The heap holds the next record of every input that still has one, once. */
  ghost predicate Frontier(inputs: seq<Input>, pos: seq<nat>, nodes: multiset<MergeNode>) {
    && |pos| == |inputs| && (forall s :: 0 <= s < |inputs| ==> pos[s] <= |inputs[s].run|)
    && forall n :: nodes[n] == if OnFrontier(inputs, pos, n) then 1 else 0
  }

  /** After the root, at source s, has been advanced. */
  lemma FrontierAdvances(inputs: seq<Input>, pos: seq<nat>, nodes: multiset<MergeNode>, s: nat)
    requires Frontier(inputs, pos, nodes) && s < |inputs| && pos[s] < |inputs[s].run|
    ensures var pos' := pos[s := pos[s] + 1]; var rest := nodes - multiset{NodeOf(inputs, pos, s)};
            if pos'[s] < |inputs[s].run| then Frontier(inputs, pos', rest + multiset{NodeOf(inputs, pos', s)})
            else Frontier(inputs, pos', rest)
  {
    var pos' := pos[s := pos[s] + 1];
    var old' := NodeOf(inputs, pos, s);
    forall n
      ensures OnFrontier(inputs, pos', n) <==>
              (n.src != s && OnFrontier(inputs, pos, n)) || (pos'[s] < |inputs[s].run| && n == NodeOf(inputs, pos', s))
      ensures OnFrontier(inputs, pos, n) && n.src == s <==> n == old'
    {
    }
  }

  function Remaining(inputs: seq<Input>, pos: seq<nat>): nat
    requires |pos| == |inputs| && forall s :: 0 <= s < |inputs| ==> pos[s] <= |inputs[s].run|
  {
    if inputs == [] then 0
    else Remaining(inputs[..|inputs| - 1], pos[..|pos| - 1]) + |inputs[|inputs| - 1].run| - pos[|pos| - 1]
  }

  lemma {:induction false} RemainingShrinks(inputs: seq<Input>, pos: seq<nat>, s: nat)
    requires |pos| == |inputs| && s < |inputs| && pos[s] < |inputs[s].run|
    requires forall i :: 0 <= i < |inputs| ==> pos[i] <= |inputs[i].run|
    ensures Remaining(inputs, pos[s := pos[s] + 1]) == Remaining(inputs, pos) - 1
  {
    var m := |inputs| - 1;
    if s < m {
      RemainingShrinks(inputs[..m], pos[..m], s);
      assert pos[s := pos[s] + 1][..m] == pos[..m][s := pos[s] + 1];
    } else {
      assert pos[s := pos[s] + 1][..m] == pos[..m];
    }
  }

  // ------------------------------------------------------------- the merge state

  /** Everything consumed is at or below `last`, nothing left is below it. */
  ghost predicate CutAt(inputs: seq<Input>, pos: seq<nat>, last: Option<Bytes>)
    requires |pos| == |inputs| && forall s :: 0 <= s < |inputs| ==> pos[s] <= |inputs[s].run|
  {
    && (forall s, p :: 0 <= s < |inputs| && 0 <= p < pos[s] ==> last.Some? && AtMost(inputs[s].run[p].key, last.value))
    && (last.Some? ==> forall s, p :: 0 <= s < |inputs| && pos[s] <= p < |inputs[s].run| ==> AtMost(last.value, inputs[s].run[p].key))
  }

  /** No key beyond `last` has been written. */
  ghost predicate Below(out: seq<Record>, last: Option<Bytes>) {
    forall i :: 0 <= i < |out| ==> last.Some? && AtMost(out[i].key, last.value)
  }

  /** The part of the output written so far is right for all keys up to `last`. */
  ghost predicate SettledUpTo(inputs: seq<Input>, bottom: bool, out: seq<Record>, last: Option<Bytes>) {
    && Sorted(out) && Below(out, last)
    && (last.Some? ==> forall key :: AtMost(key, last.value) ==> Settled(inputs, bottom, out, key))
  }

  /** The root of the heap precedes every record that is left. */
  lemma RootPrecedes(inputs: seq<Input>, pos: seq<nat>, nodes: seq<MergeNode>, j: nat, q: nat)
    requires ValidInputs(inputs) && Frontier(inputs, pos, multiset(nodes)) && HeapOrdered(nodes) && nodes != []
    requires j < |inputs| && pos[j] <= q < |inputs[j].run|
    ensures AtMost(nodes[0].record.key, inputs[j].run[q].key)
    ensures inputs[j].run[q].key == nodes[0].record.key ==> inputs[j].fileID <= nodes[0].fileID
  {
    var n := NodeOf(inputs, pos, j);
    assert multiset(nodes)[n] == 1;
    assert n in nodes;
    var i :| 0 <= i < |nodes| && nodes[i] == n;
    RootIsLeast(nodes, i);
    LessTotal(nodes[0].record.key, n.record.key);
    LessTotal(nodes[0].record.key, inputs[j].run[q].key);
    if pos[j] < q {
      assert Less(n.record.key, inputs[j].run[q].key);
      if Less(nodes[0].record.key, n.record.key) {
        LessTransitive(nodes[0].record.key, n.record.key, inputs[j].run[q].key);
      }
    }
  }

  /** A root with a new key is the newest record of that key. */
  lemma RootIsNewest(inputs: seq<Input>, pos: seq<nat>, nodes: seq<MergeNode>, last: Option<Bytes>)
    requires ValidInputs(inputs) && Frontier(inputs, pos, multiset(nodes)) && HeapOrdered(nodes) && nodes != []
    requires CutAt(inputs, pos, last) && (last.Some? ==> last.value != nodes[0].record.key)
    ensures OnFrontier(inputs, pos, nodes[0])
    ensures last.Some? ==> Less(last.value, nodes[0].record.key)
    ensures HoldsNewest(inputs, nodes[0].record.key, nodes[0].src, pos[nodes[0].src])
    ensures CutAt(inputs, pos, Some(nodes[0].record.key))
  {
    var root := nodes[0];
    assert multiset(nodes)[root] > 0;
    var key := root.record.key;
    if last.Some? {
      LessTotal(last.value, key);
      assert inputs[root.src].run[pos[root.src]] == root.record;
    }
    forall j, q | 0 <= j < |inputs| && 0 <= q < |inputs[j].run|
      ensures q < pos[j] ==> Less(inputs[j].run[q].key, key)
      ensures q >= pos[j] ==> AtMost(key, inputs[j].run[q].key)
      ensures inputs[j].run[q].key == key ==> inputs[j].fileID <= root.fileID
    {
      if q < pos[j] {
        assert AtMost(inputs[j].run[q].key, last.value);
        if inputs[j].run[q].key != last.value {
          LessTransitive(inputs[j].run[q].key, last.value, key);
        }
        LessTotal(inputs[j].run[q].key, key);
      } else {
        RootPrecedes(inputs, pos, nodes, j, q);
      }
    }
  }

  /** Only the keys up to the cut and the root's own key are settled by one step. */
  lemma NothingBetween(inputs: seq<Input>, pos: seq<nat>, nodes: seq<MergeNode>, last: Option<Bytes>, key: Bytes, i: nat, p: nat)
    requires ValidInputs(inputs) && Frontier(inputs, pos, multiset(nodes)) && HeapOrdered(nodes) && nodes != []
    requires CutAt(inputs, pos, last) && HoldsNewest(inputs, key, i, p)
    requires AtMost(key, nodes[0].record.key)
    ensures key == nodes[0].record.key || (last.Some? && AtMost(key, last.value))
  {
    if p >= pos[i] {
      RootPrecedes(inputs, pos, nodes, i, p);
      LessTotal(key, nodes[0].record.key);
    }
  }

  lemma NewestIsUnique(inputs: seq<Input>, key: Bytes, i: nat, p: nat, j: nat, q: nat)
    requires ValidInputs(inputs) && HoldsNewest(inputs, key, i, p) && HoldsNewest(inputs, key, j, q)
    ensures i == j && p == q
  {
    assert inputs[i].fileID <= inputs[j].fileID && inputs[j].fileID <= inputs[i].fileID;
    LessTotal(key, key);
    assert Sorted(inputs[i].run);
  }

  lemma CutAdvances(inputs: seq<Input>, pos: seq<nat>, s: nat, key: Bytes)
    requires |pos| == |inputs| && s < |inputs| && pos[s] < |inputs[s].run| && inputs[s].run[pos[s]].key == key
    requires forall i :: 0 <= i < |inputs| ==> pos[i] <= |inputs[i].run|
    requires CutAt(inputs, pos, Some(key))
    ensures CutAt(inputs, pos[s := pos[s] + 1], Some(key))
  {
  }

  lemma RunTableAppend(out: seq<Record>, r: Record)
    ensures RunTable(out + [r]) == RunTable(out)[r.key := r.entry]
  {
    assert (out + [r])[..|out|] == out;
  }

  /** One new key, written or dropped: the output is right up to that key. */
  lemma SettleRoot(inputs: seq<Input>, pos: seq<nat>, nodes: seq<MergeNode>, bottom: bool, out: seq<Record>, last: Option<Bytes>)
    requires ValidInputs(inputs) && Frontier(inputs, pos, multiset(nodes)) && HeapOrdered(nodes) && nodes != []
    requires CutAt(inputs, pos, last) && SettledUpTo(inputs, bottom, out, last)
    requires last.Some? ==> last.value != nodes[0].record.key
    ensures var r := nodes[0].record;
            SettledUpTo(inputs, bottom, if bottom && r.entry.Tombstone? then out else out + [r], Some(r.key))
  {
    hide RunTable, HeapOrdered, Below, Sorted;
    var r := nodes[0].record;
    var out' := if bottom && r.entry.Tombstone? then out else out + [r];
    RootIsNewest(inputs, pos, nodes, last);
    OutputAscends(out, last, r);
    RunTableAppend(out, r);
    forall key | AtMost(key, r.key)
      ensures Settled(inputs, bottom, out', key)
    {
      if key == r.key {
        if last.Some? {
          LessTotal(last.value, r.key);
        }
        KeyIsNew(out, last, r.key);
        SettleKey(inputs, pos, nodes[0].src, bottom, out, out', r);
      } else {
        SettleOther(inputs, pos, nodes, bottom, out, last, key);
      }
    }
  }

  /** A key below the root's own stays as settled as it was. */
  lemma SettleOther(inputs: seq<Input>, pos: seq<nat>, nodes: seq<MergeNode>, bottom: bool, out: seq<Record>, last: Option<Bytes>, key: Bytes)
    requires ValidInputs(inputs) && Frontier(inputs, pos, multiset(nodes)) && HeapOrdered(nodes) && nodes != []
    requires CutAt(inputs, pos, last) && SettledUpTo(inputs, bottom, out, last)
    requires AtMost(key, nodes[0].record.key) && key != nodes[0].record.key
    ensures Settled(inputs, bottom, out, key)
    ensures Settled(inputs, bottom, out + [nodes[0].record], key)
  {
    hide RunTable, HeapOrdered, Below, Sorted, Frontier;
    RunTableAppend(out, nodes[0].record);
    if last.None? || !AtMost(key, last.value) {
      forall i: nat, p: nat | HoldsNewest(inputs, key, i, p)
        ensures false
      {
        NothingBetween(inputs, pos, nodes, last, key, i, p);
      }
      KeyIsNew(out, last, key);
    }
  }

  lemma OutputAscends(out: seq<Record>, last: Option<Bytes>, r: Record)
    requires Sorted(out) && Below(out, last)
    requires last.Some? ==> Less(last.value, r.key)
    ensures Sorted(out + [r])
    ensures Below(out + [r], Some(r.key))
    ensures Below(out, Some(r.key))
  {
    forall i | 0 <= i < |out|
      ensures Less(out[i].key, r.key)
    {
      if out[i].key != last.value {
        LessTransitive(out[i].key, last.value, r.key);
      }
    }
  }

  lemma KeyIsNew(out: seq<Record>, last: Option<Bytes>, key: Bytes)
    requires Below(out, last)
    requires last.Some? ==> !AtMost(key, last.value)
    ensures key !in RunTable(out)
  {
    RunTableKeys(out, key);
  }

  lemma SettleKey(inputs: seq<Input>, pos: seq<nat>, s: nat, bottom: bool, out: seq<Record>, out': seq<Record>, r: Record)
    requires ValidInputs(inputs) && |pos| == |inputs| && s < |inputs| && pos[s] < |inputs[s].run|
    requires r == inputs[s].run[pos[s]] && HoldsNewest(inputs, r.key, s, pos[s])
    requires r.key !in RunTable(out)
    requires out' == if bottom && r.entry.Tombstone? then out else out + [r]
    ensures Settled(inputs, bottom, out', r.key)
  {
    hide RunTable;
    RunTableAppend(out, r);
    forall i: nat, p: nat | HoldsNewest(inputs, r.key, i, p)
      ensures i == s && p == pos[s]
    {
      NewestIsUnique(inputs, r.key, i, p, s, pos[s]);
    }
  }

  /** Once the heap is empty the output is right for every key. */
  lemma AllSettled(inputs: seq<Input>, pos: seq<nat>, bottom: bool, out: seq<Record>, last: Option<Bytes>)
    requires Frontier(inputs, pos, multiset{}) && CutAt(inputs, pos, last) && SettledUpTo(inputs, bottom, out, last)
    ensures forall key :: Settled(inputs, bottom, out, key)
  {
    forall s | 0 <= s < |inputs|
      ensures pos[s] == |inputs[s].run|
    {
      var none: multiset<MergeNode> := multiset{};
      assert pos[s] < |inputs[s].run| ==> none[NodeOf(inputs, pos, s)] == 1;
    }
    forall key
      ensures Settled(inputs, bottom, out, key)
    {
      if last.None? || !AtMost(key, last.value) {
        KeyIsNew(out, last, key);
      }
    }
  }

  // ------------------------------------------------------------------ the output

  function Flatten(runs: seq<seq<Record>>): seq<Record> {
    if runs == [] then [] else Flatten(runs[..|runs| - 1]) + runs[|runs| - 1]
  }

  /** The files of one compaction are ascending and do not overlap. */
  lemma {:induction false} SegmentsAscend(runs: seq<seq<Record>>)
    requires Sorted(Flatten(runs))
    ensures forall i :: 0 <= i < |runs| ==> Sorted(runs[i])
    ensures forall i, j, p, q :: 0 <= i < j < |runs| && 0 <= p < |runs[i]| && 0 <= q < |runs[j]| ==>
              Less(runs[i][p].key, runs[j][q].key)
  {
    if runs != [] {
      var m := |runs| - 1;
      var front, last := Flatten(runs[..m]), runs[m];
      var all := Flatten(runs);
      assert forall p :: 0 <= p < |front| ==> all[p] == front[p];
      assert forall q :: 0 <= q < |last| ==> all[|front| + q] == last[q];
      SegmentsAscend(runs[..m]);
      forall i, p, q | 0 <= i < m && 0 <= p < |runs[i]| && 0 <= q < |last|
        ensures Less(runs[i][p].key, last[q].key)
      {
        var place := InFlattened(runs[..m], i, p);
        assert Less(all[place].key, all[|front| + q].key);
      }
    }
  }

  lemma {:induction false} InFlattened(runs: seq<seq<Record>>, i: nat, p: nat) returns (place: nat)
    requires i < |runs| && p < |runs[i]|
    ensures place < |Flatten(runs)|
    ensures Flatten(runs)[place] == runs[i][p]
  {
    var m := |runs| - 1;
    if i == m {
      place := |Flatten(runs[..m])| + p;
    } else {
      place := InFlattened(runs[..m], i, p);
    }
  }

  lemma FlattenAppend(runs: seq<seq<Record>>, run: seq<Record>)
    ensures Flatten(runs + [run]) == Flatten(runs) + run
  {
    assert (runs + [run])[..|runs|] == runs;
  }

  /** The output file a run was written to. */
  datatype Output = Output(segmentID: int, bytes: Bytes)

  /** The finished files hold the runs, none empty, under consecutive ids. */
  ghost predicate OutputFiles(files: seq<Output>, runs: seq<seq<Record>>, first: int, blockSize: nat, filterBits: nat, numHashes: nat) {
    && |runs| == |files|
    && (forall i :: 0 <= i < |runs| ==> runs[i] != [] && Written(files[i].bytes, runs[i], blockSize, filterBits, numHashes))
    && (forall i :: 0 <= i < |runs| ==> files[i].segmentID == first + i)
  }

  lemma FilesAppend(files: seq<Output>, runs: seq<seq<Record>>, first: int, blockSize: nat, filterBits: nat, numHashes: nat,
                    file: Output, run: seq<Record>)
    requires OutputFiles(files, runs, first, blockSize, filterBits, numHashes)
    requires run != [] && Written(file.bytes, run, blockSize, filterBits, numHashes) && file.segmentID == first + |runs|
    ensures OutputFiles(files + [file], runs + [run], first, blockSize, filterBits, numHashes)
  {
    hide Written;
  }

  /** Writer rollover and file creation during one compaction. */
  class CompactionState {
    var currentWriter: Writer?
    var newFilesCreated: seq<Output>
    var nextSegmentID: int
    const firstSegmentID: int
    const maxSSTableSize: nat
    const blockSize: nat
    const estimatedKeys: nat
    /** The optimal number of probes for ten bits a key. */
    const k: int
    /** The run in each finished file. */
    ghost var runs: seq<seq<Record>>

    ghost predicate Valid()
      reads this, currentWriter, if currentWriter == null then {} else {currentWriter.bloomFilter}
    {
      && blockSize > 0 && OutputFiles(newFilesCreated, runs, firstSegmentID, blockSize, FilterBits(estimatedKeys), Probes(k))
      && nextSegmentID == firstSegmentID + |runs| + (if currentWriter == null then 0 else 1)
      && (currentWriter != null ==> currentWriter.Valid() && currentWriter.indexBlockSize == blockSize
                                    && currentWriter.bloomFilter.totalBitCount == FilterBits(estimatedKeys)
                                    && currentWriter.bloomFilter.numHashes == Probes(k))
    }

    /** The records of the open file. */
    ghost function Open(): seq<Record>
      reads this, currentWriter
    {
      if currentWriter == null then [] else currentWriter.run
    }

    /** All records written so far, in order. */
    ghost function Out(): seq<Record>
      reads this, currentWriter
    {
      Flatten(runs) + Open()
    }

    /** The bytes of a filter. */
    function FilterBytes(): nat {
      (FilterBits(estimatedKeys) + 7) / 8
    }

    /** No file has been closed early or late. */
    ghost predicate StillFilling()
      reads this, currentWriter
    {
      Filling(runs, Open(), maxSSTableSize, blockSize, FilterBytes())
    }

    constructor (firstSegmentID: int, maxSSTableSize: nat, blockSize: nat, estimatedKeys: nat, k: int)
      requires blockSize > 0
      ensures Valid()
      ensures currentWriter == null
      ensures runs == []
      ensures this.firstSegmentID == firstSegmentID && this.maxSSTableSize == maxSSTableSize
      ensures this.blockSize == blockSize && this.estimatedKeys == estimatedKeys && this.k == k
    {
      currentWriter, newFilesCreated, nextSegmentID, runs := null, [], firstSegmentID, [];
      this.firstSegmentID, this.maxSSTableSize, this.blockSize := firstSegmentID, maxSSTableSize, blockSize;
      this.estimatedKeys, this.k := estimatedKeys, k;
    }

    method OpenWriter()
      requires Valid() && currentWriter == null
      modifies this`currentWriter, this`nextSegmentID
      ensures Valid()
      ensures currentWriter != null
      ensures fresh(currentWriter)
      ensures fresh(currentWriter.bloomFilter)
      ensures Out() == old(Out()) && currentWriter.run == []
    {
      currentWriter := new Writer(estimatedKeys, blockSize, k);
      nextSegmentID := nextSegmentID + 1;
    }

    method FinalizeWriter()
      requires Valid() && (currentWriter != null ==> currentWriter.run != [])
      modifies this`currentWriter, this`newFilesCreated, this`runs
      ensures Valid() && currentWriter == null && Out() == old(Out()) == Flatten(runs)
      ensures runs == old(runs) + if old(Open()) == [] then [] else [old(Open())]
    {
      if currentWriter != null {
        var bytes := CloseWriter(currentWriter);
        ghost var run := currentWriter.run;
        Adopt(Output(nextSegmentID - 1, bytes), run);
      }
    }

    /** Records a finished file. */
    method Adopt(file: Output, ghost run: seq<Record>)
      requires Valid() && currentWriter != null && run == currentWriter.run != []
      requires Written(file.bytes, run, blockSize, FilterBits(estimatedKeys), Probes(k)) && file.segmentID == nextSegmentID - 1
      modifies this`currentWriter, this`newFilesCreated, this`runs
      ensures Valid() && currentWriter == null && Out() == old(Out())
      ensures runs == old(runs) + [run]
    {
      hide Flatten, Written, OutputFiles;
      FlattenAppend(runs, run);
      FilesAppend(newFilesCreated, runs, firstSegmentID, blockSize, FilterBits(estimatedKeys), Probes(k), file, run);
      newFilesCreated := newFilesCreated + [file];
      runs := runs + [run];
      currentWriter := null;
    }
  }

  method CloseWriter(w: Writer) returns (bytes: Bytes)
    requires w.Valid()
    ensures Written(bytes, w.run, w.indexBlockSize, w.bloomFilter.totalBitCount, w.bloomFilter.numHashes)
  {
    bytes := w.Close();
    assert FilterOf(w.bloomFilter.bits, w.bloomFilter.numHashes, w.bloomFilter.totalBitCount, w.run);
  }

  /** The file holds this run, in the layout of a finished sorted file, with a filter of just its keys. */
  ghost predicate Written(bytes: Bytes, run: seq<Record>, blockSize: nat, filterBits: nat, numHashes: nat) {
    exists bits: seq<bv8> ::
      FilterOf(bits, numHashes, filterBits, run) && bytes == FileOf(run, blockSize, BytesOf(bits), numHashes)
  }

  /** The write of one merged record: opens a file if none is open, and closes it once its size has
      reached the limit. */
  method Emit(state: CompactionState, r: Record) returns (err: AddError)
    requires state.Valid() && (state.currentWriter != null ==> state.currentWriter.run != [])
    requires |r.key| < 0x1_0000 && |ValueBytes(r.entry)| < 0x1_0000_0000
    requires Sorted(state.Out() + [r])
    modifies state, state.currentWriter, if state.currentWriter == null then {} else {state.currentWriter.bloomFilter}
    ensures state.Valid() && (state.currentWriter != null ==> state.currentWriter.run != [])
    ensures state.Out() == old(state.Out()) + [r] && err == Ok
    ensures var run := old(state.Open()) + [r];
            if FileSize(run, state.blockSize, (FilterBits(state.estimatedKeys) + 7) / 8) >= state.maxSSTableSize
            then state.currentWriter == null && state.Open() == [] && state.runs == old(state.runs) + [run]
            else state.currentWriter != null && state.Open() == run && state.runs == old(state.runs)
    ensures state.currentWriter == old(state.currentWriter) || state.currentWriter == null
            || (fresh(state.currentWriter) && fresh(state.currentWriter.bloomFilter))
    ensures state.currentWriter == old(state.currentWriter) != null ==>
              state.currentWriter.bloomFilter == old(state.currentWriter.bloomFilter)
  {
    hide Writer.Valid, Flatten, Sorted, OutputFiles, FileSize, FilterBits, Less;
    err := AddToOpen(state, r);
    var writer := state.currentWriter;
    FilterLength(writer);
    var size := writer.CurrentSize();
    if size >= state.maxSSTableSize {
      state.FinalizeWriter();
    }
  }

  /** Adds a record to the open file, or to a new one. */
  method AddToOpen(state: CompactionState, r: Record) returns (err: AddError)
    requires state.Valid() && (state.currentWriter != null ==> state.currentWriter.run != [])
    requires |r.key| < 0x1_0000 && |ValueBytes(r.entry)| < 0x1_0000_0000
    requires Sorted(state.Out() + [r])
    modifies state`currentWriter, state`nextSegmentID, state.currentWriter, if state.currentWriter == null then {} else {state.currentWriter.bloomFilter}
    ensures state.Valid() && state.currentWriter != null && err == Ok
    ensures state.Open() == old(state.Open()) + [r] && state.Out() == old(state.Out()) + [r]
    ensures if old(state.currentWriter) == null then fresh(state.currentWriter) && fresh(state.currentWriter.bloomFilter)
            else state.currentWriter == old(state.currentWriter)
  {
    hide Writer.Valid, Flatten, Sorted, OutputFiles, FilterBits, Less;
    ghost var out := state.Out();
    if state.currentWriter == null {
      state.OpenWriter();
    }
    LastBeforeNext(Flatten(state.runs), state.currentWriter, r);
    err := state.currentWriter.Add(r);
    assert state.Out() == out + [r];
  }

  lemma FilterLength(w: Writer)
    requires w.Valid()
    ensures |w.bloomFilter.bits| == (w.bloomFilter.totalBitCount + 7) / 8
  {
  }

  /** In a sorted output, the last key of the open file is below the next key. */
  lemma LastBeforeNext(front: seq<Record>, w: Writer, r: Record)
    requires w.Valid() && Sorted(front + w.run + [r])
    ensures w.lastKey != [] ==> Less(w.lastKey, r.key)
  {
    if w.run != [] {
      var all := front + w.run + [r];
      assert all[|front| + |w.run| - 1] == w.run[|w.run| - 1] && all[|front| + |w.run|] == r;
    }
  }

  function Zeros(n: nat): (z: seq<nat>)
    ensures |z| == n && forall i :: 0 <= i < n ==> z[i] == 0
  {
    seq(n, _ => 0)
  }

  /** The heap with the first record of every input that has one. */
  method InitializeInputs(inputs: seq<Input>) returns (heap: MergeHeap)
    ensures fresh(heap)
    ensures heap.Valid()
    ensures Frontier(inputs, Zeros(|inputs|), multiset(heap.nodes))
  {
    hide HeapOrdered, NodeLess;
    heap := new MergeHeap();
    for i := 0 to |inputs|
      invariant fresh(heap) && heap.Valid() && Frontier(inputs[..i], Zeros(i), multiset(heap.nodes))
    {
      FrontierGrows(inputs, i, multiset(heap.nodes));
      if inputs[i].run != [] {
        heap.Push(MergeNode(inputs[i].run[0], inputs[i].fileID, i, 0));
      }
    }
    assert inputs[..|inputs|] == inputs;
  }

  lemma FrontierGrows(inputs: seq<Input>, i: nat, nodes: multiset<MergeNode>)
    requires i < |inputs| && Frontier(inputs[..i], Zeros(i), nodes)
    ensures Frontier(inputs[..i + 1], Zeros(i + 1),
                     if inputs[i].run != [] then nodes + multiset{MergeNode(inputs[i].run[0], inputs[i].fileID, i, 0)} else nodes)
  {
    forall n
      ensures OnFrontier(inputs[..i + 1], Zeros(i + 1), n) <==>
              OnFrontier(inputs[..i], Zeros(i), n) || (inputs[i].run != [] && n == MergeNode(inputs[i].run[0], inputs[i].fileID, i, 0))
      ensures OnFrontier(inputs[..i], Zeros(i), n) ==> n.src < i
    {
    }
  }

  /** Advances the input of the root (fixOrPop). */
  method FixOrPop(heap: MergeHeap, inputs: seq<Input>, ghost pos: seq<nat>) returns (ghost pos': seq<nat>)
    requires |pos| == |inputs|
    requires heap.Valid() && heap.nodes != [] && Frontier(inputs, pos, multiset(heap.nodes))
    requires OnFrontier(inputs, pos, heap.nodes[0])
    modifies heap
    ensures pos' == pos[old(heap.nodes[0].src) := pos[old(heap.nodes[0].src)] + 1]
    ensures heap.Valid() && Frontier(inputs, pos', multiset(heap.nodes))
  {
    hide HeapOrdered, NodeLess, Frontier;
    var node := heap.nodes[0];
    FrontierAdvances(inputs, pos, multiset(heap.nodes), node.src);
    pos' := pos[node.src := pos[node.src] + 1];
    if node.pos + 1 < |inputs[node.src].run| {
      heap.FixRoot(MergeNode(inputs[node.src].run[node.pos + 1], node.fileID, node.src, node.pos + 1));
    } else {
      heap.PopRoot();
    }
  }

  lemma RootOnFrontier(inputs: seq<Input>, pos: seq<nat>, nodes: seq<MergeNode>)
    requires Frontier(inputs, pos, multiset(nodes)) && nodes != []
    ensures OnFrontier(inputs, pos, nodes[0])
  {
    assert multiset(nodes)[nodes[0]] > 0;
  }

  /** A skipped duplicate leaves everything settled. */
  lemma SkipDuplicate(inputs: seq<Input>, pos: seq<nat>, s: nat, last: Bytes)
    requires |pos| == |inputs| && (forall i :: 0 <= i < |inputs| ==> pos[i] <= |inputs[i].run|)
    requires s < |inputs| && pos[s] < |inputs[s].run| && inputs[s].run[pos[s]].key == last
    requires CutAt(inputs, pos, Some(last))
    ensures CutAt(inputs, pos[s := pos[s] + 1], Some(last))
  {
    CutAdvances(inputs, pos, s, last);
  }

  /** All that the loop needs to know of a root that is not a duplicate. */
  lemma SettleNext(inputs: seq<Input>, pos: seq<nat>, nodes: seq<MergeNode>, bottom: bool, out: seq<Record>, last: Option<Bytes>)
    requires ValidInputs(inputs) && Frontier(inputs, pos, multiset(nodes)) && HeapOrdered(nodes) && nodes != []
    requires CutAt(inputs, pos, last) && SettledUpTo(inputs, bottom, out, last)
    requires last.Some? ==> last.value != nodes[0].record.key
    requires |pos| == |inputs| && forall s :: 0 <= s < |inputs| ==> pos[s] <= |inputs[s].run|
    ensures var n := nodes[0];
            && OnFrontier(inputs, pos, n) && CutAt(inputs, pos[n.src := pos[n.src] + 1], Some(n.record.key))
            && |n.record.key| < 0x1_0000 && |ValueBytes(n.record.entry)| < 0x1_0000_0000
    ensures var r := nodes[0].record; var out' := if bottom && r.entry.Tombstone? then out else out + [r];
            SettledUpTo(inputs, bottom, out', Some(r.key)) && Sorted(out')
  {
    hide Frontier, HeapOrdered, CutAt, SettledUpTo, ValidInputs, Sorted;
    var n, r := nodes[0], nodes[0].record;
    RootIsNewest(inputs, pos, nodes, last);
    SettleRoot(inputs, pos, nodes, bottom, out, last);
    CutAdvances(inputs, pos, n.src, r.key);
    SettledIsSorted(inputs, bottom, if bottom && r.entry.Tombstone? then out else out + [r], Some(r.key));
    InputLimits(inputs, n.src, pos[n.src]);
  }

  /** Every finished file has reached the limit, each with its last record only; the open one has not. */
  ghost predicate Filling(runs: seq<seq<Record>>, open: seq<Record>, limit: nat, blockSize: nat, filterBytes: nat) {
    && (forall i :: 0 <= i < |runs| ==> Filled(runs[i], limit, blockSize, filterBytes))
    && (open != [] ==> FileSize(open, blockSize, filterBytes) < limit)
    && (|open| > 1 ==> FileSize(open[..|open| - 1], blockSize, filterBytes) < limit)
  }

  /** Its last record, and no earlier one, has brought the file to the limit. */
  ghost predicate Filled(run: seq<Record>, limit: nat, blockSize: nat, filterBytes: nat) {
    && run != [] && FileSize(run, blockSize, filterBytes) >= limit
    && (|run| > 1 ==> FileSize(run[..|run| - 1], blockSize, filterBytes) < limit)
  }

  lemma FillsUp(runs: seq<seq<Record>>, open: seq<Record>, r: Record, limit: nat, blockSize: nat, filterBytes: nat)
    requires Filling(runs, open, limit, blockSize, filterBytes)
    ensures var run := open + [r];
            if FileSize(run, blockSize, filterBytes) >= limit then Filling(runs + [run], [], limit, blockSize, filterBytes)
            else Filling(runs, run, limit, blockSize, filterBytes)
  {
    hide FileSize;
    assert (open + [r])[..|open|] == open;
  }

  /** Every file but the last has reached the limit, and none had reached it before its last record. */
  ghost predicate SplitBySize(runs: seq<seq<Record>>, limit: nat, blockSize: nat, filterBytes: nat) {
    forall i :: 0 <= i < |runs| ==>
      && runs[i] != []
      && (i < |runs| - 1 ==> FileSize(runs[i], blockSize, filterBytes) >= limit)
      && (|runs[i]| > 1 ==> FileSize(runs[i][..|runs[i]| - 1], blockSize, filterBytes) < limit)
  }

  lemma SplitInTheEnd(runs: seq<seq<Record>>, open: seq<Record>, limit: nat, blockSize: nat, filterBytes: nat)
    requires Filling(runs, open, limit, blockSize, filterBytes)
    ensures SplitBySize(runs + if open == [] then [] else [open], limit, blockSize, filterBytes)
  {
    hide FileSize;
  }

  lemma NothingFilled(limit: nat, blockSize: nat, filterBytes: nat)
    ensures Filling([], [], limit, blockSize, filterBytes)
  {
  }

  /** What holds between two rounds of the merge: the heap is the frontier, and everything up to the last key
      is settled. */
  ghost predicate Merging(inputs: seq<Input>, pos: seq<nat>, nodes: seq<MergeNode>, bottom: bool, out: seq<Record>, last: Option<Bytes>) {
    && Frontier(inputs, pos, multiset(nodes))
    && |pos| == |inputs| && (forall s :: 0 <= s < |inputs| ==> pos[s] <= |inputs[s].run|)
    && CutAt(inputs, pos, last) && SettledUpTo(inputs, bottom, out, last)
  }

  /** One round: the root is skipped, dropped or written, and its input advances. */
  method MergeRoot(state: CompactionState, heap: MergeHeap, inputs: seq<Input>, ghost pos: seq<nat>, isBottomLevel: bool,
                   lastKey: Option<Bytes>)
    returns (lastKey': Option<Bytes>, ghost pos': seq<nat>, written: nat)
    requires ValidInputs(inputs) && heap.Valid() && heap.nodes != [] && state.Valid()
    requires state.currentWriter != null ==> state.currentWriter.run != []
    requires Merging(inputs, pos, heap.nodes, isBottomLevel, state.Out(), lastKey)
    requires state.StillFilling()
    modifies heap, state, state.currentWriter, if state.currentWriter == null then {} else {state.currentWriter.bloomFilter}
    ensures heap.Valid() && state.Valid() && (state.currentWriter != null ==> state.currentWriter.run != [])
    ensures Merging(inputs, pos', heap.nodes, isBottomLevel, state.Out(), lastKey')
    ensures state.StillFilling()
    ensures Remaining(inputs, pos') < Remaining(inputs, pos)
    ensures written <= 1 && |state.Out()| == |old(state.Out())| + written
    ensures state.currentWriter == old(state.currentWriter) || state.currentWriter == null
            || (fresh(state.currentWriter) && fresh(state.currentWriter.bloomFilter))
    ensures state.currentWriter == old(state.currentWriter) != null ==>
              state.currentWriter.bloomFilter == old(state.currentWriter.bloomFilter)
  {
    hide Writer.Valid, FilterBits, FileSize, HeapOrdered, Frontier, Flatten, CutAt, SettledUpTo, ValidInputs, Remaining, Sorted,
      CompactionState.Valid, CompactionState.Out, CompactionState.Open, Filling, OutputFiles;
    var node := heap.nodes[0];
    RootOnFrontier(inputs, pos, heap.nodes);
    RemainingShrinks(inputs, pos, node.src);
    lastKey', written := Some(node.record.key), 0;
    if lastKey == lastKey' {
      SkipDuplicate(inputs, pos, node.src, node.record.key);
    } else {
      SettleNext(inputs, pos, heap.nodes, isBottomLevel, state.Out(), lastKey);
      if !(isBottomLevel && node.record.entry.Tombstone?) {
        FillsUp(state.runs, state.Open(), node.record, state.maxSSTableSize, state.blockSize, state.FilterBytes());
        var err := Emit(state, node.record);
        written := 1;
      }
    }
    pos' := FixOrPop(heap, inputs, pos);
  }

  /** The multi-way merge. Only one id is reserved for the outputs, which count upward from it. */
  method PerformMerge(inputs: seq<Input>, isBottomLevel: bool, nextSegmentID: int, maxSSTableSize: nat, blockSize: nat,
                      estimatedKeys: nat, k: int)
    returns (state: CompactionState, keysWritten: nat)
    requires ValidInputs(inputs) && blockSize > 0
    ensures fresh(state)
    ensures state.Valid()
    ensures state.currentWriter == null
    ensures state.blockSize == blockSize
    ensures Sorted(Flatten(state.runs)) && forall key :: Settled(inputs, isBottomLevel, Flatten(state.runs), key)
    ensures keysWritten == |Flatten(state.runs)|
    ensures state.firstSegmentID == nextSegmentID
    ensures state.nextSegmentID == nextSegmentID + |state.newFilesCreated|
    ensures state.estimatedKeys == estimatedKeys && state.k == k
    ensures SplitBySize(state.runs, maxSSTableSize, blockSize, state.FilterBytes())
  {
    hide Writer.Valid, FilterBits, HeapOrdered, Frontier, Flatten, CutAt, SettledUpTo, Settled, ValidInputs, Remaining, Sorted;
    var heap := InitializeInputs(inputs);
    state := new CompactionState(nextSegmentID, maxSSTableSize, blockSize, estimatedKeys, k);
    ghost var pos: seq<nat> := Zeros(|inputs|);
    ghost var total := Remaining(inputs, pos);
    var lastKey: Option<Bytes> := None;
    keysWritten := 0;
    StartOfMerge(inputs, isBottomLevel);
    NothingFilled(maxSSTableSize, blockSize, state.FilterBytes());
    assert state.Out() == [];
    hide CompactionState.Valid, CompactionState.Out, CompactionState.Open;
    while |heap.nodes| > 0
      invariant fresh(heap) && fresh(state) && heap.Valid() && state.Valid()
      invariant state.currentWriter != null ==>
                  fresh(state.currentWriter) && fresh(state.currentWriter.bloomFilter) && state.currentWriter.run != []
      invariant Merging(inputs, pos, heap.nodes, isBottomLevel, state.Out(), lastKey)
      invariant keysWritten == |state.Out()| && keysWritten + Remaining(inputs, pos) <= total
      invariant state.StillFilling()
      decreases Remaining(inputs, pos)
    {
      var written;
      lastKey, pos, written := MergeRoot(state, heap, inputs, pos, isBottomLevel, lastKey);
      keysWritten := keysWritten + written;
    }
    AllSettled(inputs, pos, isBottomLevel, state.Out(), lastKey);
    SettledIsSorted(inputs, isBottomLevel, state.Out(), lastKey);
    SplitInTheEnd(state.runs, state.Open(), maxSSTableSize, blockSize, state.FilterBytes());
    state.FinalizeWriter();
  }

  lemma StartOfMerge(inputs: seq<Input>, bottom: bool)
    ensures CutAt(inputs, Zeros(|inputs|), None) && Flatten([]) == []
    ensures SettledUpTo(inputs, bottom, [], None)
  {
    var none: seq<Record> := [];
    assert Sorted(none) && Below(none, None);
  }

  lemma SettledIsSorted(inputs: seq<Input>, bottom: bool, out: seq<Record>, last: Option<Bytes>)
    requires SettledUpTo(inputs, bottom, out, last)
    ensures Sorted(out)
  {
  }

  lemma InputLimits(inputs: seq<Input>, s: nat, p: nat)
    requires ValidInputs(inputs) && s < |inputs| && p < |inputs[s].run|
    ensures |inputs[s].run[p].key| < 0x1_0000
    ensures |ValueBytes(inputs[s].run[p].entry)| < 0x1_0000_0000
  {
  }

  // ------------------------------------------------------ the result is the only one possible

  lemma FileSizeGrows(run: seq<Record>, r: Record, blockSize: nat, filterBytes: nat)
    ensures FileSize(run, blockSize, filterBytes) <= FileSize(run + [r], blockSize, filterBytes)
  {
    hide DataBlock, SparseIndex, EncodeEntry, EncodeIndexEntry;
    AppendRecord(run, r, blockSize);
    var index, e := SparseIndex(run, blockSize), IndexEntry(r.key, |DataBlock(run)|);
    assert (index + [e])[..|index|] == index;
  }

  lemma {:induction false} FileSizeOfPrefix(run: seq<Record>, n: nat, blockSize: nat, filterBytes: nat)
    requires n <= |run|
    ensures FileSize(run[..n], blockSize, filterBytes) <= FileSize(run, blockSize, filterBytes)
    decreases |run| - n
  {
    hide FileSize;
    if n == |run| {
      assert run[..n] == run;
    } else {
      assert run[..n + 1] == run[..n] + [run[n]];
      FileSizeGrows(run[..n], run[n], blockSize, filterBytes);
      FileSizeOfPrefix(run, n + 1, blockSize, filterBytes);
    }
  }

  lemma {:induction false} FlattenFirst(runs: seq<seq<Record>>)
    requires runs != []
    ensures Flatten(runs) == runs[0] + Flatten(runs[1..])
    ensures |runs| == 1 ==> Flatten(runs) == runs[0]
  {
    if |runs| == 1 {
      assert runs[..0] == [] && runs[1..] == [];
    } else {
      assert runs[..|runs| - 1][1..] == runs[1..][..|runs| - 2];
      FlattenFirst(runs[..|runs| - 1]);
    }
  }

  /** Of two ways to split the same records, the first file of neither ends sooner. */
  lemma FirstNotShorter(a: seq<seq<Record>>, b: seq<seq<Record>>, limit: nat, blockSize: nat, filterBytes: nat)
    requires a != [] && b != [] && Flatten(a) == Flatten(b)
    requires SplitBySize(a, limit, blockSize, filterBytes) && SplitBySize(b, limit, blockSize, filterBytes)
    ensures |a[0]| >= |b[0]|
  {
    hide FileSize, Flatten;
    FlattenFirst(a);
    FlattenFirst(b);
    if |a[0]| < |b[0]| {
      var n := |a[0]|;
      assert a[0] == Flatten(a)[..n] == Flatten(b)[..n] == b[0][..n];
      var front := b[0][..|b[0]| - 1];
      assert front[..n] == b[0][..n];
      FileSizeOfPrefix(front, n, blockSize, filterBytes);
    }
  }

  /** The records and the limit determine the files. */
  lemma {:induction false} SplitIsUnique(a: seq<seq<Record>>, b: seq<seq<Record>>, limit: nat, blockSize: nat, filterBytes: nat)
    requires Flatten(a) == Flatten(b)
    requires SplitBySize(a, limit, blockSize, filterBytes) && SplitBySize(b, limit, blockSize, filterBytes)
    ensures a == b
    decreases |a|
  {
    hide FileSize;
    if a == [] || b == [] {
      if a != [] { FlattenFirst(a); }
      if b != [] { FlattenFirst(b); }
    } else {
      FirstNotShorter(a, b, limit, blockSize, filterBytes);
      FirstNotShorter(b, a, limit, blockSize, filterBytes);
      FlattenFirst(a);
      FlattenFirst(b);
      var n := |a[0]|;
      assert a[0] == Flatten(a)[..n] && b[0] == Flatten(b)[..n];
      assert Flatten(a[1..]) == Flatten(a)[n..] && Flatten(b[1..]) == Flatten(b)[n..];
      SplitIsUnique(a[1..], b[1..], limit, blockSize, filterBytes);
      assert a == [a[0]] + a[1..] && b == [b[0]] + b[1..];
    }
  }

  lemma SettledAlike(inputs: seq<Input>, bottom: bool, a: seq<Record>, b: seq<Record>, key: Bytes)
    requires Settled(inputs, bottom, a, key) && Settled(inputs, bottom, b, key) && key in RunTable(a)
    ensures key in RunTable(b) && RunTable(b)[key] == RunTable(a)[key]
  {
    hide HoldsNewest, RunTable;
    var i: nat, p: nat :| HoldsNewest(inputs, key, i, p);
    assert i < |inputs| && p < |inputs[i].run| by { HolderIsThere(inputs, key, i, p); }
  }

  lemma HolderIsThere(inputs: seq<Input>, key: Bytes, i: nat, p: nat)
    requires HoldsNewest(inputs, key, i, p)
    ensures i < |inputs| && p < |inputs[i].run|
  {
  }

  /** The inputs and the limit determine what a merge leaves: record by record and file by file. */
  lemma MergeIsDetermined(inputs: seq<Input>, bottom: bool, a: seq<seq<Record>>, b: seq<seq<Record>>,
                          limit: nat, blockSize: nat, filterBytes: nat)
    requires Sorted(Flatten(a)) && forall key :: Settled(inputs, bottom, Flatten(a), key)
    requires Sorted(Flatten(b)) && forall key :: Settled(inputs, bottom, Flatten(b), key)
    requires SplitBySize(a, limit, blockSize, filterBytes) && SplitBySize(b, limit, blockSize, filterBytes)
    ensures a == b
  {
    hide Settled, Sorted, RunTable, SplitBySize, Flatten;
    var ta, tb := RunTable(Flatten(a)), RunTable(Flatten(b));
    forall key | key in ta || key in tb
      ensures key in ta && key in tb && ta[key] == tb[key]
    {
      if key in ta {
        SettledAlike(inputs, bottom, Flatten(a), Flatten(b), key);
      } else {
        SettledAlike(inputs, bottom, Flatten(b), Flatten(a), key);
      }
    }
    assert ta == tb;
    SortedRunsAreCanonical(Flatten(a), Flatten(b));
    SplitIsUnique(a, b, limit, blockSize, filterBytes);
  }
}
