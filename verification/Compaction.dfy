/** What a compaction does to the meaning of the levels (internal/storage/workers.go:200-338). */
module Compaction {
  import opened ByteStrings
  import opened Tables
  import opened Bloom
  import opened SSTableFormat
  import opened SSTableWriter
  import opened Levels
  import opened Compactor
  import opened EngineModel

  /** collectCompactionInputs: every file of both levels, in slice order, with the id of its name. */
  function InputsOf(files: seq<SSTable>): (inputs: seq<Input>)
    ensures |inputs| == |files| && forall i :: 0 <= i < |files| ==> inputs[i] == Input(files[i].run, files[i].fileID)
  {
    seq(|files|, i requires 0 <= i < |files| => Input(files[i].run, files[i].fileID))
  }

  function RunsOf(files: seq<SSTable>): (runs: seq<seq<Record>>)
    ensures |runs| == |files| && forall i :: 0 <= i < |files| ==> runs[i] == files[i].run
  {
    seq(|files|, i requires 0 <= i < |files| => files[i].run)
  }

  /** The files a merge of the inputs at the bottom level leaves. */
  ghost predicate MergedFrom(inputs: seq<SSTable>, outputs: seq<SSTable>) {
    && AllValid(outputs) && Sorted(Flatten(RunsOf(outputs)))
    && forall key :: Settled(InputsOf(inputs), true, Flatten(RunsOf(outputs)), key)
  }

  ghost predicate DistinctIds(files: seq<SSTable>) {
    forall i, j :: 0 <= i < j < |files| ==> files[i].fileID != files[j].fileID
  }

  /** What a reader sees of an entry. */
  function Visible(e: Entry): Option<Bytes> {
    match e
    case Put(v) => Some(v)
    case Tombstone => None
  }

  ghost predicate FirstHolder(files: seq<SSTable>, key: Bytes, i: nat) {
    i < |files| && key in files[i].Contents() && forall j :: 0 <= j < i ==> key !in files[j].Contents()
  }

  ghost predicate LargestIdHolder(files: seq<SSTable>, key: Bytes, i: nat) {
    && i < |files| && key in files[i].Contents()
    && forall j :: 0 <= j < |files| && key in files[j].Contents() ==> files[j].fileID <= files[i].fileID
  }

  /** The file that readers ask first and the file with the largest id show the same of a key. */
  ghost predicate IdsAgree(files: seq<SSTable>, key: Bytes) {
    forall i: nat, j: nat :: FirstHolder(files, key, i) && LargestIdHolder(files, key, j) ==>
      Visible(files[i].Contents()[key]) == Visible(files[j].Contents()[key])
  }

  /** On shared keys, larger ids come first in slice order: what the merge takes for granted. */
  ghost predicate IdsFollowRecency(files: seq<SSTable>) {
    forall i, j, key :: 0 <= i < j < |files| && key in files[i].Contents() && key in files[j].Contents() ==>
      files[i].fileID > files[j].fileID
  }

  lemma RecencyImpliesAgreement(files: seq<SSTable>, key: Bytes)
    requires IdsFollowRecency(files)
    ensures IdsAgree(files, key)
  {
    forall i: nat, j: nat | FirstHolder(files, key, i) && LargestIdHolder(files, key, j)
      ensures i == j
    {
    }
  }

  lemma HolderPlace(files: seq<SSTable>, key: Bytes, j: nat) returns (p: nat)
    requires AllValid(files) && LargestIdHolder(files, key, j)
    ensures HoldsNewest(InputsOf(files), key, j, p)
    ensures files[j].run[p].entry == files[j].Contents()[key]
  {
    RunTableKeys(files[j].run, key);
    p :| 0 <= p < |files[j].run| && files[j].run[p].key == key;
    RunTableAt(files[j].run, p);
    forall i, q | 0 <= i < |files| && 0 <= q < |files[i].run| && files[i].run[q].key == key
      ensures files[i].fileID <= files[j].fileID
    {
      RunTableKeys(files[i].run, key);
    }
  }

  lemma LargestIdExists(files: seq<SSTable>, key: Bytes, n: nat) returns (j: nat)
    requires n <= |files| && exists i :: 0 <= i < n && key in files[i].Contents()
    ensures LargestIdHolder(files[..n], key, j)
    decreases n
  {
    if i :| 0 <= i < n - 1 && key in files[i].Contents() {
      var k := LargestIdExists(files, key, n - 1);
      j := if key in files[n - 1].Contents() && files[n - 1].fileID > files[k].fileID then n - 1 else k;
    } else {
      j := n - 1;
    }
  }

  lemma {:induction false} FirstHolderExists(files: seq<SSTable>, key: Bytes, n: nat) returns (i: nat)
    requires n < |files| && key in files[n].Contents()
    ensures FirstHolder(files, key, i)
    decreases n
  {
    if m :| 0 <= m < n && key in files[m].Contents() {
      i := FirstHolderExists(files, key, m);
    } else {
      i := n;
    }
  }

  /** What the merged output shows of a key is what the file with the largest id shows. */
  lemma MergeShowsLargestId(files: seq<SSTable>, out: seq<Record>, key: Bytes, j: nat)
    requires AllValid(files) && Settled(InputsOf(files), true, out, key) && LargestIdHolder(files, key, j)
    ensures Visible(files[j].Contents()[key]) == if key in Live(RunTable(out)) then Some(Live(RunTable(out))[key]) else None
  {
    hide RunTable;
    var p := HolderPlace(files, key, j);
  }

  lemma MergeShowsNothingNew(files: seq<SSTable>, out: seq<Record>, key: Bytes)
    requires Settled(InputsOf(files), true, out, key)
    requires forall i :: 0 <= i < |files| ==> key !in files[i].Contents()
    ensures key !in RunTable(out)
  {
    if key in RunTable(out) {
      var i: nat, p: nat :| HoldsNewest(InputsOf(files), key, i, p);
      RunTableKeys(files[i].run, key);
    }
  }

  /** What the levels show of a key is what the first file that holds it shows. */
  lemma OverlayShowsFirst(files: seq<SSTable>, key: Bytes, i: nat)
    requires FirstHolder(files, key, i)
    ensures Visible(files[i].Contents()[key]) ==
            if key in Live(Overlay(TablesOf(files))) then Some(Live(Overlay(TablesOf(files)))[key]) else None
  {
    hide RunTable;
    OverlayAt(TablesOf(files), key);
  }

  /** Key by key: merge and levels agree exactly when first file and largest id do. */
  lemma MergeAgreesAt(files: seq<SSTable>, out: seq<Record>, key: Bytes)
    requires AllValid(files) && DistinctIds(files) && Settled(InputsOf(files), true, out, key)
    ensures IdsAgree(files, key) <==>
            (key in Live(RunTable(out)) <==> key in Live(Overlay(TablesOf(files))))
            && (key in Live(RunTable(out)) ==> key in Live(Overlay(TablesOf(files))) && Live(RunTable(out))[key] == Live(Overlay(TablesOf(files)))[key])
  {
    hide RunTable, Overlay, Live, Settled;
    if n :| 0 <= n < |files| && key in files[n].Contents() {
      var i := FirstHolderExists(files, key, n);
      var j := LargestIdExists(files, key, |files|);
      assert files[..|files|] == files;
      MergeShowsLargestId(files, out, key, j);
      OverlayShowsFirst(files, key, i);
      AgreementIsAt(files, key, i, j);
    } else {
      MergeShowsNothingNew(files, out, key);
      NothingShown(files, out, key);
    }
  }

  lemma NothingShown(files: seq<SSTable>, out: seq<Record>, key: Bytes)
    requires key !in RunTable(out) && forall i :: 0 <= i < |files| ==> key !in files[i].Contents()
    ensures key !in Live(RunTable(out))
    ensures key !in Live(Overlay(TablesOf(files)))
    ensures IdsAgree(files, key)
  {
    OverlayAt(TablesOf(files), key);
  }

  lemma AgreementIsAt(files: seq<SSTable>, key: Bytes, i: nat, j: nat)
    requires DistinctIds(files) && FirstHolder(files, key, i) && LargestIdHolder(files, key, j)
    ensures IdsAgree(files, key) <==> Visible(files[i].Contents()[key]) == Visible(files[j].Contents()[key])
  {
    if Visible(files[i].Contents()[key]) == Visible(files[j].Contents()[key]) {
      forall a: nat, b: nat | FirstHolder(files, key, a) && LargestIdHolder(files, key, b)
        ensures Visible(files[a].Contents()[key]) == Visible(files[b].Contents()[key])
      {
        assert a == i;
        assert files[b].fileID == files[j].fileID;
      }
    }
  }

  lemma {:induction false} RunTableOfConcatenation(a: seq<Record>, b: seq<Record>)
    ensures RunTable(a + b) == RunTable(a) + RunTable(b)
  {
    ReplayOfConcatenation(map[], a, b);
    ReplayIsOverlay(RunTable(a), b);
  }

  /** Output files that ascend without overlap overlay to the table of the whole output. */
  lemma {:induction false} OutputsOverlay(outputs: seq<SSTable>)
    requires Sorted(Flatten(RunsOf(outputs)))
    ensures Overlay(TablesOf(outputs)) == RunTable(Flatten(RunsOf(outputs)))
    decreases |outputs|
  {
    if outputs != [] {
      var m := |outputs| - 1;
      var front, last := outputs[..m], outputs[m];
      hide RunTable, Sorted, Less;
      var runs, lastRun := Flatten(RunsOf(front)), last.run;
      RunsOfLast(outputs);
      SortedPrefix(runs, lastRun);
      OutputsOverlay(front);
      OverlayOfConcatenation(TablesOf(front), [last.Contents()]);
      RunTableOfConcatenation(runs, lastRun);
      KeysApart(runs, lastRun);
    }
  }

  lemma RunsOfLast(outputs: seq<SSTable>)
    requires outputs != []
    ensures var m := |outputs| - 1;
            Flatten(RunsOf(outputs)) == Flatten(RunsOf(outputs[..m])) + outputs[m].run
            && TablesOf(outputs) == TablesOf(outputs[..m]) + [outputs[m].Contents()]
  {
    assert RunsOf(outputs)[..|outputs| - 1] == RunsOf(outputs[..|outputs| - 1]);
  }

  lemma SortedPrefix(a: seq<Record>, b: seq<Record>)
    requires Sorted(a + b)
    ensures Sorted(a)
  {
    hide Less;
    forall i, j | 0 <= i < j < |a|
      ensures Less(a[i].key, a[j].key)
    {
      assert (a + b)[i] == a[i] && (a + b)[j] == a[j];
    }
  }

  /** In a sorted run no key is on both sides of a cut. */
  lemma KeysApart(a: seq<Record>, b: seq<Record>)
    requires Sorted(a + b)
    ensures RunTable(a) + RunTable(b) == RunTable(b) + RunTable(a)
  {
    forall key | key in RunTable(a)
      ensures key !in RunTable(b)
    {
      RunTableKeys(a, key);
      RunTableKeys(b, key);
      var i :| 0 <= i < |a| && a[i].key == key;
      forall j | 0 <= j < |b|
        ensures b[j].key != key
      {
        assert (a + b)[i] == a[i] && (a + b)[|a| + j] == b[j];
        LessTotal(key, key);
      }
    }
  }

  /** A compaction shows what its inputs showed exactly when, for every key, the file that readers
      ask first and the file with the largest id show the same. */
  lemma CompactionKeepsMeaningIff(inputs: seq<SSTable>, outputs: seq<SSTable>)
    requires AllValid(inputs) && DistinctIds(inputs) && MergedFrom(inputs, outputs)
    ensures Live(Overlay(TablesOf(outputs))) == Live(Overlay(TablesOf(inputs))) <==> forall key :: IdsAgree(inputs, key)
  {
    hide Settled, IdsAgree, RunTable, Overlay, Live, AllValid, DistinctIds;
    OutputsOverlay(outputs);
    var out := Flatten(RunsOf(outputs));
    var l, r := Live(RunTable(out)), Live(Overlay(TablesOf(inputs)));
    forall key
      ensures IdsAgree(inputs, key) <==> (key in l <==> key in r) && (key in l ==> key in r && l[key] == r[key])
    {
      MergeAgreesAt(inputs, out, key);
    }
    if forall key :: IdsAgree(inputs, key) {
      assert l == r;
    }
  }

  /** In particular when larger ids come first on shared keys. */
  lemma CompactionKeepsMeaning(inputs: seq<SSTable>, outputs: seq<SSTable>)
    requires AllValid(inputs) && DistinctIds(inputs) && MergedFrom(inputs, outputs) && IdsFollowRecency(inputs)
    ensures Live(Overlay(TablesOf(outputs))) == Live(Overlay(TablesOf(inputs)))
  {
    forall key
      ensures IdsAgree(inputs, key)
    {
      RecencyImpliesAgreement(inputs, key);
    }
    CompactionKeepsMeaningIff(inputs, outputs);
  }

  // -------------------------------------------------------------- the files of the merge

  /** The file with these bytes holds this table's records and its filter. */
  ghost predicate Stores(bytes: Bytes, t: SSTable, blockSize: nat) {
    t.numHashes <= 30 && bytes == FileOf(t.run, blockSize, BytesOf(t.bits), t.numHashes)
  }

  /** A written file, read as a table: its filter denies none of its keys once the bits fill whole bytes. */
  lemma ReadAsTable(file: Output, run: seq<Record>, blockSize: nat, filterBits: nat, numHashes: nat) returns (t: SSTable)
    requires Written(file.bytes, run, blockSize, filterBits, numHashes)
    requires run != [] && Sorted(run) && forall i :: 0 <= i < |run| ==> run[i].key != []
    ensures t.run == run && t.fileID == file.segmentID && Stores(file.bytes, t, blockSize)
    ensures t.numHashes == numHashes && |t.bits| == (filterBits + 7) / 8
    ensures filterBits % 8 == 0 ==> t.Valid()
  {
    hide FileOf, HoldsExactly, MayHold, Sorted;
    var bits: seq<bv8> :|
      FilterOf(bits, numHashes, filterBits, run) && file.bytes == FileOf(run, blockSize, BytesOf(bits), numHashes);
    t := SSTable(file.segmentID, run, bits, numHashes);
    if filterBits % 8 == 0 {
      forall i | 0 <= i < |run|
        ensures MayHold(bits, numHashes, |bits| * 8, run[i].key)
      {
        NoFalseNegativeAfterReload(bits, numHashes, filterBits, KeysOf(run), run[i].key);
      }
    }
  }

  /** Every key of the output is one of the inputs. */
  lemma OutputKeyed(inputs: seq<SSTable>, out: seq<Record>, i: nat)
    requires AllValid(inputs) && i < |out| && Settled(InputsOf(inputs), true, out, out[i].key)
    ensures out[i].key != []
  {
    RunTableKeys(out, out[i].key);
    var j: nat, p: nat :| HoldsNewest(InputsOf(inputs), out[i].key, j, p);
    assert inputs[j].Valid() && inputs[j].run[p].key == out[i].key;
  }

  lemma RunKeyed(inputs: seq<SSTable>, runs: seq<seq<Record>>, i: nat)
    requires AllValid(inputs) && i < |runs|
    requires forall key :: Settled(InputsOf(inputs), true, Flatten(runs), key)
    ensures forall p :: 0 <= p < |runs[i]| ==> runs[i][p].key != []
  {
    hide Settled;
    forall p | 0 <= p < |runs[i]|
      ensures runs[i][p].key != []
    {
      var place := InFlattened(runs, i, p);
      OutputKeyed(inputs, Flatten(runs), place);
    }
  }

  /** Read as tables, the files that the merge loop leaves are merged from the inputs in the sense in which
      the engine commits them, under ids that count upward from the reserved one. */
  lemma MergeYieldsMerged(inputs: seq<SSTable>, files: seq<Output>, runs: seq<seq<Record>>, first: int, blockSize: nat, filterBits: nat,
                          numHashes: nat)
    returns (outputs: seq<SSTable>)
    requires AllValid(inputs) && OutputFiles(files, runs, first, blockSize, filterBits, numHashes)
    requires Sorted(Flatten(runs)) && forall key :: Settled(InputsOf(inputs), true, Flatten(runs), key)
    ensures RunsOf(outputs) == runs && |outputs| == |files|
    ensures filterBits % 8 == 0 ==> MergedFrom(inputs, outputs)
    ensures forall i :: 0 <= i < |outputs| ==> outputs[i].fileID == first + i && Stores(files[i].bytes, outputs[i], blockSize)
    ensures forall i :: 0 <= i < |outputs| ==> outputs[i].numHashes == numHashes && |outputs[i].bits| == (filterBits + 7) / 8
  {
    hide Written, Settled, SSTable.Valid, Stores, Sorted;
    SegmentsAscend(runs);
    outputs := [];
    for i := 0 to |runs|
      invariant |outputs| == i && (filterBits % 8 == 0 ==> AllValid(outputs))
      invariant forall j :: 0 <= j < i ==>
                  outputs[j].run == runs[j] && outputs[j].fileID == first + j && Stores(files[j].bytes, outputs[j], blockSize)
                  && outputs[j].numHashes == numHashes && |outputs[j].bits| == (filterBits + 7) / 8
    {
      RunKeyed(inputs, runs, i);
      var t := ReadAsTable(files[i], runs[i], blockSize, filterBits, numHashes);
      outputs := outputs + [t];
    }
    assert RunsOf(outputs) == runs;
  }

  /** The compaction of every file of both levels. */
  method RunCompaction(inputs: seq<SSTable>, firstID: int, maxSSTableSize: nat, blockSize: nat, estimatedKeys: nat, k: int)
    returns (state: CompactionState, ghost outputs: seq<SSTable>)
    requires ValidInputs(InputsOf(inputs)) && AllValid(inputs) && blockSize > 0
    ensures Sorted(Flatten(RunsOf(outputs))) && forall key :: Settled(InputsOf(inputs), true, Flatten(RunsOf(outputs)), key)
    ensures |outputs| == |state.newFilesCreated| && (FilterBits(estimatedKeys) % 8 == 0 ==> MergedFrom(inputs, outputs))
    ensures forall i :: 0 <= i < |outputs| ==>
              outputs[i].fileID == firstID + i && Stores(state.newFilesCreated[i].bytes, outputs[i], blockSize)
              && outputs[i].numHashes == Probes(k) && |outputs[i].bits| == (FilterBits(estimatedKeys) + 7) / 8
    ensures state.nextSegmentID == firstID + |outputs|
    ensures SplitBySize(RunsOf(outputs), maxSSTableSize, blockSize, (FilterBits(estimatedKeys) + 7) / 8)
  {
    hide ValidInputs, AllValid, Remaining, Settled, MergedFrom, Stores, FilterBits, Probes, SplitBySize;
    var written;
    state, written := PerformMerge(InputsOf(inputs), true, firstID, maxSSTableSize, blockSize, estimatedKeys, k);
    outputs := MergeYieldsMerged(inputs, state.newFilesCreated, state.runs, firstID, blockSize, FilterBits(estimatedKeys), Probes(k));
  }
}
