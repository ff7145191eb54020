/** The two levels of sorted files and the search through them (internal/storage/engine.go, searchLevels). */
module Levels {
  import opened ByteStrings
  import opened Tables
  import opened Bloom
  import opened SSTableReader

  /** An open sorted file: the id in its name, its records, and its reloaded filter. */
  datatype SSTable = SSTable(fileID: int, run: seq<Record>, bits: seq<bv8>, numHashes: nat)
  {
    /** Not empty, sorted, and the filter denies none of its keys. */
    ghost predicate Valid() {
      && run != [] && Sorted(run) && (forall i :: 0 <= i < |run| ==> run[i].key != [])
      && bits != [] && forall i :: 0 <= i < |run| ==> MayHold(bits, numHashes, |bits| * 8, run[i].key)
    }

    ghost function Contents(): Table {
      RunTable(run)
    }
  }

  ghost function TablesOf(files: seq<SSTable>): (t: seq<Table>)
    ensures |t| == |files| && forall i :: 0 <= i < |t| ==> t[i] == files[i].Contents()
  {
    seq(|files|, i requires 0 <= i < |files| => files[i].Contents())
  }

  ghost predicate AllValid(files: seq<SSTable>) {
    forall i :: 0 <= i < |files| ==> files[i].Valid()
  }

  /** Level 1: the key ranges ascend and do not overlap. */
  ghost predicate Disjoint(files: seq<SSTable>) {
    forall i, j, p, q :: 0 <= i < j < |files| && 0 <= p < |files[i].run| && 0 <= q < |files[j].run| ==>
      Less(files[i].run[p].key, files[j].run[q].key)
  }

  function Lookup(t: Table, key: Bytes): Option<Entry> {
    if key in t then Some(t[key]) else None
  }

  lemma FilterNeverHides(t: SSTable, key: Bytes)
    requires t.Valid() && key in t.Contents()
    ensures MayHold(t.bits, t.numHashes, |t.bits| * 8, key)
  {
    RunTableKeys(t.run, key);
  }

  /** A file whose keys all lie on one side of a key does not hold it. */
  lemma OutOfRange(t: SSTable, key: Bytes)
    requires t.Valid() && (Less(t.run[|t.run| - 1].key, key) || Less(key, t.run[0].key))
    ensures key !in t.Contents()
  {
    LessIsStrictTotalOrder();
    RunTableKeys(t.run, key);
    forall i | 0 <= i < |t.run|
      ensures t.run[i].key != key
    {
      assert i > 0 ==> Less(t.run[0].key, t.run[i].key);
      assert i < |t.run| - 1 ==> Less(t.run[i].key, t.run[|t.run| - 1].key);
    }
  }

  /** sort.Search over MaxKey: the first file that does not end below the key. */
  method FirstNotBelow(files: seq<SSTable>, key: Bytes) returns (index: nat)
    requires AllValid(files) && Disjoint(files)
    ensures index <= |files|
    ensures forall i :: 0 <= i < index ==> Less(files[i].run[|files[i].run| - 1].key, key)
    ensures index < |files| ==> !Less(files[index].run[|files[index].run| - 1].key, key)
  {
    hide Less, MayHold, RunTable;
    var low, high := 0, |files|;
    while low < high
      invariant 0 <= low <= high <= |files|
      invariant forall i :: 0 <= i < low ==> Less(files[i].run[|files[i].run| - 1].key, key)
      invariant high < |files| ==> !Less(files[high].run[|files[high].run| - 1].key, key)
    {
      var mid := (low + high) / 2;
      if !Less(files[mid].run[|files[mid].run| - 1].key, key) {
        high := mid;
      } else {
        forall i | 0 <= i < mid
          ensures Less(files[i].run[|files[i].run| - 1].key, key)
        {
          LessTransitive(files[i].run[|files[i].run| - 1].key, files[mid].run[|files[mid].run| - 1].key, key);
        }
        low := mid + 1;
      }
    }
    index := low;
  }

  /** Only the file found by the binary search can hold the key. */
  lemma OnlyCandidate(files: seq<SSTable>, key: Bytes, index: nat)
    requires AllValid(files) && Disjoint(files) && index <= |files|
    requires forall i :: 0 <= i < index ==> Less(files[i].run[|files[i].run| - 1].key, key)
    requires index < |files| ==> !Less(files[index].run[|files[index].run| - 1].key, key)
    ensures forall i :: 0 <= i < |files| && i != index ==> key !in files[i].Contents()
  {
    forall i | 0 <= i < |files| && i != index
      ensures key !in files[i].Contents()
    {
      if index < i {
        var last := files[index].run[|files[index].run| - 1].key;
        assert Less(last, files[i].run[0].key);
        LessTotal(last, key);
        if last != key {
          LessTransitive(key, last, files[i].run[0].key);
        }
      }
      OutOfRange(files[i], key);
    }
  }

  lemma OverlayLookup(tables: seq<Table>, key: Bytes, i: nat)
    requires i <= |tables| && (forall j :: 0 <= j < i ==> key !in tables[j])
    ensures i < |tables| && key in tables[i] ==> Lookup(Overlay(tables), key) == Some(tables[i][key])
    ensures (forall j :: i <= j < |tables| ==> key !in tables[j]) ==> Lookup(Overlay(tables), key) == None
  {
    OverlayAt(tables, key);
  }

  /** Filters on both levels and a binary search on level 1 answer what an unfiltered
      newest-first search of all files would. */
  method SearchLevels(level0: seq<SSTable>, level1: seq<SSTable>, key: Bytes) returns (entry: Option<Entry>, probed: nat)
    requires AllValid(level0) && AllValid(level1) && Disjoint(level1)
    ensures entry == Lookup(Overlay(TablesOf(level0) + TablesOf(level1)), key)
    ensures probed <= |level0| + 1
  {
    hide MayHold, Disjoint, Sorted, Overlay, RunTable, Less;
    probed := 0;
    ghost var tables := TablesOf(level0) + TablesOf(level1);
    for i := 0 to |level0|
      invariant probed == i && forall j :: 0 <= j < i ==> key !in tables[j]
    {
      probed := probed + 1;
      if key in level0[i].Contents() {
        FilterNeverHides(level0[i], key);
      }
      if MayContain(level0[i], key) {
        var found := Find(level0[i].run, key);
        if found.Some? {
          OverlayLookup(tables, key, i);
          return found, probed;
        }
      }
    }
    if |level1| > 0 {
      var index := FirstNotBelow(level1, key);
      OnlyCandidate(level1, key, index);
      assert forall j :: 0 <= j < |level0| + index && j < |tables| ==> key !in tables[j];
      if index < |level1| {
        var t := level1[index];
        assert tables[|level0| + index] == t.Contents();
        if !Less(key, t.run[0].key) {
          probed := probed + 1;
          if key in t.Contents() {
            FilterNeverHides(t, key);
          }
          if MayContain(t, key) {
            var found := Find(t.run, key);
            if found.Some? {
              OverlayLookup(tables, key, |level0| + index);
              return found, probed;
            }
          }
        } else {
          OutOfRange(t, key);
        }
      }
    }
    OverlayLookup(tables, key, |level0|);
    return None, probed;
  }

  predicate MayContain(t: SSTable, key: Bytes)
    requires t.Valid()
  {
    MayHold(t.bits, t.numHashes, |t.bits| * 8, key)
  }
}
