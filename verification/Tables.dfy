/** What the physical layers of the storage engine mean: entries, tables, sorted runs,
    their overlay, and the plain map a user of the database sees. */
module Tables {
  import opened ByteStrings

  datatype Option<+T> = None | Some(value: T)

  /** A tombstone hides every older entry of its key. */
  datatype Entry = Put(value: Bytes) | Tombstone

  function EntryOf(value: Bytes, isDeleted: bool): Entry {
    if isDeleted then Tombstone else Put(value)
  }

  /** One operation of a batch, one record of the log, one entry of a sorted file. */
  datatype Record = Record(key: Bytes, entry: Entry)

  type Table = map<Bytes, Entry>
  type Contents = map<Bytes, Bytes>

  /** Tables given newest first: the newest entry of a key wins. */
  function Overlay(tables: seq<Table>): Table {
    if tables == [] then map[] else Overlay(tables[1..]) + tables[0]
  }

  /** The plain map a table stands for when nothing lies below it. */
  function Live(t: Table): Contents {
    map k | k in t && t[k].Put? :: t[k].value
  }

  /** Operations applied to a table that keeps tombstones (a memtable). */
  function Replay(t: Table, ops: seq<Record>): Table {
    if ops == [] then t
    else Replay(t, ops[..|ops| - 1])[ops[|ops| - 1].key := ops[|ops| - 1].entry]
  }

  /** The same operations on a plain map: the reference semantics of the database. */
  function Write(c: Contents, ops: seq<Record>): Contents {
    if ops == [] then c
    else
      var rest, op := Write(c, ops[..|ops| - 1]), ops[|ops| - 1];
      match op.entry
      case Put(v) => rest[op.key := v]
      case Tombstone => rest - {op.key}
  }

  /** The last operation on a key, if any. */
  function LastWrite(ops: seq<Record>, key: Bytes): Option<Entry> {
    if ops == [] then None
    else if ops[|ops| - 1].key == key then Some(ops[|ops| - 1].entry)
    else LastWrite(ops[..|ops| - 1], key)
  }

  lemma {:induction false} ReplayAt(t: Table, ops: seq<Record>, key: Bytes)
    ensures match LastWrite(ops, key)
            case Some(e) => key in Replay(t, ops) && Replay(t, ops)[key] == e
            case None => (key in Replay(t, ops) <==> key in t) && (key in t ==> Replay(t, ops)[key] == t[key])
  {
    if ops != [] {
      ReplayAt(t, ops[..|ops| - 1], key);
    }
  }

  lemma {:induction false} WriteAt(c: Contents, ops: seq<Record>, key: Bytes)
    ensures match LastWrite(ops, key)
            case Some(Put(v)) => key in Write(c, ops) && Write(c, ops)[key] == v
            case Some(Tombstone) => key !in Write(c, ops)
            case None => (key in Write(c, ops) <==> key in c) && (key in c ==> Write(c, ops)[key] == c[key])
  {
    if ops != [] {
      WriteAt(c, ops[..|ops| - 1], key);
    }
  }

  lemma {:induction false} LastWriteOfConcatenation(a: seq<Record>, b: seq<Record>, key: Bytes)
    ensures LastWrite(a + b, key) == if LastWrite(b, key).Some? then LastWrite(b, key) else LastWrite(a, key)
  {
    if b == [] {
      assert a + b == a;
    } else {
      assert (a + b)[..|a + b| - 1] == a + b[..|b| - 1];
      LastWriteOfConcatenation(a, b[..|b| - 1], key);
    }
  }

  lemma LastWriteMember(ops: seq<Record>, key: Bytes)
    ensures LastWrite(ops, key).Some? <==> exists i :: 0 <= i < |ops| && ops[i].key == key
  {
    if ops != [] {
      LastWriteMember(ops[..|ops| - 1], key);
    }
  }

  /** A memtable over older layers means those layers with the operations written to them. */
  lemma ReplayOverBase(base: Table, t: Table, ops: seq<Record>)
    ensures Live(base + Replay(t, ops)) == Write(Live(base + t), ops)
  {
    var l, r := Live(base + Replay(t, ops)), Write(Live(base + t), ops);
    forall k
      ensures k in l <==> k in r
      ensures k in l ==> l[k] == r[k]
    {
      ReplayAt(t, ops, k);
      WriteAt(Live(base + t), ops, k);
    }
    assert l == r;
  }

  lemma WriteOfConcatenation(c: Contents, a: seq<Record>, b: seq<Record>)
    ensures Write(c, a + b) == Write(Write(c, a), b)
  {
    var l, r := Write(c, a + b), Write(Write(c, a), b);
    forall k
      ensures k in l <==> k in r
      ensures k in l ==> l[k] == r[k]
    {
      LastWriteOfConcatenation(a, b, k);
      WriteAt(c, a + b, k);
      WriteAt(c, a, k);
      WriteAt(Write(c, a), b, k);
    }
    assert l == r;
  }

  lemma {:induction false} ReplayOfConcatenation(t: Table, a: seq<Record>, b: seq<Record>)
    ensures Replay(t, a + b) == Replay(Replay(t, a), b)
  {
    if b == [] {
      assert a + b == a;
    } else {
      assert (a + b)[..|a + b| - 1] == a + b[..|b| - 1];
      ReplayOfConcatenation(t, a, b[..|b| - 1]);
    }
  }

  /** A memtable only adds to what lies below it. */
  lemma {:induction false} ReplayIsOverlay(t: Table, ops: seq<Record>)
    ensures Replay(t, ops) == t + Replay(map[], ops)
  {
    if ops != [] {
      ReplayIsOverlay(t, ops[..|ops| - 1]);
    }
  }

  /** Replaying the same operations once more changes nothing. */
  lemma WriteIsIdempotent(c: Contents, ops: seq<Record>)
    ensures Write(Write(c, ops), ops) == Write(c, ops)
  {
    var l, r := Write(Write(c, ops), ops), Write(c, ops);
    forall k
      ensures k in l <==> k in r
      ensures k in l ==> l[k] == r[k]
    {
      WriteAt(c, ops, k);
      WriteAt(Write(c, ops), ops, k);
    }
    assert l == r;
  }

  /** Replaying a suffix of a history over a state that already holds part of that suffix
      is harmless: it gives the whole history. */
  lemma SuffixReplayIsHarmless(c: Contents, history: seq<Record>, from: nat, upTo: nat)
    requires from <= upTo <= |history|
    ensures Write(Write(c, history[..upTo]), history[from..]) == Write(c, history)
  {
    var a, b, d := history[..from], history[from..upTo], history[upTo..];
    var start := Write(c, a);
    assert history[..upTo] == a + b && history[from..] == b + d && history == (a + b) + d;
    WriteOfConcatenation(c, a, b);
    WriteOfConcatenation(Write(start, b), b, d);
    WriteIsIdempotent(start, b);
    WriteOfConcatenation(c, a + b, d);
  }

  lemma {:induction false} OverlayOfConcatenation(a: seq<Table>, b: seq<Table>)
    ensures Overlay(a + b) == Overlay(b) + Overlay(a)
  {
    if a == [] {
      assert a + b == b;
    } else {
      assert (a + b)[1..] == a[1..] + b;
      OverlayOfConcatenation(a[1..], b);
    }
  }

  /** Only the live part of the bottom layers matters. */
  lemma LiveBottomSuffices(b: Table, b': Table, t: Table)
    requires Live(b) == Live(b')
    ensures Live(b + t) == Live(b' + t)
  {
    forall k
      ensures k in Live(b + t) <==> k in Live(b' + t)
      ensures k in Live(b + t) ==> Live(b + t)[k] == Live(b' + t)[k]
    {
      assert k in Live(b) <==> k in Live(b');
    }
    assert Live(b + t) == Live(b' + t);
  }

  /** The entry an overlay has for a key is that of the first table that holds it. */
  lemma {:induction false} OverlayAt(tables: seq<Table>, key: Bytes)
    ensures key in Overlay(tables) <==> exists i :: 0 <= i < |tables| && key in tables[i]
    ensures forall i :: 0 <= i < |tables| && key in tables[i] && (forall j :: 0 <= j < i ==> key !in tables[j])
              ==> key in Overlay(tables) && Overlay(tables)[key] == tables[i][key]
  {
    if tables != [] {
      OverlayAt(tables[1..], key);
      forall i | 0 <= i < |tables| && key in tables[i] && (forall j :: 0 <= j < i ==> key !in tables[j])
        ensures key in Overlay(tables)
        ensures Overlay(tables)[key] == tables[i][key]
      {
        if i > 0 {
          assert tables[1..][i - 1] == tables[i];
          assert forall j :: 0 <= j < i - 1 ==> tables[1..][j] == tables[j + 1];
        }
      }
      if key in Overlay(tables) && key !in tables[0] {
        var i :| 0 <= i < |tables[1..]| && key in tables[1..][i];
        assert key in tables[i + 1];
      }
      if i :| 0 <= i < |tables| && key in tables[i] {
        if i > 0 {
          assert tables[1..][i - 1] == tables[i];
        }
      }
    }
  }

  // ---------------------------------------------------------------- sorted runs

  /** Strictly ascending keys. */
  ghost predicate Sorted(run: seq<Record>) {
    forall i, j :: 0 <= i < j < |run| ==> Less(run[i].key, run[j].key)
  }

  function RunTable(run: seq<Record>): Table {
    Replay(map[], run)
  }

  lemma RunTableAt(run: seq<Record>, i: nat)
    requires Sorted(run) && i < |run|
    ensures run[i].key in RunTable(run)
    ensures RunTable(run)[run[i].key] == run[i].entry
  {
    LessIsStrictTotalOrder();
    if i < |run| - 1 {
      RunTableAt(run[..|run| - 1], i);
      assert Less(run[i].key, run[|run| - 1].key);
    }
  }

  lemma RunTableKeys(run: seq<Record>, key: Bytes)
    ensures key in RunTable(run) <==> exists i :: 0 <= i < |run| && run[i].key == key
  {
    ReplayAt(map[], run, key);
    LastWriteMember(run, key);
  }

  /** A sorted run holds a key at one place only, which decides the lookup. */
  lemma RunLookup(run: seq<Record>, key: Bytes, p: nat)
    requires Sorted(run) && p <= |run|
    requires forall i :: 0 <= i < p ==> Less(run[i].key, key)
    requires p < |run| ==> !Less(run[p].key, key)
    ensures key in RunTable(run) <==> p < |run| && run[p].key == key
    ensures p < |run| && run[p].key == key ==> RunTable(run)[key] == run[p].entry
  {
    LessIsStrictTotalOrder();
    RunTableKeys(run, key);
    if p < |run| && run[p].key == key {
      RunTableAt(run, p);
    } else {
      forall i | 0 <= i < |run|
        ensures run[i].key != key
      {
        if p < i {
          assert Less(run[p].key, run[i].key);
        }
      }
    }
  }

  /** The part of a run from the first key at or above `start`. */
  function FromKey(run: seq<Record>, start: Bytes): seq<Record> {
    if run == [] || !Less(run[0].key, start) then run else FromKey(run[1..], start)
  }

  lemma {:induction false} FromKeyAt(run: seq<Record>, start: Bytes, p: nat)
    requires p <= |run| && (forall i :: 0 <= i < p ==> Less(run[i].key, start))
    requires p < |run| ==> !Less(run[p].key, start)
    ensures FromKey(run, start) == run[p..]
  {
    if p > 0 {
      FromKeyAt(run[1..], start, p - 1);
      assert run[1..][p - 1..] == run[p..];
    }
  }

  /** On a sorted run it is exactly the records at or above `start`, in order. */
  lemma FromKeySelects(run: seq<Record>, start: Bytes) returns (p: nat)
    requires Sorted(run)
    ensures p <= |run| && FromKey(run, start) == run[p..]
    ensures forall i :: 0 <= i < |run| ==> (i < p <==> Less(run[i].key, start))
  {
    p := 0;
    while p < |run| && Less(run[p].key, start)
      invariant p <= |run| && forall i :: 0 <= i < p ==> Less(run[i].key, start)
    {
      p := p + 1;
    }
    FromKeyAt(run, start, p);
    forall i | p < i < |run|
      ensures !Less(run[i].key, start)
    {
      if Less(run[i].key, start) {
        LessTransitive(run[p].key, run[i].key, start);
      }
    }
  }

  /** Changing the entry of a key in place ... */
  lemma TableOfUpdate(run: seq<Record>, p: nat, r: Record)
    requires p < |run| && Sorted(run) && run[p].key == r.key
    ensures RunTable(run[p := r]) == RunTable(run)[r.key := r.entry]
  {
    LessIsStrictTotalOrder();
    forall i | p < i < |run|
      ensures run[i].key != r.key
    {
      assert Less(run[p].key, run[i].key);
    }
    assert run[p := r] == run[..p] + ([r] + run[p + 1..]) && run == run[..p] + ([run[p]] + run[p + 1..]);
    WriteIntoRun(run[..p], r, run[p + 1..]);
    WriteIntoRun(run[..p], run[p], run[p + 1..]);
  }

  /** ... or adding a key at its place is one write. */
  lemma TableOfInsertion(run: seq<Record>, p: nat, r: Record)
    requires p <= |run| && Sorted(run)
    requires p < |run| ==> Less(r.key, run[p].key)
    ensures RunTable(run[..p] + [r] + run[p..]) == RunTable(run)[r.key := r.entry]
  {
    LessIsStrictTotalOrder();
    assert run[..p] + [r] + run[p..] == run[..p] + ([r] + run[p..]) && run == run[..p] + run[p..];
    WriteIntoRun(run[..p], r, run[p..]);
  }

  lemma WriteIntoRun(a: seq<Record>, r: Record, b: seq<Record>)
    requires forall i :: 0 <= i < |b| ==> b[i].key != r.key
    ensures RunTable(a + ([r] + b)) == RunTable(a + b)[r.key := r.entry]
  {
    var l, m := RunTable(a + ([r] + b)), RunTable(a + b)[r.key := r.entry];
    forall k
      ensures k in l <==> k in m
      ensures k in l ==> l[k] == m[k]
    {
      ReplayAt(map[], a + ([r] + b), k);
      ReplayAt(map[], a + b, k);
      LastWriteOfConcatenation(a, [r] + b, k);
      LastWriteOfConcatenation(a, b, k);
      LastWriteOfConcatenation([r], b, k);
      LastWriteMember(b, k);
    }
    assert l == m;
  }

  /** Two sorted runs with the same table are the same run. */
  lemma {:induction false} SortedRunsAreCanonical(a: seq<Record>, b: seq<Record>)
    requires Sorted(a) && Sorted(b) && RunTable(a) == RunTable(b)
    ensures a == b
    decreases |a|
  {
    LessIsStrictTotalOrder();
    if a == [] || b == [] {
      if a != [] { RunTableAt(a, 0); }
      if b != [] { RunTableAt(b, 0); }
    } else {
      var m, n := |a| - 1, |b| - 1;
      RunTableAt(a, m);
      RunTableAt(b, n);
      RunTableKeys(a, b[n].key);
      RunTableKeys(b, a[m].key);
      var i :| 0 <= i <= m && a[i].key == b[n].key;
      var j :| 0 <= j <= n && b[j].key == a[m].key;
      assert a[m] == b[n];
      forall k
        ensures k in RunTable(a[..m]) <==> k in RunTable(b[..n])
        ensures k in RunTable(a[..m]) ==> RunTable(a[..m])[k] == RunTable(b[..n])[k]
      {
        if k == a[m].key {
          RunTableKeys(a[..m], k);
          RunTableKeys(b[..n], k);
        } else {
          assert k in RunTable(a) <==> k in RunTable(b);
        }
      }
      assert RunTable(a[..m]) == RunTable(b[..n]);
      SortedRunsAreCanonical(a[..m], b[..n]);
      assert a == a[..m] + [a[m]] && b == b[..n] + [b[n]];
    }
  }

  // ---------------------------------------------------------------------- sizes

  /** Bytes charged for a record: a tombstone counts its key only. */
  function SizeOfEntry(e: Entry): nat {
    match e
    case Put(v) => |v|
    case Tombstone => 0
  }

  function SizeOfRun(run: seq<Record>): nat {
    if run == [] then 0
    else SizeOfRun(run[..|run| - 1]) + |run[|run| - 1].key| + SizeOfEntry(run[|run| - 1].entry)
  }

  lemma {:induction false} SizeOfConcatenation(a: seq<Record>, b: seq<Record>)
    ensures SizeOfRun(a + b) == SizeOfRun(a) + SizeOfRun(b)
  {
    if b == [] {
      assert a + b == a;
    } else {
      assert (a + b)[..|a + b| - 1] == a + b[..|b| - 1];
      SizeOfConcatenation(a, b[..|b| - 1]);
    }
  }

  lemma SizeOfMiddle(a: seq<Record>, r: Record, b: seq<Record>)
    ensures SizeOfRun(a + [r] + b) == SizeOfRun(a) + |r.key| + SizeOfEntry(r.entry) + SizeOfRun(b)
  {
    SizeOfConcatenation(a + [r], b);
    assert (a + [r])[..|a|] == a;
  }

  /** The size is zero exactly when there is no entry, because keys are not empty. */
  lemma SizeZeroIffEmpty(run: seq<Record>)
    requires forall i :: 0 <= i < |run| ==> run[i].key != []
    ensures SizeOfRun(run) == 0 <==> run == []
  {
  }

  /** Bytes a write of entry e to a key adds to a table: the difference on an overwrite. */
  function Cost(t: Table, key: Bytes, e: Entry): int {
    if key in t then SizeOfEntry(e) - SizeOfEntry(t[key]) else |key| + SizeOfEntry(e)
  }

  /** The size of a table: the lengths of its keys and values. */
  ghost function TableSize(t: Table): nat
    decreases |t|
  {
    if t == map[] then 0
    else
      var key :| key in t;
      |key| + SizeOfEntry(t[key]) + TableSize(t - {key})
  }

  /** Any key may be counted first. */
  lemma {:induction false} TableSizeWithout(t: Table, key: Bytes)
    requires key in t
    ensures TableSize(t) == |key| + SizeOfEntry(t[key]) + TableSize(t - {key})
    decreases |t|
  {
    var first :| first in t && TableSize(t) == |first| + SizeOfEntry(t[first]) + TableSize(t - {first});
    if first != key {
      TableSizeWithout(t - {first}, key);
      TableSizeWithout(t - {key}, first);
      assert t - {first} - {key} == t - {key} - {first};
    }
  }

  /** A write changes the size by its cost. */
  lemma TableSizeOfWrite(t: Table, key: Bytes, e: Entry)
    ensures TableSize(t[key := e]) == TableSize(t) + Cost(t, key, e)
  {
    hide TableSize;
    TableSizeWithout(t[key := e], key);
    if key in t {
      TableSizeWithout(t, key);
      assert t[key := e] - {key} == t - {key};
    } else {
      assert t[key := e] - {key} == t;
    }
  }

  /** It is the size a memtable keeps count of. */
  lemma {:induction false} SizeOfRunTable(run: seq<Record>)
    requires Sorted(run)
    ensures TableSize(RunTable(run)) == SizeOfRun(run)
  {
    hide TableSize;
    if run == [] {
      EmptyTableSize();
    } else {
      var m, r := |run| - 1, run[|run| - 1];
      SizeOfRunTable(run[..m]);
      RunTableKeys(run[..m], r.key);
      forall i | 0 <= i < m
        ensures run[..m][i].key != r.key
      {
        assert Less(run[i].key, r.key);
        LessTotal(r.key, r.key);
      }
      TableSizeOfWrite(RunTable(run[..m]), r.key, r.entry);
    }
  }

  lemma EmptyTableSize()
    ensures TableSize(map[]) == 0
  {
  }
}
