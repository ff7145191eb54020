/** The memtable: a skip list rewired in place (internal/storage/memtable). */
module SkipLists {
  import opened ByteStrings
  import opened Chains
  import opened Tables

  const MAX_ALLOWED_LEVEL: nat := 32

  datatype WriteError = Ok | ErrEmptyKey | ErrMemTableFull

  class Node {
    const key: Bytes
    var value: Bytes
    var isDeleted: bool
    var next: seq<Node?>

    constructor (key: Bytes, value: Bytes, level: nat)
      ensures this.key == key && this.value == value && !isDeleted
      ensures |next| == level && forall l :: 0 <= l < level ==> next[l] == null
    {
      this.key, this.value, this.isDeleted := key, value, false;
      this.next := seq(level, _ => null);
    }

    ghost function AsRecord(): Record
      reads this
    {
      Record(key, EntryOf(value, isDeleted))
    }
  }

  ghost function LinksOf(tower: seq<Node>): (next: seq<seq<Node?>>)
    reads tower
    ensures |next| == |tower|
    ensures forall i :: 0 <= i < |tower| ==> next[i] == tower[i].next
  {
    seq(|tower|, i requires 0 <= i < |tower| reads tower => tower[i].next)
  }

  /** The records behind the head. */
  ghost function RunOf(tower: seq<Node>): (run: seq<Record>)
    requires |tower| > 0
    reads tower
    ensures |run| == |tower| - 1
    ensures forall i :: 0 <= i < |run| ==> run[i] == tower[i + 1].AsRecord()
  {
    seq(|tower| - 1, i requires 0 <= i < |tower| - 1 reads tower => tower[i + 1].AsRecord())
  }

  ghost predicate Ordered(tower: seq<Node>) {
    && (forall i, j :: 1 <= i < j < |tower| ==> Less(tower[i].key, tower[j].key))
    && (forall i :: 1 <= i < |tower| ==> tower[i].key != [])
    && (forall i, j :: 0 <= i < j < |tower| ==> tower[i] != tower[j])
  }

  ghost predicate Nodes(tower: seq<Node>, highest: nat)
    reads tower
  {
    forall i :: 1 <= i < |tower| ==>
      1 <= |tower[i].next| <= highest && (tower[i].isDeleted ==> tower[i].value == [])
  }

  lemma DistinctNodes(tower: seq<Node>, p: nat)
    requires Ordered(tower) && p < |tower|
    ensures forall i :: 0 <= i < |tower| && i != p ==> tower[i] != tower[p]
  {
  }

  lemma PlacedNodes(tower: seq<Node>, p: nat, newNode: Node, highest: nat)
    requires Nodes(tower, highest) && 1 <= p <= |tower|
    requires 1 <= |newNode.next| <= highest && (newNode.isDeleted ==> newNode.value == [])
    ensures Nodes(InsertAt(tower, p, newNode), highest)
  {
  }

  /** The place of a key in the tower: everything before it is smaller, nothing after is. */
  ghost predicate IsPlace(tower: seq<Node>, key: Bytes, p: nat) {
    && 1 <= p <= |tower|
    && (forall i :: 1 <= i < p ==> Less(tower[i].key, key))
    && (p < |tower| ==> !Less(tower[p].key, key))
  }

  /** preds[l] is the last node before place p that reaches level l, for levels below n. */
  ghost predicate ArePredecessors(tower: seq<Node>, h: seq<nat>, preds: seq<Node?>, at: seq<nat>, p: nat, n: nat)
    requires |h| == |tower|
  {
    && |preds| == |at| == MAX_ALLOWED_LEVEL && n <= MAX_ALLOWED_LEVEL
    && Precede(h, at, p, n)
    && forall l :: 0 <= l < n ==> preds[l] == tower[at[l]]
  }

  /** While searching: the levels from `from` up to n are done, and no predecessor is beyond index c. */
  ghost predicate PassedLevels(tower: seq<Node>, key: Bytes, preds: seq<Node?>, at: seq<nat>, c: nat, from: nat, n: nat)
    reads tower
  {
    && |preds| == |at| == MAX_ALLOWED_LEVEL && n <= MAX_ALLOWED_LEVEL
    && forall l :: from <= l < n ==>
         && at[l] <= c && at[l] < |tower| && preds[l] == tower[at[l]] && l < |tower[at[l]].next|
         && LeadsPast(tower, key, at[l], l)
  }

  ghost predicate LeadsPast(tower: seq<Node>, key: Bytes, i: nat, level: nat)
    requires i < |tower|
    reads tower
  {
    var j := NextTall(Heights(LinksOf(tower)), i + 1, level);
    j < |tower| ==> !Less(tower[j].key, key)
  }

  lemma PlacedIsOrdered(tower: seq<Node>, p: nat, newNode: Node)
    requires Ordered(tower) && IsPlace(tower, newNode.key, p) && newNode !in tower && newNode.key != []
    requires p < |tower| ==> Less(newNode.key, tower[p].key)
    ensures Ordered(InsertAt(tower, p, newNode))
  {
    forall i | p < i < |tower|
      ensures Less(newNode.key, tower[i].key)
    {
      LessTransitive(newNode.key, tower[p].key, tower[i].key);
    }
  }

  lemma PlacedRun(tower: seq<Node>, p: nat, newNode: Node)
    requires 1 <= p <= |tower|
    ensures RunOf(InsertAt(tower, p, newNode)) == InsertAt(RunOf(tower), p - 1, newNode.AsRecord())
  {
  }

  /** The bottom chain visits every node. */
  lemma BottomChain(tower: seq<Node>, highest: nat, i: nat)
    requires WellLinked(tower, highest) && i < |tower| && |tower[0].next| > 0
    ensures |tower[i].next| > 0
    ensures tower[i].next[0] == NodeAt(tower, null, i + 1)
    ensures i > 0 ==> RunOf(tower)[i - 1..] == [tower[i].AsRecord()] + RunOf(tower)[i..]
  {
    assert Heights(LinksOf(tower))[i] == |tower[i].next|;
    assert i + 1 < |tower| ==> Heights(LinksOf(tower))[i + 1] > 0;
  }

  lemma SizeOfInsertion(run: seq<Record>, p: nat, r: Record)
    requires p <= |run|
    ensures SizeOfRun(InsertAt(run, p, r)) == SizeOfRun(run) + |r.key| + SizeOfEntry(r.entry)
  {
    hide SizeOfRun;
    InsertAtIsSplice(run, p, r);
    SizeOfMiddle(run[..p], r, run[p..]);
    SizeOfConcatenation(run[..p], run[p..]);
    assert run == run[..p] + run[p..];
  }

  method Splice(newNode: Node, preds: seq<Node?>, ghost tower: seq<Node>, ghost at: seq<nat>, ghost p: nat)
    requires Ordered(tower) && newNode !in tower
    requires ArePredecessors(tower, Heights(LinksOf(tower)), preds, at, p, |newNode.next|)
    modifies newNode`next, tower`next
    ensures |newNode.next| == old(|newNode.next|)
    ensures forall m :: 0 <= m < |newNode.next| ==> newNode.next[m] == old(tower[at[m]].next[m])
    ensures forall i :: 0 <= i < |tower| ==>
              tower[i].next == SplicedLinks(old(tower[i].next), i, at, |newNode.next|, newNode)
  {
    var height := |newNode.next|;
    for l := 0 to height
      invariant |newNode.next| == height
      invariant forall m :: 0 <= m < l ==> newNode.next[m] == old(tower[at[m]].next[m])
      invariant forall i :: 0 <= i < |tower| ==>
                  tower[i].next == SplicedLinks(old(tower[i].next), i, at, l, newNode)
    {
      newNode.next := newNode.next[l := preds[l].next[l]];
      preds[l].next := preds[l].next[l := newNode];
    }
  }

  /** After Splice; `links` are the links it had before. */
  lemma SplicedIsChained(tower: seq<Node>, links: seq<seq<Node?>>, at: seq<nat>, p: nat, newNode: Node)
    requires Chained(tower, null, links) && Precede(Heights(links), at, p, |newNode.next|)
    requires forall m :: 0 <= m < |newNode.next| ==> newNode.next[m] == links[at[m]][m]
    requires forall i :: 0 <= i < |tower| ==> tower[i].next == SplicedLinks(links[i], i, at, |newNode.next|, newNode)
    ensures Chained(InsertAt(tower, p, newNode), null, LinksOf(InsertAt(tower, p, newNode)))
  {
    InsertionKeepsChains<Node?>(tower, null, links, at, p, newNode, newNode.next, LinksOf(InsertAt(tower, p, newNode)));
  }

  /** What holds of the towers: key order, heights, and every level's chain being exactly the
      nodes tall enough for it. */
  ghost predicate WellLinked(tower: seq<Node>, highest: nat)
    reads tower
  {
    |tower| > 0 && Ordered(tower) && Nodes(tower, highest) && Chained(tower, null, LinksOf(tower))
  }

  method HookIn(newNode: Node, preds: seq<Node?>, ghost tower: seq<Node>, ghost highest: nat, ghost at: seq<nat>, ghost p: nat)
    requires WellLinked(tower, highest) && newNode !in tower
    requires 1 <= |newNode.next| <= highest && newNode.key != [] && (newNode.isDeleted ==> newNode.value == [])
    requires IsPlace(tower, newNode.key, p) && (p < |tower| ==> Less(newNode.key, tower[p].key))
    requires ArePredecessors(tower, Heights(LinksOf(tower)), preds, at, p, |newNode.next|)
    modifies newNode`next, tower`next
    ensures WellLinked(InsertAt(tower, p, newNode), highest)
    ensures RunOf(InsertAt(tower, p, newNode)) == InsertAt(old(RunOf(tower)), p - 1, newNode.AsRecord())
    ensures |tower[0].next| == old(|tower[0].next|)
  {
    ghost var links, run := LinksOf(tower), RunOf(tower);
    Splice(newNode, preds, tower, at, p);
    assert RunOf(tower) == run;
    assert Nodes(tower, highest);
    PlacedNodes(tower, p, newNode, highest);
    PlacedIsOrdered(tower, p, newNode);
    PlacedRun(tower, p, newNode);
    SplicedIsChained(tower, links, at, p, newNode);
  }

  lemma SizeOfUpdate(run: seq<Record>, p: nat, r: Record)
    requires p < |run| && run[p].key == r.key
    ensures SizeOfRun(run[p := r]) == SizeOfRun(run) + SizeOfEntry(r.entry) - SizeOfEntry(run[p].entry)
  {
    hide SizeOfRun;
    var a, b := run[..p], run[p + 1..];
    SizeOfMiddle(a, run[p], b);
    SizeOfMiddle(a, r, b);
    assert run == a + [run[p]] + b && run[p := r] == a + [r] + b;
  }

  /** What a write does to the table and the size: overwriting the entry of a key ... */
  lemma EffectOfUpdate(run: seq<Record>, p: nat, r: Record)
    requires p < |run| && Sorted(run) && run[p].key == r.key
    ensures RunTable(run[p := r]) == RunTable(run)[r.key := r.entry]
    ensures SizeOfRun(run[p := r]) == SizeOfRun(run) + Cost(RunTable(run), r.key, r.entry)
  {
    hide RunTable, SizeOfRun, Sorted;
    TableOfUpdate(run, p, r);
    SizeOfUpdate(run, p, r);
    RunTableAt(run, p);
  }

  /** ... or adding a key at its place. */
  lemma EffectOfInsertion(run: seq<Record>, p: nat, r: Record)
    requires p <= |run| && Sorted(run) && (p < |run| ==> Less(r.key, run[p].key)) && r.key !in RunTable(run)
    ensures RunTable(InsertAt(run, p, r)) == RunTable(run)[r.key := r.entry]
    ensures SizeOfRun(InsertAt(run, p, r)) == SizeOfRun(run) + Cost(RunTable(run), r.key, r.entry)
  {
    hide RunTable, SizeOfRun, Sorted, InsertAt;
    InsertAtIsSplice(run, p, r);
    TableOfInsertion(run, p, r);
    SizeOfInsertion(run, p, r);
  }

  /** Overwrites the entry of a node in place. */
  method OverwriteNode(n: Node, value: Bytes, isDeleted: bool, ghost tower: seq<Node>, ghost highest: nat, ghost p: nat)
    requires WellLinked(tower, highest) && 1 <= p < |tower| && tower[p] == n && (isDeleted ==> value == [])
    modifies n`value, n`isDeleted
    ensures WellLinked(tower, highest)
    ensures RunOf(tower) == old(RunOf(tower))[p - 1 := Record(n.key, EntryOf(value, isDeleted))]
  {
    hide Chained, Ordered;
    assert forall i :: 0 <= i < |tower| && i != p ==> tower[i] != n by { DistinctNodes(tower, p); }
    ghost var run := RunOf(tower);
    n.value := value;
    n.isDeleted := isDeleted;
    assert LinksOf(tower) == old(LinksOf(tower));
    assert RunOf(tower) == run[p - 1 := n.AsRecord()];
  }

  class SkipList {
    var headNode: Node
    var highestActiveLevel: nat
    var currentSizeBytes: int
    const maxSizeBytes: int
    const maxLevel: nat
    /** The head followed by the entries in key order. */
    ghost var tower: seq<Node>
    ghost var Repr: set<object>

    /** The sorted run this skip list stands for, tombstones included. */
    ghost function Run(): (run: seq<Record>)
      reads this, tower
      requires |tower| > 0
      ensures |run| == |tower| - 1
    {
      RunOf(tower)
    }

    ghost function Contents(): Table
      reads this, tower
      requires |tower| > 0
    {
      RunTable(Run())
    }

    ghost predicate Shaped()
      reads this, tower
    {
      && 1 <= highestActiveLevel <= maxLevel <= MAX_ALLOWED_LEVEL
      && |tower| > 0 && tower[0] == headNode && |tower[0].next| == maxLevel
      && this in Repr && (forall i :: 0 <= i < |tower| ==> tower[i] in Repr)
    }

    ghost predicate Valid()
      reads this, tower
    {
      && Shaped() && WellLinked(tower, highestActiveLevel)
      && currentSizeBytes == SizeOfRun(Run())
    }

    lemma RunIsSorted()
      requires Valid()
      ensures Sorted(Run())
      ensures forall i :: 0 <= i < |Run()| ==> Run()[i].key != []
    {
    }

    constructor (maxSize: int, maxLevel: int)
      ensures Valid()
      ensures fresh(Repr)
      ensures Run() == []
      ensures maxSizeBytes == maxSize
      ensures this.maxLevel == if 1 <= maxLevel <= 32 then maxLevel else 12
    {
      var level: nat := if maxLevel < 1 || maxLevel > MAX_ALLOWED_LEVEL then 12 else maxLevel;
      var head := new Node([], [], level);
      this.maxLevel := level;
      headNode := head;
      highestActiveLevel := 1;
      currentSizeBytes := 0;
      maxSizeBytes := maxSize;
      tower := [head];
      Repr := {this, head};
    }

    lemma PlaceDecidesLookup(key: Bytes, p: nat)
      requires Valid() && IsPlace(tower, key, p)
      ensures key in Contents() <==> p < |tower| && tower[p].key == key
      ensures p < |tower| && tower[p].key == key ==> Contents()[key] == tower[p].AsRecord().entry
      ensures p < |tower| && tower[p].key == key ==> SizeOfEntry(Contents()[key]) == |tower[p].value|
    {
      hide RunTable, Chained, SizeOfRun;
      RunIsSorted();
      var run := Run();
      RunLookup(run, key, p - 1);
    }

    lemma PlaceBehind(key: Bytes, c: nat)
      requires Valid() && c < |tower| && (c > 0 ==> Less(tower[c].key, key)) && LeadsPast(tower, key, c, 0)
      ensures IsPlace(tower, key, c + 1)
      ensures |tower[c].next| > 0
      ensures tower[c].next[0] == NodeAt(tower, null, c + 1)
    {
      forall i | 1 <= i < c
        ensures Less(tower[i].key, key)
      {
        LessTransitive(tower[i].key, tower[c].key, key);
      }
      assert c + 1 < |tower| ==> Heights(LinksOf(tower))[c + 1] > 0;
    }

    lemma PassedLevelsArePredecessors(key: Bytes, preds: seq<Node?>, at: seq<nat>, c: nat)
      requires Valid() && PassedLevels(tower, key, preds, at, c, 0, highestActiveLevel) && IsPlace(tower, key, c + 1)
      ensures ArePredecessors(tower, Heights(LinksOf(tower)), preds, at, c + 1, highestActiveLevel)
    {
    }

    /** Following a link. */
    lemma Advance(c: nat, l: nat) returns (j: nat)
      requires Valid() && c < |tower| && l < |tower[c].next| && tower[c].next[l] != null
      ensures c < j < |tower|
      ensures tower[j] == tower[c].next[l]
      ensures l < |tower[j].next|
    {
      j := NextTall(Heights(LinksOf(tower)), c + 1, l);
    }

    lemma PassedLevelsMonotone(key: Bytes, preds: seq<Node?>, at: seq<nat>)
      ensures forall c: nat, d: nat, l: nat, n: nat {:trigger PassedLevels(tower, key, preds, at, c, l, n), PassedLevels(tower, key, preds, at, d, l, n)} ::
                c <= d && PassedLevels(tower, key, preds, at, c, l, n) ==> PassedLevels(tower, key, preds, at, d, l, n)
    {
    }

    /** The search stops at a level: nothing below the key follows on it. */
    lemma PassLevel(key: Bytes, preds: seq<Node?>, at: seq<nat>, c: nat, l: nat, n: nat)
      requires Valid() && PassedLevels(tower, key, preds, at, c, l + 1, n)
      requires c < |tower| && l < n && l < |tower[c].next|
      requires tower[c].next[l] == null || !Less(tower[c].next[l].key, key)
      ensures LeadsPast(tower, key, c, l)
      ensures PassedLevels(tower, key, preds[l := tower[c]], at[l := c], c, l, n)
    {
    }

    method FindPredecessors(key: Bytes)
      returns (preds: seq<Node?>, nextNode: Node?, ghost at: seq<nat>, ghost p: nat)
      requires Valid()
      ensures IsPlace(tower, key, p)
      ensures nextNode == NodeAt(tower, null, p)
      ensures ArePredecessors(tower, Heights(LinksOf(tower)), preds, at, p, highestActiveLevel)
    {
      hide WellLinked, ArePredecessors, IsPlace, LeadsPast, Less, SizeOfRun, RunOf;
      preds := seq(MAX_ALLOWED_LEVEL, _ => null);
      at := seq(MAX_ALLOWED_LEVEL, _ => 0);
      assert PassedLevels(tower, key, preds, at, 0, highestActiveLevel, highestActiveLevel);
      PassedLevelsMonotone(key, preds, at);
      hide PassedLevels;
      var currentNode := headNode;
      ghost var c: nat := 0;
      var levelIndex: nat := highestActiveLevel;
      while levelIndex > 0
        invariant levelIndex <= highestActiveLevel
        invariant c < |tower| && currentNode == tower[c] && (c > 0 ==> Less(tower[c].key, key))
        invariant levelIndex <= |tower[c].next|
        invariant levelIndex == 0 ==> LeadsPast(tower, key, c, 0)
        invariant PassedLevels(tower, key, preds, at, c, levelIndex, highestActiveLevel)
      {
        levelIndex := levelIndex - 1;
        nextNode := currentNode.next[levelIndex];
        while nextNode != null && Less(nextNode.key, key)
          invariant c < |tower| && currentNode == tower[c] && (c > 0 ==> Less(tower[c].key, key))
          invariant levelIndex < |tower[c].next| && nextNode == currentNode.next[levelIndex]
          invariant PassedLevels(tower, key, preds, at, c, levelIndex + 1, highestActiveLevel)
          decreases |tower| - c
        {
          c := Advance(c, levelIndex);
          currentNode := nextNode;
          nextNode := currentNode.next[levelIndex];
        }
        PassLevel(key, preds, at, c, levelIndex, highestActiveLevel);
        preds := preds[levelIndex := currentNode];
        at := at[levelIndex := c];
      }
      PlaceBehind(key, c);
      PassedLevelsArePredecessors(key, preds, at, c);
      p := c + 1;
      nextNode := currentNode.next[0];
    }

    method Get(key: Bytes) returns (err: WriteError, found: bool, entry: Entry)
      requires Valid()
      ensures err == if key == [] then ErrEmptyKey else Ok
      ensures err.Ok? ==> (found <==> key in Contents()) && (found ==> entry == Contents()[key])
      ensures !err.Ok? ==> !found
    {
      err, found, entry := Ok, false, Tombstone;
      if key == [] {
        return ErrEmptyKey, false, Tombstone;
      }
      var _, targetNode, _, p := FindPredecessors(key);
      PlaceDecidesLookup(key, p);
      if targetNode != null && targetNode.key == key {
        found := true;
        entry := EntryOf(targetNode.value, targetNode.isDeleted);
      }
    }

    /** A geometric choice of height; the coin is not modelled further. */
    method RandomLevel() returns (level: nat)
      requires Valid()
      ensures 1 <= level <= maxLevel
    {
      level := 1;
      var coin: bool := *;
      while coin && level < maxLevel
        invariant 1 <= level <= maxLevel
        decreases maxLevel - level
      {
        level := level + 1;
        coin := *;
      }
    }

    /** Levels that no node reached so far start at the head. */
    method ExtendPredecessors(newNodeHeight: nat, preds: seq<Node?>, ghost at: seq<nat>, ghost p: nat)
      returns (preds': seq<Node?>, ghost at': seq<nat>)
      requires 1 <= p <= |tower| && tower[0] == headNode && newNodeHeight <= |tower[0].next| <= MAX_ALLOWED_LEVEL
      requires WellLinked(tower, highestActiveLevel) && ArePredecessors(tower, Heights(LinksOf(tower)), preds, at, p, highestActiveLevel)
      ensures ArePredecessors(tower, Heights(LinksOf(tower)), preds', at', p, newNodeHeight)
    {
      preds', at' := preds, at;
      var l := highestActiveLevel;
      while l < newNodeHeight
        invariant l <= MAX_ALLOWED_LEVEL
        invariant highestActiveLevel <= l && ArePredecessors(tower, Heights(LinksOf(tower)), preds', at', p, l)
      {
        HeadPrecedes(Heights(LinksOf(tower)), at', p, l);
        preds', at' := preds'[l := headNode], at'[l := 0];
        l := l + 1;
      }
    }

    method RaiseLevel(newNodeHeight: nat)
      requires Valid() && newNodeHeight <= maxLevel
      modifies this`highestActiveLevel
      ensures Valid() && newNodeHeight <= highestActiveLevel
      ensures Run() == old(Run())
      ensures LinksOf(tower) == old(LinksOf(tower))
    {
      if newNodeHeight > highestActiveLevel {
        highestActiveLevel := newNodeHeight;
      }
    }

    /** Takes a hooked-in node into account. */
    method Adopt(newNode: Node, ghost p: nat, ghost run: seq<Record>)
      requires Shaped() && 1 <= p <= |tower|
      requires WellLinked(InsertAt(tower, p, newNode), highestActiveLevel) && 1 <= p <= |run| + 1
      requires RunOf(InsertAt(tower, p, newNode)) == InsertAt(run, p - 1, newNode.AsRecord())
      requires currentSizeBytes == SizeOfRun(run) && (newNode.isDeleted ==> newNode.value == [])
      modifies this`tower, this`Repr, this`currentSizeBytes
      ensures Valid() && Repr == old(Repr) + {newNode}
      ensures Run() == InsertAt(run, p - 1, newNode.AsRecord())
    {
      hide WellLinked, RunOf, SizeOfRun;
      SizeOfInsertion(run, p - 1, newNode.AsRecord());
      tower, Repr := InsertAt(tower, p, newNode), Repr + {newNode};
      currentSizeBytes := currentSizeBytes + |newNode.key| + |newNode.value|;
    }

    method NewNode(key: Bytes, value: Bytes, isDeleted: bool, level: nat) returns (n: Node)
      requires Valid()
      ensures fresh(n)
      ensures n !in tower
      ensures n.key == key
      ensures |n.next| == level
      ensures n.AsRecord() == Record(key, EntryOf(value, isDeleted))
      ensures n.value == value && n.isDeleted == isDeleted
      ensures Valid()
      ensures Run() == old(Run())
      ensures LinksOf(tower) == old(LinksOf(tower))
    {
      hide WellLinked, RunOf, SizeOfRun, LinksOf;
      n := new Node(key, value, level);
      n.isDeleted := isDeleted;
    }

    method InsertNode(key: Bytes, value: Bytes, isDeleted: bool, preds: seq<Node?>, ghost at: seq<nat>, ghost p: nat)
      returns (ghost newNode: Node)
      requires Valid() && key != [] && (isDeleted ==> value == [])
      requires IsPlace(tower, key, p) && (p < |tower| ==> Less(key, tower[p].key))
      requires ArePredecessors(tower, Heights(LinksOf(tower)), preds, at, p, highestActiveLevel)
      modifies Repr
      ensures Valid() && fresh(newNode) && Repr == old(Repr) + {newNode}
      ensures Run() == InsertAt(old(Run()), p - 1, Record(key, EntryOf(value, isDeleted)))
    {
      hide WellLinked, RunOf, LinksOf, ArePredecessors, SizeOfRun, InsertAt;
      ghost var run := Run();
      var newNodeHeight := RandomLevel();
      ghost var at';
      var preds';
      preds', at' := ExtendPredecessors(newNodeHeight, preds, at, p);
      RaiseLevel(newNodeHeight);
      var n := NewNode(key, value, isDeleted, newNodeHeight);
      HookIn(n, preds', tower, highestActiveLevel, at', p);
      Adopt(n, p, run);
      newNode := n;
    }

    lemma PlaceIsStrict(key: Bytes, p: nat)
      requires Valid() && IsPlace(tower, key, p) && (p < |tower| ==> tower[p].key != key)
      ensures p < |tower| ==> Less(key, tower[p].key)
      ensures key !in Contents()
    {
      if p < |tower| {
        LessTotal(key, tower[p].key);
      }
      PlaceDecidesLookup(key, p);
    }

    lemma EntryAt(p: nat)
      requires Valid() && 1 <= p < |tower|
      ensures Run()[p - 1] == tower[p].AsRecord()
      ensures SizeOfEntry(Run()[p - 1].entry) == |tower[p].value|
    {
    }

    method UpdateNode(n: Node, value: Bytes, isDeleted: bool, ghost p: nat)
      requires Valid() && 1 <= p < |tower| && tower[p] == n && (isDeleted ==> value == [])
      modifies this`currentSizeBytes, n`value, n`isDeleted
      ensures Valid()
      ensures Run() == old(Run())[p - 1 := Record(n.key, EntryOf(value, isDeleted))]
    {
      hide WellLinked, SizeOfRun, RunOf;
      EntryAt(p);
      SizeOfUpdate(Run(), p - 1, Record(n.key, EntryOf(value, isDeleted)));
      currentSizeBytes := currentSizeBytes + |value| - |n.value|;
      OverwriteNode(n, value, isDeleted, tower, highestActiveLevel, p);
    }

    /** The write of one entry whose place is known. */
    method Store(key: Bytes, value: Bytes, isDeleted: bool, preds: seq<Node?>, targetNode: Node?, ghost at: seq<nat>, ghost p: nat)
      requires Valid() && key != [] && (isDeleted ==> value == [])
      requires IsPlace(tower, key, p) && targetNode == NodeAt(tower, null, p)
      requires ArePredecessors(tower, Heights(LinksOf(tower)), preds, at, p, highestActiveLevel)
      modifies Repr
      ensures Valid() && fresh(Repr - old(Repr))
      ensures Contents() == old(Contents())[key := EntryOf(value, isDeleted)]
      ensures currentSizeBytes == old(currentSizeBytes + Cost(Contents(), key, EntryOf(value, isDeleted)))
    {
      hide WellLinked, ArePredecessors, SizeOfRun, RunOf, RunTable, Cost;
      ghost var run, r := Run(), Record(key, EntryOf(value, isDeleted));
      RunIsSorted();
      PlaceDecidesLookup(key, p);
      if targetNode != null && targetNode.key == key {
        EffectOfUpdate(run, p - 1, r);
        UpdateNode(targetNode, value, isDeleted, p);
      } else {
        PlaceIsStrict(key, p);
        EffectOfInsertion(run, p - 1, r);
        var _ := InsertNode(key, value, isDeleted, preds, at, p);
      }
    }

    method Put(key: Bytes, value: Bytes) returns (err: WriteError)
      requires Valid()
      modifies Repr
      ensures Valid() && fresh(Repr - old(Repr))
      ensures err == if key == [] then ErrEmptyKey
                     else if old(currentSizeBytes + Cost(Contents(), key, EntryOf(value, false))) > maxSizeBytes then ErrMemTableFull
                     else Ok
      ensures err.Ok? ==> Contents() == old(Contents())[key := EntryOf(value, false)]
      ensures err.Ok? ==> currentSizeBytes == old(currentSizeBytes + Cost(Contents(), key, EntryOf(value, false)))
      ensures !err.Ok? ==> Run() == old(Run()) && currentSizeBytes == old(currentSizeBytes)
    {
      hide WellLinked, ArePredecessors, SizeOfRun, RunOf, RunTable;
      if key == [] {
        return ErrEmptyKey;
      }
      var preds, targetNode, at, p := FindPredecessors(key);
      PlaceDecidesLookup(key, p);
      if targetNode != null && targetNode.key == key {
        var sizeDifference := |value| - |targetNode.value|;
        if currentSizeBytes + sizeDifference > maxSizeBytes {
          return ErrMemTableFull;
        }
      } else if currentSizeBytes + |key| + |value| > maxSizeBytes {
        return ErrMemTableFull;
      }
      Store(key, value, false, preds, targetNode, at, p);
      return Ok;
    }

    method Delete(key: Bytes) returns (err: WriteError)
      requires Valid()
      modifies Repr
      ensures Valid() && fresh(Repr - old(Repr))
      ensures err == if key == [] then ErrEmptyKey
                     else if key !in old(Contents()) && old(currentSizeBytes) + |key| > maxSizeBytes then ErrMemTableFull
                     else Ok
      ensures err.Ok? ==> Contents() == old(Contents())[key := Tombstone]
      ensures err.Ok? ==> currentSizeBytes == old(currentSizeBytes + Cost(Contents(), key, Tombstone))
      ensures !err.Ok? ==> Run() == old(Run()) && currentSizeBytes == old(currentSizeBytes)
    {
      hide WellLinked, ArePredecessors, SizeOfRun, RunOf, RunTable;
      if key == [] {
        return ErrEmptyKey;
      }
      var preds, targetNode, at, p := FindPredecessors(key);
      PlaceDecidesLookup(key, p);
      if targetNode != null && targetNode.key == key {
        if targetNode.isDeleted {
          return Ok;
        }
      } else if currentSizeBytes + |key| > maxSizeBytes {
        return ErrMemTableFull;
      }
      Store(key, [], true, preds, targetNode, at, p);
      return Ok;
    }

    method Size() returns (size: int)
      requires Valid()
      ensures size == currentSizeBytes == SizeOfRun(Run()) == TableSize(Contents())
      ensures size == 0 <==> Contents() == map[]
    {
      size := currentSizeBytes;
      RunIsSorted();
      SizeOfRunTable(Run());
      SizeZeroIffEmpty(Run());
      if Run() != [] {
        RunTableAt(Run(), 0);
      }
    }

    method NewIterator() returns (cursor: Cursor)
      requires Valid()
      ensures fresh(cursor) && cursor.Valid() && cursor.Rest() == Run()
    {
      var firstNode := headNode.next[0];
      BottomChain(tower, highestActiveLevel, 0);
      cursor := new Cursor(firstNode, tower, highestActiveLevel, 1);
    }

    method NewIteratorAt(startKey: Bytes) returns (cursor: Cursor)
      requires Valid()
      ensures fresh(cursor)
      ensures cursor.Valid()
      ensures cursor.Rest() == FromKey(Run(), startKey)
    {
      if startKey == [] {
        cursor := NewIterator();
        return;
      }
      var _, startNode, _, p := FindPredecessors(startKey);
      FromKeyAt(Run(), startKey, p - 1);
      cursor := new Cursor(startNode, tower, highestActiveLevel, p);
    }
  }

  /** A cursor over the bottom chain of a skip list that does not change meanwhile. */
  class Cursor {
    var currentNode: Node?
    var currKey: Bytes
    var currVal: Bytes
    var currDel: bool
    var hasCurrent: bool
    ghost const tower: seq<Node>
    ghost const highest: nat
    ghost var pos: nat

    ghost predicate Valid()
      reads this, tower
    {
      && WellLinked(tower, highest) && 1 <= pos <= |tower| && |tower[0].next| > 0
      && currentNode == NodeAt(tower, null, pos)
      && hasCurrent == (pos < |tower|)
      && (hasCurrent ==> currKey == tower[pos].key && currDel == tower[pos].isDeleted && currVal == tower[pos].value)
    }

    /** What the cursor still has to yield, the current entry first. */
    ghost function Rest(): seq<Record>
      requires Valid()
      reads this, tower
    {
      RunOf(tower)[pos - 1..]
    }

    constructor (start: Node?, ghost tower: seq<Node>, ghost highest: nat, ghost pos: nat)
      requires WellLinked(tower, highest) && 1 <= pos <= |tower| && |tower[0].next| > 0 && start == NodeAt(tower, null, pos)
      ensures Valid() && this.tower == tower && this.pos == pos
    {
      currentNode := start;
      this.tower, this.highest, this.pos := tower, highest, pos;
      if start != null {
        currKey, currVal, currDel, hasCurrent := start.key, start.value, start.isDeleted, true;
      } else {
        currKey, currVal, currDel, hasCurrent := [], [], false, false;
      }
    }

    /** Refreshes the buffered fields from the current node. */
    method BufferCurrent()
      modifies this`currKey, this`currVal, this`currDel, this`hasCurrent
      ensures hasCurrent == (currentNode != null)
      ensures hasCurrent ==> currKey == currentNode.key && currDel == currentNode.isDeleted && currVal == currentNode.value
    {
      if currentNode != null {
        currKey, currVal, currDel, hasCurrent := currentNode.key, currentNode.value, currentNode.isDeleted, true;
      } else {
        currKey, currVal, currDel, hasCurrent := [], [], false, false;
      }
    }

    method Next()
      requires Valid()
      modifies this
      ensures Valid()
      ensures old(hasCurrent) ==> old(Rest()) == [Record(old(currKey), EntryOf(old(currVal), old(currDel)))] + Rest()
      ensures !old(hasCurrent) ==> Rest() == old(Rest()) == []
    {
      hide WellLinked, RunOf, LinksOf;
      if currentNode == null {
        hasCurrent := false;
        return;
      }
      ghost var run := RunOf(tower);
      BottomChain(tower, highest, pos);
      currentNode := currentNode.next[0];
      pos := pos + 1;
      BufferCurrent();
      assert WellLinked(tower, highest);
      assert RunOf(tower) == run;
    }
  }
}
