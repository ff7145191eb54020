/** The merge heap of a compaction (internal/storage/compactor/heap.go), with the sift
    operations of container/heap written out. */
module MergeHeaps {
  import opened ByteStrings
  import opened Tables

  /** The head of one input file: its current record, its file id, and which record it is. */
  datatype MergeNode = MergeNode(record: Record, fileID: int, src: nat, pos: nat)

  /** Keys ascend; for equal keys the larger file id, taken to be newer, comes first. */
  predicate NodeLess(a: MergeNode, b: MergeNode) {
    if a.record.key != b.record.key then Less(a.record.key, b.record.key) else a.fileID > b.fileID
  }

  lemma NodeLessTransitive(a: MergeNode, b: MergeNode, c: MergeNode)
    requires !NodeLess(b, a) && !NodeLess(c, b)
    ensures !NodeLess(c, a)
  {
    LessTotal(a.record.key, b.record.key);
    LessTotal(b.record.key, c.record.key);
    LessTotal(a.record.key, c.record.key);
    if Less(a.record.key, b.record.key) && Less(b.record.key, c.record.key) {
      LessTransitive(a.record.key, b.record.key, c.record.key);
    }
  }

  function Parent(i: nat): nat
    requires i > 0
  {
    (i - 1) / 2
  }

  /** Heap order everywhere, except possibly between `hole` and its children, or between it and
      its parent. */
  ghost predicate OrderedBelow(nodes: seq<MergeNode>, hole: int) {
    forall i :: 0 < i < |nodes| && Parent(i) != hole ==> !NodeLess(nodes[i], nodes[Parent(i)])
  }

  ghost predicate OrderedAbove(nodes: seq<MergeNode>, hole: int) {
    forall i :: 0 < i < |nodes| && i != hole ==> !NodeLess(nodes[i], nodes[Parent(i)])
  }

  ghost predicate HeapOrdered(nodes: seq<MergeNode>) {
    forall i :: 0 < i < |nodes| ==> !NodeLess(nodes[i], nodes[Parent(i)])
  }

  /** The grandparent of the hole's children still precedes them. */
  ghost predicate Bridged(nodes: seq<MergeNode>, hole: int) {
    forall i :: 0 < i < |nodes| && Parent(i) == hole > 0 ==> !NodeLess(nodes[i], nodes[Parent(hole)])
  }

  /** No node of a heap precedes its root. */
  lemma {:induction false} RootIsLeast(nodes: seq<MergeNode>, i: nat)
    requires HeapOrdered(nodes) && i < |nodes|
    ensures !NodeLess(nodes[i], nodes[0])
  {
    if i > 0 {
      RootIsLeast(nodes, Parent(i));
      NodeLessTransitive(nodes[0], nodes[Parent(i)], nodes[i]);
    } else {
      LessTotal(nodes[0].record.key, nodes[0].record.key);
    }
  }

  function Swapped(nodes: seq<MergeNode>, i: nat, j: nat): (r: seq<MergeNode>)
    requires i < |nodes| && j < |nodes|
    ensures |r| == |nodes|
    ensures multiset(r) == multiset(nodes)
  {
    nodes[i := nodes[j]][j := nodes[i]]
  }

  /** Sifting down swaps the hole with its smaller child. */
  lemma SiftDownStep(nodes: seq<MergeNode>, hole: nat, child: nat)
    requires OrderedBelow(nodes, hole) && Bridged(nodes, hole)
    requires 0 < child < |nodes| && Parent(child) == hole && NodeLess(nodes[child], nodes[hole])
    requires forall i :: 0 < i < |nodes| && Parent(i) == hole ==> !NodeLess(nodes[i], nodes[child])
    ensures OrderedBelow(Swapped(nodes, hole, child), child)
    ensures Bridged(Swapped(nodes, hole, child), child)
  {
    hide NodeLess;
    var s := Swapped(nodes, hole, child);
    forall i | 0 < i < |s| && Parent(i) != child
      ensures !NodeLess(s[i], s[Parent(i)])
    {
      if i == child {
        NodeLessAsymmetric(nodes[child], nodes[hole]);
      } else if i == hole {
        assert Parent(child) == hole;
      }
    }
    forall i | 0 < i < |s| && Parent(i) == child
      ensures !NodeLess(s[i], s[Parent(child)])
    {
    }
  }

  lemma NodeLessAsymmetric(a: MergeNode, b: MergeNode)
    requires NodeLess(a, b)
    ensures !NodeLess(b, a)
  {
    LessTotal(a.record.key, b.record.key);
  }

  lemma SiftUpStep(nodes: seq<MergeNode>, hole: nat)
    requires 0 < hole < |nodes| && OrderedAbove(nodes, hole) && Bridged(nodes, hole)
    requires NodeLess(nodes[hole], nodes[Parent(hole)])
    ensures OrderedAbove(Swapped(nodes, hole, Parent(hole)), Parent(hole))
    ensures Bridged(Swapped(nodes, hole, Parent(hole)), Parent(hole))
  {
    hide NodeLess;
    var p := Parent(hole);
    var s := Swapped(nodes, hole, p);
    NodeLessAsymmetric(nodes[hole], nodes[p]);
    forall i | 0 < i < |s| && i != p
      ensures !NodeLess(s[i], s[Parent(i)])
    {
      if Parent(i) == p && i != hole {
        assert !NodeLess(nodes[i], nodes[p]);
        NodeLessTransitive(nodes[hole], nodes[p], nodes[i]);
      }
    }
    forall i | 0 < i < |s| && Parent(i) == p > 0
      ensures !NodeLess(s[i], s[Parent(p)])
    {
      assert !NodeLess(nodes[p], nodes[Parent(p)]);
      if i != hole {
        NodeLessTransitive(nodes[Parent(p)], nodes[p], nodes[i]);
      }
    }
  }

  class MergeHeap {
    var nodes: seq<MergeNode>

    ghost predicate Valid()
      reads this
    {
      HeapOrdered(nodes)
    }

    constructor ()
      ensures Valid() && nodes == []
    {
      nodes := [];
    }

    method Down(start: nat)
      requires start < |nodes| && OrderedBelow(nodes, start) && Bridged(nodes, start)
      modifies this
      ensures Valid()
      ensures multiset(nodes) == multiset(old(nodes))
      ensures |nodes| == |old(nodes)|
    {
      hide NodeLess;
      var i := start;
      while true
        invariant i < |nodes| == |old(nodes)| && multiset(nodes) == multiset(old(nodes))
        invariant OrderedBelow(nodes, i) && Bridged(nodes, i)
        decreases |nodes| - i
      {
        var left := 2 * i + 1;
        if left >= |nodes| {
          return;
        }
        var j := left;
        if left + 1 < |nodes| && NodeLess(nodes[left + 1], nodes[left]) {
          j := left + 1;
        }
        SmallerChild(nodes, i, j);
        if !NodeLess(nodes[j], nodes[i]) {
          SettledBelow(nodes, i, j);
          return;
        }
        SiftDownStep(nodes, i, j);
        nodes := Swapped(nodes, i, j);
        i := j;
      }
    }

    method Up(start: nat)
      requires start < |nodes| && OrderedAbove(nodes, start) && Bridged(nodes, start)
      modifies this
      ensures Valid()
      ensures multiset(nodes) == multiset(old(nodes))
      ensures |nodes| == |old(nodes)|
    {
      hide NodeLess;
      var j := start;
      while j > 0 && NodeLess(nodes[j], nodes[Parent(j)])
        invariant j < |nodes| == |old(nodes)| && multiset(nodes) == multiset(old(nodes))
        invariant OrderedAbove(nodes, j) && Bridged(nodes, j)
      {
        SiftUpStep(nodes, j);
        nodes, j := Swapped(nodes, j, Parent(j)), Parent(j);
      }
    }

    method Push(n: MergeNode)
      requires Valid()
      modifies this
      ensures Valid()
      ensures multiset(nodes) == multiset(old(nodes)) + multiset{n}
    {
      nodes := nodes + [n];
      Up(|nodes| - 1);
    }

    /** Replaces the root and re-establishes the order (heap.Fix at 0). */
    method FixRoot(n: MergeNode)
      requires Valid() && nodes != []
      modifies this
      ensures Valid()
      ensures multiset(nodes) == multiset(old(nodes)) - multiset{old(nodes)[0]} + multiset{n}
    {
      assert nodes == [nodes[0]] + nodes[1..];
      nodes := nodes[0 := n];
      assert nodes == [n] + old(nodes)[1..];
      Down(0);
    }

    method PopRoot()
      requires Valid() && nodes != []
      modifies this
      ensures Valid()
      ensures multiset(nodes) == multiset(old(nodes)) - multiset{old(nodes)[0]}
    {
      var last := |nodes| - 1;
      assert nodes == nodes[..last] + [nodes[last]];
      assert last > 0 ==> nodes[..last] == [nodes[0]] + nodes[..last][1..];
      if last == 0 {
        nodes := [];
      } else {
        nodes := nodes[0 := nodes[last]][..last];
        assert nodes == [old(nodes)[last]] + old(nodes)[..last][1..];
        Down(0);
      }
    }
  }

  lemma SmallerChild(nodes: seq<MergeNode>, i: nat, j: nat)
    requires 2 * i + 1 < |nodes|
    requires j == if 2 * i + 2 < |nodes| && NodeLess(nodes[2 * i + 2], nodes[2 * i + 1]) then 2 * i + 2 else 2 * i + 1
    ensures 0 < j < |nodes| && Parent(j) == i
    ensures forall c :: 0 < c < |nodes| && Parent(c) == i ==> !NodeLess(nodes[c], nodes[j])
  {
    LessIsStrictTotalOrder();
    assert forall c :: c > 0 && Parent(c) == i ==> c == 2 * i + 1 || c == 2 * i + 2;
  }

  lemma SettledBelow(nodes: seq<MergeNode>, i: nat, j: nat)
    requires i < |nodes| && j < |nodes| && OrderedBelow(nodes, i) && !NodeLess(nodes[j], nodes[i])
    requires forall c :: 0 < c < |nodes| && Parent(c) == i ==> !NodeLess(nodes[c], nodes[j])
    ensures HeapOrdered(nodes)
  {
    hide NodeLess;
    forall c | 0 < c < |nodes| && Parent(c) == i
      ensures !NodeLess(nodes[c], nodes[i])
    {
      NodeLessTransitive(nodes[i], nodes[j], nodes[c]);
    }
  }
}
