/** The links of a skip list as plain data: for every level, the chain of the towers that
    reach it, and what inserting one more tower does to all chains at once. */
module Chains {

  function InsertAt<T>(s: seq<T>, p: nat, x: T): (r: seq<T>)
    requires p <= |s|
    ensures |r| == |s| + 1 && r[p] == x
    ensures forall i :: 0 <= i < p ==> r[i] == s[i]
    ensures forall i :: p < i < |r| ==> r[i] == s[i - 1]
  {
    seq(|s| + 1, i requires 0 <= i < |s| + 1 => if i < p then s[i] else if i == p then x else s[i - 1])
  }

  lemma InsertAtIsSplice<T>(s: seq<T>, p: nat, x: T)
    requires p <= |s|
    ensures InsertAt(s, p, x) == s[..p] + [x] + s[p..]
  {
  }

  /** The first index at or after `from` whose tower reaches above `level`. */
  function NextTall(h: seq<nat>, from: nat, level: nat): (r: nat)
    requires from <= |h|
    ensures from <= r <= |h|
    ensures forall m :: from <= m < r ==> h[m] <= level
    ensures r < |h| ==> h[r] > level
    decreases |h| - from
  {
    if from == |h| || h[from] > level then from else NextTall(h, from + 1, level)
  }

  /** Where a link to index j leads after an insertion at p; `caught` if the new tower intercepts it. */
  function Shifted(j: nat, p: nat, caught: bool): nat {
    if j < p then j else if caught then p else j + 1
  }

  /** Where the links of the chain at `level` must lead after a tower of height x is put
      at index p behind the predecessor `at`. */
  lemma NextTallAfterInsertion(h: seq<nat>, p: nat, x: nat, i: nat, level: nat)
    requires p <= |h| && i <= |h|
    ensures i < p ==> NextTall(InsertAt<nat>(h, p, x), i + 1, level) ==
                      Shifted(NextTall(h, i + 1, level), p, x > level)
    ensures i >= p ==> NextTall(InsertAt<nat>(h, p, x), i + 1, level) == NextTall(h, i, level) + 1
  {
    if i < p {
      NextTallBeforeInsertion(h, p, x, i + 1, level);
    } else {
      NextTallBehindInsertion(h, p, x, i, level);
    }
  }

  lemma {:induction false} NextTallBehindInsertion(h: seq<nat>, p: nat, x: nat, i: nat, level: nat)
    requires p <= i <= |h|
    ensures NextTall(InsertAt<nat>(h, p, x), i + 1, level) == NextTall(h, i, level) + 1
    decreases |h| - i
  {
    if i < |h| {
      assert InsertAt<nat>(h, p, x)[i + 1] == h[i];
      NextTallBehindInsertion(h, p, x, i + 1, level);
    }
  }

  lemma {:induction false} NextTallBeforeInsertion(h: seq<nat>, p: nat, x: nat, i: nat, level: nat)
    requires i <= p <= |h|
    ensures NextTall(InsertAt<nat>(h, p, x), i, level) == Shifted(NextTall(h, i, level), p, x > level)
    decreases p - i
  {
    if i == p {
      assert InsertAt<nat>(h, p, x)[p] == x;
      NextTallBehindInsertion(h, p, x, p, level);
    } else {
      assert InsertAt<nat>(h, p, x)[i] == h[i];
      NextTallBeforeInsertion(h, p, x, i + 1, level);
    }
  }

  function Heights<T>(next: seq<seq<T>>): (h: seq<nat>)
    ensures |h| == |next| && forall i :: 0 <= i < |h| ==> h[i] == |next[i]|
  {
    seq(|next|, i requires 0 <= i < |next| => |next[i]|)
  }

  function NodeAt<T>(nodes: seq<T>, nil: T, i: nat): T {
    if i < |nodes| then nodes[i] else nil
  }

  /** At every level, a node's link leads to the next node tall enough for that level. */
  ghost predicate Chained<T>(nodes: seq<T>, nil: T, next: seq<seq<T>>) {
    && |next| == |nodes|
    && forall i, l :: 0 <= i < |next| && 0 <= l < |next[i]| ==>
         next[i][l] == NodeAt(nodes, nil, NextTall(Heights(next), i + 1, l))
  }

  /** Index at[m] precedes place p at level m, for every level below n. */
  ghost predicate Precede(h: seq<nat>, at: seq<nat>, p: nat, n: nat) {
    && p <= |h| && n <= |at|
    && forall m :: 0 <= m < n ==> at[m] < p && m < h[at[m]] && NextTall(h, at[m] + 1, m) >= p
  }

  /** The links of the node at index i once a node of the given height is hooked in. */
  function SplicedLinks<T>(links: seq<T>, i: nat, at: seq<nat>, height: nat, newNode: T): (r: seq<T>)
    ensures |r| == |links|
  {
    seq(|links|, m requires 0 <= m < |links| =>
      if m < height && m < |at| && at[m] == i then newNode else links[m])
  }

  /** A level that no tower behind the head reaches is preceded by the head. */
  lemma HeadPrecedes(h: seq<nat>, at: seq<nat>, p: nat, n: nat)
    requires Precede(h, at, p, n) && p > 0 && n < |at| && n < h[0]
    requires forall i :: 1 <= i < |h| ==> h[i] <= n
    ensures Precede(h, at[n := 0], p, n + 1)
  {
    assert NextTall(h, 1, n) == |h|;
  }

  ghost predicate InsertedLinks<T>(next: seq<seq<T>>, at: seq<nat>, p: nat, newNode: T, own: seq<T>, next': seq<seq<T>>) {
    && Precede(Heights(next), at, p, |own|)
    && (forall m :: 0 <= m < |own| ==> own[m] == next[at[m]][m])
    && |next'| == |next| + 1 && next'[p] == own
    && (forall i :: 0 <= i < p ==> next'[i] == SplicedLinks(next[i], i, at, |own|, newNode))
    && (forall i :: p < i < |next'| ==> next'[i] == SplicedLinks(next[i - 1], i - 1, at, |own|, newNode))
  }

  /** Hooking a tower in at place p keeps every chain complete. */
  lemma InsertionKeepsChains<T>(nodes: seq<T>, nil: T, next: seq<seq<T>>, at: seq<nat>, p: nat,
                                newNode: T, own: seq<T>, next': seq<seq<T>>)
    requires Chained(nodes, nil, next) && InsertedLinks(next, at, p, newNode, own, next')
    ensures Chained(InsertAt(nodes, p, newNode), nil, next')
  {
    forall i, l | 0 <= i < |next'| && 0 <= l < |next'[i]|
      ensures next'[i][l] == NodeAt(InsertAt(nodes, p, newNode), nil, NextTall(Heights(next'), i + 1, l))
    {
      InsertedLink(nodes, nil, next, at, p, newNode, own, next', i, l);
      InsertedHeights(next, at, p, newNode, own, next', i, l);
    }
  }

  lemma InsertedHeights<T>(next: seq<seq<T>>, at: seq<nat>, p: nat, newNode: T, own: seq<T>, next': seq<seq<T>>, i: nat, l: nat)
    requires InsertedLinks(next, at, p, newNode, own, next') && i < |next'|
    ensures NextTall(Heights(next'), i + 1, l) ==
            if i < p then Shifted(NextTall(Heights(next), i + 1, l), p, |own| > l)
            else NextTall(Heights(next), i, l) + 1
  {
    HeightsAfterInsertion(next, at, p, newNode, own, next');
    NextTallAfterInsertion(Heights(next), p, |own|, i, l);
  }

  lemma HeightsAfterInsertion<T>(next: seq<seq<T>>, at: seq<nat>, p: nat, newNode: T, own: seq<T>, next': seq<seq<T>>)
    requires InsertedLinks(next, at, p, newNode, own, next')
    ensures Heights(next') == InsertAt<nat>(Heights(next), p, |own|)
  {
  }

  lemma InsertedLink<T>(nodes: seq<T>, nil: T, next: seq<seq<T>>, at: seq<nat>, p: nat,
                        newNode: T, own: seq<T>, next': seq<seq<T>>, i: nat, l: nat)
    requires Chained(nodes, nil, next) && InsertedLinks(next, at, p, newNode, own, next')
    requires i < |next'| && l < |next'[i]|
    ensures next'[i][l] == NodeAt(InsertAt(nodes, p, newNode), nil,
                                  if i < p then Shifted(NextTall(Heights(next), i + 1, l), p, |own| > l)
                                  else NextTall(Heights(next), i, l) + 1)
  {
    var h := Heights(next);
    if i < p {
      if l < |own| && i < at[l] {
        assert NextTall(h, i + 1, l) <= at[l];
      }
    } else if i == p {
      assert NextTall(h, p, l) == NextTall(h, at[l] + 1, l);
    }
  }
}
