/** Reference counts that keep obsolete files open while they are read
    (internal/storage/engine.go:963-1012, internal/storage/workers.go:338-358). */
module Pins {
  type Reader = nat

  datatype Ref = Ref(refs: int, obsolete: bool)

  /** sstRefs, and how often each reader was closed. */
  datatype RefTable = RefTable(refs: map<Reader, Ref>, closes: multiset<Reader>)

  function PinOne(t: RefTable, r: Reader): RefTable {
    if r in t.refs then t.(refs := t.refs[r := t.refs[r].(refs := t.refs[r].refs + 1)]) else t
  }

  function Closed(t: RefTable, r: Reader): RefTable {
    RefTable(t.refs - {r}, t.closes + multiset{r})
  }

  function UnpinOne(t: RefTable, r: Reader): RefTable {
    if r !in t.refs then t
    else if t.refs[r].refs - 1 == 0 && t.refs[r].obsolete then Closed(t, r)
    else t.(refs := t.refs[r := t.refs[r].(refs := t.refs[r].refs - 1)])
  }

  function MarkOne(t: RefTable, r: Reader): RefTable {
    if r !in t.refs then t
    else if t.refs[r].refs == 0 then Closed(t, r)
    else t.(refs := t.refs[r := t.refs[r].(obsolete := true)])
  }

  function PinAll(t: RefTable, rs: seq<Reader>): RefTable {
    if rs == [] then t else PinOne(PinAll(t, rs[..|rs| - 1]), rs[|rs| - 1])
  }

  function UnpinAll(t: RefTable, rs: seq<Reader>): RefTable {
    if rs == [] then t else UnpinOne(UnpinAll(t, rs[..|rs| - 1]), rs[|rs| - 1])
  }

  function MarkAll(t: RefTable, rs: seq<Reader>): RefTable {
    if rs == [] then t else MarkOne(MarkAll(t, rs[..|rs| - 1]), rs[|rs| - 1])
  }

  /** The engine's table, changed under sstRefsMu. */
  class Registry {
    var sstRefs: map<Reader, Ref>
    ghost var closes: multiset<Reader>

    ghost function Table(): RefTable
      reads this
    {
      RefTable(sstRefs, closes)
    }

    constructor ()
      ensures Table() == RefTable(map[], multiset{})
    {
      sstRefs, closes := map[], multiset{};
    }

    method Register(r: Reader)
      modifies this
      ensures Table() == old(Table()).(refs := old(sstRefs)[r := Ref(0, false)])
    {
      sstRefs := sstRefs[r := Ref(0, false)];
    }

    method PinReaders(level0: seq<Reader>, level1: seq<Reader>) returns (pinned: seq<Reader>)
      modifies this
      ensures pinned == level0 + level1
      ensures Table() == PinAll(old(Table()), pinned)
    {
      pinned := [];
      var all := level0 + level1;
      for i := 0 to |all|
        invariant pinned == all[..i] && Table() == PinAll(old(Table()), pinned)
      {
        var r := all[i];
        if r in sstRefs {
          sstRefs := sstRefs[r := sstRefs[r].(refs := sstRefs[r].refs + 1)];
        }
        pinned := pinned + [r];
        assert pinned[..i] == all[..i];
      }
    }

    method CloseReader(r: Reader)
      modifies this
      ensures Table() == Closed(old(Table()), r)
    {
      closes := closes + multiset{r};
      sstRefs := sstRefs - {r};
    }

    method UnpinReaders(pinned: seq<Reader>)
      modifies this
      ensures Table() == UnpinAll(old(Table()), pinned)
    {
      for i := 0 to |pinned|
        invariant Table() == UnpinAll(old(Table()), pinned[..i])
      {
        var r := pinned[i];
        assert pinned[..i + 1][..i] == pinned[..i];
        if r in sstRefs {
          ghost var before := Table();
          sstRefs := sstRefs[r := sstRefs[r].(refs := sstRefs[r].refs - 1)];
          if sstRefs[r].refs == 0 && sstRefs[r].obsolete {
            CloseReader(r);
            assert sstRefs == before.refs - {r};
          }
        }
      }
      assert pinned[..|pinned|] == pinned;
    }

    method MarkObsolete(obsolete: seq<Reader>)
      modifies this
      ensures Table() == MarkAll(old(Table()), obsolete)
    {
      for i := 0 to |obsolete|
        invariant Table() == MarkAll(old(Table()), obsolete[..i])
      {
        var r := obsolete[i];
        assert obsolete[..i + 1][..i] == obsolete[..i];
        if r in sstRefs {
          ghost var before := Table();
          sstRefs := sstRefs[r := sstRefs[r].(obsolete := true)];
          if sstRefs[r].refs == 0 {
            CloseReader(r);
            assert sstRefs == before.refs - {r};
          }
        }
      }
      assert obsolete[..|obsolete|] == obsolete;
    }
  }

  // ------------------------------------------------------------- counts and pins

  /** The counts are the live pins; a pinned reader is registered; an obsolete one is still pinned. */
  ghost predicate Counts(t: RefTable, pins: multiset<Reader>) {
    && (forall r: Reader :: r in t.refs ==> t.refs[r].refs == pins[r] && (t.refs[r].obsolete ==> pins[r] > 0))
    && forall r: Reader :: r in pins ==> r in t.refs
  }

  /** Pinning registered readers only raises their counts. */
  lemma {:induction false} PinsCount(t: RefTable, pins: multiset<Reader>, rs: seq<Reader>)
    requires Counts(t, pins) && forall r: Reader :: r in rs ==> r in t.refs
    ensures var t' := PinAll(t, rs);
            && Counts(t', pins + multiset(rs)) && t'.closes == t.closes && t'.refs.Keys == t.refs.Keys
            && forall r: Reader :: r in t.refs ==> t'.refs[r].obsolete == t.refs[r].obsolete
  {
    if rs != [] {
      var front, r := rs[..|rs| - 1], rs[|rs| - 1];
      assert rs == front + [r];
      PinsCount(t, pins, front);
      assert multiset(rs) == multiset(front) + multiset{r};
    }
  }

  /** A pin goes: the reader is closed exactly when it is obsolete and that was the last one. */
  ghost predicate CloseLast(t: RefTable, t': RefTable, pins: multiset<Reader>, pins': multiset<Reader>) {
    forall r: Reader ::
      && t'.closes[r] == t.closes[r] + (if Goes(t, pins, pins', r) then 1 else 0)
      && (r in t'.refs <==> r in t.refs && !Goes(t, pins, pins', r))
      && (r in t'.refs ==> t'.refs[r].obsolete == t.refs[r].obsolete)
  }

  ghost predicate Goes(t: RefTable, pins: multiset<Reader>, pins': multiset<Reader>, r: Reader) {
    r in t.refs && t.refs[r].obsolete && pins[r] > 0 && pins'[r] == 0
  }

  lemma {:induction false} UnpinsCount(t: RefTable, pins: multiset<Reader>, rs: seq<Reader>)
    requires Counts(t, pins) && multiset(rs) <= pins
    ensures Counts(UnpinAll(t, rs), pins - multiset(rs))
    ensures CloseLast(t, UnpinAll(t, rs), pins, pins - multiset(rs))
  {
    if rs == [] {
      assert pins - multiset(rs) == pins;
    } else {
      var front, r := rs[..|rs| - 1], rs[|rs| - 1];
      assert rs == front + [r];
      assert multiset(rs) == multiset(front) + multiset{r};
      UnpinsCount(t, pins, front);
      UnpinOneCounts(t, UnpinAll(t, front), pins, pins - multiset(front), r);
      assert pins - multiset(front) - multiset{r} == pins - multiset(rs);
    }
  }

  lemma UnpinOneCounts(t: RefTable, u: RefTable, pins: multiset<Reader>, left: multiset<Reader>, r: Reader)
    requires Counts(u, left) && CloseLast(t, u, pins, left) && r in left && left <= pins && Counts(t, pins)
    ensures Counts(UnpinOne(u, r), left - multiset{r})
    ensures CloseLast(t, UnpinOne(u, r), pins, left - multiset{r})
  {
  }

  /** Marking readers obsolete closes those without pins at once and keeps the others. */
  ghost predicate CloseUnpinned(t: RefTable, t': RefTable, pins: multiset<Reader>, rs: seq<Reader>) {
    forall r: Reader ::
      && t'.closes[r] == t.closes[r] + (if r in t.refs && r in rs && pins[r] == 0 then 1 else 0)
      && (r in t'.refs <==> r in t.refs && !(r in rs && pins[r] == 0))
      && (r in t'.refs ==> (t'.refs[r].obsolete <==> t.refs[r].obsolete || r in rs))
  }

  lemma {:induction false} MarksCount(t: RefTable, pins: multiset<Reader>, rs: seq<Reader>)
    requires Counts(t, pins)
    ensures Counts(MarkAll(t, rs), pins)
    ensures CloseUnpinned(t, MarkAll(t, rs), pins, rs)
  {
    if rs != [] {
      var front, r := rs[..|rs| - 1], rs[|rs| - 1];
      assert rs == front + [r];
      MarksCount(t, pins, front);
      MarkOneCounts(t, MarkAll(t, front), pins, front, r);
    }
  }

  lemma MarkOneCounts(t: RefTable, u: RefTable, pins: multiset<Reader>, rs: seq<Reader>, r: Reader)
    requires Counts(u, pins) && CloseUnpinned(t, u, pins, rs)
    ensures Counts(MarkOne(u, r), pins)
    ensures CloseUnpinned(t, MarkOne(u, r), pins, rs + [r])
  {
  }
}
