/** Snapshots of remote clients over pinned files (internal/rpc/storage_server/server.go). */
module SnapshotServer {
  import opened Pins

  datatype Option<+T> = None | Some(value: T)

  /** Listed in the server's map, taken out of it, or also marked released. */
  datatype Stage = Listed | Removed | Released

  /** A server entry: the readers its snapshot pinned and where, the count of reads in flight, and the
      calls of Close that were decided and that were made. */
  datatype Entry = Entry(readers: seq<Reader>, holder: nat, stage: Stage, refCount: int, closing: nat, closed: nat)

  /** The engine's levels and live pins; the server's entries and the reads in flight on them. */
  datatype World = World(table: RefTable, levels: seq<Reader>, nextReader: nat, pins: seq<Option<seq<Reader>>>,
                         entries: seq<Entry>, uses: seq<Option<nat>>)

  // --------------------------------------------------------------------- steps

  /** A Get or Scan of the engine pins the files of both levels. */
  predicate BeginRead(w: World, w': World) {
    w' == w.(table := PinAll(w.table, w.levels), pins := w.pins + [Some(w.levels)])
  }

  predicate IsHolder(w: World, h: nat) {
    exists e :: 0 <= e < |w.entries| && w.entries[e].holder == h
  }

  /** The Get returns or the iterator is closed. */
  predicate EndRead(w: World, w': World) {
    exists h: nat ::
      && h < |w.pins| && w.pins[h].Some? && !IsHolder(w, h)
      && w' == w.(table := UnpinAll(w.table, w.pins[h].value), pins := w.pins[h := None])
  }

  predicate CreateSnapshot(w: World, w': World) {
    w' == w.(table := PinAll(w.table, w.levels), pins := w.pins + [Some(w.levels)],
             entries := w.entries + [Entry(w.levels, |w.pins|, Listed, 0, 0, 0)])
  }

  predicate Acquire(w: World, w': World) {
    exists e: nat ::
      && e < |w.entries| && w.entries[e].stage == Listed
      && w' == w.(entries := w.entries[e := w.entries[e].(refCount := w.entries[e].refCount + 1)], uses := w.uses + [Some(e)])
  }

  /** A scan on an acquired snapshot pins the snapshot's files once more, for its iterator. */
  predicate ScanSnapshot(w: World, w': World) {
    exists u: nat ::
      && u < |w.uses| && w.uses[u].Some? && w.uses[u].value < |w.entries|
      && var rs := w.entries[w.uses[u].value].readers;
      w' == w.(table := PinAll(w.table, rs), pins := w.pins + [Some(rs)])
  }

  function Dropped(x: Entry): Entry {
    x.(refCount := x.refCount - 1, closing := x.closing + if x.stage == Released && x.refCount - 1 == 0 then 1 else 0)
  }

  /** The read ends; the last one on a released entry decides to close. */
  predicate ReleaseRef(w: World, w': World) {
    exists u: nat ::
      && u < |w.uses| && w.uses[u].Some? && w.uses[u].value < |w.entries|
      && var e := w.uses[u].value;
      w' == w.(entries := w.entries[e := Dropped(w.entries[e])], uses := w.uses[u := None])
  }

  /** ReleaseSnapshot, ReleaseAllSnapshots and the janitor first take the entry out of the map ... */
  predicate Remove(w: World, w': World) {
    exists e: nat ::
      && e < |w.entries| && w.entries[e].stage == Listed
      && w' == w.(entries := w.entries[e := w.entries[e].(stage := Removed)])
  }

  function Marked(x: Entry): Entry {
    x.(stage := Released, closing := x.closing + if x.refCount == 0 then 1 else 0)
  }

  /** ... then mark it, and decide to close it when nobody reads. */
  predicate MarkReleased(w: World, w': World) {
    exists e: nat ::
      && e < |w.entries| && w.entries[e].stage == Removed
      && w' == w.(entries := w.entries[e := Marked(w.entries[e])])
  }

  /** A decided Close is made; the snapshot unpins its files the first time. */
  predicate CloseSnapshot(w: World, w': World) {
    exists e: nat ::
      && e < |w.entries| && w.entries[e].closing > 0 && w.entries[e].holder < |w.pins|
      && var x := w.entries[e];
      var done := w.entries[e := x.(closing := x.closing - 1, closed := x.closed + 1)];
      w' == if x.closed > 0 then w.(entries := done)
            else w.(entries := done, table := UnpinAll(w.table, x.readers), pins := w.pins[x.holder := None])
  }

  function Registered(t: RefTable, first: nat, n: nat): RefTable {
    if n == 0 then t else var u := Registered(t, first, n - 1); u.(refs := u.refs[first + n - 1 := Ref(0, false)])
  }

  function Fresh(first: nat, n: nat): seq<Reader> {
    seq(n, i requires 0 <= i < n => first + i)
  }

  predicate RegisterFlush(w: World, w': World) {
    w' == w.(table := Registered(w.table, w.nextReader, 1), levels := [w.nextReader] + w.levels, nextReader := w.nextReader + 1)
  }

  /** The levels keep some files and take n new ones; the others are obsolete. */
  ghost predicate CommitCompaction(w: World, w': World) {
    exists kept: seq<Reader>, obsolete: seq<Reader>, n: nat ::
      && multiset(kept) + multiset(obsolete) == multiset(w.levels)
      && w' == w.(table := MarkAll(Registered(w.table, w.nextReader, n), obsolete),
                  levels := kept + Fresh(w.nextReader, n), nextReader := w.nextReader + n)
  }

  ghost predicate Next(w: World, w': World) {
    || BeginRead(w, w') || EndRead(w, w') || CreateSnapshot(w, w') || Acquire(w, w') || ScanSnapshot(w, w')
    || ReleaseRef(w, w') || Remove(w, w') || MarkReleased(w, w') || CloseSnapshot(w, w')
    || RegisterFlush(w, w') || CommitCompaction(w, w')
  }

  function Initial(): World {
    World(RefTable(map[], multiset{}), [], 0, [], [], [])
  }

  // ----------------------------------------------------------------- invariant

  /** All live pins. */
  function AllPins(pins: seq<Option<seq<Reader>>>): multiset<Reader> {
    if pins == [] then multiset{}
    else AllPins(pins[..|pins| - 1]) + match pins[|pins| - 1] case None => multiset{} case Some(rs) => multiset(rs)
  }

  /** Reads in flight on an entry. */
  function Uses(uses: seq<Option<nat>>, e: nat): nat {
    if uses == [] then 0 else Uses(uses[..|uses| - 1], e) + if uses[|uses| - 1] == Some(e) then 1 else 0
  }

  /** A reader is open exactly while it is in the levels or pinned, and is closed at most once; the
      obsolete ones are those no longer in the levels. */
  ghost predicate ReadersInv(t: RefTable, levels: seq<Reader>, nextReader: nat, pins: multiset<Reader>) {
    && Counts(t, pins)
    && (forall r: Reader :: r in t.refs ==> r < nextReader && (t.refs[r].obsolete <==> r !in levels))
    && (forall r: Reader :: r in levels ==> r in t.refs) && (forall r: Reader :: multiset(levels)[r] <= 1)
    && (forall r: Reader :: t.closes[r] == if r < nextReader && r !in t.refs then 1 else 0)
  }

  ghost predicate EntryInv(x: Entry, pins: seq<Option<seq<Reader>>>, inUse: nat) {
    && x.refCount == inUse
    && x.closing + x.closed == (if x.stage == Released && x.refCount == 0 then 1 else 0)
    && x.holder < |pins| && pins[x.holder] == if x.closed == 0 then Some(x.readers) else None
  }

  ghost predicate Inv(w: World) {
    && ReadersInv(w.table, w.levels, w.nextReader, AllPins(w.pins))
    && (forall e :: 0 <= e < |w.entries| ==> EntryInv(w.entries[e], w.pins, Uses(w.uses, e)))
    && (forall e, f :: 0 <= e < f < |w.entries| ==> w.entries[e].holder != w.entries[f].holder)
    && (forall u :: 0 <= u < |w.uses| && w.uses[u].Some? ==> w.uses[u].value < |w.entries|)
  }

  lemma InitialInv()
    ensures Inv(Initial())
  {
    var w := Initial();
    assert forall r: Reader :: multiset(w.levels)[r] == 0 && w.table.closes[r] == 0;
    assert ReadersInv(w.table, w.levels, w.nextReader, multiset{});
  }

  lemma {:induction false} AllPinsDrop(pins: seq<Option<seq<Reader>>>, h: nat)
    requires h < |pins| && pins[h].Some?
    ensures AllPins(pins) == AllPins(pins[h := None]) + multiset(pins[h].value)
  {
    var m := |pins| - 1;
    if h < m {
      AllPinsDrop(pins[..m], h);
      assert pins[h := None][..m] == pins[..m][h := None];
    } else {
      assert pins[h := None][..m] == pins[..m];
    }
  }

  lemma AllPinsAppend(pins: seq<Option<seq<Reader>>>, rs: seq<Reader>)
    ensures AllPins(pins + [Some(rs)]) == AllPins(pins) + multiset(rs)
  {
    assert (pins + [Some(rs)])[..|pins|] == pins;
  }

  lemma {:induction false} UsesDrop(uses: seq<Option<nat>>, u: nat, e: nat)
    requires u < |uses| && uses[u].Some?
    ensures Uses(uses, e) == Uses(uses[u := None], e) + if uses[u].value == e then 1 else 0
  {
    var m := |uses| - 1;
    if u < m {
      UsesDrop(uses[..m], u, e);
      assert uses[u := None][..m] == uses[..m][u := None];
    } else {
      assert uses[u := None][..m] == uses[..m];
    }
  }

  lemma UsesAppend(uses: seq<Option<nat>>, f: nat, e: nat)
    ensures Uses(uses + [Some(f)], e) == Uses(uses, e) + if f == e then 1 else 0
  {
    assert (uses + [Some(f)])[..|uses|] == uses;
  }

  lemma {:induction false} UsesNone(uses: seq<Option<nat>>, e: nat)
    requires forall u :: 0 <= u < |uses| && uses[u].Some? ==> uses[u].value < e
    ensures Uses(uses, e) == 0
  {
    if uses != [] {
      UsesNone(uses[..|uses| - 1], e);
    }
  }

  // ------------------------------------------------------- what happens to readers

  lemma PinKeepsReaders(t: RefTable, levels: seq<Reader>, next: nat, pins: multiset<Reader>, rs: seq<Reader>)
    requires ReadersInv(t, levels, next, pins) && forall r: Reader :: r in rs ==> r in t.refs
    ensures ReadersInv(PinAll(t, rs), levels, next, pins + multiset(rs))
  {
    PinsCount(t, pins, rs);
  }

  lemma UnpinKeepsReaders(t: RefTable, levels: seq<Reader>, next: nat, pins: multiset<Reader>, rs: seq<Reader>)
    requires ReadersInv(t, levels, next, pins) && multiset(rs) <= pins
    ensures ReadersInv(UnpinAll(t, rs), levels, next, pins - multiset(rs))
  {
    UnpinsCount(t, pins, rs);
    var t' := UnpinAll(t, rs);
    forall r: Reader
      ensures r in t'.refs ==> r in t.refs
      ensures r in levels ==> r in t'.refs
      ensures t'.closes[r] == if r < next && r !in t'.refs then 1 else 0
    {
    }
  }

  lemma {:induction false} RegisterKeepsReaders(t: RefTable, levels: seq<Reader>, next: nat, pins: multiset<Reader>, n: nat)
    requires ReadersInv(t, levels, next, pins)
    ensures ReadersInv(Registered(t, next, n), levels + Fresh(next, n), next + n, pins)
    ensures Registered(t, next, n).closes == t.closes
  {
    hide ReadersInv;
    if n == 0 {
      assert levels + Fresh(next, 0) == levels;
    } else {
      RegisterKeepsReaders(t, levels, next, pins, n - 1);
      assert levels + Fresh(next, n) == levels + Fresh(next, n - 1) + [next + n - 1];
      RegisterOne(Registered(t, next, n - 1), levels + Fresh(next, n - 1), next + n - 1, pins);
    }
  }

  lemma RegisterOne(t: RefTable, levels: seq<Reader>, next: nat, pins: multiset<Reader>)
    requires ReadersInv(t, levels, next, pins)
    ensures ReadersInv(t.(refs := t.refs[next := Ref(0, false)]), levels + [next], next + 1, pins)
  {
    assert next !in t.refs && next !in levels && pins[next] == 0;
    assert multiset(levels + [next]) == multiset(levels) + multiset{next};
  }

  lemma OrderDoesNotMatter(t: RefTable, levels: seq<Reader>, levels': seq<Reader>, next: nat, pins: multiset<Reader>)
    requires ReadersInv(t, levels, next, pins) && multiset(levels') == multiset(levels)
    ensures ReadersInv(t, levels', next, pins)
  {
    forall r: Reader
      ensures r in levels' <==> r in levels
    {
      assert r in levels' <==> r in multiset(levels');
      assert r in levels <==> r in multiset(levels);
    }
  }

  lemma MarkKeepsReaders(t: RefTable, kept: seq<Reader>, obsolete: seq<Reader>, next: nat, pins: multiset<Reader>)
    requires ReadersInv(t, kept + obsolete, next, pins)
    ensures ReadersInv(MarkAll(t, obsolete), kept, next, pins)
  {
    MarksCount(t, pins, obsolete);
    var t' := MarkAll(t, obsolete);
    var levels: seq<Reader> := kept + obsolete;
    var all: multiset<Reader> := multiset(kept) + multiset(obsolete);
    assert all == multiset(levels);
    forall r: Reader
      ensures r in kept ==> r !in obsolete
      ensures r in levels <==> r in kept || r in obsolete
      ensures multiset(kept)[r] <= 1
    {
      assert all[r] == multiset(kept)[r] + multiset(obsolete)[r] <= 1;
      assert r in kept <==> multiset(kept)[r] > 0;
      assert r in obsolete <==> multiset(obsolete)[r] > 0;
    }
  }

  // ------------------------------------------------------- every step keeps the invariant

  /** Entries are untouched by a pin appended or by one dropped that none of them holds. */
  lemma PinAppendKeepsEntries(w: World, rs: seq<Reader>)
    requires Inv(w)
    ensures forall e :: 0 <= e < |w.entries| ==> EntryInv(w.entries[e], w.pins + [Some(rs)], Uses(w.uses, e))
  {
    hide ReadersInv, AllPins, Uses;
  }

  lemma PinDropKeepsEntries(w: World, h: nat)
    requires Inv(w) && h < |w.pins| && !IsHolder(w, h)
    ensures forall e :: 0 <= e < |w.entries| ==> EntryInv(w.entries[e], w.pins[h := None], Uses(w.uses, e))
  {
    hide ReadersInv, AllPins, Uses;
    forall e | 0 <= e < |w.entries|
      ensures EntryInv(w.entries[e], w.pins[h := None], Uses(w.uses, e))
    {
      assert EntryInv(w.entries[e], w.pins, Uses(w.uses, e)) && w.entries[e].holder != h;
    }
  }

  lemma BeginReadKeepsInv(w: World, w': World)
    requires Inv(w) && BeginRead(w, w')
    ensures Inv(w')
  {
    PinAppendKeepsEntries(w, w.levels);
    LevelsRegistered(w);
    PinnedReaders(w, w.levels);
    hide EntryInv, AllPins, Uses, ReadersInv, PinAll;
  }

  /** Readers that are registered may be pinned once more. */
  lemma PinnedReaders(w: World, rs: seq<Reader>)
    requires Inv(w) && forall r: Reader :: r in rs ==> r in w.table.refs
    ensures ReadersInv(PinAll(w.table, rs), w.levels, w.nextReader, AllPins(w.pins + [Some(rs)]))
  {
    hide EntryInv, AllPins, Uses, ReadersInv, PinAll;
    AllPinsAppend(w.pins, rs);
    PinKeepsReaders(w.table, w.levels, w.nextReader, AllPins(w.pins), rs);
  }

  lemma EndReadKeepsInv(w: World, w': World)
    requires Inv(w) && EndRead(w, w')
    ensures Inv(w')
  {
    var h: nat :| h < |w.pins| && w.pins[h].Some? && !IsHolder(w, h)
      && w' == w.(table := UnpinAll(w.table, w.pins[h].value), pins := w.pins[h := None]);
    PinDropKeepsEntries(w, h);
    hide ReadersInv, AllPins, Uses, EntryInv, IsHolder;
    AllPinsDrop(w.pins, h);
    var rs := w.pins[h].value;
    assert AllPins(w.pins) - multiset(rs) == AllPins(w'.pins);
    UnpinKeepsReaders(w.table, w.levels, w.nextReader, AllPins(w.pins), rs);
  }

  lemma NewEntryInv(rs: seq<Reader>, pins: seq<Option<seq<Reader>>>)
    ensures EntryInv(Entry(rs, |pins|, Listed, 0, 0, 0), pins + [Some(rs)], 0)
  {
  }

  lemma HoldersKnown(w: World)
    requires Inv(w)
    ensures forall e :: 0 <= e < |w.entries| ==> w.entries[e].holder < |w.pins|
  {
    hide ReadersInv, AllPins, Uses;
    forall e | 0 <= e < |w.entries|
      ensures w.entries[e].holder < |w.pins|
    {
      assert EntryInv(w.entries[e], w.pins, Uses(w.uses, e));
    }
  }

  lemma CreateSnapshotKeepsInv(w: World, w': World)
    requires Inv(w) && CreateSnapshot(w, w')
    ensures Inv(w')
  {
    LevelsRegistered(w);
    PinnedReaders(w, w.levels);
    PinAppendKeepsEntries(w, w.levels);
    NewEntryInv(w.levels, w.pins);
    HoldersKnown(w);
    hide ReadersInv, AllPins, Uses, EntryInv, PinAll;
    var n := |w.entries|;
    UsesNone(w.uses, n);
    assert w'.entries[n].holder == |w.pins| && w'.uses == w.uses;
    forall e | 0 <= e < |w'.entries|
      ensures EntryInv(w'.entries[e], w'.pins, Uses(w'.uses, e)) && (e < n ==> w'.entries[e] == w.entries[e])
    {
      assert e < n ==> w'.entries[e] == w.entries[e];
    }
  }

  lemma LevelsRegistered(w: World)
    requires Inv(w)
    ensures forall r: Reader :: r in w.levels ==> r in w.table.refs
  {
  }

  lemma AcquireKeepsInv(w: World, w': World)
    requires Inv(w) && Acquire(w, w')
    ensures Inv(w')
  {
    hide ReadersInv, AllPins, Uses;
    var f: nat :| f < |w.entries| && w.entries[f].stage == Listed
      && w' == w.(entries := w.entries[f := w.entries[f].(refCount := w.entries[f].refCount + 1)], uses := w.uses + [Some(f)]);
    forall e: nat
      ensures Uses(w'.uses, e) == Uses(w.uses, e) + if f == e then 1 else 0
    {
      UsesAppend(w.uses, f, e);
    }
  }

  /** The files of a snapshot that is being read are pinned, by itself. */
  lemma ReadFilesPinned(w: World, u: nat)
    requires Inv(w) && u < |w.uses| && w.uses[u].Some?
    ensures var x := w.entries[w.uses[u].value];
            && x.closed == 0 && x.closing == 0 && x.holder < |w.pins| && w.pins[x.holder] == Some(x.readers)
            && multiset(x.readers) <= AllPins(w.pins)
            && forall r: Reader :: r in x.readers ==> r in w.table.refs && w.table.closes[r] == 0
  {
    var e := w.uses[u].value;
    var x := w.entries[e];
    assert EntryInv(x, w.pins, Uses(w.uses, e));
    UsesDrop(w.uses, u, e);
    AllPinsDrop(w.pins, x.holder);
    hide AllPins, Uses;
    forall r: Reader | r in x.readers
      ensures r in w.table.refs && w.table.closes[r] == 0
    {
      assert r in multiset(x.readers);
      assert r in AllPins(w.pins);
    }
  }

  lemma ScanSnapshotKeepsInv(w: World, w': World)
    requires Inv(w) && ScanSnapshot(w, w')
    ensures Inv(w')
  {
    var u: nat :| u < |w.uses| && w.uses[u].Some? && w.uses[u].value < |w.entries|
      && var rs := w.entries[w.uses[u].value].readers; w' == w.(table := PinAll(w.table, rs), pins := w.pins + [Some(rs)]);
    var rs := w.entries[w.uses[u].value].readers;
    ReadFilesPinned(w, u);
    PinAppendKeepsEntries(w, rs);
    PinnedReaders(w, rs);
    hide EntryInv, AllPins, Uses, ReadersInv, PinAll;
  }

  lemma ReleaseRefKeepsInv(w: World, w': World)
    requires Inv(w) && ReleaseRef(w, w')
    ensures Inv(w')
  {
    var u: nat :| u < |w.uses| && w.uses[u].Some? && w.uses[u].value < |w.entries|
      && var e := w.uses[u].value; w' == w.(entries := w.entries[e := Dropped(w.entries[e])], uses := w.uses[u := None]);
    hide ReadersInv, AllPins, Uses;
    var f := w.uses[u].value;
    forall e: nat
      ensures Uses(w.uses, e) == Uses(w'.uses, e) + if f == e then 1 else 0
    {
      UsesDrop(w.uses, u, e);
    }
    assert EntryInv(w.entries[f], w.pins, Uses(w.uses, f));
    assert EntryInv(w'.entries[f], w'.pins, Uses(w'.uses, f));
  }

  lemma RemoveKeepsInv(w: World, w': World)
    requires Inv(w) && Remove(w, w')
    ensures Inv(w')
  {
    hide ReadersInv, AllPins, Uses;
  }

  lemma MarkReleasedKeepsInv(w: World, w': World)
    requires Inv(w) && MarkReleased(w, w')
    ensures Inv(w')
  {
    hide ReadersInv, AllPins, Uses;
  }

  lemma CloseSnapshotKeepsInv(w: World, w': World)
    requires Inv(w) && CloseSnapshot(w, w')
    ensures Inv(w')
  {
    hide ReadersInv, AllPins, Uses;
    var e: nat :| e < |w.entries| && w.entries[e].closing > 0 && w.entries[e].holder < |w.pins|
      && var x := w.entries[e]; var done := w.entries[e := x.(closing := x.closing - 1, closed := x.closed + 1)];
      w' == if x.closed > 0 then w.(entries := done)
            else w.(entries := done, table := UnpinAll(w.table, x.readers), pins := w.pins[x.holder := None]);
    var x := w.entries[e];
    assert EntryInv(x, w.pins, Uses(w.uses, e));
    AllPinsDrop(w.pins, x.holder);
    assert AllPins(w.pins) - multiset(x.readers) == AllPins(w'.pins);
    UnpinKeepsReaders(w.table, w.levels, w.nextReader, AllPins(w.pins), x.readers);
    forall f | 0 <= f < |w'.entries|
      ensures EntryInv(w'.entries[f], w'.pins, Uses(w'.uses, f))
    {
      if f != e {
        assert EntryInv(w.entries[f], w.pins, Uses(w.uses, f));
        assert w.entries[f].holder != x.holder;
      }
    }
  }

  lemma RegisterFlushKeepsInv(w: World, w': World)
    requires Inv(w) && RegisterFlush(w, w')
    ensures Inv(w')
  {
    hide ReadersInv, AllPins, Uses, EntryInv;
    var grown := w.levels + Fresh(w.nextReader, 1);
    RegisterKeepsReaders(w.table, w.levels, w.nextReader, AllPins(w.pins), 1);
    assert Fresh(w.nextReader, 1) == [w.nextReader];
    assert multiset(w'.levels) == multiset(grown);
    OrderDoesNotMatter(w'.table, grown, w'.levels, w'.nextReader, AllPins(w.pins));
  }

  lemma CommitCompactionKeepsInv(w: World, w': World)
    requires Inv(w) && CommitCompaction(w, w')
    ensures Inv(w')
  {
    hide ReadersInv, AllPins, Uses, EntryInv, Registered, MarkAll;
    var kept: seq<Reader>, obsolete: seq<Reader>, n: nat :|
      && multiset(kept) + multiset(obsolete) == multiset(w.levels)
      && w' == w.(table := MarkAll(Registered(w.table, w.nextReader, n), obsolete),
                  levels := kept + Fresh(w.nextReader, n), nextReader := w.nextReader + n);
    var t, new' := Registered(w.table, w.nextReader, n), Fresh(w.nextReader, n);
    RegisterKeepsReaders(w.table, w.levels, w.nextReader, AllPins(w.pins), n);
    assert multiset((kept + new') + obsolete) == multiset(w.levels + new');
    OrderDoesNotMatter(t, w.levels + new', (kept + new') + obsolete, w'.nextReader, AllPins(w.pins));
    MarkKeepsReaders(t, kept + new', obsolete, w'.nextReader, AllPins(w.pins));
  }

  lemma NextKeepsInv(w: World, w': World)
    requires Inv(w) && Next(w, w')
    ensures Inv(w')
  {
    hide Inv, BeginRead, EndRead, CreateSnapshot, Acquire, ScanSnapshot, ReleaseRef, Remove, MarkReleased, CloseSnapshot, RegisterFlush, CommitCompaction;
    if BeginRead(w, w') { BeginReadKeepsInv(w, w'); }
    else if EndRead(w, w') { EndReadKeepsInv(w, w'); }
    else if CreateSnapshot(w, w') { CreateSnapshotKeepsInv(w, w'); }
    else if Acquire(w, w') { AcquireKeepsInv(w, w'); }
    else if ScanSnapshot(w, w') { ScanSnapshotKeepsInv(w, w'); }
    else if ReleaseRef(w, w') { ReleaseRefKeepsInv(w, w'); }
    else if Remove(w, w') { RemoveKeepsInv(w, w'); }
    else if MarkReleased(w, w') { MarkReleasedKeepsInv(w, w'); }
    else if CloseSnapshot(w, w') { CloseSnapshotKeepsInv(w, w'); }
    else if RegisterFlush(w, w') { RegisterFlushKeepsInv(w, w'); }
    else { CommitCompactionKeepsInv(w, w'); }
  }

  // ------------------------------------------------------------------ every run

  ghost predicate IsRun(run: seq<World>) {
    run != [] && run[0] == Initial() && forall i :: 0 <= i < |run| - 1 ==> Next(run[i], run[i + 1])
  }

  lemma {:induction false} RunKeepsInv(run: seq<World>)
    requires IsRun(run)
    ensures Inv(run[|run| - 1])
    decreases |run|
  {
    hide Inv, Next;
    if |run| == 1 {
      InitialInv();
    } else {
      RunKeepsInv(run[..|run| - 1]);
      NextKeepsInv(run[|run| - 2], run[|run| - 1]);
    }
  }

  /** In every interleaving each reader that ever existed is open exactly while it is in the levels or
      pinned, and is closed once. */
  lemma OpenExactlyWhileNeeded(run: seq<World>, r: Reader)
    requires IsRun(run)
    ensures var w := run[|run| - 1];
            w.table.closes[r] == if r >= w.nextReader || r in w.levels || AllPins(w.pins)[r] > 0 then 0 else 1
  {
    hide Next, AllPins;
    RunKeepsInv(run);
    var w := run[|run| - 1];
    assert r in AllPins(w.pins) ==> r in w.table.refs;
    assert r in w.table.refs && r !in w.levels ==> w.table.refs[r].obsolete;
  }

  /** Each snapshot is closed at most once, never while it is being read, and its files stay open as
      long as it is. */
  lemma SnapshotClosedOnceAndUnused(run: seq<World>, e: nat)
    requires IsRun(run) && e < |run[|run| - 1].entries|
    ensures var w := run[|run| - 1]; var x := w.entries[e];
            && x.closed <= 1 && (x.closed > 0 ==> x.stage == Released && Uses(w.uses, e) == 0)
            && (x.stage == Released && Uses(w.uses, e) == 0 ==> x.closing + x.closed == 1)
            && (x.closed == 0 ==> forall r: Reader :: r in x.readers ==> w.table.closes[r] == 0)
  {
    hide Next, Uses, AllPins;
    RunKeepsInv(run);
    var w := run[|run| - 1];
    var x := w.entries[e];
    assert EntryInv(x, w.pins, Uses(w.uses, e));
    if x.closed == 0 {
      AllPinsDrop(w.pins, x.holder);
      forall r: Reader | r in x.readers
        ensures w.table.closes[r] == 0
      {
        assert r in multiset(x.readers);
        assert r in AllPins(w.pins);
      }
    }
  }
}
