/** The merging iterator behind Scan (internal/storage/iterator.go) and the choice of its sources
    (internal/storage/engine.go, scanInternal). */
module MergeIterators {
  import opened ByteStrings
  import opened Tables
  import opened Levels

  // ------------------------------------------------------- what is left to deliver

  ghost function TablesOfRuns(rests: seq<seq<Record>>): (t: seq<Table>)
    ensures |t| == |rests| && forall i :: 0 <= i < |t| ==> t[i] == RunTable(rests[i])
  {
    seq(|rests|, i requires 0 <= i < |rests| => RunTable(rests[i]))
  }

  ghost predicate AllSorted(rests: seq<seq<Record>>) {
    forall i :: 0 <= i < |rests| ==> Sorted(rests[i])
  }

  ghost predicate NoneBelow(rests: seq<seq<Record>>, prefix: Bytes) {
    forall i, p :: 0 <= i < |rests| && 0 <= p < |rests[i]| ==> !Less(rests[i][p].key, prefix)
  }

  /** The live entries of a table whose key has the prefix. */
  ghost function Matching(t: Table, prefix: Bytes): Contents {
    map k | k in Live(t) && HasPrefix(k, prefix) :: Live(t)[k]
  }

  /** What a scan still has to deliver from sources given newest first. */
  ghost function Upcoming(rests: seq<seq<Record>>, prefix: Bytes): Contents {
    Matching(Overlay(TablesOfRuns(rests)), prefix)
  }

  /** Source i shows the least key of all, and no source before it shows the same. */
  ghost predicate ShowsLeast(rests: seq<seq<Record>>, i: nat, n: nat)
    requires n <= |rests|
  {
    && i < n && rests[i] != []
    && forall j :: 0 <= j < n && rests[j] != [] ==>
         !Less(rests[j][0].key, rests[i][0].key) && (j < i ==> rests[j][0].key != rests[i][0].key)
  }

  /** The sources after each has passed the key. */
  function Passed(rests: seq<seq<Record>>, key: Bytes, n: nat): (r: seq<seq<Record>>)
    ensures |r| == |rests|
    ensures forall j :: 0 <= j < |r| ==>
              r[j] == if j < n && rests[j] != [] && rests[j][0].key == key then rests[j][1..] else rests[j]
  {
    seq(|rests|, j requires 0 <= j < |rests| =>
      if j < n && rests[j] != [] && rests[j][0].key == key then rests[j][1..] else rests[j])
  }

  lemma TailTable(run: seq<Record>)
    requires Sorted(run) && run != []
    ensures RunTable(run[1..]) == RunTable(run) - {run[0].key}
    ensures Sorted(run[1..])
    ensures run[0].key in RunTable(run)
    ensures RunTable(run)[run[0].key] == run[0].entry
    ensures forall k :: k in RunTable(run[1..]) ==> Less(run[0].key, k)
  {
    var t, tail := RunTable(run), run[1..];
    assert forall p :: 0 <= p < |tail| ==> tail[p] == run[p + 1];
    RunTableAt(run, 0);
    forall k
      ensures k in RunTable(tail) <==> k in t && k != run[0].key
      ensures k in RunTable(tail) ==> RunTable(tail)[k] == t[k] && Less(run[0].key, k)
    {
      RunTableKeys(run, k);
      RunTableKeys(tail, k);
      LessTotal(k, k);
      if k in t && k != run[0].key {
        var p :| 0 <= p < |run| && run[p].key == k;
        assert tail[p - 1].key == k;
      }
      if k in RunTable(tail) {
        var p :| 0 <= p < |tail| && tail[p].key == k;
        RunTableAt(tail, p);
        RunTableAt(run, p + 1);
      }
    }
  }

  lemma {:induction false} OverlayWithout(a: seq<Table>, b: seq<Table>, key: Bytes)
    requires |a| == |b| && forall i :: 0 <= i < |a| ==> b[i] == a[i] - {key}
    ensures Overlay(b) == Overlay(a) - {key}
  {
    if a != [] {
      OverlayWithout(a[1..], b[1..], key);
    }
  }

  /** A source whose least key is above the given one does not hold it. */
  lemma HeadBounds(run: seq<Record>, key: Bytes)
    requires Sorted(run) && (run == [] || (!Less(run[0].key, key) && run[0].key != key))
    ensures key !in RunTable(run) && forall k :: k in RunTable(run) ==> Less(key, k)
  {
    LessIsStrictTotalOrder();
    forall k | k in RunTable(run)
      ensures Less(key, k)
    {
      RunTableKeys(run, k);
    }
  }

  /** Once every source has passed the least key, what is left lacks just that key; its entry was
      that of the first source showing it. */
  lemma PassedMeaning(rests: seq<seq<Record>>, i: nat)
    requires AllSorted(rests) && ShowsLeast(rests, i, |rests|)
    ensures var key := rests[i][0].key; var t := Overlay(TablesOfRuns(rests));
            var left := Passed(rests, key, |rests|);
            && AllSorted(left) && key in t && t[key] == rests[i][0].entry
            && Overlay(TablesOfRuns(left)) == t - {key}
            && forall k :: k in t && k != key ==> Less(key, k)
  {
    hide RunTable, Sorted, Overlay;
    var key := rests[i][0].key;
    var tables, left := TablesOfRuns(rests), Passed(rests, key, |rests|);
    forall j | 0 <= j < |rests|
      ensures Sorted(left[j])
      ensures TablesOfRuns(left)[j] == tables[j] - {key}
      ensures key in tables[j] <==> rests[j] != [] && rests[j][0].key == key
      ensures forall k :: k in tables[j] && k != key ==> Less(key, k)
    {
      if rests[j] != [] && rests[j][0].key == key {
        TailTable(rests[j]);
      } else {
        HeadBounds(rests[j], key);
      }
    }
    TailTable(rests[i]);
    OverlayAt(tables, key);
    OverlayWithout(tables, TablesOfRuns(left), key);
    forall k | k in Overlay(tables) && k != key
      ensures Less(key, k)
    {
      OverlayAt(tables, k);
    }
  }

  /** When the least key lacks the prefix, so does every key after it. */
  lemma NothingAfterPrefix(rests: seq<seq<Record>>, prefix: Bytes, i: nat)
    requires AllSorted(rests) && NoneBelow(rests, prefix) && ShowsLeast(rests, i, |rests|) && !HasPrefix(rests[i][0].key, prefix)
    ensures Upcoming(rests, prefix) == map[]
  {
    var t := Overlay(TablesOfRuns(rests));
    var key := rests[i][0].key;
    PassedMeaning(rests, i);
    forall k | k in t
      ensures !HasPrefix(k, prefix)
    {
      if k != key && HasPrefix(k, prefix) {
        PrefixedInterval(prefix, key, k);
      }
    }
  }

  lemma NothingLeft(rests: seq<seq<Record>>, prefix: Bytes)
    requires forall i :: 0 <= i < |rests| ==> rests[i] == []
    ensures Upcoming(rests, prefix) == map[]
  {
    forall k
      ensures k !in Overlay(TablesOfRuns(rests))
    {
      OverlayAt(TablesOfRuns(rests), k);
    }
  }

  /** Passing a key with the prefix delivers it, unless its entry is a tombstone. */
  lemma PassedUpcoming(rests: seq<seq<Record>>, prefix: Bytes, i: nat)
    requires AllSorted(rests) && ShowsLeast(rests, i, |rests|) && HasPrefix(rests[i][0].key, prefix)
    ensures var r := rests[i][0]; var u := Upcoming(rests, prefix); var left := Passed(rests, r.key, |rests|);
            && Upcoming(left, prefix) == u - {r.key}
            && (if r.entry.Put? then r.key in u && u[r.key] == r.entry.value else r.key !in u)
            && forall k :: k in Upcoming(left, prefix) ==> Less(r.key, k)
  {
    PassedMeaning(rests, i);
    hide Overlay, ShowsLeast, AllSorted, Less, TablesOfRuns, Passed;
    MatchingWithout(Overlay(TablesOfRuns(rests)), prefix, rests[i][0].key);
  }

  lemma MatchingWithout(t: Table, prefix: Bytes, key: Bytes)
    requires key in t && HasPrefix(key, prefix)
    ensures Matching(t - {key}, prefix) == Matching(t, prefix) - {key}
    ensures if t[key].Put? then key in Matching(t, prefix) && Matching(t, prefix)[key] == t[key].value else key !in Matching(t, prefix)
    ensures forall k :: k in Matching(t - {key}, prefix) ==> k in t && k != key
  {
  }

  /** One round of findNext on a key with the prefix. */
  lemma RoundKeepsUpcoming(rests: seq<seq<Record>>, prefix: Bytes, i: nat)
    requires i < |rests| && rests[i] != [] && HasPrefix(rests[i][0].key, prefix)
    requires AllSorted(rests) && NoneBelow(rests, prefix) && ShowsLeast(rests, i, |rests|)
    ensures var r := rests[i][0]; var left := Passed(rests, r.key, |rests|);
            && AllSorted(left) && NoneBelow(left, prefix) && Total(left) < Total(rests)
            && Upcoming(rests, prefix) == (if r.entry.Put? then Upcoming(left, prefix)[r.key := r.entry.value] else Upcoming(left, prefix))
            && forall k :: k in Upcoming(left, prefix) ==> Less(r.key, k)
  {
    hide Upcoming, AllSorted, NoneBelow, Less, HasPrefix, Total, Passed, Overlay, TablesOfRuns, ShowsLeast;
    var r := rests[i][0];
    PassedMeaning(rests, i);
    PassedUpcoming(rests, prefix, i);
    PassedStaysAbove(rests, prefix, r.key);
    TotalShrinks(rests, r.key, i);
    PutBack(Upcoming(rests, prefix), r);
  }

  lemma PutBack(c: Contents, r: Record)
    ensures r.entry.Put? && r.key in c && c[r.key] == r.entry.value ==> (c - {r.key})[r.key := r.entry.value] == c
    ensures r.key !in c ==> c - {r.key} == c
  {
  }

  lemma PassedStaysAbove(rests: seq<seq<Record>>, prefix: Bytes, key: Bytes)
    requires NoneBelow(rests, prefix)
    ensures NoneBelow(Passed(rests, key, |rests|), prefix)
  {
    hide Less;
  }

  function Total(rests: seq<seq<Record>>): nat {
    if rests == [] then 0 else Total(rests[..|rests| - 1]) + |rests[|rests| - 1]|
  }

  lemma {:induction false} TotalShrinks(rests: seq<seq<Record>>, key: Bytes, i: nat)
    requires i < |rests| && rests[i] != [] && rests[i][0].key == key
    ensures Total(Passed(rests, key, |rests|)) < Total(rests)
  {
    var m := |rests| - 1;
    assert Passed(rests, key, |rests|)[..m] == Passed(rests[..m], key, m);
    if i < m {
      TotalShrinks(rests[..m], key, i);
    } else {
      TotalDoesNotGrow(rests[..m], key);
    }
  }

  lemma {:induction false} TotalDoesNotGrow(rests: seq<seq<Record>>, key: Bytes)
    ensures Total(Passed(rests, key, |rests|)) <= Total(rests)
  {
    if rests != [] {
      var m := |rests| - 1;
      assert Passed(rests, key, |rests|)[..m] == Passed(rests[..m], key, m);
      TotalDoesNotGrow(rests[..m], key);
    }
  }

  // ------------------------------------------------------------------ the iterator

  /** A memtable or file iterator: the walk over a run that their own modules establish. */
  class Source {
    const run: seq<Record>
    var pos: nat

    constructor (run: seq<Record>)
      ensures this.run == run && pos == 0
    {
      this.run := run;
      pos := 0;
    }

    predicate Valid()
      reads this
    {
      pos < |run|
    }

    function Current(): Record
      requires Valid()
      reads this
    {
      run[pos]
    }

    ghost function Rest(): seq<Record>
      reads this
    {
      if pos <= |run| then run[pos..] else []
    }

    method Next()
      modifies this
      ensures Rest() == if old(Rest()) == [] then [] else old(Rest())[1..]
    {
      if pos < |run| {
        pos := pos + 1;
      }
    }
  }

  ghost function Rests(iters: seq<Source>): (r: seq<seq<Record>>)
    reads iters
    ensures |r| == |iters|
  {
    seq(|iters|, i requires 0 <= i < |iters| reads iters => iters[i].Rest())
  }

  lemma RestAt(iters: seq<Source>, i: nat)
    requires i < |iters|
    ensures Rests(iters)[i] == iters[i].Rest()
  {
  }

  ghost predicate Distinct(iters: seq<Source>) {
    forall i, j :: 0 <= i < j < |iters| ==> iters[i] != iters[j]
  }

  /** The first loop of findNext. */
  method SmallestSource(iters: seq<Source>) returns (smallest: int)
    ensures smallest == -1 ==> forall i :: 0 <= i < |iters| ==> Rests(iters)[i] == []
    ensures smallest != -1 ==>
              && 0 <= smallest < |iters| && ShowsLeast(Rests(iters), smallest, |iters|)
              && iters[smallest].Valid() && iters[smallest].Current() == Rests(iters)[smallest][0]
  {
    hide Less, ShowsLeast, Rests;
    smallest := -1;
    ghost var rests := Rests(iters);
    for i := 0 to |iters|
      invariant -1 <= smallest < i
      invariant smallest == -1 ==> forall j :: 0 <= j < i ==> rests[j] == []
      invariant smallest != -1 ==> rests[smallest] != [] && ShowsLeast(rests, smallest, i)
      invariant smallest != -1 ==> iters[smallest].Valid() && iters[smallest].Current() == rests[smallest][0]
    {
      RestAt(iters, i);
      if smallest != -1 {
        RestAt(iters, smallest);
      }
      if iters[i].Valid() {
        if smallest == -1 {
          FirstShown(rests, i);
          smallest := i;
        } else if Less(iters[i].Current().key, iters[smallest].Current().key) {
          NewLeast(rests, smallest, i);
          smallest := i;
        } else {
          StaysLeast(rests, smallest, i);
        }
      } else if smallest != -1 {
        StaysLeast(rests, smallest, i);
      }
    }
  }

  lemma FirstShown(rests: seq<seq<Record>>, i: nat)
    requires i < |rests| && rests[i] != [] && forall j :: 0 <= j < i ==> rests[j] == []
    ensures ShowsLeast(rests, i, i + 1)
  {
    LessIrreflexive(rests[i][0].key);
  }

  lemma StaysLeast(rests: seq<seq<Record>>, smallest: nat, i: nat)
    requires smallest < i < |rests| && ShowsLeast(rests, smallest, i)
    requires rests[i] == [] || !Less(rests[i][0].key, rests[smallest][0].key)
    ensures ShowsLeast(rests, smallest, i + 1)
  {
  }

  lemma NewLeast(rests: seq<seq<Record>>, smallest: nat, i: nat)
    requires i < |rests| && ShowsLeast(rests, smallest, i) && rests[i] != [] && Less(rests[i][0].key, rests[smallest][0].key)
    ensures ShowsLeast(rests, i, i + 1)
  {
    LessIsStrictTotalOrder();
  }

  method Advance(iters: seq<Source>, i: nat)
    requires Distinct(iters) && i < |iters| && Rests(iters)[i] != []
    modifies iters
    ensures Rests(iters) == old(Rests(iters))[i := old(Rests(iters))[i][1..]]
  {
    iters[i].Next();
    assert forall j :: 0 <= j < |iters| && j != i ==> iters[j].Rest() == old(iters[j].Rest());
  }

  lemma PassOne(rests: seq<seq<Record>>, key: Bytes, i: nat)
    requires i < |rests|
    ensures Passed(rests, key, i)[i] == rests[i]
    ensures Passed(rests, key, i + 1) ==
            if rests[i] != [] && rests[i][0].key == key then Passed(rests, key, i)[i := rests[i][1..]] else Passed(rests, key, i)
  {
  }

  /** The last loop of findNext: every source showing the key steps past it. */
  method PassKey(iters: seq<Source>, key: Bytes)
    requires Distinct(iters)
    modifies iters
    ensures Rests(iters) == Passed(old(Rests(iters)), key, |iters|)
  {
    hide Distinct, Passed;
    ghost var before := Rests(iters);
    NonePassed(before, key);
    for i := 0 to |iters|
      invariant Rests(iters) == Passed(before, key, i)
    {
      PassOne(before, key, i);
      assert Rests(iters)[i] == before[i];
      if iters[i].Valid() && iters[i].Current().key == key {
        Advance(iters, i);
      }
    }
  }

  lemma NonePassed(rests: seq<seq<Record>>, key: Bytes)
    ensures Passed(rests, key, 0) == rests
  {
  }

  ghost predicate ReadyFor(rests: seq<seq<Record>>, prefix: Bytes) {
    AllSorted(rests) && NoneBelow(rests, prefix)
  }

  /** The loop of findNext: passes tombstones, stops at the first live entry or where the prefix ends. */
  method FindLive(iters: seq<Source>, prefix: Bytes) returns (found: Option<(Bytes, Bytes)>)
    requires Distinct(iters) && ReadyFor(Rests(iters), prefix)
    modifies iters
    ensures ReadyFor(Rests(iters), prefix)
    ensures match found
            case None => Upcoming(old(Rests(iters)), prefix) == map[]
            case Some(entry) =>
              && Upcoming(old(Rests(iters)), prefix) == Upcoming(Rests(iters), prefix)[entry.0 := entry.1]
              && forall k :: k in Upcoming(Rests(iters), prefix) ==> Less(entry.0, k)
  {
    hide Less, Upcoming, AllSorted, NoneBelow, HasPrefix, ShowsLeast, Total, Passed, Distinct;
    ghost var all := Upcoming(Rests(iters), prefix);
    while true
      invariant ReadyFor(Rests(iters), prefix) && Upcoming(Rests(iters), prefix) == all
      decreases Total(Rests(iters))
    {
      var smallest := SmallestSource(iters);
      ghost var rests := Rests(iters);
      if smallest == -1 {
        NothingLeft(rests, prefix);
        return None;
      }
      var r := iters[smallest].Current();
      if |prefix| > 0 && !HasPrefix(r.key, prefix) {
        NothingAfterPrefix(rests, prefix, smallest);
        return None;
      }
      assert HasPrefix(r.key, prefix) by { EmptyPrefix(r.key, prefix); }
      RoundKeepsUpcoming(rests, prefix, smallest);
      PassKey(iters, r.key);
      if r.entry.Put? {
        return Some((r.key, r.entry.value));
      }
    }
  }

  class MergingIterator {
    const iters: seq<Source>
    const prefix: Bytes
    var currKey: Bytes
    var currVal: Bytes
    var valid: bool
    var closed: bool

    ghost predicate Ready()
      reads this, iters
    {
      Distinct(iters) && ReadyFor(Rests(iters), prefix)
    }

    /** The entries Next has still to return. */
    ghost function Contents(): Contents
      reads this, iters
    {
      if valid then Upcoming(Rests(iters), prefix)[currKey := currVal] else map[]
    }

    /** The buffered entry comes before all others. */
    ghost predicate Buffered()
      reads this, iters
    {
      valid ==> forall k :: k in Upcoming(Rests(iters), prefix) ==> Less(currKey, k)
    }

    constructor (prefix: Bytes, iters: seq<Source>)
      requires Distinct(iters) && ReadyFor(Rests(iters), prefix)
      modifies iters
      ensures this.iters == iters
      ensures this.prefix == prefix
      ensures !closed
      ensures Ready()
      ensures Buffered()
      ensures Contents() == Upcoming(old(Rests(iters)), prefix)
    {
      this.iters := iters;
      this.prefix := prefix;
      currKey, currVal, valid, closed := [], [], false, false;
      new;
      FindNext();
    }

    /** The buffer takes the next live entry with the prefix, if any. */
    method FindNext()
      requires Ready()
      modifies this, iters
      ensures Ready() && Buffered() && closed == old(closed)
      ensures Contents() == Upcoming(old(Rests(iters)), prefix)
    {
      hide Less, Upcoming, ReadyFor, Distinct;
      var found := FindLive(iters, prefix);
      ghost var left := Rests(iters);
      match found {
        case Some(entry) => currKey, currVal, valid := entry.0, entry.1, true;
        case None => currKey, currVal, valid := [], [], false;
      }
      assert Rests(iters) == left;
    }

    /** The least entry still to come, which is then no longer to come. */
    method Next() returns (entry: Option<(Bytes, Bytes)>)
      requires Ready() && Buffered()
      modifies this, iters
      ensures Ready() && Buffered() && closed == old(closed)
      ensures closed || old(Contents()) == map[] ==> entry == None && Contents() == old(Contents())
      ensures !closed && old(Contents()) != map[] ==>
                && entry.Some? && entry.value.0 in old(Contents()) && old(Contents())[entry.value.0] == entry.value.1
                && Contents() == old(Contents()) - {entry.value.0}
                && forall k :: k in Contents() ==> Less(entry.value.0, k)
    {
      hide Less, Upcoming, AllSorted, NoneBelow, HasPrefix;
      if closed || !valid {
        return None;
      }
      entry := Some((currKey, currVal));
      assert currKey !in Upcoming(Rests(iters), prefix) by { LessIrreflexive(currKey); }
      assert currKey in Contents();
      FindNext();
    }

    method Close()
      modifies this
      ensures closed
      ensures valid == old(valid)
      ensures currKey == old(currKey)
      ensures currVal == old(currVal)
    {
      closed := true;
    }
  }

  lemma EmptyPrefix(k: Bytes, prefix: Bytes)
    requires |prefix| == 0 || HasPrefix(k, prefix)
    ensures HasPrefix(k, prefix)
  {
  }

  // -------------------------------------------------------- which sources a scan needs

  /** The carry-incremented prefix: no key with the prefix reaches it. None when every byte is 0xFF. */
  method PrefixLimit(prefix: Bytes) returns (limit: Bytes)
    ensures limit == [] <==> forall i :: 0 <= i < |prefix| ==> prefix[i] == 0xFF
    ensures limit != [] ==> forall k :: HasPrefix(k, prefix) ==> Less(k, limit)
  {
    limit := prefix;
    var overflowed := true;
    var i := |limit| - 1;
    while i >= 0
      invariant -1 <= i < |prefix| && |limit| == |prefix| && overflowed
      invariant limit[..i + 1] == prefix[..i + 1]
      invariant forall j :: i < j < |prefix| ==> prefix[j] == 0xFF
    {
      var last: int := limit[i];
      limit := limit[i := (last + 1) % 256];
      if limit[i] != 0 {
        overflowed := false;
        forall k | HasPrefix(k, prefix)
          ensures Less(k, limit)
        {
          LimitAbove(k, prefix, limit, i);
        }
        break;
      }
      i := i - 1;
    }
    if overflowed {
      limit := [];
    }
  }

  lemma LimitAbove(k: Bytes, prefix: Bytes, limit: Bytes, i: nat)
    requires i < |prefix| == |limit| && limit[..i] == prefix[..i] && limit[i] as int == prefix[i] as int + 1 && HasPrefix(k, prefix)
    ensures Less(k, limit)
  {
    assert k[..i] == prefix[..i] by { assert k[..|prefix|][..i] == k[..i]; }
    assert k[i] == prefix[i] by { assert k[..|prefix|][i] == k[i]; }
    assert k == prefix[..i] + k[i..] && limit == prefix[..i] + limit[i..];
    LessOfCommonPrefix(prefix[..i], k[i..], limit[i..]);
  }

  /** The overlays of two lists of tables say the same of every key with the prefix. */
  ghost predicate AgreeOn(a: seq<Table>, b: seq<Table>, prefix: Bytes) {
    forall k :: HasPrefix(k, prefix) ==> Lookup(Overlay(a), k) == Lookup(Overlay(b), k)
  }

  lemma AgreeAppend(a: seq<Table>, b: seq<Table>, t: Table, t': Table, prefix: Bytes)
    requires AgreeOn(a, b, prefix) && forall k :: HasPrefix(k, prefix) ==> Lookup(t, k) == Lookup(t', k)
    ensures AgreeOn(a + [t], b + [t'], prefix)
  {
    BelowAll(a, t);
    BelowAll(b, t');
    hide Overlay, HasPrefix;
    forall k | HasPrefix(k, prefix)
      ensures Lookup(Overlay(a + [t]), k) == Lookup(Overlay(b + [t']), k)
    {
      assert Lookup(Overlay(a), k) == Lookup(Overlay(b), k);
    }
  }

  lemma AgreeSkip(a: seq<Table>, b: seq<Table>, t: Table, prefix: Bytes)
    requires AgreeOn(a, b, prefix) && forall k :: HasPrefix(k, prefix) ==> k !in t
    ensures AgreeOn(a + [t], b, prefix)
  {
    BelowAll(a, t);
    hide Overlay, HasPrefix;
    forall k | HasPrefix(k, prefix)
      ensures Lookup(Overlay(a + [t]), k) == Lookup(Overlay(b), k)
    {
      assert Lookup(Overlay(a), k) == Lookup(Overlay(b), k);
    }
  }

  lemma BelowAll(a: seq<Table>, t: Table)
    ensures Overlay(a + [t]) == t + Overlay(a)
  {
    OverlayOfConcatenation(a, [t]);
    assert [t][1..] == [];
  }

  /** Starting at the prefix loses nothing that has it. */
  lemma FromPrefix(run: seq<Record>, prefix: Bytes)
    requires Sorted(run)
    ensures Sorted(FromKey(run, prefix))
    ensures NoneBelow([FromKey(run, prefix)], prefix)
    ensures forall k :: HasPrefix(k, prefix) ==> Lookup(RunTable(run), k) == Lookup(RunTable(FromKey(run, prefix)), k)
  {
    var p := FromKeySelects(run, prefix);
    var rest := run[p..];
    forall k | HasPrefix(k, prefix)
      ensures Lookup(RunTable(run), k) == Lookup(RunTable(rest), k)
    {
      hide RunTable;
      PrefixedNotBelow(k, prefix);
      RunTableKeys(run, k);
      RunTableKeys(rest, k);
      if i :| 0 <= i < |run| && run[i].key == k {
        assert rest[i - p] == run[i];
        RunTableAt(run, i);
        RunTableAt(rest, i - p);
      } else {
        assert forall i :: 0 <= i < |rest| ==> rest[i] == run[p + i];
      }
    }
  }

  /** A file that ends below the prefix, or starts at or above its limit, has no key with it. */
  lemma SkippedHasNone(f: SSTable, prefix: Bytes, limit: Bytes)
    requires f.Valid()
    requires Less(f.run[|f.run| - 1].key, prefix) || (limit != [] && !Less(f.run[0].key, limit))
    requires limit != [] ==> forall k :: HasPrefix(k, prefix) ==> Less(k, limit)
    ensures forall k :: HasPrefix(k, prefix) ==> k !in f.Contents()
  {
    LessIsStrictTotalOrder();
    forall k | HasPrefix(k, prefix)
      ensures k !in f.Contents()
    {
      PrefixedNotBelow(k, prefix);
      OutOfRange(f, k);
    }
  }

  lemma AgreeMeansMatching(a: seq<Table>, b: seq<Table>, prefix: Bytes)
    requires AgreeOn(a, b, prefix)
    ensures Matching(Overlay(a), prefix) == Matching(Overlay(b), prefix)
  {
    hide Overlay;
    forall k | HasPrefix(k, prefix)
      ensures k in Matching(Overlay(a), prefix) <==> k in Matching(Overlay(b), prefix)
      ensures k in Matching(Overlay(a), prefix) ==> Matching(Overlay(a), prefix)[k] == Matching(Overlay(b), prefix)[k]
    {
      assert Lookup(Overlay(a), k) == Lookup(Overlay(b), k);
    }
  }

  /** The sources chosen so far stand for the tables passed so far. */
  ghost predicate Chosen(iters: seq<Source>, tables: seq<Table>, prefix: Bytes)
    reads iters
  {
    Distinct(iters) && ReadyFor(Rests(iters), prefix) && AgreeOn(tables, TablesOfRuns(Rests(iters)), prefix)
  }

  lemma NoneChosen(prefix: Bytes)
    ensures Chosen([], [], prefix)
  {
  }

  lemma ReadyAppend(rests: seq<seq<Record>>, run: seq<Record>, prefix: Bytes)
    requires ReadyFor(rests, prefix) && Sorted(run) && NoneBelow([run], prefix)
    ensures ReadyFor(rests + [run], prefix)
  {
    hide Less;
    forall i, p | 0 <= i < |rests| + 1 && 0 <= p < |(rests + [run])[i]|
      ensures !Less((rests + [run])[i][p].key, prefix)
    {
      if i == |rests| {
        assert [run][0][p] == run[p];
      }
    }
  }

  /** A source for one more run, positioned at the prefix. */
  method Choose(iters: seq<Source>, run: seq<Record>, prefix: Bytes, ghost tables: seq<Table>) returns (more: seq<Source>)
    requires Chosen(iters, tables, prefix) && Sorted(run)
    ensures Chosen(more, tables + [RunTable(run)], prefix)
    ensures |more| == |iters| + 1
    ensures more[..|iters|] == iters
    ensures fresh(more[|iters|])
  {
    hide RunTable, Sorted, AgreeOn, ReadyFor;
    FromPrefix(run, prefix);
    var source := new Source(FromKey(run, prefix));
    more := iters + [source];
    ghost var rests, rest := Rests(iters), FromKey(run, prefix);
    assert source.Rest() == rest;
    assert Rests(more) == rests + [rest];
    ReadyAppend(rests, rest, prefix);
    AgreeAppend(tables, TablesOfRuns(rests), RunTable(run), RunTable(rest), prefix);
    assert TablesOfRuns(rests + [rest]) == TablesOfRuns(rests) + [RunTable(rest)];
  }

  /** Scan delivers exactly the live entries of the overlay of all layers that have the prefix. */
  method ScanInternal(prefix: Bytes, memtables: seq<seq<Record>>, level0: seq<SSTable>, level1: seq<SSTable>)
    returns (scan: MergingIterator)
    requires AllSorted(memtables) && AllValid(level0) && AllValid(level1)
    ensures fresh(scan)
    ensures fresh(scan.iters)
    ensures !scan.closed
    ensures scan.Ready()
    ensures scan.Buffered()
    ensures scan.Contents() == Matching(Overlay(TablesOfRuns(memtables) + TablesOf(level0) + TablesOf(level1)), prefix)
  {
    hide RunTable, Sorted, AgreeOn, ReadyFor, Matching, Chosen, HasPrefix, Less;
    var iters: seq<Source> := [];
    ghost var tables: seq<Table> := [];
    NoneChosen(prefix);
    for i := 0 to |memtables|
      invariant Chosen(iters, tables, prefix) && fresh(iters) && tables == TablesOfRuns(memtables)[..i]
    {
      iters := Choose(iters, memtables[i], prefix, tables);
      tables := tables + [RunTable(memtables[i])];
    }
    for i := 0 to |level0|
      invariant Chosen(iters, tables, prefix) && fresh(iters) && tables == TablesOfRuns(memtables) + TablesOf(level0)[..i]
    {
      iters := Choose(iters, level0[i].run, prefix, tables);
      tables := tables + [level0[i].Contents()];
    }
    var limit := PrefixLimit(prefix);
    for i := 0 to |level1|
      invariant Chosen(iters, tables, prefix) && fresh(iters)
      invariant tables == TablesOfRuns(memtables) + TablesOf(level0) + TablesOf(level1)[..i]
    {
      var f := level1[i];
      if |prefix| > 0 && (Less(f.run[|f.run| - 1].key, prefix) || (|limit| > 0 && !Less(f.run[0].key, limit))) {
        SkippedHasNone(f, prefix, limit);
        SkipKeepsChosen(iters, tables, f.Contents(), prefix);
      } else {
        iters := Choose(iters, f.run, prefix, tables);
      }
      tables := tables + [f.Contents()];
    }
    assert tables == TablesOfRuns(memtables) + TablesOf(level0) + TablesOf(level1);
    scan := Start(prefix, iters, tables);
  }

  lemma SkipKeepsChosen(iters: seq<Source>, tables: seq<Table>, t: Table, prefix: Bytes)
    requires Chosen(iters, tables, prefix) && forall k :: HasPrefix(k, prefix) ==> k !in t
    ensures Chosen(iters, tables + [t], prefix)
  {
    hide Distinct, ReadyFor;
    AgreeSkip(tables, TablesOfRuns(Rests(iters)), t, prefix);
  }

  method Start(prefix: Bytes, iters: seq<Source>, ghost tables: seq<Table>) returns (scan: MergingIterator)
    requires Chosen(iters, tables, prefix)
    modifies iters
    ensures fresh(scan)
    ensures scan.iters == iters
    ensures !scan.closed
    ensures scan.Ready()
    ensures scan.Buffered()
    ensures scan.Contents() == Matching(Overlay(tables), prefix)
  {
    hide Distinct, ReadyFor, AgreeOn, Overlay, Matching;
    AgreeMeansMatching(tables, TablesOfRuns(Rests(iters)), prefix);
    scan := new MergingIterator(prefix, iters);
  }
}
