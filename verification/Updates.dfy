/** UPDATE statements that move primary keys (internal/sql/executor/exec_dml.go:161-301). */
module Updates {
  import opened ByteStrings
  import opened Tables
  import opened RowKeys

  datatype Pair = Pair(key: Bytes, value: Bytes)

  /** What WHERE and SET make of a row: an error, no match, or the new row key and row. */
  datatype Evaluated = Failed | Unmatched | Matched(newKey: Bytes, value: Bytes)

  datatype Candidate = Candidate(oldKey: Bytes, newKey: Bytes, value: Bytes)

  datatype UpdateResult = Updated(ops: seq<Record>, affected: nat) | EvaluationFailed | DuplicateKey

  /** The scan of a table: each of its rows once. */
  ghost predicate Lists(pairs: seq<Pair>, store: Contents, prefix: Bytes) {
    && (forall i, j :: 0 <= i < j < |pairs| ==> pairs[i].key != pairs[j].key)
    && (forall i :: 0 <= i < |pairs| ==> HasPrefix(pairs[i].key, prefix) && pairs[i].key in store && store[pairs[i].key] == pairs[i].value)
    && forall k :: k in store && HasPrefix(k, prefix) ==> exists i :: 0 <= i < |pairs| && pairs[i].key == k
  }

  /** The matched rows before any that fails. */
  function CandidatesOf(pairs: seq<Pair>, evaluate: Bytes -> Evaluated): seq<Candidate> {
    if pairs == [] then []
    else
      var front, p := CandidatesOf(pairs[..|pairs| - 1], evaluate), pairs[|pairs| - 1];
      match evaluate(p.value)
      case Matched(newKey, value) => front + [Candidate(p.key, newKey, value)]
      case _ => front
  }

  function Deletes(cs: seq<Candidate>): seq<Record> {
    if cs == [] then []
    else
      var c := cs[|cs| - 1];
      Deletes(cs[..|cs| - 1]) + if c.newKey != c.oldKey then [Record(c.oldKey, Tombstone)] else []
  }

  function Puts(cs: seq<Candidate>): seq<Record> {
    if cs == [] then [] else Puts(cs[..|cs| - 1]) + [Record(cs[|cs| - 1].newKey, Put(cs[|cs| - 1].value))]
  }

  ghost predicate IsMoved(cs: seq<Candidate>, key: Bytes) {
    exists i :: 0 <= i < |cs| && cs[i].oldKey == key && cs[i].newKey != key
  }

  ghost predicate DistinctNewKeys(cs: seq<Candidate>) {
    forall i, j :: 0 <= i < j < |cs| ==> cs[i].newKey != cs[j].newKey
  }

  ghost predicate IsMatched(pairs: seq<Pair>, evaluate: Bytes -> Evaluated, i: nat)
    requires i < |pairs|
  {
    evaluate(pairs[i].value).Matched?
  }

  /** No new key is that of a row the statement leaves alone. */
  ghost predicate AvoidsUnmatched(pairs: seq<Pair>, evaluate: Bytes -> Evaluated, cs: seq<Candidate>) {
    forall i, j :: 0 <= i < |pairs| && 0 <= j < |cs| && !IsMatched(pairs, evaluate, i) ==> pairs[i].key != cs[j].newKey
  }

  // ------------------------------------------------------------- candidates and rows

  lemma {:induction false} CandidateOf(pairs: seq<Pair>, evaluate: Bytes -> Evaluated, j: nat) returns (i: nat)
    requires j < |CandidatesOf(pairs, evaluate)|
    ensures i < |pairs| && IsMatched(pairs, evaluate, i)
    ensures var c, e := CandidatesOf(pairs, evaluate)[j], evaluate(pairs[i].value);
            c.oldKey == pairs[i].key && c.newKey == e.newKey && c.value == e.value
  {
    var m := |pairs| - 1;
    var front := CandidatesOf(pairs[..m], evaluate);
    if j < |front| {
      i := CandidateOf(pairs[..m], evaluate, j);
    } else {
      i := m;
    }
  }

  lemma {:induction false} RowCandidate(pairs: seq<Pair>, evaluate: Bytes -> Evaluated, i: nat) returns (j: nat)
    requires i < |pairs| && IsMatched(pairs, evaluate, i)
    ensures j < |CandidatesOf(pairs, evaluate)|
    ensures CandidatesOf(pairs, evaluate)[j].oldKey == pairs[i].key
    ensures CandidatesOf(pairs, evaluate)[j].newKey == evaluate(pairs[i].value).newKey
  {
    var m := |pairs| - 1;
    if i < m {
      j := RowCandidate(pairs[..m], evaluate, i);
    } else {
      j := |CandidatesOf(pairs[..m], evaluate)|;
    }
  }

  // ------------------------------------------------------------- what the batch does

  lemma {:induction false} LastDelete(cs: seq<Candidate>, key: Bytes)
    ensures LastWrite(Deletes(cs), key) == if IsMoved(cs, key) then Some(Tombstone) else None
  {
    if cs != [] {
      var m := |cs| - 1;
      var front, c := cs[..m], cs[m];
      LastDelete(front, key);
      var one := if c.newKey != c.oldKey then [Record(c.oldKey, Tombstone)] else [];
      LastWriteOfConcatenation(Deletes(front), one, key);
      LastWriteOfOne(one, key);
      assert IsMoved(cs, key) <==> IsMoved(front, key) || (c.oldKey == key && c.newKey != key) by {
        if i :| 0 <= i < |cs| && cs[i].oldKey == key && cs[i].newKey != key {
          assert i < m ==> front[i] == cs[i];
        }
        if i :| 0 <= i < |front| && front[i].oldKey == key && front[i].newKey != key {
          assert cs[i] == front[i];
        }
      }
    }
  }

  lemma LastWriteOfOne(one: seq<Record>, key: Bytes)
    requires |one| <= 1
    ensures LastWrite(one, key) == if |one| == 1 && one[0].key == key then Some(one[0].entry) else None
  {
    if |one| == 1 {
      assert one[..0] == [];
    }
  }

  lemma {:induction false} LastPut(cs: seq<Candidate>, key: Bytes, i: nat)
    requires DistinctNewKeys(cs) && i < |cs| && cs[i].newKey == key
    ensures LastWrite(Puts(cs), key) == Some(Put(cs[i].value))
  {
    var m := |cs| - 1;
    assert Puts(cs)[..|Puts(cs)| - 1] == Puts(cs[..m]);
    if i < m {
      LastPut(cs[..m], key, i);
    }
  }

  lemma {:induction false} NoPut(cs: seq<Candidate>, key: Bytes)
    requires forall i :: 0 <= i < |cs| ==> cs[i].newKey != key
    ensures LastWrite(Puts(cs), key) == None
  {
    if cs != [] {
      assert Puts(cs)[..|Puts(cs)| - 1] == Puts(cs[..|cs| - 1]);
      NoPut(cs[..|cs| - 1], key);
    }
  }

  /** Key by key: a new key has its new row, any other old key that moved is gone, the rest is as before. */
  lemma BatchAt(store: Contents, cs: seq<Candidate>, key: Bytes)
    requires DistinctNewKeys(cs)
    ensures var after := Write(store, Deletes(cs) + Puts(cs));
            && (forall i :: 0 <= i < |cs| && cs[i].newKey == key ==> key in after && after[key] == cs[i].value)
            && ((forall i :: 0 <= i < |cs| ==> cs[i].newKey != key) ==>
                  if IsMoved(cs, key) then key !in after
                  else (key in after <==> key in store) && (key in store ==> after[key] == store[key]))
  {
    hide Write, LastWrite;
    LastWriteOfConcatenation(Deletes(cs), Puts(cs), key);
    LastDelete(cs, key);
    WriteAt(store, Deletes(cs) + Puts(cs), key);
    if i :| 0 <= i < |cs| && cs[i].newKey == key {
      LastPut(cs, key, i);
      forall j | 0 <= j < |cs| && cs[j].newKey == key
        ensures j == i
      {
      }
    } else {
      NoPut(cs, key);
    }
  }

  /** The table afterwards: the rows that did not match, and one row for each that did. */
  ghost predicate IsUpdate(store: Contents, after: Contents, pairs: seq<Pair>, evaluate: Bytes -> Evaluated, cs: seq<Candidate>, prefix: Bytes) {
    && (forall i :: 0 <= i < |pairs| && !IsMatched(pairs, evaluate, i) ==> pairs[i].key in after && after[pairs[i].key] == pairs[i].value)
    && (forall j :: 0 <= j < |cs| ==> cs[j].newKey in after && after[cs[j].newKey] == cs[j].value)
    && (forall k :: k in after && HasPrefix(k, prefix) ==>
          (exists i :: 0 <= i < |pairs| && !IsMatched(pairs, evaluate, i) && pairs[i].key == k) || (exists j :: 0 <= j < |cs| && cs[j].newKey == k))
    && (forall k :: !HasPrefix(k, prefix) ==> (k in after <==> k in store) && (k in store ==> after[k] == store[k]))
  }

  lemma BatchIsUpdate(store: Contents, pairs: seq<Pair>, evaluate: Bytes -> Evaluated, prefix: Bytes)
    requires Lists(pairs, store, prefix)
    requires forall v :: evaluate(v).Matched? ==> HasPrefix(evaluate(v).newKey, prefix)
    requires var cs := CandidatesOf(pairs, evaluate); DistinctNewKeys(cs) && AvoidsUnmatched(pairs, evaluate, cs)
    ensures var cs := CandidatesOf(pairs, evaluate);
            IsUpdate(store, Write(store, Deletes(cs) + Puts(cs)), pairs, evaluate, cs, prefix)
  {
    hide Write, CandidatesOf, Deletes, Puts, HasPrefix;
    var cs := CandidatesOf(pairs, evaluate);
    var after := Write(store, Deletes(cs) + Puts(cs));
    forall i | 0 <= i < |pairs| && !IsMatched(pairs, evaluate, i)
      ensures pairs[i].key in after
      ensures after[pairs[i].key] == pairs[i].value
    {
      BatchAt(store, cs, pairs[i].key);
      UnmatchedStays(store, pairs, evaluate, prefix, i);
    }
    forall j | 0 <= j < |cs|
      ensures cs[j].newKey in after
      ensures after[cs[j].newKey] == cs[j].value
    {
      BatchAt(store, cs, cs[j].newKey);
    }
    forall k | k in after && HasPrefix(k, prefix) && forall j :: 0 <= j < |cs| ==> cs[j].newKey != k
      ensures exists i :: 0 <= i < |pairs| && !IsMatched(pairs, evaluate, i) && pairs[i].key == k
    {
      BatchAt(store, cs, k);
      var i :| 0 <= i < |pairs| && pairs[i].key == k;
      if IsMatched(pairs, evaluate, i) {
        var j := RowCandidate(pairs, evaluate, i);
        assert false;
      }
    }
    forall k | !HasPrefix(k, prefix)
      ensures k in after <==> k in store
      ensures k in store ==> after[k] == store[k]
    {
      BatchAt(store, cs, k);
      forall j | 0 <= j < |cs|
        ensures cs[j].newKey != k && cs[j].oldKey != k
      {
        var i := CandidateOf(pairs, evaluate, j);
      }
    }
  }

  lemma UnmatchedStays(store: Contents, pairs: seq<Pair>, evaluate: Bytes -> Evaluated, prefix: Bytes, i: nat)
    requires Lists(pairs, store, prefix) && i < |pairs| && !IsMatched(pairs, evaluate, i)
    ensures !IsMoved(CandidatesOf(pairs, evaluate), pairs[i].key)
  {
    hide CandidatesOf;
    var cs := CandidatesOf(pairs, evaluate);
    if j :| 0 <= j < |cs| && cs[j].oldKey == pairs[i].key && cs[j].newKey != pairs[i].key {
      var i' := CandidateOf(pairs, evaluate, j);
      assert false;
    }
  }

  // ------------------------------------------------------------- rows are conserved

  function RowKeysIn(c: Contents, prefix: Bytes): set<Bytes> {
    set k | k in c && HasPrefix(k, prefix)
  }

  function UnmatchedKeys(pairs: seq<Pair>, evaluate: Bytes -> Evaluated): seq<Bytes> {
    if pairs == [] then []
    else
      var front, p := UnmatchedKeys(pairs[..|pairs| - 1], evaluate), pairs[|pairs| - 1];
      if evaluate(p.value).Matched? then front else front + [p.key]
  }

  function NewKeys(cs: seq<Candidate>): (ks: seq<Bytes>)
    ensures |ks| == |cs| && forall i :: 0 <= i < |cs| ==> ks[i] == cs[i].newKey
  {
    seq(|cs|, i requires 0 <= i < |cs| => cs[i].newKey)
  }

  lemma {:induction false} UnmatchedCount(pairs: seq<Pair>, evaluate: Bytes -> Evaluated)
    ensures |UnmatchedKeys(pairs, evaluate)| + |CandidatesOf(pairs, evaluate)| == |pairs|
  {
    if pairs != [] {
      UnmatchedCount(pairs[..|pairs| - 1], evaluate);
    }
  }

  lemma {:induction false} UnmatchedRow(pairs: seq<Pair>, evaluate: Bytes -> Evaluated, p: nat) returns (i: nat)
    requires p < |UnmatchedKeys(pairs, evaluate)|
    ensures i < |pairs|
    ensures !IsMatched(pairs, evaluate, i)
    ensures pairs[i].key == UnmatchedKeys(pairs, evaluate)[p]
  {
    var m := |pairs| - 1;
    if p < |UnmatchedKeys(pairs[..m], evaluate)| {
      i := UnmatchedRow(pairs[..m], evaluate, p);
    } else {
      i := m;
    }
  }

  lemma {:induction false} UnmatchedPlace(pairs: seq<Pair>, evaluate: Bytes -> Evaluated, i: nat) returns (p: nat)
    requires i < |pairs| && !IsMatched(pairs, evaluate, i)
    ensures p < |UnmatchedKeys(pairs, evaluate)|
    ensures UnmatchedKeys(pairs, evaluate)[p] == pairs[i].key
  {
    var m := |pairs| - 1;
    if i < m {
      p := UnmatchedPlace(pairs[..m], evaluate, i);
    } else {
      p := |UnmatchedKeys(pairs[..m], evaluate)|;
    }
  }

  ghost predicate AllDistinct(ks: seq<Bytes>) {
    forall i, j :: 0 <= i < j < |ks| ==> ks[i] != ks[j]
  }

  lemma {:induction false} UnmatchedDistinct(pairs: seq<Pair>, evaluate: Bytes -> Evaluated)
    requires forall i, j :: 0 <= i < j < |pairs| ==> pairs[i].key != pairs[j].key
    ensures AllDistinct(UnmatchedKeys(pairs, evaluate))
  {
    if pairs != [] {
      var m := |pairs| - 1;
      var front := UnmatchedKeys(pairs[..m], evaluate);
      UnmatchedDistinct(pairs[..m], evaluate);
      forall p | 0 <= p < |front|
        ensures front[p] != pairs[m].key
      {
        var i := UnmatchedRow(pairs[..m], evaluate, p);
        assert pairs[i].key != pairs[m].key;
      }
      assert AllDistinct(front + [pairs[m].key]);
    }
  }

  lemma {:induction false} DistinctCount(ks: seq<Bytes>)
    requires AllDistinct(ks)
    ensures |set k | k in ks| == |ks|
  {
    if ks != [] {
      var front, last := ks[..|ks| - 1], ks[|ks| - 1];
      DistinctCount(front);
      assert (set k | k in ks) == (set k | k in front) + {last};
    }
  }

  /** As many rows as before. */
  lemma RowsConserved(store: Contents, after: Contents, pairs: seq<Pair>, evaluate: Bytes -> Evaluated, prefix: Bytes)
    requires Lists(pairs, store, prefix)
    requires var cs := CandidatesOf(pairs, evaluate);
             && DistinctNewKeys(cs) && AvoidsUnmatched(pairs, evaluate, cs) && IsUpdate(store, after, pairs, evaluate, cs, prefix)
    requires forall v :: evaluate(v).Matched? ==> HasPrefix(evaluate(v).newKey, prefix)
    ensures |RowKeysIn(after, prefix)| == |RowKeysIn(store, prefix)| == |pairs|
  {
    ListedCount(store, pairs, prefix);
    UnmatchedCount(pairs, evaluate);
    KeysAfter(store, after, pairs, evaluate, prefix);
  }

  lemma ListedCount(store: Contents, pairs: seq<Pair>, prefix: Bytes)
    requires Lists(pairs, store, prefix)
    ensures |RowKeysIn(store, prefix)| == |pairs|
  {
    hide HasPrefix;
    var listed := seq(|pairs|, i requires 0 <= i < |pairs| => pairs[i].key);
    DistinctCount(listed);
    assert RowKeysIn(store, prefix) == set k | k in listed by {
      forall k | k in listed
        ensures k in RowKeysIn(store, prefix)
      {
        var i :| 0 <= i < |pairs| && listed[i] == k;
      }
      forall k | k in RowKeysIn(store, prefix)
        ensures k in listed
      {
        var i :| 0 <= i < |pairs| && pairs[i].key == k;
        assert listed[i] == k;
      }
    }
  }

  lemma KeysAfter(store: Contents, after: Contents, pairs: seq<Pair>, evaluate: Bytes -> Evaluated, prefix: Bytes)
    requires Lists(pairs, store, prefix)
    requires var cs := CandidatesOf(pairs, evaluate);
             && DistinctNewKeys(cs) && AvoidsUnmatched(pairs, evaluate, cs) && IsUpdate(store, after, pairs, evaluate, cs, prefix)
    requires forall v :: evaluate(v).Matched? ==> HasPrefix(evaluate(v).newKey, prefix)
    ensures |RowKeysIn(after, prefix)| == |UnmatchedKeys(pairs, evaluate)| + |CandidatesOf(pairs, evaluate)|
  {
    hide CandidatesOf, HasPrefix, UnmatchedKeys;
    var cs := CandidatesOf(pairs, evaluate);
    UnmatchedDistinct(pairs, evaluate);
    var ks, ns := UnmatchedKeys(pairs, evaluate), NewKeys(cs);
    forall p, j | 0 <= p < |ks| && 0 <= j < |ns|
      ensures ks[p] != ns[j]
    {
      var i := UnmatchedRow(pairs, evaluate, p);
    }
    var all := ks + ns;
    DistinctCount(all);
    forall k
      ensures k in RowKeysIn(after, prefix) <==> k in all
    {
      KeyAfter(store, after, pairs, evaluate, prefix, k);
    }
    assert RowKeysIn(after, prefix) == set k | k in all;
  }

  /** A key of the table afterwards is that of a row that did not match, or a new one. */
  lemma KeyAfter(store: Contents, after: Contents, pairs: seq<Pair>, evaluate: Bytes -> Evaluated, prefix: Bytes, k: Bytes)
    requires Lists(pairs, store, prefix)
    requires var cs := CandidatesOf(pairs, evaluate);
             && DistinctNewKeys(cs) && AvoidsUnmatched(pairs, evaluate, cs) && IsUpdate(store, after, pairs, evaluate, cs, prefix)
    requires forall v :: evaluate(v).Matched? ==> HasPrefix(evaluate(v).newKey, prefix)
    ensures k in RowKeysIn(after, prefix) <==> k in UnmatchedKeys(pairs, evaluate) + NewKeys(CandidatesOf(pairs, evaluate))
  {
    hide CandidatesOf, HasPrefix, UnmatchedKeys;
    var cs := CandidatesOf(pairs, evaluate);
    var ks, ns := UnmatchedKeys(pairs, evaluate), NewKeys(cs);
    if k in RowKeysIn(after, prefix) {
      if i :| 0 <= i < |pairs| && !IsMatched(pairs, evaluate, i) && pairs[i].key == k {
        var p := UnmatchedPlace(pairs, evaluate, i);
      } else {
        var j :| 0 <= j < |cs| && cs[j].newKey == k;
        assert ns[j] == k;
      }
    }
    if k in ks {
      var p :| 0 <= p < |ks| && ks[p] == k;
      var i := UnmatchedRow(pairs, evaluate, p);
    }
    if k in ns {
      var j :| 0 <= j < |ns| && ns[j] == k;
      var i := CandidateOf(pairs, evaluate, j);
    }
  }

  // ------------------------------------------------------------------ the statement

  /** Succeeds exactly when the new keys are distinct and avoid the rows that stay; then the batch
      deletes the moved keys before it puts the new rows. */
  method ExecUpdate(pairs: seq<Pair>, evaluate: Bytes -> Evaluated, ghost store: Contents, ghost prefix: Bytes) returns (res: UpdateResult)
    requires Lists(pairs, store, prefix)
    ensures res == EvaluationFailed <==> exists i :: 0 <= i < |pairs| && evaluate(pairs[i].value).Failed?
    ensures var cs := CandidatesOf(pairs, evaluate);
            res.Updated? ==> DistinctNewKeys(cs) && AvoidsUnmatched(pairs, evaluate, cs) && res == Updated(Deletes(cs) + Puts(cs), |cs|)
    ensures var cs := CandidatesOf(pairs, evaluate);
            res == DuplicateKey ==> !(DistinctNewKeys(cs) && AvoidsUnmatched(pairs, evaluate, cs))
  {
    hide DistinctNewKeys, AvoidsUnmatched, Lists, Deletes, Puts;
    var existingKeys: set<Bytes> := {};
    for i := 0 to |pairs|
      invariant forall k :: k in existingKeys <==> exists j :: 0 <= j < i && pairs[j].key == k
    {
      existingKeys := existingKeys + {pairs[i].key};
    }
    var candidates: seq<Candidate> := [];
    for i := 0 to |pairs|
      invariant candidates == CandidatesOf(pairs[..i], evaluate)
      invariant forall j :: 0 <= j < i ==> !evaluate(pairs[j].value).Failed?
    {
      assert pairs[..i + 1][..i] == pairs[..i];
      match evaluate(pairs[i].value)
      case Failed => return EvaluationFailed;
      case Unmatched =>
      case Matched(newKey, value) => candidates := candidates + [Candidate(pairs[i].key, newKey, value)];
    }
    assert pairs[..|pairs|] == pairs;
    var ok := CheckKeys(pairs, evaluate, existingKeys, candidates, store, prefix);
    if !ok {
      return DuplicateKey;
    }
    var ops := BatchOf(candidates);
    res := Updated(ops, |candidates|);
  }

  method BatchOf(candidates: seq<Candidate>) returns (ops: seq<Record>)
    ensures ops == Deletes(candidates) + Puts(candidates)
  {
    ops := [];
    for i := 0 to |candidates|
      invariant ops == Deletes(candidates[..i])
    {
      assert candidates[..i + 1][..i] == candidates[..i];
      if candidates[i].newKey != candidates[i].oldKey {
        ops := ops + [Record(candidates[i].oldKey, Tombstone)];
      }
    }
    assert candidates[..|candidates|] == candidates;
    for i := 0 to |candidates|
      invariant ops == Deletes(candidates) + Puts(candidates[..i])
    {
      assert candidates[..i + 1][..i] == candidates[..i];
      ops := ops + [Record(candidates[i].newKey, Put(candidates[i].value))];
    }
  }

  ghost predicate Conflicts(existingKeys: set<Bytes>, cs: seq<Candidate>, j: nat)
    requires j < |cs|
  {
    cs[j].newKey in existingKeys && cs[j].oldKey != cs[j].newKey && !IsMoved(cs, cs[j].newKey)
  }

  /** The two checks: no new key twice, none that exists unless that row moves away. */
  method CheckKeys(pairs: seq<Pair>, evaluate: Bytes -> Evaluated, existingKeys: set<Bytes>, candidates: seq<Candidate>,
                   ghost store: Contents, ghost prefix: Bytes) returns (ok: bool)
    requires Lists(pairs, store, prefix) && candidates == CandidatesOf(pairs, evaluate)
    requires forall k :: k in existingKeys <==> exists i :: 0 <= i < |pairs| && pairs[i].key == k
    ensures ok <==> DistinctNewKeys(candidates) && AvoidsUnmatched(pairs, evaluate, candidates)
  {
    hide CandidatesOf, HasPrefix, Lists, AvoidsUnmatched;
    var deletedKeys: set<Bytes> := {};
    for i := 0 to |candidates|
      invariant forall k :: k in deletedKeys <==> exists j :: 0 <= j < i && candidates[j].oldKey == k && candidates[j].newKey != k
    {
      if candidates[i].oldKey != candidates[i].newKey {
        deletedKeys := deletedKeys + {candidates[i].oldKey};
      }
    }
    assert forall k :: k in deletedKeys <==> IsMoved(candidates, k);
    var seenNewKeys: set<Bytes> := {};
    for i := 0 to |candidates|
      invariant forall k :: k in seenNewKeys <==> exists j :: 0 <= j < i && candidates[j].newKey == k
      invariant forall j, l :: 0 <= j < l < i ==> candidates[j].newKey != candidates[l].newKey
      invariant forall j :: 0 <= j < i ==> !Conflicts(existingKeys, candidates, j)
    {
      var c := candidates[i];
      if c.newKey in seenNewKeys {
        return false;
      }
      seenNewKeys := seenNewKeys + {c.newKey};
      if c.newKey in existingKeys && c.oldKey != c.newKey && c.newKey !in deletedKeys {
        ConflictIsReal(pairs, evaluate, existingKeys, i, store, prefix);
        return false;
      }
    }
    NoConflict(pairs, evaluate, existingKeys, store, prefix);
    return true;
  }

  lemma ConflictIsReal(pairs: seq<Pair>, evaluate: Bytes -> Evaluated, existingKeys: set<Bytes>, j: nat, store: Contents, prefix: Bytes)
    requires Lists(pairs, store, prefix) && j < |CandidatesOf(pairs, evaluate)|
    requires forall k :: k in existingKeys <==> exists i :: 0 <= i < |pairs| && pairs[i].key == k
    requires Conflicts(existingKeys, CandidatesOf(pairs, evaluate), j)
    ensures !(DistinctNewKeys(CandidatesOf(pairs, evaluate)) && AvoidsUnmatched(pairs, evaluate, CandidatesOf(pairs, evaluate)))
  {
    hide CandidatesOf, HasPrefix;
    var cs := CandidatesOf(pairs, evaluate);
    var i :| 0 <= i < |pairs| && pairs[i].key == cs[j].newKey;
    if IsMatched(pairs, evaluate, i) {
      var l := RowCandidate(pairs, evaluate, i);
      assert cs[l].newKey == cs[l].oldKey == cs[j].newKey && l != j;
    }
  }

  lemma NoConflict(pairs: seq<Pair>, evaluate: Bytes -> Evaluated, existingKeys: set<Bytes>, store: Contents, prefix: Bytes)
    requires Lists(pairs, store, prefix)
    requires forall k :: k in existingKeys <==> exists i :: 0 <= i < |pairs| && pairs[i].key == k
    requires forall j :: 0 <= j < |CandidatesOf(pairs, evaluate)| ==> !Conflicts(existingKeys, CandidatesOf(pairs, evaluate), j)
    ensures AvoidsUnmatched(pairs, evaluate, CandidatesOf(pairs, evaluate))
  {
    hide CandidatesOf, HasPrefix;
    var cs := CandidatesOf(pairs, evaluate);
    forall i, j | 0 <= i < |pairs| && 0 <= j < |cs| && !IsMatched(pairs, evaluate, i)
      ensures pairs[i].key != cs[j].newKey
    {
      if pairs[i].key == cs[j].newKey {
        HitConflicts(pairs, evaluate, existingKeys, store, prefix, i, j);
      }
    }
  }

  lemma HitConflicts(pairs: seq<Pair>, evaluate: Bytes -> Evaluated, existingKeys: set<Bytes>, store: Contents, prefix: Bytes, i: nat, j: nat)
    requires Lists(pairs, store, prefix) && i < |pairs| && j < |CandidatesOf(pairs, evaluate)|
    requires forall k :: k in existingKeys <==> exists n :: 0 <= n < |pairs| && pairs[n].key == k
    requires !IsMatched(pairs, evaluate, i) && pairs[i].key == CandidatesOf(pairs, evaluate)[j].newKey
    ensures Conflicts(existingKeys, CandidatesOf(pairs, evaluate), j)
  {
    hide CandidatesOf, HasPrefix;
    UnmatchedStays(store, pairs, evaluate, prefix, i);
    var l := CandidateOf(pairs, evaluate, j);
  }

  /** Two rows may exchange their keys. */
  lemma SwapIsAccepted(a: Pair, b: Pair, evaluate: Bytes -> Evaluated)
    requires a.key != b.key && evaluate(a.value).Matched? && evaluate(b.value).Matched?
    requires evaluate(a.value).newKey == b.key && evaluate(b.value).newKey == a.key
    ensures var cs := CandidatesOf([a, b], evaluate);
            && DistinctNewKeys(cs)
            && AvoidsUnmatched([a, b], evaluate, cs)
  {
    assert [a, b][..1] == [a] && [a][..0] == [];
    assert CandidatesOf([a], evaluate) == [Candidate(a.key, b.key, evaluate(a.value).value)];
  }

  /** Rows of other tables are not touched. */
  lemma OtherTablesUntouched(store: Contents, after: Contents, pairs: seq<Pair>, evaluate: Bytes -> Evaluated, cs: seq<Candidate>,
                             db: Bytes, table: Bytes, db': Bytes, table': Bytes, pk: Bytes)
    requires ValidNames(db, table) && ValidNames(db', table') && (db != db' || table != table')
    requires IsUpdate(store, after, pairs, evaluate, cs, ScanPrefix(db, table))
    ensures var k := RowKey(db', table', pk);
            && (k in after <==> k in store)
            && (k in store ==> after[k] == store[k])
  {
    ScanMeetsOnlyItsTable(db, table, db', table', pk);
  }
}
