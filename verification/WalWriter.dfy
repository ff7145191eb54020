/** Group commit: the queue of commit tickets and the worker that writes them
    (internal/storage/wal/writer.go:206-480). */
module WalWriter {
  import opened ByteStrings
  import opened Tables
  import opened Checksums
  import opened WalRecords

  /** The operations of one AppendBatch call; its frame data are Frames(ticket). */
  type Ticket = seq<Record>

  datatype Answer = Answer(ticket: Ticket, ok: bool)

  function Operations(ts: seq<Ticket>): seq<Record> {
    if ts == [] then [] else Operations(ts[..|ts| - 1]) + ts[|ts| - 1]
  }

  lemma {:induction false} OperationsOfConcatenation(a: seq<Ticket>, b: seq<Ticket>)
    ensures Operations(a + b) == Operations(a) + Operations(b)
  {
    if b == [] {
      assert a + b == a;
    } else {
      assert (a + b)[..|a + b| - 1] == a + b[..|b| - 1];
      OperationsOfConcatenation(a, b[..|b| - 1]);
    }
  }

  lemma DataAppend(ts: seq<Ticket>, t: Ticket)
    ensures Frames(Operations(ts + [t])) == Frames(Operations(ts)) + Frames(t)
  {
    assert (ts + [t])[..|ts|] == ts;
    FramesOfConcatenation(Operations(ts), t);
  }

  function AllAnswered(ts: seq<Ticket>, ok: bool): (a: seq<Answer>)
    ensures |a| == |ts|
  {
    seq(|ts|, i requires 0 <= i < |ts| => Answer(ts[i], ok))
  }

  /** The fault of one operation: the checks are for an empty key, for its length and for the length of the frame. */
  predicate FaultIs(op: Record, error: WalError) {
    match error
    case ErrEmptyKey => op.key == []
    case ErrKeyTooLarge => |op.key| > 0xFFFF
    case ErrFrameTooLarge => 0 < |op.key| <= 0xFFFF && 11 + |op.key| + (if op.entry.Put? then |op.entry.value| else 0) > 0x200_0000
    case _ => false
  }

  /** AppendBatch validates and marshals every record before it queues anything. */
  method MarshalBatch(records: seq<Record>) returns (res: Result<Bytes>)
    ensures res.Success? <==> Loggable(records)
    ensures res.Success? ==> res.value == Frames(records)
    ensures res.Failure? ==> exists i :: 0 <= i < |records| && Loggable(records[..i]) && FaultIs(records[i], res.error)
  {
    hide Frame;
    var combined: Bytes := [];
    for i := 0 to |records|
      invariant Loggable(records[..i]) && combined == Frames(records[..i])
    {
      if |records[i].key| == 0 {
        return Failure(ErrEmptyKey);
      }
      var frame := Marshal(AsLogged(records[i]));
      if frame.Failure? {
        return Failure(frame.error);
      }
      assert records[..i + 1] == records[..i] + [records[i]];
      FramesOfConcatenation(records[..i], [records[i]]);
      OneFrame(records[i]);
      combined := combined + frame.value;
    }
    assert records[..|records|] == records;
    return Success(combined);
  }

  lemma OneFrame(op: Record)
    ensures Frames([op]) == Frame(AsLogged(op))
  {
    assert [op][1..] == [];
  }

  /** Segment files are only appended to. */
  predicate Kept(before: seq<Bytes>, now: seq<Bytes>) {
    |before| <= |now| && forall i :: 0 <= i < |before| ==> before[i] <= now[i]
  }

  function Tickets(answers: seq<Answer>): (ts: seq<Ticket>)
    ensures |ts| == |answers| && forall i :: 0 <= i < |ts| ==> ts[i] == answers[i].ticket
  {
    seq(|answers|, i requires 0 <= i < |answers| => answers[i].ticket)
  }

  // ------------------------------------------------------------------ one batch on disk

  /** What the disk does with one batch: whether a rotation for it succeeds, how many bytes a short write leaves,
      and whether the sync succeeds. */
  datatype Outcome = Outcome(rotates: bool, short: Option<nat>, syncs: bool)

  const FAULTLESS: Outcome := Outcome(true, None, true)

  /** The segment files, the active one last, and its size as the writer counts it; how many batches the disk has
      seen; the results sent, in order. */
  datatype Log = Log(segments: seq<Bytes>, size: int, batches: nat, answers: seq<Answer>)

  function WrittenBytes(o: Outcome, buffer: Bytes): (n: nat)
    ensures n <= |buffer|
  {
    match o.short
    case None => |buffer|
    case Some(n) => if n < |buffer| then n else |buffer|
  }

  predicate NeedsRotation(l: Log, buffer: Bytes, limit: int) {
    l.size + |buffer| > limit
  }

  /** Written whole, and synced, after the rotation if one was due. */
  predicate Succeeds(l: Log, buffer: Bytes, o: Outcome, limit: int) {
    (NeedsRotation(l, buffer, limit) ==> o.rotates) && WrittenBytes(o, buffer) == |buffer| && o.syncs
  }

  function AppendLast(segments: seq<Bytes>, data: Bytes): (r: seq<Bytes>)
    requires segments != []
    ensures r != []
  {
    segments[|segments| - 1 := segments[|segments| - 1] + data]
  }

  /** One batch, whether or not an earlier one has failed. */
  function WriteOut(l: Log, batch: seq<Ticket>, o: Outcome, limit: int): (r: Log)
    requires l.segments != []
    ensures r.segments != [] && r.batches == l.batches + 1
    ensures r.answers == l.answers + AllAnswered(batch, Succeeds(l, Frames(Operations(batch)), o, limit))
  {
    var buffer := Frames(Operations(batch));
    var answers := l.answers + AllAnswered(batch, Succeeds(l, buffer, o, limit));
    if NeedsRotation(l, buffer, limit) && !o.rotates then Log(l.segments, l.size, l.batches + 1, answers)
    else
      var segments := if NeedsRotation(l, buffer, limit) then l.segments + [[]] else l.segments;
      var size := if NeedsRotation(l, buffer, limit) then 0 else l.size;
      Log(AppendLast(segments, buffer[..WrittenBytes(o, buffer)]), if Succeeds(l, buffer, o, limit) then size + |buffer| else size,
          l.batches + 1, answers)
  }

  /** One batch after the other. */
  function DrainOut(l: Log, batches: seq<seq<Ticket>>, disk: nat -> Outcome, limit: int): (r: Log)
    requires l.segments != []
    ensures r.segments != []
  {
    if batches == [] then l
    else
      var front := DrainOut(l, batches[..|batches| - 1], disk, limit);
      WriteOut(front, batches[|batches| - 1], disk(front.batches), limit)
  }

  function Joined(batches: seq<seq<Ticket>>): seq<Ticket> {
    if batches == [] then [] else Joined(batches[..|batches| - 1]) + batches[|batches| - 1]
  }

  /** Whatever the disk does, segment files are only appended to and every ticket is answered once, in order. */
  lemma {:induction false} DrainKeeps(l: Log, batches: seq<seq<Ticket>>, disk: nat -> Outcome, limit: int)
    requires l.segments != []
    ensures var r := DrainOut(l, batches, disk, limit);
            Kept(l.segments, r.segments) && Tickets(r.answers) == Tickets(l.answers) + Joined(batches)
  {
    hide Succeeds, NeedsRotation, WrittenBytes, Frames, Operations;
    if batches != [] {
      DrainKeeps(l, batches[..|batches| - 1], disk, limit);
    }
  }

  // ------------------------------------------------------------------ the length of segments

  /** What one batch does to the segment files, by their lengths and its own. */
  lemma SegmentsAfter(l: Log, batch: seq<Ticket>, o: Outcome, limit: int)
    requires l.segments != [] && l.size == |l.segments[|l.segments| - 1]|
    ensures var r, m, data := WriteOut(l, batch, o, limit), |l.segments| - 1, Frames(Operations(batch));
            var full := |l.segments[m]| + |data| > limit;
            var written := if o.short.Some? && o.short.value < |data| then data[..o.short.value] else data;
            var ok := (full ==> o.rotates) && |written| == |data| && o.syncs;
            && r.segments == (if full && o.rotates then l.segments + [written]
                              else if full then l.segments else l.segments[m := l.segments[m] + written])
            && r.answers == l.answers + AllAnswered(batch, ok)
            && (ok ==> r.size == |r.segments[|r.segments| - 1]|)
  {
    hide Frames, Operations, AllAnswered;
    var data := Frames(Operations(batch));
    assert data[..|data|] == data;
    assert forall d: Bytes :: [] + d == d;
  }

  /** Every segment written to is within the limit or holds one batch and nothing else. */
  ghost predicate Bounded(before: seq<Bytes>, segments: seq<Bytes>, batches: seq<seq<Ticket>>, limit: int) {
    forall i :: 0 <= i < |segments| ==>
      || |segments[i]| <= limit
      || (i < |before| && segments[i] == before[i])
      || exists k :: 0 <= k < |batches| && segments[i] == Frames(Operations(batches[k]))
  }

  lemma BoundedAfter(before: seq<Bytes>, l: Log, batches: seq<seq<Ticket>>, batch: seq<Ticket>, limit: int)
    requires before != [] && l.segments != [] && l.size == |l.segments[|l.segments| - 1]|
    requires Bounded(before, l.segments, batches, limit)
    ensures Bounded(before, WriteOut(l, batch, FAULTLESS, limit).segments, batches + [batch], limit)
  {
    hide Frames, Operations, WriteOut, AllAnswered;
    SegmentsAfter(l, batch, FAULTLESS, limit);
    var all := batches + [batch];
    assert all[|batches|] == batch;
    assert forall k :: 0 <= k < |batches| ==> all[k] == batches[k];
  }

  /** A run on a faultless disk, of any number of batches. */
  lemma {:induction false} SegmentsAreBounded(l: Log, batches: seq<seq<Ticket>>, disk: nat -> Outcome, limit: int)
    requires Faultless(disk) && l.segments != [] && l.size == |l.segments[|l.segments| - 1]|
    ensures var r := DrainOut(l, batches, disk, limit);
            && Bounded(l.segments, r.segments, batches, limit) && r.size == |r.segments[|r.segments| - 1]|
    decreases |batches|
  {
    hide Frames, Operations, WriteOut, AllAnswered, Bounded;
    if batches == [] {
      assert Bounded(l.segments, l.segments, [], limit) by { Unwritten(l.segments, limit); }
    } else {
      var front, batch := batches[..|batches| - 1], batches[|batches| - 1];
      SegmentsAreBounded(l, front, disk, limit);
      var f := DrainOut(l, front, disk, limit);
      BoundedAfter(l.segments, f, front, batch, limit);
      SegmentsAfter(f, batch, FAULTLESS, limit);
      assert front + [batch] == batches;
    }
  }

  lemma Unwritten(segments: seq<Bytes>, limit: int)
    ensures Bounded(segments, segments, [], limit)
  {
  }

  /** The next segment of such a run begins exactly with a batch for which the active one has no room. */
  lemma RotatesWhenFull(l: Log, batches: seq<seq<Ticket>>, k: nat, disk: nat -> Outcome, limit: int)
    requires Faultless(disk) && l.segments != [] && l.size == |l.segments[|l.segments| - 1]| && k < |batches|
    ensures var before, after := DrainOut(l, batches[..k], disk, limit).segments, DrainOut(l, batches[..k + 1], disk, limit).segments;
            var m, data := |before| - 1, Frames(Operations(batches[k]));
            after == if |before[m]| + |data| > limit then before + [data] else before[m := before[m] + data]
  {
    hide Frames, Operations, WriteOut, AllAnswered, Bounded;
    SegmentsAreBounded(l, batches[..k], disk, limit);
    assert batches[..k + 1][..k] == batches[..k];
    SegmentsAfter(DrainOut(l, batches[..k], disk, limit), batches[k], FAULTLESS, limit);
  }

  /** Tickets accepted by AppendBatch. */
  ghost predicate Admitted(ts: seq<Ticket>) {
    forall i :: 0 <= i < |ts| ==> Loggable(ts[i])
  }

  lemma {:induction false} AdmittedOperations(ts: seq<Ticket>)
    requires Admitted(ts)
    ensures Loggable(Operations(ts))
  {
    hide Marshals;
    if ts != [] {
      AdmittedOperations(ts[..|ts| - 1]);
      assert Loggable(ts[|ts| - 1]);
    }
  }

  class LogWriter {
    const segmentSizeBytes: int
    const batchSizeBytes: int
    const disk: nat -> Outcome

    /** The tickets still to be received, in the order in which they were accepted. */
    var channel: seq<Ticket>
    var segments: seq<Bytes>
    /** How much of the active segment is synced. */
    var synced: nat
    var currentSizeBytes: int
    var terminalErr: bool
    var answers: seq<Answer>
    var batches: nat
    /** The operations whole in each segment, and those of the batch whose write failed. */
    ghost var logged: seq<seq<Record>>
    ghost var pending: seq<Record>

    ghost function State(): Log
      reads `segments, `currentSizeBytes, `batches, `answers
    {
      Log(segments, currentSizeBytes, batches, answers)
    }

    /** Every segment is a sequence of whole tickets, synced; only after an error does the active one end
        with a part of the batch that failed. */
    ghost predicate Stored()
      reads `segments, `synced, `terminalErr, `logged, `pending
    {
      && |segments| == |logged| > 0
      && (forall i :: 0 <= i < |segments| - 1 ==> segments[i] == Frames(logged[i]))
      && var last, whole := segments[|segments| - 1], Frames(logged[|logged| - 1]);
      && |whole| <= synced <= |last| && last[..|whole|] == whole
      && |last[|whole|..]| <= |Frames(pending)| && last[|whole|..] == Frames(pending)[..|last| - |whole|]
      && (!terminalErr ==> pending == [] && synced == |last|)
    }

    /** What is stored whole is exactly what was acknowledged, in order. */
    ghost predicate Valid()
      reads `segments, `synced, `terminalErr, `logged, `pending, `answers, `currentSizeBytes
    {
      && segments != [] && Stored() && Operations(logged) == Operations(Acknowledged(answers))
      && (!terminalErr ==> currentSizeBytes == |segments[|segments| - 1]|)
      && Loggable(pending) && forall i :: 0 <= i < |logged| ==> Loggable(logged[i])
    }

    constructor (segmentSizeBytes: int, batchSizeBytes: int, channel: seq<Ticket>, disk: nat -> Outcome)
      requires segmentSizeBytes > 0 && batchSizeBytes > 0
      ensures Valid()
      ensures this.channel == channel
      ensures State() == Log([[]], 0, 0, [])
      ensures !terminalErr
      ensures this.segmentSizeBytes == segmentSizeBytes
      ensures this.batchSizeBytes == batchSizeBytes
      ensures this.disk == disk
    {
      this.segmentSizeBytes, this.batchSizeBytes, this.channel, this.disk := segmentSizeBytes, batchSizeBytes, channel, disk;
      segments, synced, currentSizeBytes, terminalErr, answers, batches := [[]], 0, 0, false, [], 0;
      logged, pending := [[]], [];
    }

    /** Takes what is queued up to the limit, in order: so many of the tickets arrive in time for it. */
    method GatherBatch(first: Ticket, inTime: nat) returns (batch: seq<Ticket>, buffer: Bytes, leftover: Option<Ticket>)
      modifies this`channel
      ensures leftover.None? ==> |batch| - 1 == if inTime < |old(channel)| then inTime else |old(channel)|
      ensures [first] + old(channel) == batch + (if leftover.Some? then [leftover.value] else []) + channel
      ensures batch != [] && buffer == Frames(Operations(batch))
      ensures |batch| > 1 ==> |buffer| <= batchSizeBytes
      ensures leftover.Some? ==> |buffer| + |Frames(leftover.value)| > batchSizeBytes
    {
      hide Frames, Operations;
      batch, buffer, leftover := [first], Frames(first), None;
      SingleTicket(first);
      while true
        invariant [first] + old(channel) == batch + channel && batch != [] && buffer == Frames(Operations(batch))
        invariant |batch| > 1 ==> |buffer| <= batchSizeBytes
        invariant |batch| - 1 <= inTime
        decreases |channel|
      {
        if |channel| == 0 || |batch| - 1 == inTime {
          return;
        }
        var ticket := channel[0];
        assert batch + channel == batch + [ticket] + channel[1..];
        channel := channel[1..];
        if |buffer| + |Frames(ticket)| > batchSizeBytes {
          leftover := Some(ticket);
          return;
        }
        DataAppend(batch, ticket);
        batch := batch + [ticket];
        buffer := buffer + Frames(ticket);
      }
    }

    /** A new, empty segment begins once the active one is synced and closed, or nothing changes. */
    method RotateActiveFile(o: Outcome) returns (ok: bool)
      requires segments != []
      modifies this`segments, this`synced, this`currentSizeBytes, this`logged
      ensures ok == o.rotates
      ensures segments == if ok then old(segments) + [[]] else old(segments)
      ensures currentSizeBytes == if ok then 0 else old(currentSizeBytes)
      ensures !ok ==> logged == old(logged)
      ensures synced == if ok then 0 else old(synced)
      ensures old(Valid() && !terminalErr) ==> Valid()
    {
      hide Frames, Operations, Acknowledged, Loggable;
      ok := o.rotates;
      if ok {
        EmptySegment(logged);
        segments, logged, synced, currentSizeBytes := segments + [[]], logged + [[]], 0, 0;
      }
    }

    /** Writes and syncs one batch, then tells its callers; an error is final, but the next batch is written all the
        same. */
    method WriteAndSyncBatch(batch: seq<Ticket>, buffer: Bytes)
      requires segments != [] && buffer == Frames(Operations(batch))
      modifies this`segments, this`synced, this`currentSizeBytes, this`terminalErr, this`answers, this`batches, this`logged, this`pending
      ensures State() == WriteOut(old(State()), batch, disk(old(batches)), segmentSizeBytes)
      ensures terminalErr <==> old(terminalErr) || !Succeeds(old(State()), buffer, disk(old(batches)), segmentSizeBytes)
      ensures old(Valid() && !terminalErr) && Admitted(batch) ==> Valid()
      ensures if disk(old(batches)) == FAULTLESS then synced == |segments[|segments| - 1]|
              else synced <= old(synced) || disk(old(batches)).syncs
    {
      hide Frames, Operations, Stored, Valid, AllAnswered, Acknowledged, Loggable;
      var o := disk(batches);
      batches := batches + 1;
      ghost var sound := Valid() && !terminalErr && Admitted(batch);
      if sound {
        AdmittedOperations(batch);
      }
      if currentSizeBytes + |buffer| > segmentSizeBytes {
        var rotated := RotateActiveFile(o);
        if !rotated {
          Refuse(batch, sound);
          return;
        }
      }
      WriteBatch(batch, buffer, o, sound);
    }

    method Refuse(batch: seq<Ticket>, ghost sound: bool)
      requires sound ==> Valid()
      modifies this`terminalErr, this`answers
      ensures terminalErr && answers == old(answers) + AllAnswered(batch, false)
      ensures sound ==> Valid()
    {
      hide Frames, Operations, AllAnswered, Acknowledged, Loggable;
      FailedAnswers(answers, batch);
      terminalErr := true;
      answers := answers + AllAnswered(batch, false);
    }

    method WriteBatch(batch: seq<Ticket>, buffer: Bytes, o: Outcome, ghost sound: bool)
      requires segments != [] && buffer == Frames(Operations(batch))
      requires sound ==> Valid() && !terminalErr && Loggable(Operations(batch))
      modifies this`segments, this`synced, this`currentSizeBytes, this`terminalErr, this`answers, this`logged, this`pending
      ensures var ok := WrittenBytes(o, buffer) == |buffer| && o.syncs;
              && segments == AppendLast(old(segments), buffer[..WrittenBytes(o, buffer)])
              && currentSizeBytes == old(currentSizeBytes) + (if ok then |buffer| else 0)
              && answers == old(answers) + AllAnswered(batch, ok) && terminalErr == (old(terminalErr) || !ok)
              && synced == if ok then |segments[|segments| - 1]| else old(synced)
      ensures sound ==> Valid()
    {
      hide Frames, Operations, Stored, AllAnswered, Acknowledged, Loggable;
      var n := WrittenBytes(o, buffer);
      var ok := n == |buffer| && o.syncs;
      SuccessfulAnswers(answers, batch);
      FailedAnswers(answers, batch);
      Append(Operations(batch), buffer, n, ok, sound);
      if ok {
        currentSizeBytes := currentSizeBytes + |buffer|;
      }
      answers := answers + AllAnswered(batch, ok);
    }

    /** The first n bytes of the buffer reach the active file; all of it, and synced, when ok. */
    method Append(ghost ops: seq<Record>, buffer: Bytes, n: nat, ok: bool, ghost sound: bool)
      requires segments != [] && buffer == Frames(ops) && n <= |buffer| && (ok ==> n == |buffer|)
      requires sound ==> Stored() && !terminalErr && Loggable(ops) && forall i :: 0 <= i < |logged| ==> Loggable(logged[i])
      modifies this`segments, this`synced, this`terminalErr, this`logged, this`pending
      ensures segments == AppendLast(old(segments), buffer[..n]) && terminalErr == (old(terminalErr) || !ok)
      ensures synced == if ok then |segments[|segments| - 1]| else old(synced)
      ensures sound ==> Stored() && Operations(logged) == old(Operations(logged)) + if ok then ops else []
      ensures sound ==> Loggable(pending) && forall i :: 0 <= i < |logged| ==> Loggable(logged[i])
    {
      hide Frames, Operations, Marshals;
      NoFrames();
      var last := |segments| - 1;
      segments := segments[last := segments[last] + buffer[..n]];
      if ok {
        synced := |segments[last]|;
        assert buffer[..n] == buffer;
      } else {
        terminalErr := true;
      }
      if sound {
        if ok {
          FramesOfConcatenation(logged[last], ops);
          LastGrows(logged, ops);
          logged := logged[last := logged[last] + ops];
        } else {
          pending := ops;
        }
      }
    }

    method AnswerRest(leftover: Option<Ticket>)
      requires Valid() && terminalErr
      modifies this`channel, this`answers
      ensures Valid() && channel == []
      ensures answers == old(answers) + AllAnswered((if leftover.Some? then [leftover.value] else []) + old(channel), false)
    {
      hide Frames, Operations, Acknowledged, Loggable;
      var rest := (if leftover.Some? then [leftover.value] else []) + channel;
      FailedAnswers(answers, rest);
      answers := answers + AllAnswered(rest, false);
      channel := [];
    }

    /** The tickets not answered yet. */
    function Waiting(leftover: Option<Ticket>): seq<Ticket>
      reads `channel
    {
      (if leftover.Some? then [leftover.value] else []) + channel
    }

    /** One round: the leftover ticket or else the next one, and what can be gathered with it. */
    method Round(leftover: Option<Ticket>) returns (next: Option<Ticket>, ghost batch: seq<Ticket>)
      requires segments != [] && Waiting(leftover) != []
      modifies this
      ensures batch != [] && old(Waiting(leftover)) == batch + Waiting(next)
      ensures |batch| > 1 ==> |Frames(Operations(batch))| <= batchSizeBytes
      ensures State() == WriteOut(old(State()), batch, disk(old(batches)), segmentSizeBytes)
      ensures terminalErr <==> old(terminalErr) || !Succeeds(old(State()), Frames(Operations(batch)), disk(old(batches)), segmentSizeBytes)
      ensures old(Valid() && !terminalErr) && Admitted(batch) ==> Valid()
    {
      hide Frames, Operations, Acknowledged, Stored, Loggable, WriteOut, Succeeds;
      ghost var waiting := Waiting(leftover);
      var ticket;
      if leftover.Some? {
        ticket := leftover.value;
      } else {
        ticket := channel[0];
        channel := channel[1..];
      }
      assert waiting == [ticket] + channel;
      var gathered, buffer;
      var inTime: nat := *;
      gathered, buffer, next := GatherBatch(ticket, inTime);
      assert waiting == gathered + Waiting(next);
      WriteAndSyncBatch(gathered, buffer);
      batch := gathered;
    }

    /** The worker: every ticket it receives is answered once, in the order of acceptance; the successful ones come
        first, all of them on a faultless disk. It writes batch by batch, and on such a disk no segment outgrows the
        limit unless it holds one batch alone. */
    method BatchWorker()
      requires Valid() && !terminalErr && answers == [] && Admitted(channel)
      modifies this
      ensures Valid() && channel == []
      ensures exists k: nat :: Answered(answers, old(channel), k) && (Faultless(disk) ==> k == |old(channel)|)
      ensures exists gathered: seq<seq<Ticket>> ::
                && Gathered(gathered, batchSizeBytes) && Joined(gathered) <= old(channel)
                && segments == DrainOut(old(State()), gathered, disk, segmentSizeBytes).segments
                && (Faultless(disk) ==>
                      Joined(gathered) == old(channel) && Bounded(old(segments), segments, gathered, segmentSizeBytes))
    {
      hide Frames, Operations, Acknowledged, Stored, Valid, Answered, AllAnswered, Loggable, WriteOut, Succeeds, Admitted;
      hide Bounded, DrainOut, Joined, Gathered;
      HasSegment();
      NothingGathered(State(), disk, segmentSizeBytes, batchSizeBytes);
      var leftover: Option<Ticket> := None;
      ghost var all, done: seq<Ticket> := channel, [];
      ghost var k: nat := 0;
      ghost var gathered: seq<seq<Ticket>> := [];
      ghost var first := State();
      NoneAnswered();
      while !terminalErr && (leftover.Some? || |channel| > 0)
        invariant Valid() && segments != [] && (Faultless(disk) ==> !terminalErr) && Admitted(all)
        invariant all == done + Waiting(leftover) && Answered(answers, done, k) && (!terminalErr ==> k == |done|)
        invariant done == Joined(gathered) && Gathered(gathered, batchSizeBytes)
        invariant State() == DrainOut(first, gathered, disk, segmentSizeBytes)
        decreases |all| - |done|, !terminalErr
      {
        ghost var batch, before := done, answers;
        ghost var start := State();
        leftover, batch := Round(leftover);
        AdmittedFront(all, done, batch, Waiting(leftover));
        HasSegment();
        if Faultless(disk) {
          FaultlessSucceeds(start, Frames(Operations(batch)), segmentSizeBytes);
        }
        MoreAnswered(before, done, batch, !terminalErr);
        k := if terminalErr then |done| else |done + batch|;
        OneMoreRound(first, gathered, batch, disk, segmentSizeBytes, batchSizeBytes);
        gathered := gathered + [batch];
        done := done + batch;
      }
      ghost var rest := Waiting(leftover);
      assert all == done + rest;
      if Faultless(disk) {
        SegmentsAreBounded(first, gathered, disk, segmentSizeBytes);
      }
      if terminalErr {
        RestAnswered(answers, done, k, rest);
        AnswerRest(leftover);
      } else {
        assert rest == [] && done + rest == done;
      }
      assert Answered(answers, all, k);
    }

    lemma HasSegment()
      requires Valid()
      ensures segments != [] && (!terminalErr ==> currentSizeBytes == |segments[|segments| - 1]|)
    {
    }

    /** The worker's last loop, once Close was called: every ticket it finds queued is still written and answered,
        batch by batch, even after an error. */
    method DrainOnClose(leftover: Option<Ticket>)
      requires segments != []
      modifies this
      ensures channel == []
      ensures exists gathered: seq<seq<Ticket>> ::
                && Joined(gathered) == old(Waiting(leftover)) && Gathered(gathered, batchSizeBytes)
                && State() == DrainOut(old(State()), gathered, disk, segmentSizeBytes)
    {
      hide Frames, Operations, Acknowledged, Stored, Valid, Loggable, WriteOut, Succeeds, AllAnswered;
      var left := leftover;
      ghost var all: seq<Ticket>, gathered: seq<seq<Ticket>> := Waiting(leftover), [];
      ghost var start := State();
      while left.Some? || |channel| > 0
        invariant segments != [] && all == Joined(gathered) + Waiting(left) && Gathered(gathered, batchSizeBytes)
        invariant State() == DrainOut(start, gathered, disk, segmentSizeBytes)
        decreases |all| - |Joined(gathered)|
      {
        ghost var batch;
        left, batch := Round(left);
        OneMore(gathered, batch);
        gathered := gathered + [batch];
      }
      assert all == Joined(gathered);
    }

    /** A crash leaves the active file with at least what is synced: recovery gives everything that was
        acknowledged, and beyond it at most whole records of the batch whose write failed. */
    lemma AcknowledgedSurvive(n: nat)
      requires Valid() && synced <= n <= |segments[|segments| - 1]|
      ensures var whole, r := logged[|logged| - 1] + pending, ReplayOf(segments[|segments| - 1][..n]);
              exists k :: |logged[|logged| - 1]| <= k <= |whole| && r.ops == whole[..k]
    {
      LastStored();
      hide Valid, Stored, ReplayOf, Frames, Operations, Acknowledged, Loggable;
      WholeSurvive(logged[|logged| - 1], pending, segments[|segments| - 1], n);
    }

    lemma LastStored()
      requires Valid()
      ensures segments != [] && logged != []
      ensures var last, ops := segments[|segments| - 1], logged[|logged| - 1];
              && Loggable(ops) && Loggable(pending) && |Frames(ops)| <= synced <= |last| <= |Frames(ops)| + |Frames(pending)|
              && last == Frames(ops) + Frames(pending)[..|last| - |Frames(ops)|]
    {
      hide Frames, Operations, Acknowledged, Loggable;
      var last, ops := segments[|segments| - 1], logged[|logged| - 1];
      assert last == last[..|Frames(ops)|] + last[|Frames(ops)|..];
    }
  }

  /** Limits that are not positive are refused. */
  method NewLogWriter(segmentSizeBytes: int, batchSizeBytes: int, channel: seq<Ticket>, disk: nat -> Outcome)
    returns (writer: LogWriter?)
    ensures writer == null <==> segmentSizeBytes <= 0 || batchSizeBytes <= 0
    ensures writer != null ==>
              && fresh(writer) && writer.Valid() && !writer.terminalErr && writer.State() == Log([[]], 0, 0, [])
              && writer.channel == channel && writer.disk == disk
              && writer.segmentSizeBytes == segmentSizeBytes && writer.batchSizeBytes == batchSizeBytes
  {
    if segmentSizeBytes <= 0 || batchSizeBytes <= 0 {
      return null;
    }
    writer := new LogWriter(segmentSizeBytes, batchSizeBytes, channel, disk);
  }

  lemma WholeSurvive(ops: seq<Record>, pending: seq<Record>, last: Bytes, n: nat)
    requires Loggable(ops) && Loggable(pending) && |Frames(ops)| <= n <= |last| <= |Frames(ops)| + |Frames(pending)|
    requires last == Frames(ops) + Frames(pending)[..|last| - |Frames(ops)|]
    ensures exists k :: |ops| <= k <= |ops + pending| && ReplayOf(last[..n]).ops == (ops + pending)[..k]
  {
    hide ReplayOf, Frames, Loggable, WholeFrames;
    var m := n - |Frames(ops)|;
    FramesThenAnything(ops, Frames(pending)[..m]);
    CutReplay(pending, m);
    var k := WholeFrames(pending, m);
    assert last[..n] == Frames(ops) + Frames(pending)[..m];
    assert (ops + pending)[..|ops| + k] == ops + pending[..k];
  }

  ghost predicate Faultless(disk: nat -> Outcome) {
    forall i :: disk(i) == FAULTLESS
  }

  lemma FaultlessSucceeds(l: Log, buffer: Bytes, limit: int)
    ensures Succeeds(l, buffer, FAULTLESS, limit)
  {
  }

  lemma AdmittedFront(all: seq<Ticket>, done: seq<Ticket>, batch: seq<Ticket>, rest: seq<Ticket>)
    requires Admitted(all) && all == done + (batch + rest)
    ensures Admitted(batch) && all == (done + batch) + rest
  {
    forall i | 0 <= i < |batch|
      ensures Loggable(batch[i])
    {
      assert all[|done| + i] == batch[i];
    }
  }

  /** Batches as gatherBatch forms them. */
  ghost predicate Gathered(batches: seq<seq<Ticket>>, limit: int) {
    forall i :: 0 <= i < |batches| ==> batches[i] != [] && (|batches[i]| > 1 ==> |Frames(Operations(batches[i]))| <= limit)
  }

  lemma OneMore(batches: seq<seq<Ticket>>, batch: seq<Ticket>)
    ensures Joined(batches + [batch]) == Joined(batches) + batch
    ensures (batches + [batch])[..|batches|] == batches
  {
    assert (batches + [batch])[..|batches|] == batches;
  }

  lemma NothingGathered(l: Log, disk: nat -> Outcome, limit: int, batchLimit: int)
    requires l.segments != []
    ensures Joined([]) == [] && Gathered([], batchLimit) && DrainOut(l, [], disk, limit) == l
  {
  }

  lemma OneMoreRound(l: Log, batches: seq<seq<Ticket>>, batch: seq<Ticket>, disk: nat -> Outcome, limit: int, batchLimit: int)
    requires l.segments != [] && Gathered(batches, batchLimit)
    requires batch != [] && (|batch| > 1 ==> |Frames(Operations(batch))| <= batchLimit)
    ensures Joined(batches + [batch]) == Joined(batches) + batch && Gathered(batches + [batch], batchLimit)
    ensures var f := DrainOut(l, batches, disk, limit);
            DrainOut(l, batches + [batch], disk, limit) == WriteOut(f, batch, disk(f.batches), limit)
  {
    hide WriteOut, Frames, Operations;
    OneMore(batches, batch);
  }

  // ------------------------------------------------------------- tickets drained after an error

  /** A batch whose write ends inside a frame, and a later one written whole, synced and acknowledged. When the first
      ended on the boundary of a frame, the later one is recovered; when it ended behind a header, the later one is
      lost exactly when it does not complete that frame with the right checksum. */
  lemma DrainedAreRecoveredIff(l: Log, ops: seq<Record>, a: seq<Ticket>, b: seq<Ticket>, o: Outcome, limit: int)
    requires l.segments != [] && l.segments[|l.segments| - 1] == Frames(ops)
    requires Loggable(ops) && Admitted(a) && Admitted(b)
    requires !NeedsRotation(l, Frames(Operations(a)), limit) && !NeedsRotation(l, Frames(Operations(b)), limit)
    requires WrittenBytes(o, Frames(Operations(a))) < |Frames(Operations(a))|
    ensures var first, later, n := Operations(a), Operations(b), WrittenBytes(o, Frames(Operations(a)));
            var r, k := WriteOut(WriteOut(l, a, o, limit), b, FAULTLESS, limit), WholeFrames(first, n);
            var m, file := n - |Frames(first[..k])|, r.segments[|r.segments| - 1];
            && r.answers == l.answers + AllAnswered(a, false) + AllAnswered(b, true)
            && k < |first| && 0 <= m < |Frame(AsLogged(first[k]))|
            && (m == 0 ==> ReplayOf(file).ops == ops + first[..k] + later)
            && (m >= HEADER_SIZE ==>
                  (ReplayOf(file).ops == ops + first[..k] <==> StaysTorn(first[k], m, later)))
  {
    hide WriteOut, Frames, Frame, Operations, ReplayOf, Loggable, WholeFrames, Succeeds, NeedsRotation, AllAnswered, StaysTorn;
    AdmittedOperations(a);
    AdmittedOperations(b);
    FileAfterTwo(l, a, b, o, limit);
    RecoveredBehindCut(ops, Operations(a), WrittenBytes(o, Frames(Operations(a))), Operations(b));
  }

  lemma FileAfterTwo(l: Log, a: seq<Ticket>, b: seq<Ticket>, o: Outcome, limit: int)
    requires l.segments != []
    requires !NeedsRotation(l, Frames(Operations(a)), limit) && !NeedsRotation(l, Frames(Operations(b)), limit)
    requires WrittenBytes(o, Frames(Operations(a))) < |Frames(Operations(a))|
    ensures var r, n := WriteOut(WriteOut(l, a, o, limit), b, FAULTLESS, limit), WrittenBytes(o, Frames(Operations(a)));
            && r.answers == l.answers + AllAnswered(a, false) + AllAnswered(b, true) && |r.segments| == |l.segments|
            && r.segments[|r.segments| - 1] == l.segments[|l.segments| - 1] + Frames(Operations(a))[..n] + Frames(Operations(b))
  {
    hide Frames, Operations, AllAnswered;
    assert Frames(Operations(b))[..|Frames(Operations(b))|] == Frames(Operations(b));
  }

  lemma RecoveredBehindCut(ops: seq<Record>, first: seq<Record>, n: nat, later: seq<Record>)
    requires Loggable(ops) && Loggable(first) && Loggable(later) && n < |Frames(first)|
    ensures var k := WholeFrames(first, n);
            var m, file := n - |Frames(first[..k])|, Frames(ops) + Frames(first)[..n] + Frames(later);
            && k < |first| && 0 <= m < |Frame(AsLogged(first[k]))|
            && (m == 0 ==> ReplayOf(file).ops == ops + first[..k] + later)
            && (m >= HEADER_SIZE ==>
                  (ReplayOf(file).ops == ops + first[..k] <==> StaysTorn(first[k], m, later)))
  {
    hide ReplayOf, Frame, Frames, StaysTorn, WholeFrames, Marshals;
    var k := WholeFrames(first, n);
    CutInside(first, n);
    var m := n - |Frames(first[..k])|;
    assert Loggable(ops + first[..k]);
    hide Loggable;
    FramesOfConcatenation(ops, first[..k]);
    Rearranged(Frames(ops), Frames(first[..k]), Frame(AsLogged(first[k]))[..m], Frames(later));
    if m == 0 {
      assert Frame(AsLogged(first[k]))[..m] + Frames(later) == Frames(later);
      BehindWholeFrames(ops + first[..k], later);
    }
    if m >= HEADER_SIZE {
      LostBehindCutIff(ops + first[..k], first[k], m, later);
    }
  }

  lemma Rearranged(a: Bytes, b: Bytes, c: Bytes, d: Bytes)
    ensures a + (b + c) + d == (a + b) + (c + d)
  {
  }

  /** A cut leaves whole frames and the front of the next one. */
  lemma CutInside(ops: seq<Record>, n: nat)
    requires Loggable(ops) && n < |Frames(ops)|
    ensures var k := WholeFrames(ops, n);
            && k < |ops| && ops[k].key != [] && Marshals(AsLogged(ops[k]))
            && |Frames(ops[..k])| <= n < |Frames(ops[..k])| + |Frame(AsLogged(ops[k]))|
            && Frames(ops)[..n] == Frames(ops[..k]) + Frame(AsLogged(ops[k]))[..n - |Frames(ops[..k])|]
  {
    hide Frame, Frames, Marshals, WholeFrames, ReplayOf;
    var k := WholeFrames(ops, n);
    WholeFramesFit(ops, n);
    assert ops[..|ops|] == ops;
    var front, f := Frames(ops[..k]), Frame(AsLogged(ops[k]));
    assert ops[..k + 1] == ops[..k] + [ops[k]] && ops == ops[..k + 1] + ops[k + 1..];
    FramesOfConcatenation(ops[..k], [ops[k]]);
    FramesOfConcatenation(ops[..k + 1], ops[k + 1..]);
    OneFrame(ops[k]);
    var rest := Frames(ops[k + 1..]);
    assert Frames(ops) == front + f + rest;
    assert (front + f + rest)[..n] == front + f[..n - |front|];
  }

  /** A writer that is closed with two tickets queued: the write of the first falls short, the second is acknowledged,
      and recovery finds neither. */
  method DrainLosesATicket() returns (writer: LogWriter)
    ensures fresh(writer)
    ensures var first, second := [Record([1], Put(Zeros(100)))], [Record([2], Tombstone)];
            && writer.answers == [Answer(first, false), Answer(second, true)]
            && |writer.segments| == 1 && ReplayOf(writer.segments[0]).ops == []
  {
    var first, second := [Record([1], Put(Zeros(100)))], [Record([2], Tombstone)];
    var disk: nat -> Outcome := (i: nat) => if i == 0 then Outcome(true, Some(20), true) else FAULTLESS;
    writer := new LogWriter(1000, 1, [first, second], disk);
    writer.DrainOnClose(None);
    ghost var gathered: seq<seq<Ticket>> :|
      && Joined(gathered) == [first, second] && Gathered(gathered, 1)
      && writer.State() == DrainOut(Log([[]], 0, 0, []), gathered, disk, 1000);
    TwoBatches(gathered, first, second);
    TwoWrites(first, second, disk);
  }

  function Zeros(n: nat): (z: Bytes)
    ensures |z| == n
  {
    seq(n, _ => 0)
  }

  lemma TwoBatches(batches: seq<seq<Ticket>>, first: Ticket, second: Ticket)
    requires Joined(batches) == [first, second] && Gathered(batches, 1) && first != []
    ensures batches == [[first], [second]]
  {
    hide Operations, Frames;
    NotTogether(first, second);
    var m := |batches| - 1;
    var front, last := batches[..m], batches[m];
    assert last != [first, second];
    assert Joined(front) + last == [first, second];
    assert |last| == 1;
    assert Joined(front) == [first, second][..1] == [first];
    var rest := front[..m - 1];
    assert Joined(rest) + front[m - 1] == [first] && front[m - 1] != [];
    assert Joined(rest) == [];
    NothingJoined(rest);
    assert batches == rest + [[first], [second]];
  }

  lemma NothingJoined(batches: seq<seq<Ticket>>)
    requires Joined(batches) == [] && forall i :: 0 <= i < |batches| ==> batches[i] != []
    ensures batches == []
  {
  }

  lemma NotTogether(first: Ticket, second: Ticket)
    requires first != []
    ensures |Frames(Operations([first, second]))| > 1
  {
    hide Frame;
    SingleTicket(first);
    var both := [first, second];
    assert both[..1] == [first];
    assert Operations(both) == first + second;
    FrameIsNotEmpty(AsLogged((first + second)[0]));
  }

  lemma TwoWrites(first: Ticket, second: Ticket, disk: nat -> Outcome)
    requires first == [Record([1], Put(Zeros(100)))] && second == [Record([2], Tombstone)]
    requires disk(0) == Outcome(true, Some(20), true) && disk(1) == FAULTLESS
    ensures var r := DrainOut(Log([[]], 0, 0, []), [[first], [second]], disk, 1000);
            && r.answers == [Answer(first, false), Answer(second, true)]
            && |r.segments| == 1 && ReplayOf(r.segments[0]).ops == []
  {
    hide Frame, Frames, Operations, WriteOut, ReplayOf, DrainOut, Marshals, StaysTorn, WholeFrames;
    var l, a, b := Log([[]], 0, 0, []), [first], [second];
    SingleTicket(first);
    SingleTicket(second);
    OneFrame(first[0]);
    OneFrame(second[0]);
    FrameSizes(first[0], second[0]);
    NoFrames();
    TwoSteps(l, a, b, disk, 1000);
    DrainedAreRecoveredIff(l, [], a, b, disk(0), 1000);
    FileAfterTwo(l, a, b, disk(0), 1000);
    TooShort(first[0], second[0]);
  }

  /** The second record is too short to complete the frame of the first. */
  lemma TooShort(first: Record, second: Record)
    requires first == Record([1], Put(Zeros(100))) && second == Record([2], Tombstone)
    ensures |Frame(AsLogged(first))| == 112 && StaysTorn(first, 20, [second]) && WholeFrames([first], 20) == 0
  {
    hide Frame, Frames, ChecksumIEEE, FromLittleEndian;
    FrameSizes(first, second);
    OneFrame(second);
  }

  lemma FrameSizes(first: Record, second: Record)
    requires first == Record([1], Put(Zeros(100))) && second == Record([2], Tombstone)
    ensures |Frame(AsLogged(first))| == 112 && |Frame(AsLogged(second))| == 12
    ensures Loggable([first]) && Loggable([second])
  {
    hide ChecksumIEEE, LittleEndian;
  }

  lemma TwoSteps(l: Log, a: seq<Ticket>, b: seq<Ticket>, disk: nat -> Outcome, limit: int)
    requires l.segments != []
    ensures DrainOut(l, [a, b], disk, limit) ==
            WriteOut(WriteOut(l, a, disk(l.batches), limit), b, disk(l.batches + 1), limit)
  {
    hide WriteOut;
    var both := [a, b];
    assert both[..1] == [a] && [a][..0] == [];
    assert DrainOut(l, [a], disk, limit) == WriteOut(l, a, disk(l.batches), limit);
  }

  lemma NoFrames()
    ensures Frames([]) == []
  {
  }

  lemma LastGrows(logged: seq<seq<Record>>, ops: seq<Record>)
    requires logged != []
    ensures var last := |logged| - 1;
            Operations(logged[last := logged[last] + ops]) == Operations(logged) + ops
  {
    var last := |logged| - 1;
    assert logged[last := logged[last] + ops][..last] == logged[..last];
  }

  /** The first k tickets were answered with success, the others with an error, each once and in order. */
  ghost predicate Answered(answers: seq<Answer>, ts: seq<Ticket>, k: nat) {
    k <= |ts| && answers == AllAnswered(ts[..k], true) + AllAnswered(ts[k..], false)
  }

  lemma NoneAnswered()
    ensures Answered([], [], 0)
  {
  }

  lemma AllAnsweredOfConcatenation(a: seq<Ticket>, b: seq<Ticket>, ok: bool)
    ensures AllAnswered(a + b, ok) == AllAnswered(a, ok) + AllAnswered(b, ok)
    ensures AllAnswered([], ok) == []
  {
  }

  lemma MoreAnswered(answers: seq<Answer>, done: seq<Ticket>, batch: seq<Ticket>, ok: bool)
    requires Answered(answers, done, |done|)
    ensures Answered(answers + AllAnswered(batch, ok), done + batch, if ok then |done + batch| else |done|)
  {
    hide AllAnswered;
    AllAnsweredOfConcatenation(done, batch, true);
    AllAnsweredOfConcatenation([], [], false);
    assert done[..|done|] == done && done[|done|..] == [];
    var all := done + batch;
    assert all[..|done|] == done && all[|done|..] == batch && all[..|all|] == all && all[|all|..] == [];
  }

  lemma RestAnswered(answers: seq<Answer>, done: seq<Ticket>, k: nat, rest: seq<Ticket>)
    requires Answered(answers, done, k)
    ensures Answered(answers + AllAnswered(rest, false), done + rest, k)
  {
    hide AllAnswered;
    AllAnsweredOfConcatenation(done[k..], rest, false);
    assert (done + rest)[..k] == done[..k] && (done + rest)[k..] == done[k..] + rest;
  }

  function Acknowledged(answers: seq<Answer>): (ts: seq<Ticket>) {
    if answers == [] then []
    else Acknowledged(answers[..|answers| - 1]) + if answers[|answers| - 1].ok then [answers[|answers| - 1].ticket] else []
  }

  lemma SingleTicket(t: Ticket)
    ensures Operations([t]) == t
  {
    assert [t][..0] == [] && [] + t == t;
  }

  lemma EmptySegment(logged: seq<seq<Record>>)
    ensures Operations(logged + [[]]) == Operations(logged)
    ensures Frames([]) == []
  {
    assert (logged + [[]])[..|logged|] == logged;
  }

  lemma {:induction false} AcknowledgedOfConcatenation(a: seq<Answer>, b: seq<Answer>)
    ensures Acknowledged(a + b) == Acknowledged(a) + Acknowledged(b)
  {
    if b == [] {
      assert a + b == a;
    } else {
      assert (a + b)[..|a + b| - 1] == a + b[..|b| - 1];
      AcknowledgedOfConcatenation(a, b[..|b| - 1]);
    }
  }

  lemma {:induction false} AcknowledgedAll(ts: seq<Ticket>, ok: bool)
    ensures Acknowledged(AllAnswered(ts, ok)) == if ok then ts else []
  {
    if ts != [] {
      assert AllAnswered(ts, ok)[..|ts| - 1] == AllAnswered(ts[..|ts| - 1], ok);
      AcknowledgedAll(ts[..|ts| - 1], ok);
    }
  }

  lemma SuccessfulAnswers(answers: seq<Answer>, batch: seq<Ticket>)
    ensures Operations(Acknowledged(answers + AllAnswered(batch, true))) == Operations(Acknowledged(answers)) + Operations(batch)
  {
    AcknowledgedOfConcatenation(answers, AllAnswered(batch, true));
    AcknowledgedAll(batch, true);
    OperationsOfConcatenation(Acknowledged(answers), batch);
  }

  lemma FailedAnswers(answers: seq<Answer>, batch: seq<Ticket>)
    ensures Acknowledged(answers + AllAnswered(batch, false)) == Acknowledged(answers)
  {
    AcknowledgedOfConcatenation(answers, AllAnswered(batch, false));
    AcknowledgedAll(batch, false);
  }
}
