/** Log records and their recovery from a segment file (internal/storage/wal/record.go, recovery.go). */
module WalRecords {
  import opened ByteStrings
  import opened Tables
  import opened Buffers
  import opened Checksums

  const HEADER_SIZE: nat := 11
  const MAX_FRAME_SIZE: nat := 0x200_0000
  const OP_PUT: byte := 0
  const OP_DELETE: byte := 1

  datatype WalError = ErrKeyTooLarge | ErrFrameTooLarge | ErrTruncated | ErrInvalidCRC | ErrEmptyKey | ErrInvalidOpcode
  datatype Result<+T> = Success(value: T) | Failure(error: WalError)

  datatype LogRecord = LogRecord(opcode: byte, key: Bytes, value: Bytes)

  // ------------------------------------------------------------------ frames

  function FrameSize(r: LogRecord): nat {
    HEADER_SIZE + |r.key| + |r.value|
  }

  /** All of a frame but its checksum. */
  function Body(r: LogRecord): (b: Bytes)
    ensures |b| == FrameSize(r) - 4
  {
    LittleEndian(FrameSize(r), 4) + [r.opcode] + LittleEndian(|r.key|, 2) + r.key + r.value
  }

  function Frame(r: LogRecord): (b: Bytes)
    ensures |b| == FrameSize(r)
  {
    LittleEndian(ChecksumIEEE(Body(r)), 4) + Body(r)
  }

  predicate Marshals(r: LogRecord) {
    |r.key| <= 0xFFFF && FrameSize(r) <= MAX_FRAME_SIZE
  }

  /** Fills a buffer behind the place of its checksum. */
  method PutBody(buffer: array<byte>, r: LogRecord)
    requires buffer.Length == FrameSize(r)
    modifies buffer
    ensures buffer[4..] == Body(r)
  {
    hide LittleEndian;
    ghost var front := buffer[..4];
    CopyAt(buffer, 4, LittleEndian(buffer.Length, 4));
    ghost var upToSize := front + LittleEndian(buffer.Length, 4);
    CopyAt(buffer, 8, [r.opcode]);
    ghost var upToOpcode := upToSize + [r.opcode];
    CopyAt(buffer, 9, LittleEndian(|r.key|, 2));
    ghost var header := upToOpcode + LittleEndian(|r.key|, 2);
    assert buffer[..11] == header;
    CopyAt(buffer, 11, r.key);
    assert buffer[..11 + |r.key|] == header + r.key;
    CopyAt(buffer, 11 + |r.key|, r.value);
    assert buffer[..buffer.Length] == header + r.key + r.value;
    assert buffer[4..] == (header + r.key + r.value)[4..];
  }

  method Marshal(r: LogRecord) returns (res: Result<Bytes>)
    ensures res == if |r.key| > 0xFFFF then Failure(ErrKeyTooLarge)
                   else if FrameSize(r) > MAX_FRAME_SIZE then Failure(ErrFrameTooLarge)
                   else Success(Frame(r))
  {
    hide ChecksumIEEE, LittleEndian, Body;
    if |r.key| > 0xFFFF {
      return Failure(ErrKeyTooLarge);
    }
    var total := HEADER_SIZE + |r.key| + |r.value|;
    if total > MAX_FRAME_SIZE {
      return Failure(ErrFrameTooLarge);
    }
    var buffer := new byte[total](_ => 0);
    PutBody(buffer, r);
    var checksum := ChecksumIEEE(buffer[4..]);
    CopyAt(buffer, 0, LittleEndian(checksum, 4));
    assert buffer[..4] == LittleEndian(checksum, 4) && buffer[4..] == Body(r);
    assert buffer[..] == buffer[..4] + buffer[4..];
    return Success(buffer[..]);
  }

  function Unmarshal(b: Bytes): Result<LogRecord> {
    if |b| < HEADER_SIZE then Failure(ErrTruncated)
    else if FromLittleEndian(b[..4]) != ChecksumIEEE(b[4..]) then Failure(ErrInvalidCRC)
    else
      var keyLength := FromLittleEndian(b[9..11]);
      if |b| < HEADER_SIZE + keyLength then Failure(ErrTruncated)
      else Success(LogRecord(b[8], b[11..11 + keyLength], b[11 + keyLength..]))
  }

  lemma FrameParts(r: LogRecord, rest: Bytes)
    requires Marshals(r)
    ensures var b := Frame(r) + rest;
            && b[..|Frame(r)|] == Frame(r) && b[|Frame(r)|..] == rest
            && FromLittleEndian(b[4..8]) == FrameSize(r)
            && FromLittleEndian(Frame(r)[..4]) == ChecksumIEEE(Frame(r)[4..])
            && FromLittleEndian(Frame(r)[9..11]) == |r.key| && Frame(r)[8] == r.opcode
            && Frame(r)[11..11 + |r.key|] == r.key && Frame(r)[11 + |r.key|..] == r.value
  {
    hide ChecksumIEEE, LittleEndian, FromLittleEndian;
    var f := Frame(r);
    assert f[4..] == Body(r) && f[..4] == LittleEndian(ChecksumIEEE(Body(r)), 4);
    assert f[4..8] == LittleEndian(FrameSize(r), 4) && f[9..11] == LittleEndian(|r.key|, 2);
    assert (f + rest)[4..8] == f[4..8];
    Pow256Values();
    LittleEndianRoundTrip(ChecksumIEEE(Body(r)), 4);
    LittleEndianRoundTrip(FrameSize(r), 4);
    LittleEndianRoundTrip(|r.key|, 2);
  }

  lemma Pow256Values()
    ensures Pow256(2) == 0x1_0000 && Pow256(4) == 0x1_0000_0000
  {
  }

  /** What is marshalled reads back. */
  lemma MarshalRoundTrip(r: LogRecord)
    requires Marshals(r)
    ensures Unmarshal(Frame(r)) == Success(r)
  {
    hide Frame, ChecksumIEEE, FromLittleEndian;
    FrameParts(r, []);
  }

  // ------------------------------------------------------------------ operations

  function AsLogged(op: Record): LogRecord {
    match op.entry
    case Put(v) => LogRecord(OP_PUT, op.key, v)
    case Tombstone => LogRecord(OP_DELETE, op.key, [])
  }

  function Frames(ops: seq<Record>): Bytes {
    if ops == [] then [] else Frame(AsLogged(ops[0])) + Frames(ops[1..])
  }

  /** What AppendBatch accepts. */
  predicate Loggable(ops: seq<Record>) {
    forall i :: 0 <= i < |ops| ==> ops[i].key != [] && Marshals(AsLogged(ops[i]))
  }

  lemma {:induction false} FramesOfConcatenation(a: seq<Record>, b: seq<Record>)
    ensures Frames(a + b) == Frames(a) + Frames(b)
  {
    if a == [] {
      assert a + b == b;
    } else {
      assert (a + b)[1..] == a[1..] + b;
      FramesOfConcatenation(a[1..], b);
    }
  }

  // ------------------------------------------------------------------ replay

  /** One step of the replay of a file. */
  datatype Step = Eof | Torn | Rejected | Applied(op: Record, size: nat)

  /** What the replay finds at the front of the rest of a file: a frame that is short, of an impossible
      size or with a wrong checksum ends it; an operation the memtable rejects fails it. */
  function NextStep(b: Bytes): Step {
    if b == [] then Eof
    else if |b| < 8 then Torn
    else
      var size := FromLittleEndian(b[4..8]);
      if size < HEADER_SIZE || size > MAX_FRAME_SIZE || size > |b| then Torn
      else match Unmarshal(b[..size])
        case Failure(_) => Torn
        case Success(r) =>
          if r.key == [] || (r.opcode != OP_PUT && r.opcode != OP_DELETE) then Rejected
          else Applied(Record(r.key, EntryOf(r.value, r.opcode == OP_DELETE)), size)
  }

  lemma StepShrinks(b: Bytes)
    requires NextStep(b).Applied?
    ensures HEADER_SIZE <= NextStep(b).size <= |b|
  {
  }

  /** The operations recovered, the length of the valid prefix, and how the replay ends. */
  datatype Replayed = Replayed(ops: seq<Record>, valid: nat, last: Step)

  function ReplayOf(b: Bytes): Replayed
    decreases |b|
  {
    var step := NextStep(b);
    if !step.Applied? then Replayed([], 0, step)
    else
      StepShrinks(b);
      var rest := ReplayOf(b[step.size..]);
      Replayed([step.op] + rest.ops, step.size + rest.valid, rest.last)
  }

  lemma ReplayStep(b: Bytes)
    ensures var step := NextStep(b);
            if !step.Applied? then ReplayOf(b) == Replayed([], 0, step)
            else HEADER_SIZE <= step.size <= |b|
                 && var rest := ReplayOf(b[step.size..]); ReplayOf(b) == Replayed([step.op] + rest.ops, step.size + rest.valid, rest.last)
  {
    hide NextStep;
    if NextStep(b).Applied? {
      StepShrinks(b);
    }
  }

  /** Reads the frame at the front of what is left, in the order of the checks of replayFile. */
  method ReadFrame(rest: Bytes) returns (step: Step)
    ensures step == NextStep(rest)
  {
    hide Unmarshal, FromLittleEndian;
    if |rest| == 0 {
      return Eof;
    }
    if |rest| < 8 {
      return Torn;
    }
    var size := FromLittleEndian(rest[4..8]);
    if size < HEADER_SIZE || size > MAX_FRAME_SIZE {
      return Torn;
    }
    if size > |rest| {
      return Torn;
    }
    var record := Unmarshal(rest[..size]);
    if record.Failure? {
      return Torn;
    }
    var r := record.value;
    if r.opcode == OP_PUT && r.key != [] {
      return Applied(Record(r.key, EntryOf(r.value, false)), size);
    } else if r.opcode == OP_DELETE && r.key != [] {
      return Applied(Record(r.key, EntryOf(r.value, true)), size);
    }
    return Rejected;
  }

  /** The loop of replayFile. The consumer has no size limit; a torn or corrupt tail is truncated away. */
  method ReplayFile(file: Bytes) returns (ok: bool, ops: seq<Record>, after: Bytes)
    ensures var r := ReplayOf(file);
            && ops == r.ops && (ok <==> !r.last.Rejected?) && r.valid <= |file|
            && after == if r.last.Torn? then file[..r.valid] else file
  {
    hide NextStep, ReplayOf;
    ops := [];
    var validBytes := 0;
    assert file[0..] == file;
    while true
      invariant 0 <= validBytes <= |file|
      invariant var r, rest := ReplayOf(file), ReplayOf(file[validBytes..]);
                r.ops == ops + rest.ops && r.valid == validBytes + rest.valid && r.last == rest.last
      decreases |file| - validBytes
    {
      var rest := file[validBytes..];
      var step := ReadFrame(rest);
      ReplayStep(rest);
      match step
      case Eof =>
        return true, ops, file;
      case Torn =>
        return true, ops, file[..validBytes];
      case Rejected =>
        return false, ops, file;
      case Applied(op, size) =>
        assert rest[size..] == file[validBytes + size..];
        ops := ops + [op];
        validBytes := validBytes + size;
    }
  }

  /** The first frame of a well-formed file is recovered whatever follows. */
  lemma FirstFrame(op: Record, rest: Bytes)
    requires op.key != [] && Marshals(AsLogged(op))
    ensures NextStep(Frame(AsLogged(op)) + rest) == Applied(op, |Frame(AsLogged(op))|)
  {
    hide Frame, ChecksumIEEE, FromLittleEndian, Unmarshal;
    FrameParts(AsLogged(op), rest);
    MarshalRoundTrip(AsLogged(op));
  }

  /** A frame cut short is recognised by its own size field, whatever its bytes. */
  lemma CutFrame(op: Record, rest: Bytes, n: nat)
    requires Marshals(AsLogged(op)) && 0 < n < |Frame(AsLogged(op))|
    ensures NextStep((Frame(AsLogged(op)) + rest)[..n]) == Torn
  {
    hide Frame, ChecksumIEEE, FromLittleEndian, Unmarshal;
    FrameParts(AsLogged(op), rest);
    var b := Frame(AsLogged(op)) + rest;
    if n >= 8 {
      assert b[..n][4..8] == b[4..8];
    }
  }

  /** How many whole frames lie within the first n bytes. */
  function WholeFrames(ops: seq<Record>, n: nat): (k: nat)
    ensures k <= |ops|
  {
    if ops == [] || n < |Frame(AsLogged(ops[0]))| then 0
    else 1 + WholeFrames(ops[1..], n - |Frame(AsLogged(ops[0]))|)
  }

  lemma {:induction false} WholeFramesFit(ops: seq<Record>, n: nat)
    ensures var k := WholeFrames(ops, n);
            |Frames(ops[..k])| <= n && (k < |ops| ==> n < |Frames(ops[..k + 1])|)
    decreases |ops|
  {
    hide Frame;
    if ops == [] {
    } else if n < |Frame(AsLogged(ops[0]))| {
      FramesOfPrefix(ops, 0);
    } else {
      WholeFramesFit(ops[1..], n - |Frame(AsLogged(ops[0]))|);
      var k := WholeFrames(ops[1..], n - |Frame(AsLogged(ops[0]))|);
      FramesOfPrefix(ops, k);
      if k + 1 < |ops| {
        FramesOfPrefix(ops, k + 1);
      }
    }
  }

  /** A segment cut at any byte: exactly its whole records are recovered, and their frames are the
      valid prefix. */
  lemma {:induction false} CutReplay(ops: seq<Record>, n: nat)
    requires Loggable(ops) && n <= |Frames(ops)|
    ensures var k := WholeFrames(ops, n); var r := ReplayOf(Frames(ops)[..n]);
            r.ops == ops[..k] && r.valid == |Frames(ops[..k])| && (r.last == if n == r.valid then Eof else Torn)
    decreases |ops|
  {
    hide Frame, Marshals, NextStep;
    if ops == [] {
      StepAtEnd();
    } else if n < |Frame(AsLogged(ops[0]))| {
      CutInFirst(ops, n);
    } else {
      var f, rest := Frame(AsLogged(ops[0])), Frames(ops[1..]);
      CutReplay(ops[1..], n - |f|);
      assert (f + rest)[..n] == f + rest[..n - |f|];
      FirstFrame(ops[0], rest[..n - |f|]);
      assert (f + rest[..n - |f|])[|f|..] == rest[..n - |f|];
      FramesOfPrefix(ops, WholeFrames(ops[1..], n - |f|));
    }
  }

  lemma FramesOfPrefix(ops: seq<Record>, k: nat)
    requires ops != [] && k <= |ops[1..]|
    ensures ops[..k + 1] == [ops[0]] + ops[1..][..k]
    ensures Frames(ops[..k + 1]) == Frame(AsLogged(ops[0])) + Frames(ops[1..][..k])
  {
    assert ops[..k + 1][1..] == ops[1..][..k];
  }

  lemma CutInFirst(ops: seq<Record>, n: nat)
    requires Loggable(ops) && ops != [] && n < |Frame(AsLogged(ops[0]))|
    ensures var r := ReplayOf(Frames(ops)[..n]);
            && r == Replayed([], 0, if n == 0 then Eof else Torn)
            && WholeFrames(ops, n) == 0
    ensures ops[..0] == [] && Frames([]) == []
  {
    hide Frame, Marshals, NextStep;
    var f, rest := Frame(AsLogged(ops[0])), Frames(ops[1..]);
    if n == 0 {
      StepAtEnd();
      assert (f + rest)[..0] == [];
    } else {
      CutFrame(ops[0], rest, n);
    }
  }

  lemma StepAtEnd()
    ensures NextStep([]) == Eof
  {
  }

  /** Replaying the truncated file gives the same operations and truncates nothing more. */
  lemma {:induction false} ReplayIsIdempotent(b: Bytes)
    requires !ReplayOf(b).last.Rejected?
    ensures var r := ReplayOf(b);
            r.valid <= |b| && ReplayOf(b[..r.valid]) == Replayed(r.ops, r.valid, Eof)
    decreases |b|
  {
    hide Unmarshal, FromLittleEndian;
    var step := NextStep(b);
    if step.Applied? {
      StepShrinks(b);
      ReplayIsIdempotent(b[step.size..]);
      var r := ReplayOf(b);
      var cut := b[..r.valid];
      assert cut[..step.size] == b[..step.size] && cut[4..8] == b[4..8];
      assert cut[step.size..] == b[step.size..][..r.valid - step.size];
      assert NextStep(cut) == step;
    } else {
      StepAtEnd();
    }
  }

  /** Whatever follows whole frames, their records are recovered first. */
  lemma {:induction false} FramesThenAnything(ops: seq<Record>, rest: Bytes)
    requires Loggable(ops)
    ensures var r := ReplayOf(rest);
            ReplayOf(Frames(ops) + rest) == Replayed(ops + r.ops, |Frames(ops)| + r.valid, r.last)
    decreases |ops|
  {
    hide Frame, Marshals, NextStep;
    if ops == [] {
      assert Frames(ops) + rest == rest;
    } else {
      var f, tail := Frame(AsLogged(ops[0])), Frames(ops[1..]);
      assert Frames(ops) == f + tail;
      hide ReplayOf, Frames, AsLogged;
      var after := tail + rest;
      assert (f + tail) + rest == f + after;
      FirstFrame(ops[0], after);
      ReplayStep(f + after);
      assert (f + after)[|f|..] == after;
      HeadAndTail(ops, ReplayOf(rest).ops);
      FramesThenAnything(ops[1..], rest);
      assert |f + tail| == |f| + |tail|;
    }
  }

  lemma HeadAndTail(ops: seq<Record>, more: seq<Record>)
    requires ops != []
    ensures [ops[0]] + (ops[1..] + more) == ops + more
  {
  }

  // ------------------------------------------------------------- damaged frames

  /** What AppendBatch may have written at the front of b. */
  predicate BeginsWith(b: Bytes, r: LogRecord) {
    Marshals(r) && Frame(r) <= b
  }

  /** What the consumer accepts. */
  predicate Applicable(r: LogRecord) {
    r.key != [] && (r.opcode == 0 || r.opcode == 1)
  }

  /** The step on a frame that was marshalled, whatever follows it. */
  lemma StepOfFrame(r: LogRecord, rest: Bytes)
    requires Marshals(r)
    ensures NextStep(Frame(r) + rest) ==
            if !Applicable(r) then Rejected
            else Applied(Record(r.key, if r.opcode == 1 then Tombstone else Put(r.value)), FrameSize(r))
  {
    hide Frame, ChecksumIEEE, FromLittleEndian, Unmarshal;
    FrameParts(r, rest);
    MarshalRoundTrip(r);
  }

  /** Whatever Unmarshal accepts, with the size its header names, is what Marshal writes for it. */
  lemma UnmarshalInverts(b: Bytes)
    requires HEADER_SIZE <= |b| <= MAX_FRAME_SIZE && FromLittleEndian(b[4..8]) == |b| && Unmarshal(b).Success?
    ensures Marshals(Unmarshal(b).value) && Frame(Unmarshal(b).value) == b
  {
    hide ChecksumIEEE, FromLittleEndian, LittleEndian;
    var r := Unmarshal(b).value;
    Pow256Values();
    LittleEndianOfRead(b[..4]);
    LittleEndianOfRead(b[4..8]);
    LittleEndianOfRead(b[9..11]);
    assert FrameSize(r) == |b| && |r.key| == FromLittleEndian(b[9..11]);
    assert Body(r) == b[4..] by {
      assert b[4..] == b[4..8] + [b[8]] + b[9..11] + b[11..11 + |r.key|] + b[11 + |r.key|..];
    }
    assert b == b[..4] + b[4..];
  }

  lemma SuccessfulStep(b: Bytes)
    requires NextStep(b).Applied? || NextStep(b).Rejected?
    ensures exists r :: BeginsWith(b, r) && (Applicable(r) <==> NextStep(b).Applied?)
  {
    hide Frame, ChecksumIEEE, FromLittleEndian, Unmarshal;
    var size := FromLittleEndian(b[4..8]);
    var f := b[..size];
    assert f[4..8] == b[4..8];
    UnmarshalInverts(f);
    assert BeginsWith(b, Unmarshal(f).value);
  }

  lemma StepAtFrame(b: Bytes, r: LogRecord)
    requires BeginsWith(b, r)
    ensures if Applicable(r) then NextStep(b).Applied? else NextStep(b).Rejected?
  {
    hide Frame, NextStep;
    StepOfFrame(r, b[|Frame(r)|..]);
    assert Frame(r) + b[|Frame(r)|..] == b;
  }

  /** Replay goes on exactly at what some record was marshalled to; all else but the end of the file is torn. */
  lemma StepReadsFrames(b: Bytes)
    ensures NextStep(b).Eof? <==> b == []
    ensures NextStep(b).Applied? <==> exists r :: BeginsWith(b, r) && Applicable(r)
    ensures NextStep(b).Rejected? <==> exists r :: BeginsWith(b, r) && !Applicable(r)
  {
    assert NextStep(b).Eof? <==> b == [] by { hide Unmarshal, FromLittleEndian; }
    hide NextStep, BeginsWith, Applicable;
    forall r | BeginsWith(b, r)
      ensures if Applicable(r) then NextStep(b).Applied? else NextStep(b).Rejected?
    {
      StepAtFrame(b, r);
    }
    if NextStep(b).Applied? || NextStep(b).Rejected? {
      SuccessfulStep(b);
    }
  }

  /** A byte of the stored checksum or of what it covers, replaced: the two no longer agree. */
  lemma DamageShows(r: LogRecord, i: nat, x: byte)
    requires Marshals(r) && i < |Frame(r)| && x != Frame(r)[i]
    ensures var b := Frame(r)[i := x]; FromLittleEndian(b[..4]) != ChecksumIEEE(b[4..])
  {
    hide Body, ChecksumIEEE, FromLittleEndian, LittleEndian;
    var f := Frame(r);
    FrameParts(r, []);
    var b := f[i := x];
    if i < 4 {
      assert b[4..] == f[4..] && b[..4][i] == x && f[..4][i] == f[i];
      LittleEndianOfRead(b[..4]);
      LittleEndianOfRead(f[..4]);
    } else {
      assert b[..4] == f[..4] && b[4..] == f[4..][i - 4 := x];
      OneByteShows(f[4..], i - 4, x);
    }
  }

  /** Any one byte of a frame outside its size field replaced by another: the replay ends there. */
  lemma DamageIsTorn(r: LogRecord, i: nat, x: byte, rest: Bytes)
    requires Marshals(r) && i < |Frame(r)| && !(4 <= i < 8) && x != Frame(r)[i]
    ensures NextStep(Frame(r)[i := x] + rest) == Torn
  {
    hide Frame, ChecksumIEEE, FromLittleEndian;
    FrameParts(r, []);
    DamageShows(r, i, x);
    var f, g := Frame(r), Frame(r)[i := x];
    var b := g + rest;
    assert b[4..8] == g[4..8] == f[4..8] == (f + [])[4..8];
    assert b[..|f|] == g;
  }

  /** A segment with one damaged frame: the records before it are recovered, and it is cut off with all behind it. */
  lemma DamagedSegment(ops: seq<Record>, r: LogRecord, i: nat, x: byte, rest: Bytes)
    requires Loggable(ops) && Marshals(r) && i < |Frame(r)| && !(4 <= i < 8) && x != Frame(r)[i]
    ensures ReplayOf(Frames(ops) + (Frame(r)[i := x] + rest)) == Replayed(ops, |Frames(ops)|, Torn)
  {
    hide Frame, Marshals, NextStep, Frames, ReplayOf;
    FramesThenAnything(ops, Frame(r)[i := x] + rest);
    DamageIsTorn(r, i, x, rest);
    ReplayStep(Frame(r)[i := x] + rest);
  }

  // ------------------------------------------------------------- batches and crashes

  lemma FramesGrow(ops: seq<Record>, i: nat, j: nat)
    requires i < j <= |ops|
    ensures |Frames(ops[..i])| < |Frames(ops[..j])|
  {
    hide Frame;
    var middle := ops[i..j];
    assert ops[..j] == ops[..i] + middle;
    FramesOfConcatenation(ops[..i], middle);
    FrameIsNotEmpty(AsLogged(middle[0]));
  }

  lemma FrameIsNotEmpty(r: LogRecord)
    ensures |Frame(r)| >= HEADER_SIZE
  {
  }

  /** All frames are whole exactly in all bytes, none exactly before the end of the first. */
  lemma NoneOrAllWhole(ops: seq<Record>, n: nat)
    requires n <= |Frames(ops)| && ops != []
    ensures WholeFrames(ops, n) == |ops| <==> n == |Frames(ops)|
    ensures WholeFrames(ops, n) == 0 <==> n < |Frames(ops[..1])|
  {
    WholeFramesFit(ops, n);
    hide Frames, WholeFrames;
    var k := WholeFrames(ops, n);
    assert ops[..|ops|] == ops;
    if 1 < k {
      FramesGrow(ops, 1, k);
    }
    if k + 1 < |ops| {
      FramesGrow(ops, k + 1, |ops|);
    }
  }

  /** A crash that leaves n bytes of a batch recovers none or all of its records exactly when it cut off even the
      first frame or nothing. */
  lemma AtomicCutIff(ops: seq<Record>, n: nat)
    requires Loggable(ops) && n <= |Frames(ops)|
    ensures var r := ReplayOf(Frames(ops)[..n]).ops;
            r == [] || r == ops <==> ops == [] || n < |Frames(ops[..1])| || n == |Frames(ops)|
  {
    hide Frames, ReplayOf, Loggable, WholeFrames;
    CutReplay(ops, n);
    if ops != [] {
      NoneOrAllWhole(ops, n);
    }
    var k := WholeFrames(ops, n);
    assert |ops[..k]| == k && ops[..|ops|] == ops;
  }

  ghost predicate CutIsAtomic(before: seq<Record>, ops: seq<Record>, n: nat)
    requires n <= |Frames(ops)|
  {
    var r := ReplayOf(Frames(before) + Frames(ops)[..n]).ops;
    r == before || r == before + ops
  }

  /** A batch is recovered whole or not at all, wherever a crash cuts it, exactly when it has at most one record. */
  lemma BatchIsAtomicIff(before: seq<Record>, ops: seq<Record>)
    requires Loggable(before) && Loggable(ops)
    ensures (forall n: nat :: n <= |Frames(ops)| ==> CutIsAtomic(before, ops, n)) <==> |ops| <= 1
  {
    hide Loggable;
    forall n: nat | n <= |Frames(ops)|
      ensures CutIsAtomic(before, ops, n) <==> ops == [] || n < |Frames(ops[..1])| || n == |Frames(ops)|
    {
      CutBehind(before, ops, n);
    }
    hide CutIsAtomic;
    assert ops[..|ops|] == ops;
    if |ops| > 1 {
      FramesGrow(ops, 1, |ops|);
      assert !CutIsAtomic(before, ops, |Frames(ops[..1])|);
    } else if ops != [] {
      assert ops[..1] == ops;
    }
  }

  lemma CutBehind(before: seq<Record>, ops: seq<Record>, n: nat)
    requires Loggable(before) && Loggable(ops) && n <= |Frames(ops)|
    ensures CutIsAtomic(before, ops, n) <==> ops == [] || n < |Frames(ops[..1])| || n == |Frames(ops)|
  {
    hide Frames, ReplayOf, Loggable;
    AtomicCutIff(ops, n);
    FramesThenAnything(before, Frames(ops)[..n]);
    var r := ReplayOf(Frames(ops)[..n]).ops;
    assert before + r == before <==> r == [] by { assert |before + r| == |before| + |r|; }
    assert before + r == before + ops <==> r == ops by {
      if before + r == before + ops { assert (before + r)[|before|..] == (before + ops)[|before|..]; }
    }
  }

  // -------------------------------------------------- writes behind a frame that was cut short

  lemma WholeReplay(ops: seq<Record>)
    requires Loggable(ops)
    ensures ReplayOf(Frames(ops)).ops == ops
  {
    FramesThenAnything(ops, []);
    StepAtEnd();
    ReplayStep([]);
    hide ReplayOf, Frames, Loggable;
    assert Frames(ops) + [] == Frames(ops);
  }

  /** Behind a write that ended on the boundary of a frame, all that follows is recovered. */
  lemma BehindWholeFrames(ops: seq<Record>, later: seq<Record>)
    requires Loggable(ops) && Loggable(later)
    ensures ReplayOf(Frames(ops) + Frames(later)).ops == ops + later
  {
    FramesThenAnything(ops, Frames(later));
    hide ReplayOf, Frames, Loggable;
    WholeReplay(later);
  }

  /** The frame that the header of the cut one promises, completed with the bytes that follow. */
  function Completed(cut: Record, n: nat, later: seq<Record>): Bytes
    requires n <= |Frame(AsLogged(cut))|
  {
    Frame(AsLogged(cut))[..n] + Frames(later)
  }

  /** What follows is too short to complete the frame, or does so with a wrong checksum. */
  predicate StaysTorn(cut: Record, n: nat, later: seq<Record>)
    requires 8 <= n <= |Frame(AsLogged(cut))|
  {
    var b, size := Completed(cut, n, later), |Frame(AsLogged(cut))|;
    |b| < size || FromLittleEndian(b[..4]) != ChecksumIEEE(b[4..size])
  }

  /** Behind a frame cut short after its size field, nothing is recovered unless the bytes that follow complete it
      with the right checksum. */
  lemma LostBehindCut(ops: seq<Record>, cut: Record, n: nat, later: seq<Record>)
    requires Loggable(ops) && Marshals(AsLogged(cut)) && 8 <= n < |Frame(AsLogged(cut))| && StaysTorn(cut, n, later)
    ensures ReplayOf(Frames(ops) + Completed(cut, n, later)).ops == ops
  {
    hide Frame, Marshals, Frames, ReplayOf;
    FramesThenAnything(ops, Completed(cut, n, later));
    CompletedStep(cut, n, later);
    ReplayStep(Completed(cut, n, later));
  }

  lemma CompletedFront(cut: Record, n: nat, later: seq<Record>)
    requires Marshals(AsLogged(cut)) && 8 <= n < |Frame(AsLogged(cut))|
    ensures var b, size := Completed(cut, n, later), |Frame(AsLogged(cut))|;
            && |b| >= 8 && FromLittleEndian(b[4..8]) == size && HEADER_SIZE <= size <= MAX_FRAME_SIZE
            && (11 <= n ==> FromLittleEndian(b[9..11]) == |cut.key| && b[8] == AsLogged(cut).opcode)
  {
    hide Frame, ChecksumIEEE, FromLittleEndian, Frames;
    var f, b := Frame(AsLogged(cut)), Completed(cut, n, later);
    FrameParts(AsLogged(cut), []);
    FrameIsNotEmpty(AsLogged(cut));
    assert (f + [])[4..8] == f[4..8] == b[4..8];
    if n >= 11 {
      assert b[9..11] == f[9..11] && b[8] == f[8];
    }
  }

  lemma CompletedStep(cut: Record, n: nat, later: seq<Record>)
    requires Marshals(AsLogged(cut)) && 8 <= n < |Frame(AsLogged(cut))|
    ensures StaysTorn(cut, n, later) ==> NextStep(Completed(cut, n, later)) == Torn
    ensures 11 <= n && cut.key != [] && !StaysTorn(cut, n, later) ==> NextStep(Completed(cut, n, later)).Applied?
  {
    hide Frame, ChecksumIEEE, FromLittleEndian, Frames, Completed;
    CompletedFront(cut, n, later);
    var b, size := Completed(cut, n, later), |Frame(AsLogged(cut))|;
    if size <= |b| {
      var whole := b[..size];
      assert whole[..4] == b[..4] && whole[4..] == b[4..size];
      assert whole[9..11] == b[9..11] && whole[8] == b[8];
    }
  }

  /** With the whole header written, exactly then. */
  lemma LostBehindCutIff(ops: seq<Record>, cut: Record, n: nat, later: seq<Record>)
    requires Loggable(ops) && Marshals(AsLogged(cut)) && cut.key != [] && HEADER_SIZE <= n < |Frame(AsLogged(cut))|
    ensures ReplayOf(Frames(ops) + Completed(cut, n, later)).ops == ops <==> StaysTorn(cut, n, later)
  {
    hide Frame, Marshals, Frames, ReplayOf, StaysTorn;
    FramesThenAnything(ops, Completed(cut, n, later));
    CompletedStep(cut, n, later);
    ReplayStep(Completed(cut, n, later));
    var more := ReplayOf(Completed(cut, n, later)).ops;
    assert |ops + more| == |ops| + |more|;
  }
}
