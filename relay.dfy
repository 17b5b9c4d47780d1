/** The byte relay of one tunnel direction (src/common.rs).

    Each direction reads from its source into a fixed 8 KiB buffer with a
    1 ms timeout, writes every non-empty read to the sink at once, and
    flushes the sink only when a read times out while something written is
    still unflushed, or when the source ends. The source is modelled as the
    sequence of outcomes its successive reads produce, the sink as a log of
    the operations issued to it, and the timeout as the read outcome
    Timeout. */
module Relay {

  /** Capacity of the read buffer. */
  const BUFFER_SIZE: nat := 8 * 1024

  /** The read timeout that triggers a flush, in milliseconds. There is no
      clock in the model: an elapsed timeout is the read outcome Timeout. */
  const FLUSH_TIMEOUT_MS: nat := 1

  newtype Byte = b: int | 0 <= b < 0x100

  /** What one read into the buffer can deliver: never more than the buffer holds. */
  type Chunk = s: seq<Byte> | |s| <= BUFFER_SIZE

  /** The outcome of one read attempt on the source. */
  datatype ReadEvent =
    | Data(chunk: Chunk)   // the read completed with |chunk| bytes; zero bytes means end of stream
    | End                  // the QUIC receive stream reported no more data (None)
    | ReadError(code: int) // the read failed
    | Timeout              // no data arrived within FLUSH_TIMEOUT_MS

  /** QuicToTcp is copy_quic_to_tcp (closes with shutdown), TcpToQuic is
      copy_tcp_to_quic (closes with finish). */
  datatype Direction = QuicToTcp | TcpToQuic

  /** An operation issued to the sink. */
  datatype SinkOp = Write(bytes: seq<Byte>) | Flush | Shutdown | Finish {
    predicate IsClose() { Shutdown? || Finish? }
  }

  function CloseOp(dir: Direction): (op: SinkOp)
    ensures op.IsClose()
  {
    match dir
    case QuicToTcp => Shutdown
    case TcpToQuic => Finish
  }

  datatype Error = ReadFailed(code: int) | SinkFailed(op: SinkOp)

  /** Running: the loop has not exited yet (needFlush is the source's
      need_flush flag); Done: the sink was closed cleanly; Failed: the
      direction returned an error. */
  datatype Status = Running(needFlush: bool) | Done | Failed(error: Error) {
    predicate IsSinkFailure() { Failed? && error.SinkFailed? }
  }

  /** The operations issued to the sink so far, and where the loop stands. */
  datatype Trace = Trace(ops: seq<SinkOp>, status: Status)

  const Start: Trace := Trace([], Running(false))

  // ---------------------------------------------------------------------
  // Specification of the relay, one read outcome at a time

  /** Issue `op`; the attempt whose index in the log is failAt is refused by
      the sink, and the refusal becomes the relay's error. */
  function Issue(t: Trace, op: SinkOp, next: Status, failAt: int): Trace
  {
    Trace(t.ops + [op], if |t.ops| == failAt then Failed(SinkFailed(op)) else next)
  }

  /** After the loop exits cleanly: flush if still dirty, then close. */
  function EndOfStream(t: Trace, dir: Direction, failAt: int): (r: Trace)
    requires t.status.Running?
    ensures !r.status.Running?
    ensures |t.ops| < |r.ops| <= |t.ops| + 2 && r.ops[..|t.ops|] == t.ops
    ensures forall k :: |t.ops| <= k < |r.ops| ==> !r.ops[k].Write?
    ensures r.status == Done ==> r.ops[|r.ops| - 1] == CloseOp(dir)
  {
    var flushed := if t.status.needFlush then Issue(t, Flush, Running(false), failAt) else t;
    if flushed.status.Failed? then flushed else Issue(flushed, CloseOp(dir), Done, failAt)
  }

  /** One iteration of the copy loop on the read outcome `e`. */
  function Step(t: Trace, e: ReadEvent, dir: Direction, failAt: int): (r: Trace)
    requires t.status.Running?
    ensures |t.ops| <= |r.ops| && r.ops[..|t.ops|] == t.ops
    ensures |r.ops| <= |t.ops| + (if r.status.Running? then 1 else 2)
  {
    match e
    case Data(c) =>
      if |c| > 0 then Issue(t, Write(c), Running(true), failAt)
      else EndOfStream(t, dir, failAt)
    case End => EndOfStream(t, dir, failAt)
    case ReadError(code) => Trace(t.ops, Failed(ReadFailed(code)))
    case Timeout =>
      if t.status.needFlush then Issue(t, Flush, Running(false), failAt) else t
  }

  /** Feed the read outcomes to the loop until it exits or they run out. */
  function Drive(t: Trace, events: seq<ReadEvent>, dir: Direction, failAt: int): (r: Trace)
    ensures |t.ops| <= |r.ops| && r.ops[..|t.ops|] == t.ops
    ensures |r.ops| <= |t.ops| + |events| + 1
    ensures r.status.Running? ==> t.status.Running?
    decreases |events|
  {
    if events == [] || !t.status.Running? then t
    else Drive(Step(t, events[0], dir, failAt), events[1..], dir, failAt)
  }

  /** The whole direction, from a fresh buffer and a clean sink. */
  function Run(events: seq<ReadEvent>, dir: Direction, failAt: int): (r: Trace)
    ensures |r.ops| <= |events| + 1
  {
    Drive(Start, events, dir, failAt)
  }

  // ---------------------------------------------------------------------
  // The source side: what the reads deliver and how they end

  /** The bytes of every non-empty read before the first read that ends the loop. */
  function Delivered(events: seq<ReadEvent>): seq<Byte>
  {
    if events == [] then []
    else match events[0]
      case Data(c) => if |c| > 0 then c + Delivered(events[1..]) else []
      case Timeout => Delivered(events[1..])
      case _ => []
  }

  datatype SourceEnd = Open | Clean | Broken(code: int)

  /** How the source ended: by its first zero-length read, None or error, if any. */
  function Ending(events: seq<ReadEvent>): SourceEnd
  {
    if events == [] then Open
    else match events[0]
      case Data(c) => if |c| > 0 then Ending(events[1..]) else Clean
      case End => Clean
      case ReadError(code) => Broken(code)
      case Timeout => Ending(events[1..])
  }

  /** The bytes written to the sink, in order. */
  function Written(ops: seq<SinkOp>): seq<Byte>
  {
    if ops == [] then []
    else (if ops[0].Write? then ops[0].bytes else []) + Written(ops[1..])
  }

  // ---------------------------------------------------------------------
  // Invariants of every trace the relay produces

  /** Every flush directly follows a write: the relay flushes only while dirty. */
  ghost predicate FlushFollowsWrite(ops: seq<SinkOp>)
  {
    forall k :: 0 <= k < |ops| && ops[k] == Flush ==> 0 < k && ops[k - 1].Write?
  }

  /** Every write is a non-empty prefix of the buffer. */
  ghost predicate WritesFitBuffer(ops: seq<SinkOp>)
  {
    forall k :: 0 <= k < |ops| && ops[k].Write? ==> 0 < |ops[k].bytes| <= BUFFER_SIZE
  }

  /** The close is the direction's own close operation, the last operation
      issued, and comes right after a flush unless it is the only one. */
  ghost predicate CloseIsLast(ops: seq<SinkOp>, dir: Direction)
  {
    forall k :: 0 <= k < |ops| && ops[k].IsClose() ==>
      k == |ops| - 1 && ops[k] == CloseOp(dir) && (0 < k ==> ops[k - 1] == Flush)
  }

  /** What the status says about the log: need_flush holds exactly when the
      last operation was a write; Done means the close was issued; a read
      error leaves the sink unclosed; a sink error is the refused attempt,
      and it is the last operation issued. */
  ghost predicate StatusAgrees(t: Trace, dir: Direction, failAt: int)
  {
    var ops := t.ops;
    (t.status.Running? ==>
       (t.status.needFlush <==> 0 < |ops| && ops[|ops| - 1].Write?) &&
       (forall k :: 0 <= k < |ops| ==> !ops[k].IsClose())) &&
    (t.status == Done ==> 0 < |ops| && ops[|ops| - 1] == CloseOp(dir)) &&
    (t.status.Failed? && t.status.error.ReadFailed? ==>
       forall k :: 0 <= k < |ops| ==> !ops[k].IsClose()) &&
    (t.status.IsSinkFailure() <==> 0 <= failAt < |ops|) &&
    (t.status.IsSinkFailure() ==> |ops| == failAt + 1 && ops[failAt] == t.status.error.op)
  }

  ghost predicate Disciplined(t: Trace, dir: Direction, failAt: int)
  {
    FlushFollowsWrite(t.ops) && WritesFitBuffer(t.ops) && CloseIsLast(t.ops, dir) &&
    StatusAgrees(t, dir, failAt)
  }

  lemma IssueDisciplined(t: Trace, op: SinkOp, next: Status, dir: Direction, failAt: int)
    requires Disciplined(t, dir, failAt) && t.status.Running?
    requires op == Flush ==> 0 < |t.ops| && t.ops[|t.ops| - 1].Write?
    requires op.Write? ==> 0 < |op.bytes| <= BUFFER_SIZE && next == Running(true)
    requires op == Flush ==> next == Running(false)
    requires op.IsClose() ==> op == CloseOp(dir) && next == Done &&
                              (0 < |t.ops| ==> t.ops[|t.ops| - 1] == Flush)
    ensures Disciplined(Issue(t, op, next, failAt), dir, failAt)
  {
    var r := Issue(t, op, next, failAt);
    assert forall k :: 0 <= k < |t.ops| ==> r.ops[k] == t.ops[k];
  }

  lemma EndOfStreamDisciplined(t: Trace, dir: Direction, failAt: int)
    requires Disciplined(t, dir, failAt) && t.status.Running?
    ensures Disciplined(EndOfStream(t, dir, failAt), dir, failAt)
  {
    var flushed := t;
    if t.status.needFlush {
      IssueDisciplined(t, Flush, Running(false), dir, failAt);
      flushed := Issue(t, Flush, Running(false), failAt);
    }
    if !flushed.status.Failed? {
      IssueDisciplined(flushed, CloseOp(dir), Done, dir, failAt);
    }
  }

  lemma StepDisciplined(t: Trace, e: ReadEvent, dir: Direction, failAt: int)
    requires Disciplined(t, dir, failAt) && t.status.Running?
    ensures Disciplined(Step(t, e, dir, failAt), dir, failAt)
  {
    match e
    case Data(c) =>
      if |c| > 0 {
        IssueDisciplined(t, Write(c), Running(true), dir, failAt);
      } else {
        EndOfStreamDisciplined(t, dir, failAt);
      }
    case End => EndOfStreamDisciplined(t, dir, failAt);
    case ReadError(code) =>
    case Timeout =>
      if t.status.needFlush {
        IssueDisciplined(t, Flush, Running(false), dir, failAt);
      }
  }

  lemma {:induction false} DriveDisciplined(t: Trace, events: seq<ReadEvent>, dir: Direction, failAt: int)
    requires Disciplined(t, dir, failAt)
    ensures Disciplined(Drive(t, events, dir, failAt), dir, failAt)
    decreases |events|
  {
    if events != [] && t.status.Running? {
      StepDisciplined(t, events[0], dir, failAt);
      DriveDisciplined(Step(t, events[0], dir, failAt), events[1..], dir, failAt);
    }
  }

  /** Every trace of the relay keeps the flush discipline: a flush only while
      dirty, writes of at most BUFFER_SIZE bytes, the close issued at most
      once and last, right after the final flush, need_flush exactly when a
      write is unflushed, no close after a read error, and a refused sink
      operation is the last one issued. */
  lemma RunDisciplined(events: seq<ReadEvent>, dir: Direction, failAt: int)
    ensures FlushFollowsWrite(Run(events, dir, failAt).ops)
    ensures WritesFitBuffer(Run(events, dir, failAt).ops)
    ensures CloseIsLast(Run(events, dir, failAt).ops, dir)
    ensures StatusAgrees(Run(events, dir, failAt), dir, failAt)
  {
    DriveDisciplined(Start, events, dir, failAt);
  }

  /** After a clean close, everything written was flushed: the close is
      preceded by a flush unless it is the only operation. */
  lemma FlushedBeforeClose(events: seq<ReadEvent>, dir: Direction, failAt: int)
    requires Run(events, dir, failAt).status == Done
    ensures var ops := Run(events, dir, failAt).ops;
      0 < |ops| && ops[|ops| - 1] == CloseOp(dir) &&
      (forall k :: 0 <= k < |ops| - 1 ==> !ops[k].IsClose()) &&
      (|ops| == 1 || ops[|ops| - 2] == Flush)
  {
    RunDisciplined(events, dir, failAt);
  }

  // ---------------------------------------------------------------------
  // Ordering: the sink receives exactly the source's bytes, in order

  lemma {:induction false} WrittenAppend(ops: seq<SinkOp>, more: seq<SinkOp>)
    ensures Written(ops + more) == Written(ops) + Written(more)
    decreases |ops|
  {
    if ops == [] {
      assert ops + more == more;
    } else {
      assert (ops + more)[1..] == ops[1..] + more;
      WrittenAppend(ops[1..], more);
    }
  }

  lemma WrittenIssue(t: Trace, op: SinkOp, next: Status, failAt: int)
    ensures Written(Issue(t, op, next, failAt).ops) ==
            Written(t.ops) + (if op.Write? then op.bytes else [])
  {
    WrittenAppend(t.ops, [op]);
    assert Written([op]) == (if op.Write? then op.bytes else []) + Written([]);
  }

  lemma {:induction false} DriveDelivers(t: Trace, events: seq<ReadEvent>, dir: Direction, failAt: int)
    requires t.status.Running?
    ensures var r := Drive(t, events, dir, failAt);
      Written(r.ops) <= Written(t.ops) + Delivered(events) &&
      (!r.status.IsSinkFailure() ==> Written(r.ops) == Written(t.ops) + Delivered(events))
    decreases |events|
  {
    if events != [] {
      var s := Step(t, events[0], dir, failAt);
      StepDelivers(t, events, dir, failAt);
      if s.status.Running? {
        DriveDelivers(s, events[1..], dir, failAt);
      }
    }
  }

  /** One read outcome: while the loop goes on, what is written plus what is
      still to be delivered stays the same; when it stops, nothing more is
      written than was delivered, and exactly that unless the sink refused. */
  lemma StepDelivers(t: Trace, events: seq<ReadEvent>, dir: Direction, failAt: int)
    requires t.status.Running? && events != []
    ensures var s := Step(t, events[0], dir, failAt);
      (s.status.Running? ==> Written(t.ops) + Delivered(events) == Written(s.ops) + Delivered(events[1..])) &&
      (!s.status.Running? ==> Written(s.ops) <= Written(t.ops) + Delivered(events)) &&
      (!s.status.Running? && !s.status.IsSinkFailure() ==> Written(s.ops) == Written(t.ops) + Delivered(events))
  {
    match events[0]
    case Data(c) =>
      if |c| > 0 {
        DataDelivers(t, events, dir, failAt);
      } else {
        EndOfStreamWritesNothing(t, dir, failAt);
      }
    case End => EndOfStreamWritesNothing(t, dir, failAt);
    case ReadError(_) =>
    case Timeout => TimeoutDelivers(t, events, dir, failAt);
  }

  lemma DataDelivers(t: Trace, events: seq<ReadEvent>, dir: Direction, failAt: int)
    requires t.status.Running? && events != [] && events[0].Data? && |events[0].chunk| > 0
    ensures var s := Step(t, events[0], dir, failAt);
      (s.status.Running? ==> Written(t.ops) + Delivered(events) == Written(s.ops) + Delivered(events[1..])) &&
      Written(s.ops) <= Written(t.ops) + Delivered(events) &&
      (s.status.Running? || s.status.IsSinkFailure())
  {
    var c := events[0].chunk;
    WrittenIssue(t, Write(c), Running(true), failAt);
    AppendAssoc(Written(t.ops), c, Delivered(events[1..]));
  }

  lemma AppendAssoc<T>(a: seq<T>, b: seq<T>, c: seq<T>)
    ensures a + (b + c) == (a + b) + c && a + b <= a + (b + c)
  {
    assert (a + (b + c))[..|a + b|] == a + b;
  }

  lemma TimeoutDelivers(t: Trace, events: seq<ReadEvent>, dir: Direction, failAt: int)
    requires t.status.Running? && events != [] && events[0].Timeout?
    ensures var s := Step(t, events[0], dir, failAt);
      Written(s.ops) == Written(t.ops) && Delivered(events) == Delivered(events[1..])
  {
    if t.status.needFlush {
      WrittenIssue(t, Flush, Running(false), failAt);
    }
  }

  lemma EndOfStreamWritesNothing(t: Trace, dir: Direction, failAt: int)
    requires t.status.Running?
    ensures Written(EndOfStream(t, dir, failAt).ops) == Written(t.ops)
  {
    var flushed := t;
    if t.status.needFlush {
      WrittenIssue(t, Flush, Running(false), failAt);
      flushed := Issue(t, Flush, Running(false), failAt);
    }
    if !flushed.status.Failed? {
      WrittenIssue(flushed, CloseOp(dir), Done, failAt);
    }
  }

  /** The bytes written to the sink are always a prefix of the bytes the
      source delivered before it ended, and are exactly those bytes, in
      order, unless the sink refused an operation. */
  lemma RunDelivers(events: seq<ReadEvent>, dir: Direction, failAt: int)
    ensures Written(Run(events, dir, failAt).ops) <= Delivered(events)
    ensures !Run(events, dir, failAt).status.IsSinkFailure() ==>
            Written(Run(events, dir, failAt).ops) == Delivered(events)
  {
    DriveDelivers(Start, events, dir, failAt);
  }

  // ---------------------------------------------------------------------
  // How the direction ends

  lemma {:induction false} DriveEnds(t: Trace, events: seq<ReadEvent>, dir: Direction, failAt: int)
    requires t.status.Running?
    ensures var r := Drive(t, events, dir, failAt);
      !r.status.IsSinkFailure() ==>
        (r.status.Running? <==> Ending(events) == Open) &&
        (r.status == Done <==> Ending(events) == Clean) &&
        (forall code :: r.status == Failed(ReadFailed(code)) <==> Ending(events) == Broken(code))
    decreases |events|
  {
    if events != [] {
      var s := Step(t, events[0], dir, failAt);
      if s.status.Running? {
        DriveEnds(s, events[1..], dir, failAt);
      }
    }
  }

  /** Unless the sink refuses an operation, the direction is still running
      exactly while the source has not ended, closes the sink exactly when
      the source ended with a zero-length read or None, and fails with the
      read's error exactly when the source ended with a read error. */
  lemma RunEnds(events: seq<ReadEvent>, dir: Direction, failAt: int)
    requires !Run(events, dir, failAt).status.IsSinkFailure()
    ensures Run(events, dir, failAt).status.Running? <==> Ending(events) == Open
    ensures Run(events, dir, failAt).status == Done <==> Ending(events) == Clean
    ensures forall code :: Run(events, dir, failAt).status == Failed(ReadFailed(code)) <==>
                           Ending(events) == Broken(code)
  {
    DriveEnds(Start, events, dir, failAt);
  }

  // ---------------------------------------------------------------------
  // One more read outcome

  lemma {:induction false} DriveAppend(t: Trace, events: seq<ReadEvent>, e: ReadEvent, dir: Direction, failAt: int)
    ensures var r := Drive(t, events, dir, failAt);
      Drive(t, events + [e], dir, failAt) == if r.status.Running? then Step(r, e, dir, failAt) else r
    decreases |events|
  {
    if events == [] {
      assert events + [e] == [e];
    } else if t.status.Running? {
      assert (events + [e])[1..] == events[1..] + [e];
      DriveAppend(Step(t, events[0], dir, failAt), events[1..], e, dir, failAt);
    }
  }

  /** A non-empty read issues exactly one write of its bytes and marks the
      sink dirty, without flushing. */
  lemma DataWritesOnce(events: seq<ReadEvent>, c: Chunk, dir: Direction, failAt: int)
    requires Run(events, dir, failAt).status.Running? && 0 < |c|
    ensures var before := Run(events, dir, failAt);
      var after := Run(events + [Data(c)], dir, failAt);
      after.ops == before.ops + [Write(c)] &&
      after.status == (if |before.ops| == failAt then Failed(SinkFailed(Write(c))) else Running(true))
  {
    DriveAppend(Start, events, Data(c), dir, failAt);
  }

  /** A timeout flushes once and clears need_flush when the sink is dirty,
      changes nothing when it is clean, and never ends the loop unless the
      flush is refused. */
  lemma TimeoutFlushesIfDirty(events: seq<ReadEvent>, dir: Direction, failAt: int)
    requires Run(events, dir, failAt).status.Running?
    ensures var before := Run(events, dir, failAt);
      var after := Run(events + [Timeout], dir, failAt);
      (before.status.needFlush ==>
         after.ops == before.ops + [Flush] &&
         after.status == (if |before.ops| == failAt then Failed(SinkFailed(Flush)) else Running(false))) &&
      (!before.status.needFlush ==> after == before)
  {
    DriveAppend(Start, events, Timeout, dir, failAt);
  }

  /** A zero-length read and None both end the loop cleanly: the sink is
      flushed if dirty and then closed, and nothing fails unless the sink
      refuses. */
  lemma EmptyReadCloses(events: seq<ReadEvent>, e: ReadEvent, dir: Direction, failAt: int)
    requires Run(events, dir, failAt).status.Running?
    requires e == End || e == Data([])
    requires failAt < 0
    ensures var before := Run(events, dir, failAt);
      var after := Run(events + [e], dir, failAt);
      after.status == Done &&
      after.ops == before.ops + (if before.status.needFlush then [Flush] else []) + [CloseOp(dir)]
  {
    DriveAppend(Start, events, e, dir, failAt);
  }

  /** A read error ends the direction at once with that error: no flush, no close. */
  lemma ReadErrorAborts(events: seq<ReadEvent>, code: int, dir: Direction, failAt: int)
    requires Run(events, dir, failAt).status.Running?
    ensures var before := Run(events, dir, failAt);
      Run(events + [ReadError(code)], dir, failAt) == Trace(before.ops, Failed(ReadFailed(code)))
  {
    DriveAppend(Start, events, ReadError(code), dir, failAt);
  }

  /** Once the direction has ended, further read outcomes change nothing. */
  lemma EndedIsFinal(events: seq<ReadEvent>, e: ReadEvent, dir: Direction, failAt: int)
    requires !Run(events, dir, failAt).status.Running?
    ensures Run(events + [e], dir, failAt) == Run(events, dir, failAt)
  {
    DriveAppend(Start, events, e, dir, failAt);
  }

  // ---------------------------------------------------------------------
  // The sink and the copy loop

  /** The writing half of a TCP socket or a QUIC send stream. `log` holds
      every operation issued to it in order; the one issued when the log
      has length failAt is refused (a negative failAt: none is). */
  class Sink {
    var log: seq<SinkOp>
    const failAt: int

    constructor (failAt: int)
      ensures log == [] && this.failAt == failAt
    {
      log := [];
      this.failAt := failAt;
    }

    method WriteAll(bytes: seq<Byte>) returns (ok: bool)
      modifies this
      ensures log == old(log) + [Write(bytes)]
      ensures ok <==> |old(log)| != failAt
    {
      ok := |log| != failAt;
      log := log + [Write(bytes)];
    }

    method Flush() returns (ok: bool)
      modifies this
      ensures log == old(log) + [SinkOp.Flush]
      ensures ok <==> |old(log)| != failAt
    {
      ok := |log| != failAt;
      log := log + [SinkOp.Flush];
    }

    method Shutdown() returns (ok: bool)
      modifies this
      ensures log == old(log) + [SinkOp.Shutdown]
      ensures ok <==> |old(log)| != failAt
    {
      ok := |log| != failAt;
      log := log + [SinkOp.Shutdown];
    }

    method Finish() returns (ok: bool)
      modifies this
      ensures log == old(log) + [SinkOp.Finish]
      ensures ok <==> |old(log)| != failAt
    {
      ok := |log| != failAt;
      log := log + [SinkOp.Finish];
    }
  }

  /** One read into the buffer: the read places its bytes at the front of `buf`. */
  method ReadInto(buf: array<Byte>, c: Chunk) returns (n: nat)
    requires buf.Length == BUFFER_SIZE
    modifies buf
    ensures n == |c| && buf[..n] == c
  {
    n := |c|;
    forall k | 0 <= k < n {
      buf[k] := c[k];
    }
  }

  lemma DriveUnfold(t: Trace, events: seq<ReadEvent>, i: nat, dir: Direction, failAt: int)
    requires t.status.Running? && i < |events|
    ensures Drive(t, events[i..], dir, failAt) ==
            Drive(Step(t, events[i], dir, failAt), events[i + 1..], dir, failAt)
  {
    assert events[i..][0] == events[i] && events[i..][1..] == events[i + 1..];
  }

  lemma DriveStopped(t: Trace, events: seq<ReadEvent>, dir: Direction, failAt: int)
    requires !t.status.Running?
    ensures Drive(t, events, dir, failAt) == t
  {
  }

  /** After the loop exits cleanly: flush once if still dirty, then shut
      down (TCP) or finish (QUIC). */
  method FlushAndClose(dir: Direction, sink: Sink, needFlush: bool,
                       ghost log0: seq<SinkOp>, ghost t: Trace, ghost failAt: int)
    returns (status: Status)
    requires t.status == Running(needFlush)
    requires sink.log == log0 + t.ops && failAt == sink.failAt - |log0|
    modifies sink
    ensures sink.log == log0 + EndOfStream(t, dir, failAt).ops
    ensures status == EndOfStream(t, dir, failAt).status
  {
    ghost var u := t;
    if needFlush {
      var ok := sink.Flush();
      u := Issue(u, SinkOp.Flush, Running(false), failAt);
      if !ok {
        return Failed(SinkFailed(SinkOp.Flush));
      }
    }
    var ok;
    if dir == QuicToTcp {
      ok := sink.Shutdown();
    } else {
      ok := sink.Finish();
    }
    u := Issue(u, CloseOp(dir), Done, failAt);
    if !ok {
      return Failed(SinkFailed(CloseOp(dir)));
    }
    return Done;
  }

  /** One pass of the copy loop: read once into `buf` and act on the
      outcome. `ended` reports a zero-length read or None, which leaves the
      loop for the flush and close after it; otherwise the sink and the
      returned status are those of Step. */
  method Pump(dir: Direction, e: ReadEvent, sink: Sink, buf: array<Byte>, needFlush: bool,
              ghost log0: seq<SinkOp>, ghost t: Trace, ghost failAt: int)
    returns (ended: bool, status: Status)
    requires t.status == Running(needFlush) && buf.Length == BUFFER_SIZE
    requires sink.log == log0 + t.ops && failAt == sink.failAt - |log0|
    modifies sink, buf
    ensures ended <==> e == End || (e.Data? && e.chunk == [])
    ensures ended ==> sink.log == old(sink.log) && Step(t, e, dir, failAt) == EndOfStream(t, dir, failAt)
    ensures !ended ==> sink.log == log0 + Step(t, e, dir, failAt).ops &&
                       status == Step(t, e, dir, failAt).status
  {
    ended, status := false, Running(needFlush);
    match e {
    case Data(c) =>
      var n := ReadInto(buf, c);
      if n == 0 {
        return true, status;
      }
      var ok := sink.WriteAll(buf[..n]);
      status := if ok then Running(true) else Failed(SinkFailed(Write(buf[..n])));
    case End =>
      ended := true;
    case ReadError(code) =>
      status := Failed(ReadFailed(code));
    case Timeout =>
      if needFlush {
        var ok := sink.Flush();
        status := if ok then Running(false) else Failed(SinkFailed(SinkOp.Flush));
      }
    }
  }

  /** copy_quic_to_tcp and copy_tcp_to_quic: relay the read outcomes
      `source` to `sink`. The operations issued and the status returned are
      those of Run; a Running status means the source has produced no
      outcome that ends the loop yet. */
  method Copy(dir: Direction, source: seq<ReadEvent>, sink: Sink) returns (status: Status)
    modifies sink
    ensures sink.log == old(sink.log) + Run(source, dir, sink.failAt - |old(sink.log)|).ops
    ensures status == Run(source, dir, sink.failAt - |old(sink.log)|).status
  {
    ghost var failAt := sink.failAt - |sink.log|;
    ghost var log0 := sink.log;
    ghost var t := Start;
    ghost var goal := Run(source, dir, failAt);
    var buf := new Byte[BUFFER_SIZE];
    var needFlush := false;
    var i := 0;
    while i < |source|
      invariant 0 <= i <= |source|
      invariant t.status == Running(needFlush)
      invariant sink.log == log0 + t.ops
      invariant buf.Length == BUFFER_SIZE
      invariant Drive(t, source[i..], dir, failAt) == goal
    {
      DriveUnfold(t, source, i, dir, failAt);
      var ended, next := Pump(dir, source[i], sink, buf, needFlush, log0, t, failAt);
      if ended {
        break;
      }
      t := Step(t, source[i], dir, failAt);
      if !next.Running? {
        DriveStopped(t, source[i + 1..], dir, failAt);
        return next;
      }
      needFlush := next.needFlush;
      i := i + 1;
    }
    if i == |source| {
      // no read outcome has ended the loop yet
      return Running(needFlush);
    }
    ghost var closed := EndOfStream(t, dir, failAt);
    DriveStopped(closed, source[i + 1..], dir, failAt);
    status := FlushAndClose(dir, sink, needFlush, log0, t, failAt);
  }
}
