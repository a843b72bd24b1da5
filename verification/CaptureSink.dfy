/** From the print path to complete jobs: the relay, the idle timer and the bounded sink. */
module CaptureSink {
  import opened Basics

  /** The bound on `jobs`. */
  const JOB_CAPACITY: nat := 16
  /** The bound on the length of each of them. */
  const MAX_JOB_BYTES: nat := 512 * 1024

  // ----- the buffer of the job being captured

  datatype Buffer = Buffer(current: seq<Byte>, overflowed: bool)

  const EMPTY: Buffer := Buffer([], false)

  function Captured(b: Buffer, bytes: seq<Byte>): Buffer {
    if |b.current| + |bytes| > MAX_JOB_BYTES then b.(overflowed := true) else b.(current := b.current + bytes)
  }

  /** What a completion takes out of the buffer. */
  datatype Taken = Nothing | TooLong | Job(bytes: seq<Byte>)

  function Take(b: Buffer): Taken {
    if b.current == [] then Nothing else if b.overflowed then TooLong else Job(b.current)
  }

  /** The buffer holds exactly the bytes offered since the last completion, or knows that they were too many. */
  predicate Holds(b: Buffer, offered: seq<Byte>) {
    && (b.overflowed <==> |offered| > MAX_JOB_BYTES)
    && (!b.overflowed ==> b.current == offered)
    && |b.current| <= |offered|
  }

  lemma CaptureHolds(b: Buffer, offered: seq<Byte>, bytes: seq<Byte>)
    requires Holds(b, offered)
    ensures Holds(Captured(b, bytes), offered + bytes)
  {
  }

  /** A job taken is never truncated: it is all that was offered, and within the cap. */
  lemma TakeIsWhole(b: Buffer, offered: seq<Byte>)
    requires Holds(b, offered)
    ensures Take(b).Job? <==> 0 < |offered| <= 524288
    ensures Take(b).Job? ==> Take(b).bytes == offered
  {
  }

  // ----- the sinks

  predicate IsEndOf<T(==)>(end: seq<T>, whole: seq<T>) {
    |end| <= |whole| && end == whole[|whole| - |end|..]
  }

  lemma EndMoves<T>(end: seq<T>, whole: seq<T>, more: seq<T>)
    requires IsEndOf(end, whole)
    ensures IsEndOf(end + more, whole + more)
    ensures end != [] ==> IsEndOf(end[1..], whole)
  {
    assert (whole + more)[|whole| - |end|..] == whole[|whole| - |end|..] + more;
  }

  /** `current` grows with every capture; a completion moves it, if whole, to the end of `jobs`. */
  class ChannelCaptureSink {
    var current: seq<Byte>
    var overflowed: bool
    var jobs: seq<seq<Byte>>
    var droppedJobs: nat

    /** Everything offered, and the part of it since the last completion. */
    ghost var everOffered: seq<Byte>
    ghost var offered: seq<Byte>
    /** Every job ever queued, and how many completions found something in the buffer. */
    ghost var queued: seq<seq<Byte>>
    ghost var found: nat

    ghost predicate Valid()
      reads this
    {
      && Holds(Buffer(current, overflowed), offered)
      && IsEndOf(offered, everOffered)
      && |jobs| <= JOB_CAPACITY
      && IsEndOf(jobs, queued)
      && (forall job | job in queued :: 0 < |job| <= MAX_JOB_BYTES)
      && found == |queued| + droppedJobs
    }

    constructor ()
      ensures Valid() && jobs == [] && droppedJobs == 0 && everOffered == [] && offered == []
    {
      current, overflowed, jobs, droppedJobs := [], false, [], 0;
      everOffered, offered, queued, found := [], [], [], 0;
    }

    method TryCapture(bytes: seq<Byte>)
      requires Valid()
      modifies this
      ensures Valid()
      ensures Buffer(current, overflowed) == Captured(old(Buffer(current, overflowed)), bytes)
      ensures offered == old(offered) + bytes && everOffered == old(everOffered) + bytes
      ensures jobs == old(jobs) && droppedJobs == old(droppedJobs) && queued == old(queued) && found == old(found)
    {
      CaptureHolds(Buffer(current, overflowed), offered, bytes);
      EndMoves(offered, everOffered, bytes);
      everOffered, offered := everOffered + bytes, offered + bytes;
      if |current| + |bytes| > MAX_JOB_BYTES {
        overflowed := true;
        return;
      }
      current := current + bytes;
    }

    /** Ends a job: it is queued whole, or dropped and counted. */
    method TryCompleteJob()
      requires Valid()
      modifies this
      ensures Valid() && offered == [] && everOffered == old(everOffered)
      ensures Buffer(current, overflowed) == EMPTY
      ensures var whole := 0 < |old(offered)| <= 524288;
              var room := |old(jobs)| < 16;
              && jobs == (if whole && room then old(jobs) + [old(offered)] else old(jobs))
              && queued == (if whole && room then old(queued) + [old(offered)] else old(queued))
              && droppedJobs == (if old(current) != [] && !(whole && room) then old(droppedJobs) + 1 else old(droppedJobs))
    {
      TakeIsWhole(Buffer(current, overflowed), offered);
      if |current| == 0 {
        overflowed := false;
        offered := [];
        return;
      }
      found := found + 1;
      if overflowed {
        current := [];
        overflowed := false;
        offered := [];
        droppedJobs := droppedJobs + 1;
        return;
      }
      var job := current;
      current := [];
      offered := [];
      if |jobs| < JOB_CAPACITY {
        EndMoves(jobs, queued, [job]);
        jobs := jobs + [job];
        queued := queued + [job];
      } else {
        droppedJobs := droppedJobs + 1;
      }
    }

    /** The consumer takes the job that has waited longest. */
    method ReadJob() returns (job: seq<Byte>)
      requires Valid() && jobs != []
      modifies this`jobs
      ensures Valid() && [job] + jobs == old(jobs)
    {
      EndMoves(jobs, queued, []);
      job := jobs[0];
      jobs := jobs[1..];
    }
  }

  /** The jobs waiting once `bytes` have been completed: one more if they are within the cap and there is room. */
  function WithJob(jobs: seq<seq<Byte>>, bytes: seq<Byte>): seq<seq<Byte>> {
    if 0 < |bytes| <= 524288 && |jobs| < 16 then jobs + [bytes] else jobs
  }

  /** A sink around `inner` with a timer, set by every capture and cleared by every completion. */
  class IdleJobSink {
    const inner: ChannelCaptureSink
    var pending: bool
    var timerSet: bool

    /** While `inner` has bytes that are not yet a job, the timer is set. */
    ghost predicate Valid()
      reads this, inner
    {
      inner.Valid() && (inner.offered != [] ==> pending && timerSet)
    }

    constructor (inner: ChannelCaptureSink)
      requires inner.Valid() && inner.offered == []
      ensures Valid() && this.inner == inner && !pending
    {
      this.inner := inner;
      pending, timerSet := false, false;
    }

    method TryCapture(bytes: seq<Byte>)
      requires Valid()
      modifies this, inner
      ensures Valid() && pending && timerSet
      ensures inner.offered == old(inner.offered) + bytes && inner.everOffered == old(inner.everOffered) + bytes
      ensures inner.jobs == old(inner.jobs) && inner.droppedJobs == old(inner.droppedJobs) && inner.queued == old(inner.queued)
    {
      inner.TryCapture(bytes);
      pending := true;
      timerSet := true;
    }

    method TryCompleteJob()
      requires Valid()
      modifies this, inner
      ensures Valid() && !pending && !timerSet && inner.offered == []
      ensures inner.everOffered == old(inner.everOffered)
      ensures inner.jobs == WithJob(old(inner.jobs), old(inner.offered))
    {
      pending := false;
      timerSet := false;
      inner.TryCompleteJob();
    }

    /** The timer fires: whatever was offered since the last completion becomes a job, once. */
    method OnIdle()
      requires Valid()
      modifies this, inner
      ensures Valid() && !pending && inner.offered == []
      ensures inner.everOffered == old(inner.everOffered)
      ensures inner.jobs == WithJob(old(inner.jobs), old(inner.offered))
      ensures old(!pending) ==> inner.jobs == old(inner.jobs) && inner.droppedJobs == old(inner.droppedJobs)
    {
      var complete := pending;
      pending := false;
      if complete {
        inner.TryCompleteJob();
      }
    }

    /** The end of the sink: a last turn of the timer, and none after it. */
    method DisposeAsync()
      requires Valid()
      modifies this, inner
      ensures Valid() && !pending && !timerSet && inner.offered == []
      ensures inner.everOffered == old(inner.everOffered)
      ensures inner.jobs == WithJob(old(inner.jobs), old(inner.offered))
    {
      OnIdle();
      timerSet := false;
    }
  }

  // ----- the relay

  /** What a read brings: some bytes, of which none at all means the end; a stop; or any other failure. */
  datatype ReadResult = Chunk(bytes: seq<Byte>) | Cancelled | Broken

  /** One turn of the loop: a stop asked for before it, what was read, and whether the printer took it. */
  datatype Turn = Turn(stopAsked: bool, read: ReadResult, written: bool) {
    predicate Ends() {
      stopAsked || read == Cancelled || read == Chunk([])
    }

    /** The source or the printer fails. */
    predicate Fails() {
      !Ends() && (read == Broken || !written)
    }
  }

  /** The bytes a run of turns puts through to the printer. */
  function Through(turns: seq<Turn>): seq<Byte> {
    if turns == [] || turns[0].Ends() || turns[0].Fails() then [] else turns[0].read.bytes + Through(turns[1..])
  }

  /** A turn fails before the relay ends by itself. */
  predicate RelayFails(turns: seq<Turn>) {
    turns != [] && (turns[0].Fails() || (!turns[0].Ends() && RelayFails(turns[1..])))
  }

  /**
   * A run of the relay. If it ends by itself, all that was offered becomes a job; if the source
   * or the printer fails, it ends at once, and what was offered stays with the sink.
   */
  method Relay(turns: seq<Turn>, sink: IdleJobSink) returns (forwarded: seq<Byte>, failed: bool)
    requires sink.Valid()
    modifies sink, sink.inner
    ensures sink.Valid()
    ensures forwarded == Through(turns) && failed == RelayFails(turns)
    ensures sink.inner.everOffered == old(sink.inner.everOffered) + forwarded
    ensures !failed ==> sink.inner.offered == [] && !sink.pending
    ensures failed ==> sink.inner.offered == old(sink.inner.offered) + forwarded && sink.inner.jobs == old(sink.inner.jobs)
    ensures !failed ==> sink.inner.jobs == WithJob(old(sink.inner.jobs), old(sink.inner.offered) + forwarded)
  {
    forwarded, failed := Pump(turns, sink);
    if !failed {
      sink.TryCompleteJob();
    }
  }

  /**
   * The serial bridge: a relay, and its sink disposed however that ends. So what went through
   * before a failure becomes a job too, a receipt cut off and no other.
   */
  method Bridge(turns: seq<Turn>, inner: ChannelCaptureSink) returns (forwarded: seq<Byte>, failed: bool)
    requires inner.Valid() && inner.offered == []
    modifies inner
    ensures inner.Valid() && inner.offered == []
    ensures forwarded == Through(turns) && failed == RelayFails(turns)
    ensures inner.jobs == WithJob(old(inner.jobs), Through(turns))
  {
    var sink := new IdleJobSink(inner);
    forwarded, failed := Relay(turns, sink);
    assert [] + forwarded == forwarded;
    sink.DisposeAsync();
  }

  /** The chunk was read, and the printer took it. */
  predicate GoesThrough(turn: Turn) {
    !turn.stopAsked && turn.read.Chunk? && turn.read.bytes != [] && turn.written
  }

  predicate AllGoThrough(turns: seq<Turn>) {
    forall k | 0 <= k < |turns| :: GoesThrough(turns[k])
  }

  function ChunksOf(turns: seq<Turn>): seq<Byte>
    requires AllGoThrough(turns)
  {
    if turns == [] then [] else turns[0].read.bytes + ChunksOf(turns[1..])
  }

  /**
   * What is forwarded, and so offered, is every chunk that went through before the first turn
   * that did not, and no other: not one the printer did not take. The relay fails exactly if that
   * turn was not asked to stop and had a broken read, or bytes the printer did not take; a stop,
   * a cancelled read and an empty one end it well.
   */
  lemma {:induction false} ThroughExactly(turns: seq<Turn>, n: nat)
    requires n <= |turns| && AllGoThrough(turns[..n]) && (n < |turns| ==> !GoesThrough(turns[n]))
    ensures Through(turns) == ChunksOf(turns[..n])
    ensures RelayFails(turns)
       <==> n < |turns| && !turns[n].stopAsked && (turns[n].read.Broken? || (turns[n].read.Chunk? && turns[n].read.bytes != []))
  {
    if n > 0 {
      var rest := turns[1..];
      assert turns[..n][1..] == rest[..n - 1];
      assert turns[..n][0] == turns[0];
      ThroughExactly(rest, n - 1);
    }
  }

  /** A source that breaks after some bytes: the relay fails, and those bytes are what a bridge makes a job of. */
  lemma CutOffReceiptIsAJob(bytes: seq<Byte>)
    requires 0 < |bytes| <= 524288
    ensures var turns := [Turn(false, Chunk(bytes), true), Turn(false, Broken, false)];
            RelayFails(turns) && Through(turns) == bytes && WithJob([], Through(turns)) == [bytes]
  {
    var turns := [Turn(false, Chunk(bytes), true), Turn(false, Broken, false)];
    assert turns[1..] == [Turn(false, Broken, false)];
    assert Through(turns[1..]) == [] && bytes + [] == bytes;
  }

  lemma Append3(a: seq<Byte>, b: seq<Byte>, c: seq<Byte>)
    ensures a + b + c == a + (b + c)
  {
  }

  /** What remains to be done after `i` turns that went through. */
  ghost predicate HasForwarded(turns: seq<Turn>, i: nat, forwarded: seq<Byte>) {
    i <= |turns|
    && Through(turns) == forwarded + Through(turns[i..])
    && RelayFails(turns) == RelayFails(turns[i..])
  }

  lemma NextTurn(turns: seq<Turn>, i: nat, forwarded: seq<Byte>)
    requires i < |turns| && HasForwarded(turns, i, forwarded)
    ensures turns[i].Ends() ==> forwarded == Through(turns) && !RelayFails(turns)
    ensures turns[i].Fails() ==> forwarded == Through(turns) && RelayFails(turns)
    ensures !turns[i].Ends() && !turns[i].Fails() ==> HasForwarded(turns, i + 1, forwarded + turns[i].read.bytes)
  {
    assert turns[i..][1..] == turns[i + 1..];
    assert forwarded + [] == forwarded;
    if !turns[i].Ends() && !turns[i].Fails() {
      Append3(forwarded, turns[i].read.bytes, Through(turns[i + 1..]));
    }
  }

  /** One chunk goes on to the printer, and is offered to the sink after. */
  method Forward(chunk: seq<Byte>, sink: IdleJobSink, so: seq<Byte>, ghost ever: seq<Byte>, ghost offered: seq<Byte>) returns (forwarded: seq<Byte>)
    requires sink.Valid()
    requires sink.inner.everOffered == ever + so && sink.inner.offered == offered + so
    modifies sink, sink.inner
    ensures sink.Valid()
    ensures forwarded == so + chunk
    ensures sink.inner.everOffered == ever + forwarded && sink.inner.offered == offered + forwarded
    ensures sink.inner.jobs == old(sink.inner.jobs)
  {
    Append3(ever, so, chunk);
    Append3(offered, so, chunk);
    forwarded := so + chunk;
    sink.TryCapture(chunk);
  }

  /** The loop itself, up to its end or a failure. */
  method Pump(turns: seq<Turn>, sink: IdleJobSink) returns (forwarded: seq<Byte>, failed: bool)
    requires sink.Valid()
    modifies sink, sink.inner
    ensures sink.Valid()
    ensures forwarded == Through(turns) && failed == RelayFails(turns)
    ensures sink.inner.everOffered == old(sink.inner.everOffered) + forwarded
    ensures sink.inner.offered == old(sink.inner.offered) + forwarded
    ensures sink.inner.jobs == old(sink.inner.jobs)
  {
    forwarded := [];
    ghost var ever, offered, jobs := sink.inner.everOffered, sink.inner.offered, sink.inner.jobs;
    var i := 0;
    assert HasForwarded(turns, i, forwarded);
    while i < |turns|
      invariant 0 <= i <= |turns| && HasForwarded(turns, i, forwarded)
      invariant sink.Valid()
      invariant sink.inner.everOffered == ever + forwarded && sink.inner.offered == offered + forwarded
      invariant sink.inner.jobs == jobs
    {
      var turn := turns[i];
      NextTurn(turns, i, forwarded);
      if turn.stopAsked || turn.read == Cancelled || turn.read == Chunk([]) {
        return forwarded, false;
      }
      if turn.read == Broken || !turn.written {
        return forwarded, true;
      }
      var chunk := turn.read.bytes;
      forwarded := Forward(chunk, sink, forwarded, ever, offered);
      i := i + 1;
    }
    failed := false;
  }
}
