/**
 * Any number of relays into one sink, any number of threads completing jobs, and the consumer:
 * every interleaving of their atomic steps. A completion takes the buffer under the sink's lock
 * and publishes the job after letting the lock go; a dropped job is counted by reading the
 * counter and writing it back, under the lock if the job overflowed and outside it if the
 * channel was full.
 */
module SinkRaces {
  import opened Basics
  import opened CaptureSink

  /** A job on its way out: which of the completed segments it is, and its bytes. */
  datatype Numbered = Numbered(segment: nat, bytes: seq<Byte>)

  /** What one completing thread still has to do. */
  datatype Local =
    | Publishing(job: Numbered)
    | Counting(locked: bool)
    | Counted(locked: bool, register: nat, dropsThen: nat)

  /** What one relay has put through to its printer, and the part of it not yet offered. */
  datatype Relay = Relay(forwarded: seq<Byte>, inHand: seq<Byte>)

  /** Bytes offered at once, and by which relay. */
  datatype Piece = Piece(relay: nat, bytes: seq<Byte>)

  function BytesOf(pieces: seq<Piece>): seq<Byte> {
    if pieces == [] then [] else BytesOf(pieces[..|pieces| - 1]) + pieces[|pieces| - 1].bytes
  }

  /** The bytes that one relay offered. */
  function OwnBytes(pieces: seq<Piece>, r: nat): seq<Byte> {
    if pieces == [] then []
    else
      var last := pieces[|pieces| - 1];
      OwnBytes(pieces[..|pieces| - 1], r) + (if last.relay == r then last.bytes else [])
  }

  /** A segment is what was offered between two completions. */
  datatype State = State(
    relays: map<nat, Relay>,
    offered: seq<Piece>,
    buffer: Buffer,
    since: seq<Piece>,
    segments: seq<seq<Piece>>,
    channel: seq<Numbered>,
    queued: seq<Numbered>,
    threads: map<nat, Local>,
    found: nat,
    droppedJobs: nat,
    drops: nat,
    raced: bool
  )

  const INIT: State := State(map[], [], EMPTY, [], [], [], [], map[], 0, 0, 0, false)

  function RelayOf(s: State, r: nat): Relay {
    if r in s.relays then s.relays[r] else Relay([], [])
  }

  datatype Event =
    | Forward(relay: nat, bytes: seq<Byte>)
    | Offer(relay: nat)
    | Complete(thread: nat)
    | Publish(thread: nat)
    | ReadCounter(thread: nat)
    | WriteCounter(thread: nat)
    | Consume

  /** No thread is inside the sink's lock. */
  predicate LockFree(s: State) {
    forall t | t in s.threads :: !(s.threads[t].Counting? && s.threads[t].locked) && !(s.threads[t].Counted? && s.threads[t].locked)
  }

  predicate CanOffer(s: State, r: nat) {
    LockFree(s) && RelayOf(s, r).inHand != []
  }

  predicate CanComplete(s: State, t: nat) {
    t !in s.threads && LockFree(s)
  }

  /** One atomic step; an event that is not possible changes nothing. */
  function Apply(s: State, e: Event): State {
    match e
    case Forward(r, bytes) =>
      if RelayOf(s, r).inHand != [] then s
      else s.(relays := s.relays[r := Relay(RelayOf(s, r).forwarded + bytes, bytes)])
    case Offer(r) =>
      if !CanOffer(s, r) then s
      else
        var piece := Piece(r, RelayOf(s, r).inHand);
        s.(relays := s.relays[r := RelayOf(s, r).(inHand := [])],
           offered := s.offered + [piece], since := s.since + [piece], buffer := Captured(s.buffer, piece.bytes))
    case Complete(t) =>
      if !CanComplete(s, t) then s
      else
        var closed := s.(buffer := EMPTY, since := [], segments := s.segments + [s.since]);
        (match Take(s.buffer)
        case Nothing => closed
        case TooLong => closed.(found := s.found + 1, threads := s.threads[t := Counting(true)])
        case Job(bytes) =>
          closed.(found := s.found + 1, threads := s.threads[t := Publishing(Numbered(|s.segments|, bytes))]))
    case Publish(t) =>
      if t !in s.threads || !s.threads[t].Publishing? then s
      else if |s.channel| < JOB_CAPACITY then
        var job := s.threads[t].job;
        s.(channel := s.channel + [job], queued := s.queued + [job], threads := s.threads - {t})
      else s.(threads := s.threads[t := Counting(false)])
    case ReadCounter(t) =>
      if t !in s.threads || !s.threads[t].Counting? then s
      else s.(threads := s.threads[t := Counted(s.threads[t].locked, s.droppedJobs, s.drops)])
    case WriteCounter(t) =>
      if t !in s.threads || !s.threads[t].Counted? then s
      else
        s.(droppedJobs := s.threads[t].register + 1,
           drops := s.drops + 1,
           raced := s.raced || s.threads[t].dropsThen < s.drops,
           threads := s.threads - {t})
    case Consume =>
      if s.channel == [] then s else s.(channel := s.channel[1..])
  }

  function Run(s: State, events: seq<Event>): State
    decreases |events|
  {
    if events == [] then s else Run(Apply(s, events[0]), events[1..])
  }

  function Flatten(segments: seq<seq<Piece>>): seq<Piece> {
    if segments == [] then [] else Flatten(segments[..|segments| - 1]) + segments[|segments| - 1]
  }

  // ----- what every step keeps

  /** What a relay offered and what it has in hand make up what it forwarded. */
  predicate OffersWhatItForwarded(s: State, r: nat) {
    OwnBytes(s.offered, r) + RelayOf(s, r).inHand == RelayOf(s, r).forwarded
  }

  /** Completions cut what was offered into segments, and the buffer holds what the last one left open. */
  ghost predicate CutsUp(segments: seq<seq<Piece>>, since: seq<Piece>, offered: seq<Piece>, buffer: Buffer) {
    Flatten(segments) + since == offered && Holds(buffer, BytesOf(since))
  }

  ghost predicate CutsInSegments(s: State) {
    CutsUp(s.segments, s.since, s.offered, s.buffer)
  }

  ghost predicate ForwardFirst(s: State) {
    (forall r :: OffersWhatItForwarded(s, r)) && CutsInSegments(s)
  }

  /** The job is one whole segment, within the cap. */
  predicate IsWhole(s: State, job: Numbered) {
    job.segment < |s.segments| && BytesOf(s.segments[job.segment]) == job.bytes && 0 < |job.bytes| <= MAX_JOB_BYTES
  }

  /** Jobs queued and jobs in flight are whole segments. */
  ghost predicate JobsAreWhole(s: State) {
    && (forall i | 0 <= i < |s.queued| :: IsWhole(s, s.queued[i]))
    && (forall t | t in s.threads && s.threads[t].Publishing? :: IsWhole(s, s.threads[t].job))
  }

  /** Each segment is queued or in flight at most once. */
  ghost predicate JobsAreDistinct(s: State) {
    && (forall i, j | 0 <= i < j < |s.queued| :: s.queued[i].segment != s.queued[j].segment)
    && (forall i, t | 0 <= i < |s.queued| && t in s.threads && s.threads[t].Publishing? ::
          s.queued[i].segment != s.threads[t].job.segment)
    && (forall t, u | t in s.threads && u in s.threads && s.threads[t].Publishing? && s.threads[u].Publishing? && t != u ::
          s.threads[t].job.segment != s.threads[u].job.segment)
  }

  /** The channel is the unread end of the queue. */
  ghost predicate ChannelIsTheEnd(s: State) {
    |s.channel| <= JOB_CAPACITY && IsEndOf(s.channel, s.queued)
  }

  /** Every completion that found something is queued, dropped, or still in some thread's hands. */
  predicate EachIsCounted(s: State) {
    s.found == |s.queued| + s.drops + |s.threads|
  }

  /** The counter never runs ahead of the drops, and falls behind for good once two counts overlap. */
  ghost predicate CounterLags(s: State) {
    && (if s.raced then s.droppedJobs < s.drops else s.droppedJobs == s.drops)
    && (forall t | t in s.threads && s.threads[t].Counted? ::
          && s.threads[t].register <= s.threads[t].dropsThen <= s.drops
          && (s.raced ==> s.threads[t].register < s.drops)
          && (!s.raced ==> s.threads[t].register == s.threads[t].dropsThen))
  }

  ghost predicate Inv(s: State) {
    && ForwardFirst(s) && JobsAreWhole(s) && JobsAreDistinct(s) && ChannelIsTheEnd(s)
    && EachIsCounted(s) && CounterLags(s)
  }

  lemma OneMorePiece(pieces: seq<Piece>, c: Piece, r: nat)
    ensures BytesOf(pieces + [c]) == BytesOf(pieces) + c.bytes
    ensures OwnBytes(pieces + [c], r) == OwnBytes(pieces, r) + (if c.relay == r then c.bytes else [])
  {
    assert (pieces + [c])[..|pieces|] == pieces;
  }

  lemma ForwardKeeps(s: State, r: nat, bytes: seq<Byte>, q: nat)
    requires OffersWhatItForwarded(s, q)
    ensures OffersWhatItForwarded(Apply(s, Forward(r, bytes)), q)
  {
    if r == q && RelayOf(s, r).inHand == [] {
      assert OwnBytes(s.offered, r) + [] == OwnBytes(s.offered, r);
    }
  }

  lemma OfferKeeps(s: State, r: nat, q: nat)
    requires OffersWhatItForwarded(s, q)
    ensures OffersWhatItForwarded(Apply(s, Offer(r)), q)
  {
    var bytes := RelayOf(s, r).inHand;
    OneMorePiece(s.offered, Piece(r, bytes), q);
    assert OwnBytes(s.offered, q) + bytes + [] == OwnBytes(s.offered, q) + bytes;
    assert OwnBytes(s.offered, q) + [] == OwnBytes(s.offered, q);
  }

  lemma KeepsOwn(s: State, e: Event, q: nat)
    requires OffersWhatItForwarded(s, q)
    ensures OffersWhatItForwarded(Apply(s, e), q)
  {
    match e
    case Forward(r, bytes) => ForwardKeeps(s, r, bytes, q);
    case Offer(r) => OfferKeeps(s, r, q);
    case _ =>
  }

  lemma OfferCuts(segments: seq<seq<Piece>>, since: seq<Piece>, offered: seq<Piece>, buffer: Buffer, piece: Piece)
    requires CutsUp(segments, since, offered, buffer)
    ensures CutsUp(segments, since + [piece], offered + [piece], Captured(buffer, piece.bytes))
  {
    CaptureHolds(buffer, BytesOf(since), piece.bytes);
    OneMorePiece(since, piece, piece.relay);
    assert Flatten(segments) + (since + [piece]) == Flatten(segments) + since + [piece];
  }

  lemma CompletionCuts(segments: seq<seq<Piece>>, since: seq<Piece>, offered: seq<Piece>, buffer: Buffer)
    requires CutsUp(segments, since, offered, buffer)
    ensures CutsUp(segments + [since], [], offered, EMPTY)
  {
    assert (segments + [since])[..|segments|] == segments;
  }

  lemma OfferKeepsSegments(s: State, r: nat)
    requires CutsInSegments(s)
    ensures CutsInSegments(Apply(s, Offer(r)))
  {
    OfferCuts(s.segments, s.since, s.offered, s.buffer, Piece(r, RelayOf(s, r).inHand));
  }

  lemma CompleteMeans(s: State, t: nat)
    requires CanComplete(s, t)
    ensures var s' := Apply(s, Complete(t));
            s'.segments == s.segments + [s.since] && s'.since == [] && s'.buffer == EMPTY && s'.offered == s.offered
  {
  }

  lemma CompleteKeepsSegments(s: State, t: nat)
    requires CutsInSegments(s)
    ensures CutsInSegments(Apply(s, Complete(t)))
  {
    if CanComplete(s, t) {
      CompleteMeans(s, t);
      CompletionCuts(s.segments, s.since, s.offered, s.buffer);
    }
  }

  lemma OthersKeepSegments(s: State, e: Event)
    requires !e.Offer? && !e.Complete?
    ensures var s' := Apply(s, e);
            s'.segments == s.segments && s'.since == s.since && s'.buffer == s.buffer && s'.offered == s.offered
  {
  }

  lemma KeepsSegments(s: State, e: Event)
    requires CutsInSegments(s)
    ensures CutsInSegments(Apply(s, e))
  {
    match e
    case Offer(r) => OfferKeepsSegments(s, r);
    case Complete(t) => CompleteKeepsSegments(s, t);
    case _ => OthersKeepSegments(s, e);
  }

  lemma KeepsForwardFirst(s: State, e: Event)
    requires ForwardFirst(s)
    ensures ForwardFirst(Apply(s, e))
  {
    forall q
      ensures OffersWhatItForwarded(Apply(s, e), q)
    {
      KeepsOwn(s, e, q);
    }
    KeepsSegments(s, e);
  }

  lemma StaysWhole(s: State, more: seq<seq<Piece>>, job: Numbered)
    requires IsWhole(s, job)
    ensures IsWhole(s.(segments := s.segments + more), job)
  {
    assert (s.segments + more)[job.segment] == s.segments[job.segment];
  }

  lemma CompleteKeepsWhole(s: State, t: nat)
    requires ForwardFirst(s) && JobsAreWhole(s)
    ensures JobsAreWhole(Apply(s, Complete(t)))
  {
    var s' := Apply(s, Complete(t));
    if CanComplete(s, t) {
      TakeIsWhole(s.buffer, BytesOf(s.since));
      assert (s.segments + [s.since])[|s.segments|] == s.since;
      forall job | IsWhole(s, job)
        ensures IsWhole(s', job)
      {
        StaysWhole(s, [s.since], job);
      }
    }
  }

  lemma PublishKeepsWhole(s: State, t: nat)
    requires JobsAreWhole(s)
    ensures JobsAreWhole(Apply(s, Publish(t)))
  {
  }

  lemma OthersKeepWhole(s: State, e: Event)
    requires JobsAreWhole(s) && !e.Complete? && !e.Publish?
    ensures JobsAreWhole(Apply(s, e))
  {
    var s' := Apply(s, e);
    assert s'.segments == s.segments && s'.queued == s.queued;
    assert forall job :: IsWhole(s, job) ==> IsWhole(s', job);
  }

  lemma KeepsWhole(s: State, e: Event)
    requires ForwardFirst(s) && JobsAreWhole(s)
    ensures JobsAreWhole(Apply(s, e))
  {
    match e
    case Complete(t) => CompleteKeepsWhole(s, t);
    case Publish(t) => PublishKeepsWhole(s, t);
    case _ => OthersKeepWhole(s, e);
  }

  lemma CompleteKeepsDistinct(s: State, t: nat)
    requires JobsAreWhole(s) && JobsAreDistinct(s)
    ensures JobsAreDistinct(Apply(s, Complete(t)))
  {
    assert forall i | 0 <= i < |s.queued| :: IsWhole(s, s.queued[i]);
    assert forall u | u in s.threads && s.threads[u].Publishing? :: IsWhole(s, s.threads[u].job);
  }

  lemma PublishKeepsDistinct(s: State, t: nat)
    requires JobsAreDistinct(s)
    ensures JobsAreDistinct(Apply(s, Publish(t)))
  {
  }

  lemma KeepsDistinct(s: State, e: Event)
    requires JobsAreWhole(s) && JobsAreDistinct(s)
    ensures JobsAreDistinct(Apply(s, e))
  {
    match e
    case Complete(t) => CompleteKeepsDistinct(s, t);
    case Publish(t) => PublishKeepsDistinct(s, t);
    case _ =>
  }

  lemma KeepsChannel(s: State, e: Event)
    requires ChannelIsTheEnd(s)
    ensures ChannelIsTheEnd(Apply(s, e))
  {
    match e
    case Publish(t) =>
      if t in s.threads && s.threads[t].Publishing? {
        EndMoves(s.channel, s.queued, [s.threads[t].job]);
      }
    case Consume => EndMoves(s.channel, s.queued, []);
    case _ =>
  }

  lemma MapRemoves(m: map<nat, Local>, t: nat)
    requires t in m
    ensures |m - {t}| == |m| - 1
  {
    assert m == (m - {t})[t := m[t]];
  }

  lemma MapReplaces(m: map<nat, Local>, t: nat, l: Local)
    requires t in m
    ensures |m[t := l]| == |m|
  {
    MapRemoves(m, t);
    assert m[t := l] == (m - {t})[t := l];
  }

  lemma CompleteKeepsCounted(s: State, t: nat)
    requires EachIsCounted(s)
    ensures EachIsCounted(Apply(s, Complete(t)))
  {
  }

  lemma PublishKeepsCounted(s: State, t: nat)
    requires EachIsCounted(s)
    ensures EachIsCounted(Apply(s, Publish(t)))
  {
    if t in s.threads {
      MapRemoves(s.threads, t);
      MapReplaces(s.threads, t, Counting(false));
    }
  }

  lemma CountKeepsCounted(s: State, t: nat)
    requires EachIsCounted(s)
    ensures EachIsCounted(Apply(s, ReadCounter(t))) && EachIsCounted(Apply(s, WriteCounter(t)))
  {
    if t in s.threads {
      MapRemoves(s.threads, t);
      if s.threads[t].Counting? {
        MapReplaces(s.threads, t, Counted(s.threads[t].locked, s.droppedJobs, s.drops));
      }
    }
  }

  lemma KeepsCounted(s: State, e: Event)
    requires EachIsCounted(s)
    ensures EachIsCounted(Apply(s, e))
  {
    match e
    case Complete(t) => CompleteKeepsCounted(s, t);
    case Publish(t) => PublishKeepsCounted(s, t);
    case ReadCounter(t) => CountKeepsCounted(s, t);
    case WriteCounter(t) => CountKeepsCounted(s, t);
    case _ =>
  }

  lemma KeepsLag(s: State, e: Event)
    requires CounterLags(s)
    ensures CounterLags(Apply(s, e))
  {
  }

  lemma EveryStepKeeps(s: State, e: Event)
    requires Inv(s)
    ensures Inv(Apply(s, e))
  {
    KeepsForwardFirst(s, e);
    KeepsWhole(s, e);
    KeepsDistinct(s, e);
    KeepsChannel(s, e);
    KeepsCounted(s, e);
    KeepsLag(s, e);
  }

  /** The invariant holds after every run, whatever order the threads take their steps in. */
  lemma {:induction false} EveryRunKeeps(s: State, events: seq<Event>)
    requires Inv(s)
    ensures Inv(Run(s, events))
    decreases |events|
  {
    if events != [] {
      EveryStepKeeps(s, events[0]);
      EveryRunKeeps(Apply(s, events[0]), events[1..]);
    }
  }

  /**
   * What each relay offered is a prefix of what it forwarded, and completions cut what was offered
   * into segments; at most sixteen jobs wait, each a whole segment, and each another one.
   */
  lemma WhatTheConsumerReads(events: seq<Event>)
    ensures var s := Run(INIT, events);
            && (forall r :: OwnBytes(s.offered, r) <= RelayOf(s, r).forwarded)
            && Flatten(s.segments) + s.since == s.offered
            && |s.channel| <= 16
            && (forall job | job in s.channel :: IsWhole(s, job) && 0 < |job.bytes| <= 524288)
            && (forall i, j | 0 <= i < j < |s.channel| :: s.channel[i].segment != s.channel[j].segment)
  {
    EveryRunKeeps(INIT, events);
    WhatIsWaiting(Run(INIT, events));
  }

  lemma WhatIsWaiting(s: State)
    requires Inv(s)
    ensures forall r :: OwnBytes(s.offered, r) <= RelayOf(s, r).forwarded
    ensures forall job | job in s.channel :: IsWhole(s, job)
    ensures forall i, j | 0 <= i < j < |s.channel| :: s.channel[i].segment != s.channel[j].segment
  {
    var from := |s.queued| - |s.channel|;
    assert forall i | 0 <= i < |s.channel| :: s.channel[i] == s.queued[from + i];
    forall r
      ensures OwnBytes(s.offered, r) <= RelayOf(s, r).forwarded
    {
      assert OffersWhatItForwarded(s, r);
    }
  }

  // ----- the lock, and what each thread can always do next

  predicate IsInside(s: State, t: nat) {
    && t in s.threads
    && match s.threads[t]
       case Publishing(_) => false
       case Counting(locked) => locked
       case Counted(locked, _, _) => locked
  }

  /** No two threads are inside the lock; while one is, nothing is offered and nothing completed. */
  ghost predicate Excludes(s: State) {
    && (forall t, u | IsInside(s, t) && IsInside(s, u) :: t == u)
    && (forall t, e: Event | IsInside(s, t) && (e.Offer? || e.Complete?) :: Apply(s, e) == s)
  }

  lemma LockFreeMeans(s: State)
    ensures LockFree(s) <==> forall t :: !IsInside(s, t)
  {
    if forall t :: !IsInside(s, t) {
      forall t | t in s.threads
        ensures !(s.threads[t].Counting? && s.threads[t].locked) && !(s.threads[t].Counted? && s.threads[t].locked)
      {
        assert !IsInside(s, t);
      }
    }
  }

  lemma InsideKeepsOut(s: State, t: nat, e: Event)
    requires IsInside(s, t) && (e.Offer? || e.Complete?)
    ensures Apply(s, e) == s
  {
    LockFreeMeans(s);
  }

  lemma StepEntersAlone(s: State, e: Event, t: nat)
    requires !IsInside(s, t) && IsInside(Apply(s, e), t)
    ensures forall u :: !IsInside(s, u)
    ensures forall u | IsInside(Apply(s, e), u) :: u == t
  {
    LockFreeMeans(s);
  }

  lemma {:induction false} RunExcludes(s: State, events: seq<Event>)
    requires forall t, u | IsInside(s, t) && IsInside(s, u) :: t == u
    ensures forall t, u | IsInside(Run(s, events), t) && IsInside(Run(s, events), u) :: t == u
    decreases |events|
  {
    if events != [] {
      var next := Apply(s, events[0]);
      forall t, u | IsInside(next, t) && IsInside(next, u)
        ensures t == u
      {
        if !IsInside(s, t) {
          StepEntersAlone(s, events[0], t);
        } else if !IsInside(s, u) {
          StepEntersAlone(s, events[0], u);
        }
      }
      RunExcludes(next, events[1..]);
    }
  }

  /** The lock excludes, in every run. */
  lemma EveryRunExcludes(events: seq<Event>)
    ensures Excludes(Run(INIT, events))
  {
    RunExcludes(INIT, events);
    var s := Run(INIT, events);
    forall t, e: Event | IsInside(s, t) && (e.Offer? || e.Complete?)
      ensures Apply(s, e) == s
    {
      InsideKeepsOut(s, t, e);
    }
  }

  lemma CountCanFinish(s: State, t: nat)
    requires t in s.threads && !s.threads[t].Publishing?
    ensures var s' := Apply(Apply(s, ReadCounter(t)), WriteCounter(t));
            && s'.threads == s.threads - {t}
            && s'.channel == s.channel && s'.queued == s.queued && s'.drops == s.drops + 1
            && s'.droppedJobs == (if s.threads[t].Counted? then s.threads[t].register else s.droppedJobs) + 1
  {
    assert Apply(s, ReadCounter(t)).threads - {t} == s.threads - {t};
  }

  /**
   * Three steps of its own end a thread, whatever it was at: its job is in the channel if there was
   * room, and otherwise dropped and counted.
   */
  lemma ThreadCanFinish(s: State, t: nat)
    requires t in s.threads
    ensures var s' := Run(s, [Publish(t), ReadCounter(t), WriteCounter(t)]);
            var local := s.threads[t];
            && s'.threads == s.threads - {t}
            && (if local.Publishing? && |s.channel| < 16 then
                  s' == s.(channel := s.channel + [local.job], queued := s.queued + [local.job], threads := s.threads - {t})
                else
                  && s'.channel == s.channel && s'.queued == s.queued && s'.drops == s.drops + 1
                  && s'.droppedJobs == (if local.Counted? then local.register else s.droppedJobs) + 1)
  {
    RunThree(s, Publish(t), ReadCounter(t), WriteCounter(t));
    var a := Apply(s, Publish(t));
    if t in a.threads {
      assert a.threads - {t} == s.threads - {t};
      CountCanFinish(a, t);
    } else {
      assert Apply(a, ReadCounter(t)) == a && Apply(a, WriteCounter(t)) == a;
    }
  }

  lemma RunThree(s: State, e: Event, f: Event, g: Event)
    ensures Run(s, [e, f, g]) == Apply(Apply(Apply(s, e), f), g)
  {
    assert [e, f, g][1..] == [f, g] && [f, g][1..] == [g] && [g][1..] == [];
    assert Run(s, [e, f, g]) == Run(Apply(s, e), [f, g]);
    assert Run(Apply(s, e), [f, g]) == Run(Apply(Apply(s, e), f), [g]);
  }

  /** What a relay puts through it can offer at once if no one is inside the lock, and holds otherwise. */
  lemma OfferFollowsForward(s: State, r: nat, bytes: seq<Byte>)
    requires RelayOf(s, r).inHand == [] && bytes != []
    ensures var s' := Apply(Apply(s, Forward(r, bytes)), Offer(r));
            var free := forall t :: !IsInside(s, t);
            && s'.offered == s.offered + (if free then [Piece(r, bytes)] else [])
            && s'.since == s.since + (if free then [Piece(r, bytes)] else [])
            && RelayOf(s', r) == Relay(RelayOf(s, r).forwarded + bytes, if free then [] else bytes)
            && (forall q | q != r :: RelayOf(s', q) == RelayOf(s, q))
            && s'.channel == s.channel && s'.threads == s.threads && s'.segments == s.segments
  {
    LockFreeMeans(s);
    assert LockFree(Apply(s, Forward(r, bytes))) == LockFree(s);
  }

  /** A completion takes the whole of what was offered since the last one, if it is within the cap. */
  lemma CompletionTakes(s: State, t: nat)
    requires Holds(s.buffer, BytesOf(s.since)) && t !in s.threads && forall u :: !IsInside(s, u)
    ensures var s', bytes := Apply(s, Complete(t)), BytesOf(s.since);
            && s'.segments == s.segments + [s.since] && s'.since == [] && s'.offered == s.offered && s'.channel == s.channel
            && (0 < |bytes| <= 524288 ==> s'.threads == s.threads[t := Publishing(Numbered(|s.segments|, bytes))])
            && (bytes == [] ==> s'.threads == s.threads)
            && (|bytes| > 524288 ==>
                  s'.threads == if s.buffer.current == [] then s.threads else s.threads[t := Counting(true)])
  {
    LockFreeMeans(s);
  }

  /** The consumer takes what was published first. */
  lemma ConsumerTakesTheFirst(s: State, job: Numbered, more: seq<Numbered>)
    requires s.channel == [job] + more
    ensures Apply(s, Consume) == s.(channel := more)
  {
  }

  // ----- which runs lose count

  /** The state after the first `n` events. */
  function At(events: seq<Event>, n: nat): State
    requires n <= |events|
  {
    Run(INIT, events[..n])
  }

  lemma AtStep(events: seq<Event>, n: nat)
    requires n < |events|
    ensures At(events, n + 1) == Apply(At(events, n), events[n])
  {
    assert events[..n + 1] == events[..n] + [events[n]];
    RunConcat(INIT, events[..n], [events[n]]);
    assert Run(At(events, n), [events[n]]) == Apply(At(events, n), events[n]);
  }

  /** Event `i` is thread `t` reading the counter. */
  predicate Reads(events: seq<Event>, i: nat, t: nat)
    requires i < |events|
  {
    events[i] == ReadCounter(t) && t in At(events, i).threads && At(events, i).threads[t].Counting?
  }

  /** Event `i` is thread `t` writing the counter back. */
  predicate Writes(events: seq<Event>, i: nat, t: nat)
    requires i < |events|
  {
    events[i] == WriteCounter(t) && t in At(events, i).threads && At(events, i).threads[t].Counted?
  }

  /** Thread `t` read the counter at event `i`, and up to event `n` has not written it back. */
  ghost predicate OpenSince(events: seq<Event>, i: nat, t: nat, n: nat)
    requires n <= |events|
  {
    i < n && Reads(events, i, t) && forall m | i < m < n :: !Writes(events, m, t)
  }

  /** Some count is written between another one's reading of the counter, at event `i`, and its writing back, at event `k`. */
  ghost predicate OverlapsAt(events: seq<Event>, i: nat, k: nat, t: nat)
    requires k < |events|
  {
    OpenSince(events, i, t, k) && Writes(events, k, t) && exists j, u | i < j < k :: Writes(events, j, u)
  }

  ghost predicate CountsOverlap(events: seq<Event>, n: nat)
    requires n <= |events|
  {
    exists i: nat, k: nat, t: nat | k < n :: OverlapsAt(events, i, k, t)
  }

  lemma StepMeans(events: seq<Event>, n: nat, t: nat)
    requires n < |events|
    ensures var s, s' := At(events, n), At(events, n + 1);
            && (t in s'.threads && s'.threads[t].Counted? ==>
                  if Reads(events, n, t) then s'.threads[t].dropsThen == s.drops
                  else t in s.threads && s.threads[t] == s'.threads[t] && !Writes(events, n, t))
            && (t in s.threads && s.threads[t].Counted? && !Writes(events, n, t) ==>
                  t in s'.threads && s'.threads[t] == s.threads[t])
            && (Reads(events, n, t) ==> t in s'.threads && s'.threads[t].Counted? && s'.threads[t].dropsThen == s.drops)
  {
    AtStep(events, n);
  }

  /** While it is open, the count remembers how many drops there were when it was read. */
  lemma {:induction false} OpenMeans(events: seq<Event>, i: nat, t: nat, n: nat)
    requires n <= |events| && OpenSince(events, i, t, n)
    ensures var s := At(events, n);
            t in s.threads && s.threads[t].Counted? && s.threads[t].dropsThen == At(events, i).drops
    decreases n
  {
    StepMeans(events, n - 1, t);
    if i < n - 1 {
      OpenMeans(events, i, t, n - 1);
    }
  }

  lemma {:induction false} CountedIsOpen(events: seq<Event>, t: nat, n: nat) returns (i: nat)
    requires n <= |events| && t in At(events, n).threads && At(events, n).threads[t].Counted?
    ensures OpenSince(events, i, t, n)
    decreases n
  {
    assert At(events, 0) == INIT;
    StepMeans(events, n - 1, t);
    if Reads(events, n - 1, t) {
      i := n - 1;
    } else {
      i := CountedIsOpen(events, t, n - 1);
    }
  }

  lemma DropsStep(events: seq<Event>, n: nat)
    requires n < |events|
    ensures var s, s' := At(events, n), At(events, n + 1);
            && (s'.drops > s.drops <==> exists u :: Writes(events, n, u))
            && s'.drops >= s.drops
            && s'.raced == (s.raced || exists u :: Writes(events, n, u) && s.threads[u].dropsThen < s.drops)
  {
    AtStep(events, n);
    if events[n].WriteCounter? {
      var u := events[n].thread;
      assert Writes(events, n, u) <==> u in At(events, n).threads && At(events, n).threads[u].Counted?;
    }
  }

  /** More drops at `n` than at `m` means a count was written between. */
  lemma {:induction false} DropsGrow(events: seq<Event>, m: nat, n: nat)
    requires m <= n <= |events|
    ensures At(events, m).drops <= At(events, n).drops
    ensures At(events, m).drops < At(events, n).drops <==> exists j, u | m <= j < n :: Writes(events, j, u)
    decreases n
  {
    if m < n {
      DropsGrow(events, m, n - 1);
      DropsStep(events, n - 1);
    }
  }

  /** A write of thread `t` at event `k` finds that drops were counted since its reading exactly when the two overlap. */
  lemma LateWriteOverlaps(events: seq<Event>, k: nat, t: nat, i: nat)
    requires k < |events| && Writes(events, k, t) && OpenSince(events, i, t, k)
    ensures At(events, k).threads[t].dropsThen < At(events, k).drops <==> OverlapsAt(events, i, k, t)
  {
    OpenMeans(events, i, t, k);
    DropsGrow(events, i, k);
    if j, u :| i <= j < k && Writes(events, j, u) {
      assert i < j;
    }
  }

  /** The flag of the state says whether counts have overlapped. */
  lemma {:induction false} RacedMeansOverlap(events: seq<Event>, n: nat)
    requires n <= |events|
    ensures At(events, n).raced <==> CountsOverlap(events, n)
    decreases n
  {
    if n == 0 {
      assert At(events, 0) == INIT;
    } else {
      var k := n - 1;
      RacedMeansOverlap(events, k);
      DropsStep(events, k);
      if t :| Writes(events, k, t) && At(events, k).threads[t].dropsThen < At(events, k).drops {
        var i := CountedIsOpen(events, t, k);
        LateWriteOverlaps(events, k, t, i);
      }
      forall i: nat, t: nat | OverlapsAt(events, i, k, t)
        ensures Writes(events, k, t) && At(events, k).threads[t].dropsThen < At(events, k).drops
      {
        LateWriteOverlaps(events, k, t, i);
      }
    }
  }

  /**
   * When no completion is under way, the jobs queued and the drop counter account for every
   * completion that found something exactly when no count was written between another one's
   * reading and writing of the counter; and then only too few are reported.
   */
  lemma DropsAreAllCountedExactlyWhen(events: seq<Event>)
    requires Run(INIT, events).threads == map[]
    ensures var s := Run(INIT, events);
            && s.found >= |s.queued| + s.droppedJobs
            && (s.found == |s.queued| + s.droppedJobs <==> !CountsOverlap(events, |events|))
            && (s.raced <==> CountsOverlap(events, |events|))
  {
    EveryRunKeeps(INIT, events);
    RacedMeansOverlap(events, |events|);
    assert events[..|events|] == events;
  }

  /** A completion starts only when none is under way. */
  predicate OneAtATime(events: seq<Event>) {
    forall n | 0 <= n < |events| && events[n].Complete? :: At(events, n).threads == map[]
  }

  lemma {:induction false} AtMostOneThread(events: seq<Event>, n: nat, t: nat, u: nat)
    requires n <= |events| && OneAtATime(events)
    requires t in At(events, n).threads && u in At(events, n).threads
    ensures t == u
    decreases n
  {
    assert At(events, 0) == INIT;
    AtStep(events, n - 1);
    if !events[n - 1].Complete? {
      AtMostOneThread(events, n - 1, t, u);
    }
  }

  /** Where one completion waits for the other, no drop goes uncounted. */
  lemma OneAtATimeLosesNoCount(events: seq<Event>)
    requires OneAtATime(events) && Run(INIT, events).threads == map[]
    ensures var s := Run(INIT, events);
            s.found == |s.queued| + s.droppedJobs
  {
    DropsAreAllCountedExactlyWhen(events);
    if CountsOverlap(events, |events|) {
      var i: nat, k: nat, t: nat :| k < |events| && OverlapsAt(events, i, k, t);
      var j, u :| i < j < k && Writes(events, j, u);
      assert OpenSince(events, i, t, j);
      OpenMeans(events, i, t, j);
      AtMostOneThread(events, j, t, u);
      assert false;
    }
  }

  // ----- the overlap does happen

  lemma {:induction false} RunConcat(s: State, a: seq<Event>, b: seq<Event>)
    ensures Run(s, a + b) == Run(Run(s, a), b)
    decreases |a|
  {
    if a == [] {
      assert a + b == b;
    } else {
      assert (a + b)[0] == a[0] && (a + b)[1..] == a[1..] + b;
      RunConcat(Apply(s, a[0]), a[1..], b);
    }
  }

  /** Between jobs: nothing in hand, nothing buffered, nothing in flight. */
  ghost predicate AtRest(s: State) {
    RelayOf(s, 0).inHand == [] && s.buffer == EMPTY && s.threads == map[] && !s.raced
  }

  lemma RunStep(s: State, e: Event, rest: seq<Event>)
    ensures Run(s, [e] + rest) == Run(Apply(s, e), rest)
  {
    assert ([e] + rest)[1..] == rest;
  }

  lemma RunFour(s: State, a: Event, b: Event, c: Event, d: Event)
    ensures Run(s, [a, b, c, d]) == Apply(Apply(Apply(Apply(s, a), b), c), d)
  {
    RunStep(s, a, [b, c, d]);
    RunStep(Apply(s, a), b, [c, d]);
    RunStep(Apply(Apply(s, a), b), c, [d]);
    RunStep(Apply(Apply(Apply(s, a), b), c), d, []);
    assert [a, b, c, d] == [a] + [b, c, d] && [b, c, d] == [b] + [c, d] && [c, d] == [c] + [d] && [d] == [d] + [];
  }

  /** A small receipt: forwarded, offered, completed and published by thread `t`. */
  function Receipt(t: nat): seq<Event> {
    [Forward(0, [65]), Offer(0), Complete(t), Publish(t)]
  }

  /** A receipt goes into the channel if there is room, and is to be counted as dropped if not. */
  lemma RunReceipt(s: State, t: nat)
    requires RelayOf(s, 0).inHand == [] && s.buffer == EMPTY && t !in s.threads && LockFree(s)
    ensures var s' := Run(s, Receipt(t));
            && RelayOf(s', 0).inHand == [] && s'.buffer == EMPTY && s'.raced == s.raced && s'.drops == s.drops
            && s'.threads == (if |s.channel| < JOB_CAPACITY then s.threads else s.threads[t := Counting(false)])
            && |s'.channel| == if |s.channel| < JOB_CAPACITY then |s.channel| + 1 else |s.channel|
  {
    var bytes: seq<Byte> := [65];
    var s2 := Apply(Apply(s, Forward(0, bytes)), Offer(0));
    var s3 := Apply(s2, Complete(t));
    RunFour(s, Forward(0, bytes), Offer(0), Complete(t), Publish(t));
    ForwardAndOffer(s, 0, bytes);
    assert [] + bytes == bytes;
    assert Take(s2.buffer) == Job(bytes);
    assert s3.threads == s.threads[t := Publishing(Numbered(|s.segments|, bytes))];
    assert s3.threads - {t} == s.threads;
    assert s3.threads[t := Counting(false)] == s.threads[t := Counting(false)];
  }

  lemma ForwardAndOffer(s: State, r: nat, bytes: seq<Byte>)
    requires RelayOf(s, r).inHand == [] && LockFree(s) && bytes != []
    ensures var s' := Apply(Apply(s, Forward(r, bytes)), Offer(r));
            && s' == s.(relays := s'.relays, offered := s'.offered, since := s.since + [Piece(r, bytes)],
                        buffer := Captured(s.buffer, bytes))
            && RelayOf(s', r).inHand == []
            && forall q | q != r :: RelayOf(s', q) == RelayOf(s, q)
  {
  }

  lemma {:induction false} FillTheChannel(n: nat) returns (events: seq<Event>)
    requires n <= JOB_CAPACITY
    ensures AtRest(Run(INIT, events)) && |Run(INIT, events).channel| == n
  {
    if n == 0 {
      events := [];
    } else {
      var front := FillTheChannel(n - 1);
      RunReceipt(Run(INIT, front), 0);
      RunConcat(INIT, front, Receipt(0));
      events := front + Receipt(0);
    }
  }

  /** Two counts that read the counter before either writes it back. */
  lemma OverlappingCounts(s: State)
    requires s.threads == map[0 := Counting(false), 1 := Counting(false)]
    ensures var s' := Run(s, [ReadCounter(0), ReadCounter(1), WriteCounter(0), WriteCounter(1)]);
            s'.threads == map[] && s'.raced
  {
    RunFour(s, ReadCounter(0), ReadCounter(1), WriteCounter(0), WriteCounter(1));
    var s1 := Apply(s, ReadCounter(0));
    var s2 := Apply(s1, ReadCounter(1));
    var s3 := Apply(s2, WriteCounter(0));
    assert s3.drops == s.drops + 1 && s3.threads[1].dropsThen == s.drops;
    assert Apply(s3, WriteCounter(1)).threads == map[];
  }

  /** A second receipt completed while the first is still being dropped: both counts start from the same number. */
  lemma TwoDropsAtOnce(s: State) returns (events: seq<Event>)
    requires AtRest(s) && |s.channel| == JOB_CAPACITY
    ensures Run(s, events).threads == map[] && Run(s, events).raced
  {
    var counts := [ReadCounter(0), ReadCounter(1), WriteCounter(0), WriteCounter(1)];
    RunReceipt(s, 0);
    var s1 := Run(s, Receipt(0));
    RunReceipt(s1, 1);
    var s2 := Run(s1, Receipt(1));
    assert s2.threads == map[0 := Counting(false), 1 := Counting(false)];
    OverlappingCounts(s2);
    RunConcat(s, Receipt(0), Receipt(1));
    RunConcat(s, Receipt(0) + Receipt(1), counts);
    events := Receipt(0) + Receipt(1) + counts;
  }

  /** So there is a run after which the counter has missed a job. */
  lemma ADropCanGoUncounted() returns (events: seq<Event>)
    ensures var s := Run(INIT, events);
            s.threads == map[] && s.found > |s.queued| + s.droppedJobs
  {
    var filling := FillTheChannel(JOB_CAPACITY);
    var more := TwoDropsAtOnce(Run(INIT, filling));
    RunConcat(INIT, filling, more);
    events := filling + more;
    DropsAreAllCountedExactlyWhen(events);
  }

  // ----- whose bytes a job holds

  /** Event `i` is relay `r` offering what it has in hand. */
  predicate Offers(events: seq<Event>, i: nat, r: nat)
    requires i < |events|
  {
    events[i] == Offer(r) && CanOffer(At(events, i), r)
  }

  /** Event `i` is a completion that closes a segment. */
  predicate Closes(events: seq<Event>, i: nat)
    requires i < |events|
  {
    events[i].Complete? && CanComplete(At(events, i), events[i].thread)
  }

  predicate IsFrom(pieces: seq<Piece>, r: nat) {
    exists c | c in pieces :: c.relay == r
  }

  /** No two pieces of the segment come from different relays. */
  predicate IsOneRelays(pieces: seq<Piece>) {
    forall c, d | c in pieces && d in pieces :: c.relay == d.relay
  }

  /** No event from `m` to `n` closes a segment, and the one before `m` does, if there is one. */
  ghost predicate IsOneSegment(events: seq<Event>, m: nat, n: nat) {
    && m <= n <= |events|
    && (m > 0 ==> Closes(events, m - 1))
    && (forall i | m <= i < n :: !Closes(events, i))
  }

  lemma SegmentStep(events: seq<Event>, n: nat)
    requires n < |events|
    ensures var s, s' := At(events, n), At(events, n + 1);
            && (Closes(events, n) ==> s'.since == [] && s'.segments == s.segments + [s.since])
            && (!Closes(events, n) ==> s'.segments == s.segments)
            && (!Closes(events, n) ==> forall r :: IsFrom(s'.since, r) <==> IsFrom(s.since, r) || Offers(events, n, r))
  {
    AtStep(events, n);
    var s, e := At(events, n), events[n];
    if e.Offer? && CanOffer(s, e.relay) {
      var piece := Piece(e.relay, RelayOf(s, e.relay).inHand);
      assert forall c :: c in s.since + [piece] <==> c in s.since || c == piece;
    }
  }

  /** The buffer holds bytes of exactly the relays that have offered since the segment began. */
  lemma {:induction false} SinceIsFrom(events: seq<Event>, m: nat, n: nat, r: nat)
    requires IsOneSegment(events, m, n)
    ensures IsFrom(At(events, n).since, r) <==> exists i | m <= i < n :: Offers(events, i, r)
    decreases n
  {
    if m < n {
      SinceIsFrom(events, m, n - 1, r);
      SegmentStep(events, n - 1);
      assert IsFrom(At(events, n).since, r) <==> IsFrom(At(events, n - 1).since, r) || Offers(events, n - 1, r);
    } else if n > 0 {
      SegmentStep(events, n - 1);
      assert At(events, n).since == [];
    } else {
      assert At(events, 0) == INIT;
    }
  }

  lemma {:induction false} SegmentsStay(events: seq<Event>, m: nat, n: nat)
    requires m <= n <= |events|
    ensures At(events, m).segments <= At(events, n).segments
    decreases n
  {
    if m < n {
      SegmentsStay(events, m, n - 1);
      SegmentStep(events, n - 1);
    }
  }

  /**
   * A job that event `n` completes, in a segment begun at event `m`, holds the bytes of one relay
   * alone exactly when no two relays offered in between.
   */
  lemma JobIsOneRelaysExactlyWhen(events: seq<Event>, m: nat, n: nat, job: Numbered)
    requires n < |events| && IsOneSegment(events, m, n) && Closes(events, n)
    requires job in Run(INIT, events).queued && job.segment == |At(events, n).segments|
    ensures var segments := Run(INIT, events).segments;
            && job.segment < |segments| && job.bytes == BytesOf(segments[job.segment])
            && (IsOneRelays(segments[job.segment])
                <==> forall i, j, q, r | m <= i < n && m <= j < n && Offers(events, i, q) && Offers(events, j, r) :: q == r)
  {
    EveryRunKeeps(INIT, events);
    SegmentAtEnd(events, n);
    OneRelayOffered(events, m, n);
  }

  lemma SegmentAtEnd(events: seq<Event>, n: nat)
    requires n < |events| && Closes(events, n)
    ensures var k := |At(events, n).segments|;
            k < |Run(INIT, events).segments| && Run(INIT, events).segments[k] == At(events, n).since
  {
    SegmentStep(events, n);
    SegmentsStay(events, n + 1, |events|);
    assert events[..|events|] == events;
  }

  lemma OneRelayOffered(events: seq<Event>, m: nat, n: nat)
    requires IsOneSegment(events, m, n)
    ensures IsOneRelays(At(events, n).since)
       <==> forall i, j, q, r | m <= i < n && m <= j < n && Offers(events, i, q) && Offers(events, j, r) :: q == r
  {
    var pieces := At(events, n).since;
    forall r
      ensures IsFrom(pieces, r) <==> exists i | m <= i < n :: Offers(events, i, r)
    {
      SinceIsFrom(events, m, n, r);
    }
    if IsOneRelays(pieces) {
      forall i, j, q, r | m <= i < n && m <= j < n && Offers(events, i, q) && Offers(events, j, r)
        ensures q == r
      {
        assert IsFrom(pieces, q) && IsFrom(pieces, r);
      }
    } else {
      var c, d :| c in pieces && d in pieces && c.relay != d.relay;
      assert IsFrom(pieces, c.relay) && IsFrom(pieces, d.relay);
    }
  }

  /** Two tills at once: one completion, one job, and two receipts in it. */
  lemma ReceiptsCanMix()
    ensures var events := [Forward(1, [65]), Offer(1)] + [Forward(2, [66]), Offer(2), Complete(0), Publish(0)];
            var s := Run(INIT, events);
            s.queued == [Numbered(0, [65, 66])] && s.segments == [[Piece(1, [65]), Piece(2, [66])]] && !IsOneRelays(s.segments[0])
  {
    var one: seq<Byte>, two: seq<Byte> := [65], [66];
    var s2 := Apply(Apply(INIT, Forward(1, one)), Offer(1));
    var s4 := Apply(Apply(s2, Forward(2, two)), Offer(2));
    RunConcat(INIT, [Forward(1, one), Offer(1)], [Forward(2, two), Offer(2), Complete(0), Publish(0)]);
    RunTwo(INIT, Forward(1, one), Offer(1));
    RunFour(s2, Forward(2, two), Offer(2), Complete(0), Publish(0));
    ForwardAndOffer(INIT, 1, one);
    ForwardAndOffer(s2, 2, two);
    assert [] + one + two == [65, 66] && Take(s4.buffer) == Job([65, 66]);
    CompleteAndPublish(s4, [65, 66]);
    var pieces := [Piece(1, one), Piece(2, two)];
    assert s4.since == pieces && pieces[0] in pieces && pieces[1] in pieces;
  }

  lemma RunTwo(s: State, a: Event, b: Event)
    ensures Run(s, [a, b]) == Apply(Apply(s, a), b)
  {
    RunStep(s, a, [b]);
    RunStep(Apply(s, a), b, []);
    assert [a, b] == [a] + [b] && [b] == [b] + [];
  }

  lemma CompleteAndPublish(s: State, bytes: seq<Byte>)
    requires s.threads == map[] && Take(s.buffer) == Job(bytes) && s.channel == []
    ensures var s' := Apply(Apply(s, Complete(0)), Publish(0));
            s'.queued == s.queued + [Numbered(|s.segments|, bytes)] && s'.segments == s.segments + [s.since]
  {
  }

  /** The bytes of a segment that is one relay's are the bytes that relay offered in it. */
  lemma {:induction false} OneRelaysBytes(pieces: seq<Piece>, r: nat)
    requires forall p | p in pieces :: p.relay == r
    ensures OwnBytes(pieces, r) == BytesOf(pieces)
  {
    if pieces != [] {
      var n := |pieces| - 1;
      assert pieces[n] in pieces;
      OneRelaysBytes(pieces[..n], r);
    }
  }
}
