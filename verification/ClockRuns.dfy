/** The recorded time over whole runs: three anchors, and a system clock anyone may set. */
module ClockRuns {
  import opened Basics
  import opened Payloads
  import opened LicenseStatus

  datatype Resolution = Resolution(latest: Option<int>, conflict: bool)

  function Present(readings: seq<Option<int>>): seq<int> {
    if readings == [] then []
    else (if readings[0].Some? then [readings[0].value] else []) + Present(readings[1..])
  }

  /** The greatest of the readings that are there, and whether the readings disagree. */
  function Resolve(readings: seq<Option<int>>): Resolution {
    var present := Present(readings);
    var latest := MaxOf(present);
    Resolution(latest, present != [] && (|present| != |readings| || exists v | v in present :: Some(v) != latest))
  }

  lemma {:induction false} PresentHolds(readings: seq<Option<int>>)
    ensures forall v :: v in Present(readings) <==> Some(v) in readings
    ensures |Present(readings)| <= |readings|
    ensures |Present(readings)| == |readings| <==> None !in readings
  {
    if readings != [] {
      PresentHolds(readings[1..]);
      assert forall r :: r in readings <==> r == readings[0] || r in readings[1..];
    }
  }

  lemma PresentHas(readings: seq<Option<int>>, a: Option<int>)
    requires a in readings
    ensures a.Some? ==> a.value in Present(readings)
  {
    PresentHolds(readings);
    if a.Some? {
      assert Some(a.value) in readings;
    }
  }

  /** The reduced reading is `time` exactly when some anchor holds it and none exceeds it. */
  lemma ResolveIsMax(readings: seq<Option<int>>, time: int)
    ensures Resolve(readings).latest == Some(time)
       <==> Some(time) in readings && forall v | Some(v) in readings :: v <= time
  {
    PresentHolds(readings);
    MaxOfIsMax(Present(readings));
    if time in Present(readings) && forall v | v in Present(readings) :: v <= time {
      MaxOfIs(Present(readings), time);
    }
  }

  /** The anchors disagree exactly when two of them differ, one that is missing included. */
  lemma ConflictMeansTheyDiffer(readings: seq<Option<int>>)
    ensures Resolve(readings).conflict <==> exists a, b | a in readings && b in readings :: a != b
  {
    PresentHolds(readings);
    var present := Present(readings);
    MaxOfIsMax(present);
    var latest := Resolve(readings).latest;
    if Resolve(readings).conflict {
      assert latest in readings;
      if None !in readings {
        var v :| v in present && Some(v) != latest;
        assert Some(v) in readings;
      }
    } else if present != [] {
      forall a | a in readings
        ensures a == latest
      {
        PresentHas(readings, a);
        var v := a.value;
        assert v in present && Some(v) == latest;
      }
    } else {
      forall a | a in readings
        ensures a == None
      {
        PresentHas(readings, a);
      }
    }
  }

  // ----- runs

  /** What the anchors hold, what the service holds in memory while it runs, and the licences entered. */
  datatype State = State(anchors: seq<Option<int>>, memory: Option<int>, licenses: seq<Payload>)

  /**
   * What can happen: the service starts, or records the time, some of the writes failing; a
   * genuine licence is entered; the service stops; someone edits the anchors.
   */
  datatype Event =
    | Start(now: int, written: set<nat>)
    | Touch(now: int, written: set<nat>)
    | Activate(license: Payload, now: int, written: set<nat>)
    | Stop
    | Edit(anchors: seq<Option<int>>)

  function Written(anchors: seq<Option<int>>, value: int, places: set<nat>): (r: seq<Option<int>>)
    ensures |r| == |anchors|
  {
    seq(|anchors|, i requires 0 <= i < |anchors| => if i in places then Some(value) else anchors[i])
  }

  /** The recorded time moves forward to now and never back; it starts from 0 if there was none. */
  function Record(s: State, latest: Option<int>, now: int, written: set<nat>): State {
    Set(s, Later(Some(now), if latest.Some? then latest.value else 0), written)
  }

  function Set(s: State, value: int, written: set<nat>): State {
    s.(anchors := Written(s.anchors, value, written), memory := Some(value))
  }

  predicate HasEntered(s: State, license: Payload) {
    exists l | l in s.licenses :: l.lid == license.lid
  }

  /** The licence is taken: in date by the system clock if it is a trial, new here, and no trial under a perpetual licence. */
  predicate Accepts(s: State, license: Payload, now: int) {
    && s.memory.Some?
    && (license.kind.Trial? ==> license.iat <= now + CLOCK_TOLERANCE_SECS && now < End(license))
    && !HasEntered(s, license)
    && !(license.kind.Trial? && exists l | l in s.licenses :: l.kind.Perpetual?)
  }

  /** The recorded time is taken to be a mistake: it is well after the licence was issued. */
  predicate Resets(s: State, license: Payload) {
    s.memory.Some? && s.memory.value > license.iat + CLOCK_TOLERANCE_SECS
  }

  function Apply(s: State, e: Event): State {
    match e
    case Start(now, written) => Record(s, Resolve(s.anchors).latest, now, written)
    case Touch(now, written) => if s.memory.None? then s else Record(s, s.memory, now, written)
    case Activate(license, now, written) =>
      if !Accepts(s, license, now) then s
      else
        var entered := s.(licenses := s.licenses + [license]);
        if Resets(s, license) then Set(entered, Later(Some(now), license.iat), written) else entered
    case Stop => s.(memory := None)
    case Edit(anchors) => s.(anchors := anchors)
  }

  function Run(s: State, events: seq<Event>): State
    decreases |events|
  {
    if events == [] then s else Run(Apply(s, events[0]), events[1..])
  }

  /** Each place written holds `value`, and the others what they held. */
  predicate IsWritten(before: seq<Option<int>>, value: int, written: set<nat>, after: seq<Option<int>>) {
    && |after| == |before|
    && (forall i: nat | i < |before| && i in written :: after[i] == Some(value))
    && (forall i: nat | i < |before| && i !in written :: after[i] == before[i])
  }

  /** A start records the latest of the clock and all readings, or of the clock and 0 where there are none. */
  lemma StartRecords(s: State, now: int, written: set<nat>, time: int)
    ensures var after := Apply(s, Start(now, written));
            var readings := exists v :: Some(v) in s.anchors;
            && (after.memory == Some(time)
                <==> && time >= now && (forall v | Some(v) in s.anchors :: v <= time) && (!readings ==> time >= 0)
                     && (time == now || Some(time) in s.anchors || (!readings && time == 0)))
            && after.memory.Some? && IsWritten(s.anchors, after.memory.value, written, after.anchors)
            && after.licenses == s.licenses
  {
    PresentHolds(s.anchors);
    MaxOfIsMax(Present(s.anchors));
    if v :| Some(v) in s.anchors {
      assert v in Present(s.anchors);
    }
  }

  /** A touch records the later of the clock and what is remembered; a service that is not running records nothing. */
  lemma TouchRecords(s: State, now: int, written: set<nat>, time: int)
    ensures var after := Apply(s, Touch(now, written));
            && (s.memory.None? ==> after == s)
            && (s.memory.Some? ==>
                  && (after.memory == Some(time)
                      <==> time >= now && time >= s.memory.value && (time == now || time == s.memory.value))
                  && after.memory.Some? && IsWritten(s.anchors, after.memory.value, written, after.anchors)
                  && after.licenses == s.licenses)
  {
  }

  /**
   * A licence is entered exactly when it is new and not a trial ahead of the clock by more than
   * two hours, over, or under a perpetual licence; the clock is reset exactly when it is entered
   * and more than two hours older than the recorded time.
   */
  lemma ActivateEnters(s: State, license: Payload, now: int, written: set<nat>)
    requires s.memory.Some?
    ensures var after := Apply(s, Activate(license, now, written));
            var enters := && (forall l | l in s.licenses :: l.lid != license.lid)
                          && (license.kind.Trial? ==>
                                && license.iat - 7200 <= now < End(license)
                                && forall l | l in s.licenses :: l.kind.Trial?);
            var resets := enters && license.iat + 7200 < s.memory.value;
            && after.licenses == (if enters then s.licenses + [license] else s.licenses)
            && (resets ==>
                  && after.memory.Some? && after.memory.value in {now, license.iat}
                  && after.memory.value >= now && after.memory.value >= license.iat
                  && IsWritten(s.anchors, after.memory.value, written, after.anchors))
            && (!resets ==> after.memory == s.memory && after.anchors == s.anchors)
  {
  }

  /** Some anchor reads `time` or later. */
  ghost predicate Holds(anchors: seq<Option<int>>, time: int) {
    exists a | a in anchors :: a.Some? && a.value >= time
  }

  /** Whatever is edited, one anchor is left that holds `time`. */
  ghost predicate LeavesOne(events: seq<Event>, time: int) {
    forall e | e in events && e.Edit? :: Holds(e.anchors, time)
  }

  ghost predicate Remembers(s: State, time: int) {
    Holds(s.anchors, time) && (s.memory.Some? ==> s.memory.value >= time)
  }

  lemma RecordKeeps(s: State, latest: Option<int>, now: int, written: set<nat>, time: int)
    requires Holds(s.anchors, time) && latest.Some? && latest.value >= time
    ensures Remembers(Record(s, latest, now, written), time)
  {
    var value := Later(Some(now), latest.value);
    SetKeeps(s, value, written, time);
  }

  lemma SetKeeps(s: State, value: int, written: set<nat>, time: int)
    requires Holds(s.anchors, time) && value >= time
    ensures Remembers(Set(s, value, written), time)
  {
    var i :| 0 <= i < |s.anchors| && s.anchors[i].Some? && s.anchors[i].value >= time;
    assert Set(s, value, written).anchors[i].value >= time;
  }

  /** The event enters a licence whose reset takes the recorded time below `time`. */
  predicate ResetsBelow(s: State, e: Event, time: int) {
    e.Activate? && Accepts(s, e.license, e.now) && Resets(s, e.license) && e.now < time && e.license.iat < time
  }

  /** One event takes a remembered time away exactly when it enters a licence that resets the clock to before it. */
  lemma ForgetsExactlyAtAReset(s: State, e: Event, time: int)
    requires Remembers(s, time) && LeavesOne([e], time)
    ensures !Remembers(Apply(s, e), time) <==> ResetsBelow(s, e, time)
  {
    match e
    case Start(now, written) =>
      PresentHolds(s.anchors);
      MaxOfIsMax(Present(s.anchors));
      var a :| a in s.anchors && a.Some? && a.value >= time;
      assert a.value in Present(s.anchors);
      RecordKeeps(s, Resolve(s.anchors).latest, now, written, time);
    case Touch(now, written) =>
      if s.memory.Some? {
        RecordKeeps(s, s.memory, now, written, time);
      }
    case Activate(license, now, written) =>
      if Accepts(s, license, now) && Resets(s, license) && !ResetsBelow(s, e, time) {
        SetKeeps(s.(licenses := s.licenses + [license]), Later(Some(now), license.iat), written, time);
      }
    case Stop =>
    case Edit(anchors) =>
      assert e in [e];
  }

  /** No event of the run resets the clock to before `time`. */
  predicate NeverResetsBelow(s: State, events: seq<Event>, time: int)
    decreases |events|
  {
    events != [] ==> !ResetsBelow(s, events[0], time) && NeverResetsBelow(Apply(s, events[0]), events[1..], time)
  }

  lemma {:induction false} RunRemembers(s: State, events: seq<Event>, time: int)
    requires Remembers(s, time) && LeavesOne(events, time)
    requires NeverResetsBelow(s, events, time)
    ensures Remembers(Run(s, events), time)
    decreases |events|
  {
    if events != [] {
      assert LeavesOne([events[0]], time) && LeavesOne(events[1..], time);
      ForgetsExactlyAtAReset(s, events[0], time);
      RunRemembers(Apply(s, events[0]), events[1..], time);
    }
  }

  /** Every licence entered in the run was entered before. */
  predicate NothingNew(s: State, events: seq<Event>) {
    forall e | e in events && e.Activate? :: HasEntered(s, e.license)
  }

  lemma {:induction false} NothingNewNeverResets(s: State, events: seq<Event>, time: int)
    requires NothingNew(s, events)
    ensures NeverResetsBelow(s, events, time) && Run(s, events).licenses == s.licenses
    decreases |events|
  {
    if events != [] {
      assert events[0] in events;
      NothingNewNeverResets(Apply(s, events[0]), events[1..], time);
    }
  }

  /** Everything that was ever entered here has ended, with its grace and the clock's tolerance. */
  ghost predicate Lapsed(licenses: seq<Payload>, unlockEnds: seq<int>, time: int) {
    && (forall l | l in licenses :: l.kind.Trial? && End(l) + Days(GRACE_DAYS) + CLOCK_TOLERANCE_SECS <= time)
    && (forall until | until in unlockEnds :: until + Days(GRACE_DAYS) <= time)
  }

  ghost predicate AlwaysReadOnly(licenses: seq<Payload>, invalid: bool, unlockEnds: seq<int>, time: int) {
    forall now: int :: EvaluateAll(BestLicense(licenses), invalid, unlockEnds, now, Some(time)).status.ReadOnly()
  }

  /** No setting of the system clock brings the shop back exactly when everything has lapsed at the recorded time. */
  lemma NoClockHelpsExactlyWhenLapsed(licenses: seq<Payload>, invalid: bool, unlockEnds: seq<int>, time: int)
    requires forall l | l in licenses :: IsConsistent(l)
    ensures AlwaysReadOnly(licenses, invalid, unlockEnds, time) <==> Lapsed(licenses, unlockEnds, time)
  {
    var best := BestLicense(licenses);
    BestGoverns(licenses);
    if Lapsed(licenses, unlockEnds, time) {
      forall now: int
        ensures EvaluateAll(best, invalid, unlockEnds, now, Some(time)).status.ReadOnly()
      {
        WorksExactlyWhen(best, invalid, unlockEnds, now, Some(time));
      }
    } else if until :| until in unlockEnds && time < until + Days(GRACE_DAYS) {
      WorksExactlyWhen(best, invalid, unlockEnds, time, Some(time));
      assert !EvaluateAll(best, invalid, unlockEnds, time, Some(time)).status.ReadOnly();
    } else {
      var now := Later(Some(time), best.value.iat) - CLOCK_TOLERANCE_SECS;
      WorksExactlyWhen(best, invalid, unlockEnds, now, Some(time));
      assert !EvaluateAll(best, invalid, unlockEnds, now, Some(time)).status.ReadOnly();
    }
  }

  /**
   * Over every run that leaves one anchor holding a time at which everything has lapsed, the
   * installation stays read-only, whatever the system clock is set to and whichever of its old
   * codes are entered again.
   */
  lemma WoundBackClockBuysNothing(s: State, invalid: bool, unlockEnds: seq<int>, events: seq<Event>, time: int, now: int)
    requires forall l | l in s.licenses :: IsConsistent(l)
    requires Lapsed(s.licenses, unlockEnds, time)
    requires Remembers(s, time) && LeavesOne(events, time) && NothingNew(s, events)
    requires Run(s, events).memory.Some?
    ensures EvaluateAll(BestLicense(Run(s, events).licenses), invalid, unlockEnds, now, Run(s, events).memory).status.ReadOnly()
  {
    NothingNewNeverResets(s, events, time);
    RunRemembers(s, events, time);
    var later := Run(s, events).memory.value;
    NoClockHelpsExactlyWhenLapsed(s.licenses, invalid, unlockEnds, later);
  }

  // ----- a licence that was never entered

  /**
   * A trial that resets the clock has the shop working at once exactly when what then governs was
   * not itself issued ahead of the clock, or some unlock works: however long ago everything
   * lapsed, this trial included, by the time that was recorded until then.
   */
  lemma ResetWorksExactlyWhen(s: State, license: Payload, now: int, written: set<nat>, invalid: bool, unlockEnds: seq<int>)
    requires Accepts(s, license, now) && Resets(s, license) && license.kind.Trial?
    ensures var after := Apply(s, Activate(license, now, written));
            var best := BestLicense(after.licenses);
            && after.memory == Some(Later(Some(now), license.iat))
            && best.Some?
            && (!EvaluateAll(best, invalid, unlockEnds, now, after.memory).status.ReadOnly()
                <==> best.value.iat <= now + CLOCK_TOLERANCE_SECS || UnlockWorks(unlockEnds, now, after.memory))
  {
    var licenses := s.licenses + [license];
    BestGoverns(licenses);
    assert license in licenses;
    JudgedAfterReset(BestLicense(licenses).value, now, license.iat, invalid, unlockEnds);
  }

  lemma JudgedAfterReset(best: Payload, now: int, iat: int, invalid: bool, unlockEnds: seq<int>)
    requires best.kind.Trial? && now < End(best) && iat <= now + CLOCK_TOLERANCE_SECS
    ensures var latest := Some(Later(Some(now), iat));
            !EvaluateAll(Some(best), invalid, unlockEnds, now, latest).status.ReadOnly()
            <==> best.iat <= now + CLOCK_TOLERANCE_SECS || UnlockWorks(unlockEnds, now, latest)
  {
    WorksExactlyWhen(Some(best), invalid, unlockEnds, now, Some(Later(Some(now), iat)));
  }

  /**
   * So a licence that was issued but never entered brings a lapsed shop back, by a clock set to
   * when it ran: with everything over on the day 100, a trial of the days 0 to 30 entered on
   * what the clock says is the day 10.
   */
  lemma NeverEnteredLicenseBringsTheShopBack()
    ensures var ended := Payload(1, "a", "WL-2345-6789", LicenseKind.Trial, -Days(30), Some(0), [], None);
            var unused := Payload(1, "b", "WL-2345-6789", LicenseKind.Trial, 0, Some(Days(30)), [], None);
            var recorded := Some(Days(100));
            var s := State([recorded, recorded, recorded], recorded, [ended]);
            var after := Apply(s, Activate(unused, Days(10), {0, 1, 2}));
            && Lapsed([ended, unused], [], Days(100)) && Remembers(s, Days(100))
            && after.memory == Some(Days(10))
            && !EvaluateAll(BestLicense(after.licenses), false, [], Days(10), after.memory).status.ReadOnly()
  {
    var ended := Payload(1, "a", "WL-2345-6789", LicenseKind.Trial, -Days(30), Some(0), [], None);
    var unused := Payload(1, "b", "WL-2345-6789", LicenseKind.Trial, 0, Some(Days(30)), [], None);
    var recorded := Some(Days(100));
    var s := State([recorded, recorded, recorded], recorded, [ended]);
    assert "a"[0] != "b"[0];
    assert recorded in s.anchors;
    ResetWorksExactlyWhen(s, unused, Days(10), {0, 1, 2}, false, []);
    BestGoverns(s.licenses + [unused]);
    assert unused in s.licenses + [unused];
  }
}
