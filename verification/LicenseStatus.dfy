/**
 * What a shop may do: a function of the licences and unlocks it holds, of the time its clock
 * shows, and of the greatest time it remembers.
 */
module LicenseStatus {
  import opened Basics
  import opened Payloads

  const GRACE_DAYS: int := 5
  const NOTICE_DAYS: int := 14
  const WARNING_DAYS: int := 7
  const URGENT_DAYS: int := 3
  const EMERGENCY_URGENT_DAYS: int := 2
  const CLOCK_TOLERANCE_SECS: int := 7200
  const UNLOCK_COVER_DAYS: int := 31

  datatype Status = Unlicensed | Trial | Emergency | Grace | Expired | Perpetual | Tampered {
    predicate ReadOnly() {
      this in {Unlicensed, Expired, Tampered}
    }
  }

  datatype Basis = OnTrial | OnPerpetual | OnEmergency

  datatype Warning = Silent | Notice | Countdown | Urgent

  datatype Evaluation = Evaluation(
    status: Status,
    basis: Option<Basis>,
    expiresAt: Option<int>,
    graceEndsAt: Option<int>,
    daysLeft: Option<int>,
    warning: Warning,
    clockBehindBy: Option<int>
  )

  // ----- the evaluation

  function WarningForTrial(daysLeft: int): Warning {
    if daysLeft <= URGENT_DAYS then Urgent
    else if daysLeft <= WARNING_DAYS then Countdown
    else if daysLeft <= NOTICE_DAYS then Notice
    else Silent
  }

  function Plain(status: Status, basis: Option<Basis>): Evaluation {
    Evaluation(status, basis, None, None, None, if status.ReadOnly() then Urgent else Silent, None)
  }

  /** Division that drops the fraction, whatever the sign. */
  function DivTrunc(a: int, b: nat): int
    requires b > 0
  {
    if a >= 0 then a / b else -(-a / b)
  }

  function CeilDays(seconds: int): int {
    DivTrunc(seconds + Days(1) - 1, Days(1))
  }

  /** When a trial ends; its issue time stands in for a missing end. */
  function End(p: Payload): int {
    if p.exp.Some? then p.exp.value else p.iat
  }

  function FirstPerpetual(licenses: seq<Payload>): Option<Payload> {
    if licenses == [] then None
    else if licenses[0].kind.Perpetual? then Some(licenses[0])
    else FirstPerpetual(licenses[1..])
  }

  function LaterToEnd(best: Option<Payload>, last: Payload): Payload {
    if best.None? || End(best.value) <= End(last) then last else best.value
  }

  /** The licence that ends last, the later one in the list between equals. */
  function LastToEnd(licenses: seq<Payload>): Option<Payload> {
    if licenses == [] then None
    else Some(LaterToEnd(LastToEnd(licenses[..|licenses| - 1]), licenses[|licenses| - 1]))
  }

  /** The first perpetual licence of the list, or else `LastToEnd` of it. */
  function BestLicense(licenses: seq<Payload>): Option<Payload> {
    var perpetual := FirstPerpetual(licenses);
    if perpetual.Some? then perpetual else LastToEnd(licenses)
  }

  function Later(a: Option<int>, b: int): int {
    if a.Some? && a.value > b then a.value else b
  }

  predicate ClockRolledBack(now: int, latest: Option<int>) {
    latest.Some? && now + CLOCK_TOLERANCE_SECS < latest.value
  }

  function Evaluate(license: Option<Payload>, now: int, latest: Option<int>): Evaluation {
    if license.None? then Plain(Unlicensed, None)
    else if license.value.kind.Perpetual? then Plain(Status.Perpetual, Some(OnPerpetual))
    else
      var expiresAt := End(license.value);
      var graceEndsAt := expiresAt + Days(GRACE_DAYS);
      var reference := Later(latest, license.value.iat);
      var timed := Evaluation(Expired, Some(OnTrial), Some(expiresAt), Some(graceEndsAt), Some(0), Urgent, None);
      if ClockRolledBack(now, Some(reference)) then
        timed.(status := Tampered, daysLeft := None, clockBehindBy := Some(reference - now))
      else if now < expiresAt then
        var daysLeft := CeilDays(expiresAt - now);
        timed.(status := Status.Trial, daysLeft := Some(daysLeft), warning := WarningForTrial(daysLeft))
      else if now < graceEndsAt then
        timed.(status := Grace, daysLeft := Some(CeilDays(graceEndsAt - now)))
      else timed
  }

  function MaxOf(times: seq<int>): Option<int> {
    if times == [] then None else Some(Later(MaxOf(times[..|times| - 1]), times[|times| - 1]))
  }

  function Underlying(license: Option<Payload>, storedCodeInvalid: bool, now: int, latest: Option<int>): Evaluation {
    if license.None? && storedCodeInvalid then Plain(Tampered, None) else Evaluate(license, now, latest)
  }

  /** `Underlying`, unless an unlock says better: one that runs, or one in its grace days that outlast the licence's. */
  function EvaluateAll(
    license: Option<Payload>, storedCodeInvalid: bool, unlockEnds: seq<int>, now: int, latest: Option<int>
  ): Evaluation {
    var underlying := Underlying(license, storedCodeInvalid, now, latest);
    if !underlying.status.ReadOnly() && underlying.status != Grace then underlying
    else if MaxOf(unlockEnds).None? then underlying
    else
      var until := MaxOf(unlockEnds).value;
      var reference := Later(latest, now);
      var graceEndsAt := until + Days(GRACE_DAYS);
      if reference < until then
        var daysLeft := CeilDays(until - reference);
        Evaluation(Emergency, Some(OnEmergency), Some(until), Some(graceEndsAt), Some(daysLeft),
                   if daysLeft <= EMERGENCY_URGENT_DAYS then Urgent else Countdown, underlying.clockBehindBy)
      else if reference < graceEndsAt then
        if underlying.status == Grace && underlying.graceEndsAt.Some? && underlying.graceEndsAt.value >= graceEndsAt
        then underlying
        else
          Evaluation(Grace, Some(OnEmergency), Some(until), Some(graceEndsAt), Some(CeilDays(graceEndsAt - reference)),
                     Urgent, underlying.clockBehindBy)
      else underlying
  }

  /** Whether one licence covers a sale made at `t`. */
  predicate LicenseCovers(license: Payload, t: int) {
    license.kind.Perpetual? || license.iat - Days(1) <= t < End(license) + Days(GRACE_DAYS)
  }

  predicate UnlockCovers(until: int, t: int) {
    until - Days(UNLOCK_COVER_DAYS) <= t < until + Days(GRACE_DAYS)
  }

  /** The offline gate: some licence or some unlock covers `t`, whatever any clock shows. */
  predicate RecordingAllowedAt(licenses: seq<Payload>, unlockEnds: seq<int>, t: int) {
    || (exists license | license in licenses :: LicenseCovers(license, t))
    || (exists until | until in unlockEnds :: UnlockCovers(until, t))
  }

  // ----- what governs

  lemma {:induction false} FirstPerpetualFinds(licenses: seq<Payload>)
    ensures var r := FirstPerpetual(licenses);
            && (r.Some? <==> exists l | l in licenses :: l.kind.Perpetual?)
            && (r.Some? ==> r.value in licenses && r.value.kind.Perpetual?)
  {
    if licenses != [] {
      FirstPerpetualFinds(licenses[1..]);
      assert forall l :: l in licenses <==> l == licenses[0] || l in licenses[1..];
    }
  }

  lemma {:induction false} LastToEndIsMax(licenses: seq<Payload>)
    ensures var r := LastToEnd(licenses);
            && (r.None? <==> licenses == [])
            && (r.Some? ==> r.value in licenses && forall l | l in licenses :: End(l) <= End(r.value))
  {
    if licenses != [] {
      var n := |licenses| - 1;
      LastToEndIsMax(licenses[..n]);
      assert forall l :: l in licenses <==> l == licenses[n] || l in licenses[..n];
    }
  }

  lemma {:induction false} MaxOfIsMax(times: seq<int>)
    ensures var r := MaxOf(times);
            && (r.None? <==> times == [])
            && (r.Some? ==> r.value in times && forall t | t in times :: t <= r.value)
  {
    if times != [] {
      var n := |times| - 1;
      MaxOfIsMax(times[..n]);
      assert forall t :: t in times <==> t == times[n] || t in times[..n];
    }
  }

  /** The choice among the licences, by what the chosen one is: it needs no order of the list. */
  lemma BestGoverns(licenses: seq<Payload>)
    ensures var best := BestLicense(licenses);
            && (best.None? <==> licenses == [])
            && (best.Some? ==> best.value in licenses)
            && (best.Some? ==> (best.value.kind.Perpetual? <==> exists l | l in licenses :: l.kind.Perpetual?))
            && (best.Some? && best.value.kind.Trial? ==> forall l | l in licenses :: End(l) <= End(best.value))
  {
    FirstPerpetualFinds(licenses);
    LastToEndIsMax(licenses);
  }

  /** The first perpetual licence of the list; without one, the last of those that end last. */
  predicate IsChosen(licenses: seq<Payload>, i: nat) {
    && i < |licenses|
    && if licenses[i].kind.Perpetual? then
         forall k | 0 <= k < i :: licenses[k].kind.Trial?
       else
         && (forall k | 0 <= k < |licenses| :: licenses[k].kind.Trial?)
         && (forall k | 0 <= k < i :: End(licenses[k]) <= End(licenses[i]))
         && (forall k | i < k < |licenses| :: End(licenses[k]) < End(licenses[i]))
  }

  lemma {:induction false} FirstPerpetualAt(licenses: seq<Payload>, i: nat)
    requires i < |licenses| && licenses[i].kind.Perpetual? && forall k | 0 <= k < i :: licenses[k].kind.Trial?
    ensures FirstPerpetual(licenses) == Some(licenses[i])
  {
    if i > 0 {
      FirstPerpetualAt(licenses[1..], i - 1);
    }
  }

  lemma {:induction false} LastToEndAt(licenses: seq<Payload>, i: nat)
    requires i < |licenses|
    requires forall k | 0 <= k < i :: End(licenses[k]) <= End(licenses[i])
    requires forall k | i < k < |licenses| :: End(licenses[k]) < End(licenses[i])
    ensures LastToEnd(licenses) == Some(licenses[i])
  {
    var n := |licenses| - 1;
    LastToEndIsMax(licenses[..n]);
    if i < n {
      LastToEndAt(licenses[..n], i);
    }
  }

  /** There is always one. */
  lemma {:induction false} SomeIsChosen(licenses: seq<Payload>) returns (i: nat)
    requires licenses != []
    ensures IsChosen(licenses, i)
  {
    var n := |licenses| - 1;
    i := n;
    if n > 0 {
      var j := SomeIsChosen(licenses[..n]);
      assert IsChosen(licenses[..n], j) && licenses[..n][j] == licenses[j];
      if licenses[j].kind.Perpetual? || (licenses[n].kind.Trial? && End(licenses[n]) < End(licenses[j])) {
        i := j;
      }
      assert forall k | 0 <= k < n :: licenses[..n][k] == licenses[k];
    }
  }

  /** Which entry of the list governs, between equals too. */
  lemma BestIsChosen(licenses: seq<Payload>, i: nat)
    requires IsChosen(licenses, i)
    ensures BestLicense(licenses) == Some(licenses[i])
  {
    FirstPerpetualFinds(licenses);
    if licenses[i].kind.Perpetual? {
      FirstPerpetualAt(licenses, i);
    } else {
      LastToEndAt(licenses, i);
    }
  }

  /**
   * The offline gate, in seconds: a day before a trial was issued to five days past its end, or 31
   * days before an unlock ends to five past.
   */
  lemma OfflineExactlyWhen(licenses: seq<Payload>, unlockEnds: seq<int>, t: int)
    ensures RecordingAllowedAt(licenses, unlockEnds, t)
       <==> || (exists p | p in licenses :: p.kind.Perpetual?)
            || (exists p | p in licenses :: p.iat <= t + 86400 && t - 432000 < if p.exp.Some? then p.exp.value else p.iat)
            || (exists until | until in unlockEnds :: t - 432000 < until <= t + 2678400)
  {
    assert forall p: Payload :: LicenseCovers(p, t) <==> p.kind.Perpetual? || (p.iat <= t + 86400 && t - 432000 < End(p));
    assert forall until: int :: UnlockCovers(until, t) <==> t - 432000 < until <= t + 2678400;
  }

  // ----- when the shop works

  /** The licence alone keeps the shop working. */
  predicate LicenseWorks(license: Option<Payload>, now: int, latest: Option<int>) {
    && license.Some?
    && (license.value.kind.Perpetual?
        || (!ClockRolledBack(now, Some(Later(latest, license.value.iat))) && now < End(license.value) + Days(GRACE_DAYS)))
  }

  /** Some emergency window, with its grace, is still running. */
  predicate UnlockWorks(unlockEnds: seq<int>, now: int, latest: Option<int>) {
    exists until | until in unlockEnds :: Later(latest, now) < until + Days(GRACE_DAYS)
  }

  /** The installation works exactly when its licence does or some unlock does. */
  lemma WorksExactlyWhen(
    license: Option<Payload>, storedCodeInvalid: bool, unlockEnds: seq<int>, now: int, latest: Option<int>
  )
    ensures !EvaluateAll(license, storedCodeInvalid, unlockEnds, now, latest).status.ReadOnly()
       <==> LicenseWorks(license, now, latest) || UnlockWorks(unlockEnds, now, latest)
  {
    MaxOfIsMax(unlockEnds);
    var m := MaxOf(unlockEnds);
    assert UnlockWorks(unlockEnds, now, latest) <==> m.Some? && Later(latest, now) < m.value + Days(GRACE_DAYS);
  }

  /** A count of days left is the least number of whole days that reaches the end. */
  lemma CeilDaysIsLeast(seconds: int)
    requires seconds > 0
    ensures Days(CeilDays(seconds) - 1) < seconds <= Days(CeilDays(seconds))
  {
  }

  /**
   * Where a window or its grace is running, the reported end is the later of the two: the
   * trial's, if the trial still works, and the last unlock's, if that still works.
   */
  lemma ReportsTheLongerGrace(
    license: Option<Payload>, storedCodeInvalid: bool, unlockEnds: seq<int>, now: int, latest: Option<int>
  )
    requires EvaluateAll(license, storedCodeInvalid, unlockEnds, now, latest).status in {Emergency, Grace}
    ensures var e := EvaluateAll(license, storedCodeInvalid, unlockEnds, now, latest);
            var byLicense := LicenseWorks(license, now, latest);
            var byUnlock := UnlockWorks(unlockEnds, now, latest);
            && e.graceEndsAt.Some? && e.expiresAt == Some(e.graceEndsAt.value - Days(GRACE_DAYS))
            && (byUnlock ==> MaxOf(unlockEnds).Some? && e.graceEndsAt.value >= MaxOf(unlockEnds).value + Days(GRACE_DAYS))
            && (byLicense ==> e.graceEndsAt.value >= End(license.value) + Days(GRACE_DAYS))
            && (e.basis == Some(OnEmergency) ==> byUnlock && e.expiresAt == MaxOf(unlockEnds))
            && (e.basis != Some(OnEmergency) ==> byLicense && e.expiresAt == Some(End(license.value)))
            && (e.status == Emergency <==> byUnlock && Later(latest, now) < MaxOf(unlockEnds).value)
  {
    MaxOfIsMax(unlockEnds);
    var m := MaxOf(unlockEnds);
    assert UnlockWorks(unlockEnds, now, latest) <==> m.Some? && Later(latest, now) < m.value + Days(GRACE_DAYS);
  }

  // ----- which status, and what it shows, over all inputs; times in seconds

  predicate IsTrial(license: Option<Payload>) {
    license.Some? && license.value.kind.Trial?
  }

  predicate IsPerpetual(license: Option<Payload>) {
    license.Some? && license.value.kind.Perpetual?
  }

  /** The clock shows a time more than two hours before a recorded one, or before the trial was issued. */
  predicate ClockIsBehind(license: Option<Payload>, now: int, latest: Option<int>)
    requires IsTrial(license)
  {
    now + 7200 < license.value.iat || (latest.Some? && now + 7200 < latest.value)
  }

  /** The later of the two clocks is before `time`. */
  predicate Before(now: int, latest: Option<int>, time: int) {
    now < time && (latest.Some? ==> latest.value < time)
  }

  predicate UnlockRuns(unlockEnds: seq<int>, now: int, latest: Option<int>) {
    exists until | until in unlockEnds :: Before(now, latest, until)
  }

  predicate UnlockRunsOrGrace(unlockEnds: seq<int>, now: int, latest: Option<int>) {
    exists until | until in unlockEnds :: Before(now, latest, until + 432000)
  }

  predicate TrialRuns(license: Option<Payload>, now: int, latest: Option<int>) {
    IsTrial(license) && !ClockIsBehind(license, now, latest) && now < End(license.value)
  }

  /** The trial has ended, and its five days have not. */
  predicate TrialGraces(license: Option<Payload>, now: int, latest: Option<int>) {
    IsTrial(license) && !ClockIsBehind(license, now, latest) && End(license.value) <= now < End(license.value) + 432000
  }

  /** Some unlock that still counts ends after the trial does. */
  predicate UnlockOutlasts(license: Option<Payload>, unlockEnds: seq<int>, now: int, latest: Option<int>)
    requires IsTrial(license)
  {
    exists until | until in unlockEnds :: Before(now, latest, until + 432000) && End(license.value) < until
  }

  /** `days` is the least whole number of days that covers the time from `from` to `to`. */
  predicate CountsDays(days: Option<int>, from: int, to: int) {
    days.Some? && from + (days.value - 1) * 86400 < to <= from + days.value * 86400
  }

  predicate LaterClockIs(now: int, latest: Option<int>, time: int) {
    time >= now && (latest.Some? ==> time >= latest.value) && (time == now || latest == Some(time))
  }

  lemma UnlocksByTheLast(unlockEnds: seq<int>, now: int, latest: Option<int>)
    ensures var m := MaxOf(unlockEnds);
            && (m.None? <==> unlockEnds == [])
            && (m.Some? ==> m.value in unlockEnds && forall until | until in unlockEnds :: until <= m.value)
            && (UnlockRuns(unlockEnds, now, latest) <==> m.Some? && Before(now, latest, m.value))
            && (UnlockRunsOrGrace(unlockEnds, now, latest) <==> m.Some? && Before(now, latest, m.value + 432000))
            && LaterClockIs(now, latest, Later(latest, now))
  {
    MaxOfIsMax(unlockEnds);
  }

  /** Perpetual, exactly for a perpetual licence: nothing else is consulted, and nothing is shown. */
  lemma PerpetualExactlyWhen(license: Option<Payload>, invalid: bool, unlockEnds: seq<int>, now: int, latest: Option<int>)
    ensures var e := EvaluateAll(license, invalid, unlockEnds, now, latest);
            && (e.status == Status.Perpetual <==> IsPerpetual(license))
            && (e.status == Status.Perpetual ==> e == Evaluation(Status.Perpetual, Some(OnPerpetual), None, None, None, Silent, None))
  {
  }

  /**
   * Trial, exactly while it runs under a sound clock; the days count to its end by the system clock,
   * and the last fourteen, seven and three are louder.
   */
  lemma TrialExactlyWhen(license: Option<Payload>, invalid: bool, unlockEnds: seq<int>, now: int, latest: Option<int>)
    ensures var e := EvaluateAll(license, invalid, unlockEnds, now, latest);
            && (e.status == Status.Trial <==> TrialRuns(license, now, latest))
            && (e.status == Status.Trial ==>
                  && e.basis == Some(OnTrial) && e.clockBehindBy == None
                  && e.expiresAt == Some(End(license.value)) && e.graceEndsAt == Some(End(license.value) + 432000)
                  && CountsDays(e.daysLeft, now, End(license.value))
                  && (e.warning == Urgent <==> e.daysLeft.value <= 3)
                  && (e.warning == Countdown <==> 4 <= e.daysLeft.value <= 7)
                  && (e.warning == Notice <==> 8 <= e.daysLeft.value <= 14)
                  && (e.warning == Silent <==> e.daysLeft.value >= 15))
  {
  }

  /** A consistent trial is issued before it ends, and runs all that time on a clock that was never ahead. */
  lemma ConsistentTrialRuns(p: Payload, invalid: bool, unlockEnds: seq<int>, now: int)
    requires IsConsistent(p) && p.kind.Trial?
    ensures p.iat < End(p)
    ensures p.iat <= now < End(p) ==> EvaluateAll(Some(p), invalid, unlockEnds, now, Some(now)).status == Status.Trial
  {
    TrialExactlyWhen(Some(p), invalid, unlockEnds, now, Some(now));
  }

  /**
   * Emergency, exactly while an unlock's window runs by both clocks and no licence does better; the
   * days count to the last window's end by the later clock.
   */
  lemma EmergencyExactlyWhen(license: Option<Payload>, invalid: bool, unlockEnds: seq<int>, now: int, latest: Option<int>, reference: int, last: int)
    requires LaterClockIs(now, latest, reference)
    requires unlockEnds != [] ==> last in unlockEnds && forall until | until in unlockEnds :: until <= last
    ensures var e := EvaluateAll(license, invalid, unlockEnds, now, latest);
            && (e.status == Emergency <==>
                  !IsPerpetual(license) && !TrialRuns(license, now, latest) && UnlockRuns(unlockEnds, now, latest))
            && (e.status == Emergency ==>
                  && e.basis == Some(OnEmergency)
                  && e.expiresAt == Some(last) && e.graceEndsAt == Some(last + 432000)
                  && CountsDays(e.daysLeft, reference, last)
                  && e.warning == (if e.daysLeft.value <= 2 then Urgent else Countdown)
                  && ShowsClock(e, license, now, latest))
  {
    UnlocksByTheLast(unlockEnds, now, latest);
  }

  /**
   * How far the clock is behind is shown exactly for a trial under a clock that is: the greatest
   * time it should have passed, less what it shows.
   */
  predicate ShowsClock(e: Evaluation, license: Option<Payload>, now: int, latest: Option<int>) {
    if IsTrial(license) && ClockIsBehind(license, now, latest) then
      && e.clockBehindBy.Some?
      && now + e.clockBehindBy.value >= license.value.iat
      && (latest.Some? ==> now + e.clockBehindBy.value >= latest.value)
      && (now + e.clockBehindBy.value == license.value.iat || latest == Some(now + e.clockBehindBy.value))
    else e.clockBehindBy == None
  }

  /** Grace on the trial, exactly in its five days, with no unlock that runs or ends later. */
  lemma TrialGraceExactlyWhen(license: Option<Payload>, invalid: bool, unlockEnds: seq<int>, now: int, latest: Option<int>)
    ensures var e := EvaluateAll(license, invalid, unlockEnds, now, latest);
            && (e.status == Grace && e.basis == Some(OnTrial) <==>
                  TrialGraces(license, now, latest) && !UnlockOutlasts(license, unlockEnds, now, latest))
            && (e.status == Grace && e.basis == Some(OnTrial) ==>
                  && e.expiresAt == Some(End(license.value)) && e.graceEndsAt == Some(End(license.value) + 432000)
                  && CountsDays(e.daysLeft, now, End(license.value) + 432000)
                  && e.warning == Urgent && e.clockBehindBy == None)
  {
    UnlocksByTheLast(unlockEnds, now, latest);
  }

  /** Grace on an unlock, exactly when every window is over, some five days are not, and no trial runs or graces as long. */
  lemma UnlockGraceExactlyWhen(license: Option<Payload>, invalid: bool, unlockEnds: seq<int>, now: int, latest: Option<int>, reference: int, last: int)
    requires LaterClockIs(now, latest, reference)
    requires unlockEnds != [] ==> last in unlockEnds && forall until | until in unlockEnds :: until <= last
    ensures var e := EvaluateAll(license, invalid, unlockEnds, now, latest);
            && (e.status == Grace && e.basis != Some(OnTrial) <==>
                  && !IsPerpetual(license) && !TrialRuns(license, now, latest)
                  && !UnlockRuns(unlockEnds, now, latest) && UnlockRunsOrGrace(unlockEnds, now, latest)
                  && (TrialGraces(license, now, latest) ==> UnlockOutlasts(license, unlockEnds, now, latest)))
            && (e.status == Grace && e.basis != Some(OnTrial) ==>
                  && e.basis == Some(OnEmergency)
                  && e.expiresAt == Some(last) && e.graceEndsAt == Some(last + 432000)
                  && CountsDays(e.daysLeft, reference, last + 432000)
                  && e.warning == Urgent && ShowsClock(e, license, now, latest))
  {
    UnlocksByTheLast(unlockEnds, now, latest);
  }

  /** Expired, exactly for a trial whose five days are over under a sound clock, with no unlock left. */
  lemma ExpiredExactlyWhen(license: Option<Payload>, invalid: bool, unlockEnds: seq<int>, now: int, latest: Option<int>)
    ensures var e := EvaluateAll(license, invalid, unlockEnds, now, latest);
            && (e.status == Expired <==>
                  && IsTrial(license) && !ClockIsBehind(license, now, latest) && End(license.value) + 432000 <= now
                  && !UnlockRunsOrGrace(unlockEnds, now, latest))
            && (e.status == Expired ==>
                  e == Evaluation(Expired, Some(OnTrial), Some(End(license.value)), Some(End(license.value) + 432000), Some(0), Urgent, None))
  {
    UnlocksByTheLast(unlockEnds, now, latest);
  }

  /**
   * Tampered, exactly for a trial under a clock that is behind, or no licence but a code that fails
   * its check, with no unlock left.
   */
  lemma TamperedExactlyWhen(license: Option<Payload>, invalid: bool, unlockEnds: seq<int>, now: int, latest: Option<int>)
    ensures var e := EvaluateAll(license, invalid, unlockEnds, now, latest);
            && (e.status == Tampered <==>
                  && ((IsTrial(license) && ClockIsBehind(license, now, latest)) || (license.None? && invalid))
                  && !UnlockRunsOrGrace(unlockEnds, now, latest))
            && (e.status == Tampered ==>
                  && e.warning == Urgent && e.daysLeft == None && ShowsClock(e, license, now, latest)
                  && e.basis == (if license.None? then None else Some(OnTrial))
                  && e.expiresAt == (if license.None? then None else Some(End(license.value)))
                  && e.graceEndsAt == (if license.None? then None else Some(End(license.value) + 432000)))
  {
    UnlocksByTheLast(unlockEnds, now, latest);
  }

  /** Unlicensed, exactly with no licence, no code that fails its check, and no unlock left. */
  lemma UnlicensedExactlyWhen(license: Option<Payload>, invalid: bool, unlockEnds: seq<int>, now: int, latest: Option<int>)
    ensures var e := EvaluateAll(license, invalid, unlockEnds, now, latest);
            && (e.status == Unlicensed <==> license.None? && !invalid && !UnlockRunsOrGrace(unlockEnds, now, latest))
            && (e.status == Unlicensed ==> e == Evaluation(Unlicensed, None, None, None, None, Urgent, None))
  {
    UnlocksByTheLast(unlockEnds, now, latest);
  }

  /** Of the statuses these three stop the shop, and the others do not. */
  lemma ReadOnlyExactlyWhen(status: Status)
    ensures status.ReadOnly() <==> status == Unlicensed || status == Expired || status == Tampered
  {
  }

  function Loudness(w: Warning): nat {
    match w
    case Silent => 0
    case Notice => 1
    case Countdown => 2
    case Urgent => 3
  }

  /** As a trial runs down, the count of days only falls and the warning only gets louder. */
  lemma WarningsOnlyEscalate(license: Payload, now: int, later: int, latest: Option<int>)
    requires license.kind.Trial? && now <= later
    requires !ClockRolledBack(now, Some(Later(latest, license.iat)))
    ensures var a, b := Evaluate(Some(license), now, latest), Evaluate(Some(license), later, latest);
            && Loudness(a.warning) <= Loudness(b.warning)
            && (b.status.Trial? ==> a.status.Trial? && b.daysLeft.value <= a.daysLeft.value)
            && (a.status.ReadOnly() ==> b.status == a.status)
  {
  }

  // ----- the two gates agree

  /**
   * Nothing recorded is ahead of `now`, no licence was issued more than the tolerance ahead, and no
   * unlock outlasts what the issuer can grant.
   */
  predicate HonestClock(licenses: seq<Payload>, unlockEnds: seq<int>, now: int, latest: Option<int>) {
    && (latest.Some? ==> latest.value <= now)
    && (forall l | l in licenses :: l.iat <= now + CLOCK_TOLERANCE_SECS)
    && (forall until | until in unlockEnds :: until <= now + Days(UNLOCK_COVER_DAYS))
  }

  /** The end lies in the days around `now` that the offline gate looks at. */
  predicate EndIsNear(until: int, now: int) {
    now - Days(GRACE_DAYS) < until <= now + Days(UNLOCK_COVER_DAYS)
  }

  /** The live gate lets a sale through at `now`, and the offline gate would refuse the same sale. */
  predicate GatesSplit(licenses: seq<Payload>, storedCodeInvalid: bool, unlockEnds: seq<int>, now: int, latest: Option<int>) {
    && !EvaluateAll(BestLicense(licenses), storedCodeInvalid, unlockEnds, now, latest).status.ReadOnly()
    && !RecordingAllowedAt(licenses, unlockEnds, now)
  }

  /**
   * The gates split exactly when no licence covers the moment, no unlock ends near it, and some
   * unlock that ends more than 31 days ahead of the system clock is not over at the recorded
   * time. In particular, in an installation that works, the offline gate refuses exactly where
   * the first two hold.
   */
  lemma GatesSplitExactlyWhen(licenses: seq<Payload>, storedCodeInvalid: bool, unlockEnds: seq<int>, now: int, latest: Option<int>)
    ensures GatesSplit(licenses, storedCodeInvalid, unlockEnds, now, latest)
       <==> && (forall l | l in licenses :: !LicenseCovers(l, now))
            && (forall until | until in unlockEnds :: !EndIsNear(until, now))
            && (exists until | until in unlockEnds ::
                  now + Days(UNLOCK_COVER_DAYS) < until && Later(latest, now) < until + Days(GRACE_DAYS))
    ensures !EvaluateAll(BestLicense(licenses), storedCodeInvalid, unlockEnds, now, latest).status.ReadOnly() ==>
              (GatesSplit(licenses, storedCodeInvalid, unlockEnds, now, latest)
               <==> && (forall l | l in licenses :: !LicenseCovers(l, now))
                    && (forall until | until in unlockEnds :: !EndIsNear(until, now)))
  {
    var best := BestLicense(licenses);
    BestGoverns(licenses);
    WorksExactlyWhen(best, storedCodeInvalid, unlockEnds, now, latest);
    if LicenseWorks(best, now, latest) {
      assert LicenseCovers(best.value, now);
    }
    forall until | until in unlockEnds
      ensures EndIsNear(until, now) <==> UnlockCovers(until, now)
    {
    }
    if UnlockWorks(unlockEnds, now, latest) {
      var until :| until in unlockEnds && Later(latest, now) < until + Days(GRACE_DAYS);
      assert EndIsNear(until, now) || now + Days(UNLOCK_COVER_DAYS) < until;
    }
  }

  /**
   * What the live gate lets through, the offline gate lets through too, where no unlock ends more
   * than 31 days ahead of the system clock.
   */
  lemma LiveImpliesOffline(licenses: seq<Payload>, storedCodeInvalid: bool, unlockEnds: seq<int>, now: int, latest: Option<int>)
    requires forall until | until in unlockEnds :: until <= now + Days(UNLOCK_COVER_DAYS)
    requires !EvaluateAll(BestLicense(licenses), storedCodeInvalid, unlockEnds, now, latest).status.ReadOnly()
    ensures RecordingAllowedAt(licenses, unlockEnds, now)
  {
    GatesSplitExactlyWhen(licenses, storedCodeInvalid, unlockEnds, now, latest);
  }

  /**
   * Only a clock that is behind the recorded time can split the gates, where every unlock was
   * within the issuer's cap by the later of `now` and `latest`.
   */
  lemma OnlyAClockBehindSplitsTheGates(licenses: seq<Payload>, storedCodeInvalid: bool, unlockEnds: seq<int>, now: int, latest: Option<int>)
    requires forall until | until in unlockEnds :: until <= Later(latest, now) + Days(UNLOCK_COVER_DAYS)
    requires GatesSplit(licenses, storedCodeInvalid, unlockEnds, now, latest)
    ensures latest.Some? && now < latest.value
  {
    GatesSplitExactlyWhen(licenses, storedCodeInvalid, unlockEnds, now, latest);
  }

  /**
   * It does happen, with day 0 on the clock after the day 90 was recorded: an unlock code keeps the
   * shop working, without a licence or over a trial that has not begun, and a sale made then is
   * refused when it arrives.
   */
  lemma SetBackClockSplitsTheGates()
    ensures GatesSplit([], false, [Days(100)], 0, Some(Days(90)))
    ensures var trial := Payload(1, "a", "WL-2345-6789", LicenseKind.Trial, Days(60), Some(Days(200)), [], None);
            GatesSplit([trial], false, [Days(100)], 0, Some(Days(90)))
  {
    var trial := Payload(1, "a", "WL-2345-6789", LicenseKind.Trial, Days(60), Some(Days(200)), [], None);
    assert Days(100) in [Days(100)] && trial in [trial];
    GatesSplitExactlyWhen([], false, [Days(100)], 0, Some(Days(90)));
    GatesSplitExactlyWhen([trial], false, [Days(100)], 0, Some(Days(90)));
  }

  /** With an honest clock, the live gate and the offline gate agree. */
  lemma GatesAgree(licenses: seq<Payload>, storedCodeInvalid: bool, unlockEnds: seq<int>, now: int, latest: Option<int>)
    requires HonestClock(licenses, unlockEnds, now, latest)
    ensures !EvaluateAll(BestLicense(licenses), storedCodeInvalid, unlockEnds, now, latest).status.ReadOnly()
       <==> RecordingAllowedAt(licenses, unlockEnds, now)
  {
    var best := BestLicense(licenses);
    BestGoverns(licenses);
    WorksExactlyWhen(best, storedCodeInvalid, unlockEnds, now, latest);
    if !EvaluateAll(best, storedCodeInvalid, unlockEnds, now, latest).status.ReadOnly() {
      LiveImpliesOffline(licenses, storedCodeInvalid, unlockEnds, now, latest);
    }
    if RecordingAllowedAt(licenses, unlockEnds, now) {
      if license :| license in licenses && LicenseCovers(license, now) {
        assert LicenseWorks(best, now, latest);
      } else {
        var until :| until in unlockEnds && UnlockCovers(until, now);
        assert UnlockWorks(unlockEnds, now, latest);
      }
    }
  }

  // ----- adding a stored code

  function Inserted<T(!new)>(s: seq<T>, i: nat, x: T): (r: seq<T>)
    requires i <= |s|
    ensures |r| == |s| + 1
    ensures forall y :: y in r <==> y == x || y in s
  {
    assert s == s[..i] + s[i..];
    s[..i] + [x] + s[i..]
  }

  /** The flag for an invalid code changes no evaluation that works. */
  lemma InvalidCodeIsHarmless(license: Option<Payload>, unlockEnds: seq<int>, now: int, latest: Option<int>)
    requires !EvaluateAll(license, false, unlockEnds, now, latest).status.ReadOnly()
    ensures EvaluateAll(license, true, unlockEnds, now, latest) == EvaluateAll(license, false, unlockEnds, now, latest)
  {
    WorksExactlyWhen(license, false, unlockEnds, now, latest);
    MaxOfIsMax(unlockEnds);
  }

  lemma MaxOfIs(times: seq<int>, m: int)
    requires m in times && forall t | t in times :: t <= m
    ensures MaxOf(times) == Some(m)
  {
    MaxOfIsMax(times);
  }

  lemma MaxOfGrown(times: seq<int>, more: seq<int>, t: int)
    requires forall y :: y in more <==> y == t || y in times
    ensures MaxOf(more) == Some(Later(MaxOf(times), t))
  {
    MaxOfIsMax(times);
    MaxOfIs(more, Later(MaxOf(times), t));
  }

  lemma MaxOfInserted(times: seq<int>, i: nat, t: int)
    requires i <= |times|
    ensures MaxOf(Inserted(times, i, t)) == Some(Later(MaxOf(times), t))
  {
    MaxOfGrown(times, Inserted(times, i, t), t);
  }

  /** An unlock added anywhere in the list keeps a working installation working. */
  lemma UnlockOnlyRaises(license: Option<Payload>, invalid: bool, unlockEnds: seq<int>, i: nat, until: int, now: int, latest: Option<int>)
    requires i <= |unlockEnds|
    ensures var before := EvaluateAll(license, invalid, unlockEnds, now, latest);
            var after := EvaluateAll(license, invalid, Inserted(unlockEnds, i, until), now, latest);
            && (!before.status.ReadOnly() ==> !after.status.ReadOnly())
            && (before.status in {Status.Trial, Status.Perpetual} ==> after == before)
  {
    WorksExactlyWhen(license, invalid, unlockEnds, now, latest);
    WorksExactlyWhen(license, invalid, Inserted(unlockEnds, i, until), now, latest);
    MaxOfIsMax(unlockEnds);
  }

  /** Absent grace counts as none at all. */
  predicate NotLowered(before: Option<int>, after: Option<int>) {
    before.None? || (after.Some? && before.value <= after.value)
  }

  /**
   * An added unlock never lowers the reported end of the grace, except in one case: the clock
   * is behind, no unlock covered that before, and the new one covers it but ends before the
   * licence does. The shop works again, and the screen shows the nearer of the two ends.
   */
  lemma UnlockLowersGraceOnlyWhen(license: Option<Payload>, invalid: bool, unlockEnds: seq<int>, i: nat, until: int, now: int, latest: Option<int>)
    requires i <= |unlockEnds|
    ensures NotLowered(EvaluateAll(license, invalid, unlockEnds, now, latest).graceEndsAt,
                       EvaluateAll(license, invalid, Inserted(unlockEnds, i, until), now, latest).graceEndsAt)
       <==> !(&& license.Some? && license.value.kind.Trial?
              && ClockRolledBack(now, Some(Later(latest, license.value.iat)))
              && !UnlockWorks(unlockEnds, now, latest)
              && Later(latest, now) < until + Days(GRACE_DAYS)
              && until < End(license.value))
  {
    MaxOfInserted(unlockEnds, i, until);
    MaxOfIsMax(unlockEnds);
    var m := MaxOf(unlockEnds);
    assert UnlockWorks(unlockEnds, now, latest) <==> m.Some? && Later(latest, now) < m.value + Days(GRACE_DAYS);
  }

  /** The exception does happen: a clock set back under a licence with a long time to run. */
  lemma UnlockCanLowerGrace()
    ensures var p := Payload(1, "a", "WL-2345-6789", LicenseKind.Trial, Days(10), Some(Days(100)), [], None);
            var before := EvaluateAll(Some(p), false, [], Days(5), Some(Days(20)));
            var after := EvaluateAll(Some(p), false, [Days(27)], Days(5), Some(Days(20)));
            && before.status == Tampered && before.graceEndsAt == Some(Days(105))
            && after.status == Emergency && after.graceEndsAt == Some(Days(32))
  {
    assert MaxOf([Days(27)]) == Some(Days(27)) by { MaxOfIsMax([Days(27)]); }
  }

  lemma InsertedEnds<T(!new)>(s: seq<T>, i: nat, x: T)
    requires i <= |s|
    ensures var n := |s|;
            && Inserted(s, i, x)[n] == (if i == n then x else s[n - 1])
            && Inserted(s, i, x)[..n] == if i == n then s else Inserted(s[..n - 1], i, x)
  {
  }

  /** One more licence at the end of a list with `p` in it, and of the list without. */
  lemma LastToEndKeeps(front: seq<Payload>, more: seq<Payload>, p: Payload, last: Payload)
    requires forall l | l in front :: l in more
    requires LastToEnd(more) == Some(p) || LastToEnd(more) == LastToEnd(front)
    ensures var a, b := LastToEnd(front), LastToEnd(more);
            LaterToEnd(b, last) == p || LaterToEnd(b, last) == LaterToEnd(a, last)
  {
    LastToEndIsMax(front);
    LastToEndIsMax(more);
  }

  lemma {:induction false} LastToEndInserted(licenses: seq<Payload>, i: nat, p: Payload)
    requires i <= |licenses|
    ensures var r := LastToEnd(Inserted(licenses, i, p));
            r == Some(p) || r == LastToEnd(licenses)
    decreases |licenses|
  {
    var n := |licenses|;
    InsertedEnds(licenses, i, p);
    if i < n {
      LastToEndInserted(licenses[..n - 1], i, p);
      LastToEndKeeps(licenses[..n - 1], Inserted(licenses[..n - 1], i, p), p, licenses[n - 1]);
    }
  }

  /**
   * A licence added anywhere in the list stops a working installation in one case only: it
   * comes to govern, it was issued more than the tolerance ahead of the system clock, and no
   * unlock covers the shop meanwhile. An older or shorter licence never shortens anything.
   */
  lemma LicenseStopsOnlyWhen(licenses: seq<Payload>, i: nat, p: Payload, invalid: bool, unlockEnds: seq<int>, now: int, latest: Option<int>)
    requires i <= |licenses|
    requires !EvaluateAll(BestLicense(licenses), invalid, unlockEnds, now, latest).status.ReadOnly()
    ensures EvaluateAll(BestLicense(Inserted(licenses, i, p)), invalid, unlockEnds, now, latest).status.ReadOnly()
       <==> && BestLicense(Inserted(licenses, i, p)) == Some(p)
            && p.kind.Trial?
            && now + CLOCK_TOLERANCE_SECS < p.iat
            && !UnlockWorks(unlockEnds, now, latest)
  {
    var before, after := BestLicense(licenses), BestLicense(Inserted(licenses, i, p));
    WorksExactlyWhen(before, invalid, unlockEnds, now, latest);
    WorksExactlyWhen(after, invalid, unlockEnds, now, latest);
    BestGoverns(licenses);
    BestGoverns(Inserted(licenses, i, p));
    if !UnlockWorks(unlockEnds, now, latest) && after.value.kind.Trial? {
      FirstPerpetualFinds(licenses);
      FirstPerpetualFinds(Inserted(licenses, i, p));
      LastToEndInserted(licenses, i, p);
      assert before.value.kind.Trial? && End(before.value) <= End(after.value);
    }
  }

  const RUNNING_TRIAL: Payload := Payload(1, "a", "WL-2345-6789", LicenseKind.Trial, 0, Some(Days(30)), [], None)
  const TRIAL_FROM_AHEAD: Payload := Payload(1, "b", "WL-2345-6789", LicenseKind.Trial, Days(11), Some(Days(60)), [], None)

  /** It does happen, on the day 10: a trial issued on the day 11, and ending later than the one that runs. */
  lemma LicenseFromAheadStopsTheShop()
    ensures EvaluateAll(BestLicense([RUNNING_TRIAL]), false, [], Days(10), Some(Days(10))).status == Status.Trial
    ensures EvaluateAll(BestLicense([RUNNING_TRIAL, TRIAL_FROM_AHEAD]), false, [], Days(10), Some(Days(10))).status == Tampered
  {
    var running, ahead := RUNNING_TRIAL, TRIAL_FROM_AHEAD;
    assert [running][..0] == [] && [running, ahead][..1] == [running];
    FirstPerpetualFinds([running]);
    FirstPerpetualFinds([running, ahead]);
    assert LastToEnd([running]) == Some(running);
    assert LastToEnd([running, ahead]) == Some(ahead);
  }
}
