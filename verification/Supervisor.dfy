/** The service host keeping the API running: bounded retry, counted by the kind of death. */
module Supervisor {
  import opened Basics

  const HEALTHY_AFTER: nat := 60000
  const FIRST_BACKOFF: nat := 2
  const MAX_BACKOFF: nat := 30
  const RESTART_EXIT_CODE: int := 75
  const IDENTICAL_FAILURES_BEFORE_GIVING_UP: nat := 5

  // ----- what the supervisor observes

  datatype Wait = StillRunning | Exited(code: Option<int>, text: string) | WaitFailed(text: string)

  /** One turn of the loop that watches a child: a stop asked for, the child's age in milliseconds, and what its handle says. */
  datatype Poll = Poll(stop: bool, age: nat, wait: Wait)

  datatype Attempt =
    | CannotSpawn(stopped: bool)
    | Spawned(polls: seq<Poll>, ageAtEnd: nat, reason: Option<string>, stopped: bool)

  /** The age of a child is read from a clock that never goes back. */
  predicate AgesInOrder(a: Attempt) {
    a.Spawned? ==> forall p | p in a.polls :: p.age <= a.ageAtEnd
  }

  /** How the watch of one child ends. */
  datatype Verdict = StopAsked | RestartAsked | Death(text: string) | NoVerdict

  function Watch(polls: seq<Poll>): Verdict {
    if polls == [] then NoVerdict
    else if polls[0].stop then StopAsked
    else
      match polls[0].wait
      case StillRunning => Watch(polls[1..])
      case Exited(code, text) => if code == Some(RESTART_EXIT_CODE) then RestartAsked else Death(text)
      case WaitFailed(text) => Death("try_wait failed: " + text)
  }

  /** A child was up for a minute, with nothing yet said about how it ends. */
  predicate SeenHealthy(polls: seq<Poll>) {
    && polls != [] && !polls[0].stop
    && (polls[0].age >= HEALTHY_AFTER || (polls[0].wait.StillRunning? && SeenHealthy(polls[1..])))
  }

  /** Poll `i` is the first that asks for a stop or finds the child no longer running. */
  predicate Decides(polls: seq<Poll>, i: nat) {
    && i < |polls| && (polls[i].stop || !polls[i].wait.StillRunning?)
    && forall j | 0 <= j < i :: !polls[j].stop && polls[j].wait.StillRunning?
  }

  /** The child was found to have exited, with this code. */
  predicate ExitsWith(poll: Poll, code: Option<int>) {
    !poll.stop && poll.wait.Exited? && poll.wait.code == code
  }

  /** The child was found dead: it exited with anything but 75, or its handle could not be asked. */
  predicate DiesOf(poll: Poll, text: string) {
    && !poll.stop
    && ((poll.wait.Exited? && poll.wait.code != Some(75) && poll.wait.text == text)
        || (poll.wait.WaitFailed? && "try_wait failed: " + poll.wait.text == text))
  }

  lemma {:induction false} SomePollDecides(polls: seq<Poll>) returns (i: nat)
    ensures i < |polls| ==> Decides(polls, i)
    ensures i >= |polls| ==> forall p | p in polls :: !p.stop && p.wait.StillRunning?
  {
    i := 0;
    while i < |polls| && !polls[i].stop && polls[i].wait.StillRunning?
      invariant i <= |polls| && forall j | 0 <= j < i :: !polls[j].stop && polls[j].wait.StillRunning?
    {
      i := i + 1;
    }
  }

  lemma {:induction false} FirstPollDecides(polls: seq<Poll>, i: nat)
    requires Decides(polls, i)
    ensures Watch(polls) == Watch([polls[i]])
    decreases i
  {
    assert [polls[i]][1..] == [];
    if i > 0 {
      assert polls[1..][i - 1] == polls[i];
      FirstPollDecides(polls[1..], i - 1);
    }
  }

  lemma {:induction false} NoPollDecides(polls: seq<Poll>)
    requires forall p | p in polls :: !p.stop && p.wait.StillRunning?
    ensures Watch(polls) == NoVerdict
  {
    if polls != [] {
      assert polls[0] in polls;
      NoPollDecides(polls[1..]);
    }
  }

  /**
   * The first poll that is not of a running child settles how the watch ends: a restart is an exit
   * with 75 and nothing else is.
   */
  lemma WatchEndsExactlyWhen(polls: seq<Poll>, text: string)
    ensures Watch(polls) == StopAsked <==> exists i: nat :: Decides(polls, i) && polls[i].stop
    ensures Watch(polls) == RestartAsked <==> exists i: nat :: Decides(polls, i) && ExitsWith(polls[i], Some(75))
    ensures Watch(polls) == Death(text) <==> exists i: nat :: Decides(polls, i) && DiesOf(polls[i], text)
    ensures Watch(polls) == NoVerdict <==> forall p | p in polls :: !p.stop && p.wait.StillRunning?
  {
    var i := SomePollDecides(polls);
    if i < |polls| {
      FirstPollDecides(polls, i);
      assert polls[i] in polls;
      assert forall j: nat | Decides(polls, j) :: j == i;
    } else {
      NoPollDecides(polls);
      forall j: nat
        ensures !Decides(polls, j)
      {
        assert j < |polls| ==> polls[j] in polls;
      }
    }
  }

  /** The record is cleared exactly if some poll before any verdict, or the one of an exit, finds the child a minute old. */
  lemma {:induction false} SeenHealthyExactlyWhen(polls: seq<Poll>)
    ensures SeenHealthy(polls)
       <==> exists i | 0 <= i < |polls| ::
              && polls[i].age >= 60000 && !polls[i].stop
              && forall j | 0 <= j < i :: !polls[j].stop && polls[j].wait.StillRunning?
    decreases |polls|
  {
    if polls != [] {
      var rest := polls[1..];
      SeenHealthyExactlyWhen(rest);
      if i :| 0 <= i < |polls| && polls[i].age >= 60000 && !polls[i].stop
              && forall j | 0 <= j < i :: !polls[j].stop && polls[j].wait.StillRunning? {
        if i > 0 {
          assert rest[i - 1] == polls[i];
          assert forall j | 0 <= j < i - 1 :: rest[j] == polls[j + 1];
        }
      }
      if i :| 0 <= i < |rest| && rest[i].age >= 60000 && !rest[i].stop
              && forall j | 0 <= j < i :: !rest[j].stop && rest[j].wait.StillRunning? {
        assert polls[i + 1] == rest[i];
        if !polls[0].stop && polls[0].wait.StillRunning? {
          forall j | 0 <= j < i + 1
            ensures !polls[j].stop && polls[j].wait.StillRunning?
          {
            assert j > 0 ==> polls[j] == rest[j - 1];
          }
        }
      }
    }
  }

  // ----- the history, and what it says

  datatype Past = SpawnFailure | Restart | Died(signature: string, longLived: bool)

  function Signature(text: string, reason: Option<string>): string {
    text + "|" + (if reason.Some? then reason.value else "")
  }

  /** The signature the next death is compared with. */
  function LastSignature(history: seq<Past>): Option<string> {
    if history == [] then None
    else
      var n := |history| - 1;
      match history[n]
      case SpawnFailure => LastSignature(history[..n])
      case Restart => None
      case Died(signature, _) => Some(signature)
  }

  /** How many deaths in a row have been the same. */
  function Streak(history: seq<Past>): nat {
    if history == [] then 0
    else
      var n := |history| - 1;
      match history[n]
      case SpawnFailure => Streak(history[..n])
      case Restart => 0
      case Died(signature, longLived) =>
        if !longLived && LastSignature(history[..n]) == Some(signature) then Streak(history[..n]) + 1 else 1
  }

  predicate StillTrying(history: seq<Past>) {
    Streak(history) < IDENTICAL_FAILURES_BEFORE_GIVING_UP
  }

  function Doubled(backoff: nat): nat {
    if backoff * 2 <= MAX_BACKOFF then backoff * 2 else MAX_BACKOFF
  }

  /** The seconds to wait after the last event of `history`, if it is one that is waited after. */
  function WaitAfter(history: seq<Past>): nat
    decreases |history|, 0
  {
    if history == [] then FIRST_BACKOFF
    else
      var n := |history| - 1;
      if history[n].Died? && history[n].longLived then FIRST_BACKOFF else NextBackoff(history[..n])
  }

  /** The backoff in force after `history`. */
  function NextBackoff(history: seq<Past>): nat
    decreases |history|, 1
  {
    if history == [] || history[|history| - 1].Restart? then FIRST_BACKOFF else Doubled(WaitAfter(history))
  }

  /** Every wait of a run: one after each failed spawn and each death that is not the last straw. */
  function Waits(history: seq<Past>): seq<nat> {
    if history == [] then []
    else
      var n := |history| - 1;
      Waits(history[..n])
      + (if history[n].Restart? || (history[n].Died? && !StillTrying(history))
         then [] else [WaitAfter(history)])
  }

  /** How a run stands: `healthy` says whether a child that is running has been up for a minute. */
  datatype Ended = Waiting | Watching(healthy: bool) | Stopped(healthy: bool) | Terminal {
    predicate SeenHealthy() {
      (Watching? || Stopped?) && healthy
    }
  }

  datatype Report = Report(history: seq<Past>, ended: Ended)

  /** The run as a function of what is observed. */
  function Run(history: seq<Past>, attempts: seq<Attempt>): Report
    decreases |attempts|
  {
    if attempts == [] then Report(history, Waiting)
    else
      match attempts[0]
      case CannotSpawn(stopped) =>
        var after := history + [SpawnFailure];
        if stopped then Report(after, Stopped(false)) else Run(after, attempts[1..])
      case Spawned(polls, ageAtEnd, reason, stopped) =>
        match Watch(polls)
        case NoVerdict => Report(history, Watching(SeenHealthy(polls)))
        case StopAsked => Report(history, Stopped(SeenHealthy(polls)))
        case RestartAsked => Run(history + [Restart], attempts[1..])
        case Death(text) =>
          var after := history + [Died(Signature(text, reason), ageAtEnd >= HEALTHY_AFTER)];
          if Streak(after) >= IDENTICAL_FAILURES_BEFORE_GIVING_UP then Report(after, Terminal)
          else if stopped then Report(after, Stopped(false))
          else Run(after, attempts[1..])
  }

  // ----- what one attempt adds

  /**
   * A failed spawn is one; an exit with 75 is a restart; any other end is a death, long-lived from a
   * minute on, signed with its text and reason.
   */
  lemma AttemptMeans(history: seq<Past>, attempt: Attempt, i: nat, text: string)
    requires attempt.Spawned? ==> Decides(attempt.polls, i)
    ensures var after := Run(history, [attempt]).history;
            && (attempt.CannotSpawn? ==> after == history + [SpawnFailure])
            && (attempt.Spawned? && attempt.polls[i].stop ==> after == history)
            && (attempt.Spawned? && ExitsWith(attempt.polls[i], Some(75)) ==> after == history + [Restart])
            && (attempt.Spawned? && DiesOf(attempt.polls[i], text) ==>
                  after == history + [Died(Signature(text, attempt.reason), attempt.ageAtEnd >= 60000)])
  {
    assert [attempt][1..] == [];
    if attempt.Spawned? {
      WatchEndsExactlyWhen(attempt.polls, text);
    }
  }

  /**
   * How it ends: for good by a stop or a fifth equal death; still watching while no poll decides;
   * ready for another attempt otherwise.
   */
  lemma AttemptEnds(history: seq<Past>, attempt: Attempt, i: nat, text: string)
    requires attempt.Spawned? && i < |attempt.polls| ==> Decides(attempt.polls, i)
    requires attempt.Spawned? && i >= |attempt.polls| ==> forall p | p in attempt.polls :: !p.stop && p.wait.StillRunning?
    ensures var run := Run(history, [attempt]);
            && (attempt.CannotSpawn? ==> run.ended == if attempt.stopped then Stopped(false) else Waiting)
            && (attempt.Spawned? && i >= |attempt.polls| ==> run == Report(history, Watching(SeenHealthy(attempt.polls))))
            && (attempt.Spawned? && i < |attempt.polls| ==>
                  && (attempt.polls[i].stop ==> run.ended == Stopped(SeenHealthy(attempt.polls)))
                  && (ExitsWith(attempt.polls[i], Some(75)) ==> run.ended == Waiting)
                  && (DiesOf(attempt.polls[i], text) ==>
                        run.ended == if Streak(run.history) >= 5 then Terminal else if attempt.stopped then Stopped(false) else Waiting))
  {
    assert [attempt][1..] == [];
    if attempt.Spawned? {
      WatchEndsExactlyWhen(attempt.polls, text);
    }
  }

  /** Attempts follow one another until one ends the run. */
  lemma {:induction false} RunContinues(history: seq<Past>, first: seq<Attempt>, more: seq<Attempt>)
    ensures var run := Run(history, first);
            Run(history, first + more) == if run.ended.Waiting? then Run(run.history, more) else run
    decreases |first|
  {
    if first == [] {
      assert first + more == more;
    } else {
      assert (first + more)[1..] == first[1..] + more;
      match first[0]
      case CannotSpawn(_) =>
        RunContinues(history + [SpawnFailure], first[1..], more);
      case Spawned(polls, ageAtEnd, reason, _) =>
        match Watch(polls)
        case RestartAsked =>
          RunContinues(history + [Restart], first[1..], more);
        case Death(text) =>
          RunContinues(history + [Died(Signature(text, reason), ageAtEnd >= HEALTHY_AFTER)], first[1..], more);
        case _ =>
    }
  }

  /**
   * Two deaths count as the same exactly if their texts and their reasons are; no reason is an empty
   * one, and no exit status contains a bar.
   */
  lemma SignaturesAgreeExactlyWhen(a: string, r: Option<string>, b: string, q: Option<string>)
    requires '|' !in a && '|' !in b
    ensures Signature(a, r) == Signature(b, q)
       <==> a == b && (if r.Some? then r.value else "") == (if q.Some? then q.value else "")
  {
    var x, y := if r.Some? then r.value else "", if q.Some? then q.value else "";
    if Signature(a, r) == Signature(b, q) {
      BarSplits(a, x, b, y);
    }
  }

  lemma {:induction false} BarSplits(a: string, x: string, b: string, y: string)
    requires '|' !in a && '|' !in b && a + "|" + x == b + "|" + y
    ensures a == b && x == y
  {
    var whole := a + "|" + x;
    assert whole == b + "|" + y;
    assert whole[0] == if a == "" then '|' else a[0];
    assert whole[0] == if b == "" then '|' else b[0];
    assert (a == "" || a[0] in a) && (b == "" || b[0] in b);
    if a != "" {
      assert whole[1..] == a[1..] + "|" + x && whole[1..] == b[1..] + "|" + y;
      BarSplits(a[1..], x, b[1..], y);
      assert a == [a[0]] + a[1..] && b == [b[0]] + b[1..];
    } else {
      assert whole[1..] == x && whole[1..] == y;
    }
  }

  /** A status that did contain one could be taken for another with a reason. */
  lemma BarsCanConfuseSignatures()
    ensures Signature("a|b", Some("c")) == Signature("a", Some("b|c"))
  {
    assert "a|b" + "|" + "c" == "a" + "|" + "b|c";
  }

  // ----- the loop

  /** Watches one child; its age may clear the record of earlier deaths on the way. */
  method WatchChild(polls: seq<Poll>, identical0: nat, lastSignature0: Option<string>)
    returns (verdict: Verdict, identical: nat, lastSignature: Option<string>)
    requires identical0 == 0 ==> lastSignature0 == None
    ensures verdict == Watch(polls)
    ensures SeenHealthy(polls) ==> identical == 0 && lastSignature == None
    ensures !SeenHealthy(polls) ==> identical == identical0 && lastSignature == lastSignature0
  {
    identical, lastSignature := identical0, lastSignature0;
    var i := 0;
    ghost var seen := false;
    while i < |polls|
      invariant 0 <= i <= |polls|
      invariant Watch(polls) == Watch(polls[i..])
      invariant SeenHealthy(polls) <==> seen || SeenHealthy(polls[i..])
      invariant seen ==> identical == 0 && lastSignature == None
      invariant !seen ==> identical == identical0 && lastSignature == lastSignature0
    {
      var poll := polls[i];
      if poll.stop {
        return StopAsked, identical, lastSignature;
      }
      if poll.age >= HEALTHY_AFTER && identical != 0 {
        identical := 0;
        lastSignature := None;
      }
      seen := seen || poll.age >= HEALTHY_AFTER;
      match poll.wait
      case StillRunning =>
        i := i + 1;
      case Exited(code, text) =>
        return if code == Some(RESTART_EXIT_CODE) then RestartAsked else Death(text), identical, lastSignature;
      case WaitFailed(text) =>
        return Death("try_wait failed: " + text), identical, lastSignature;
    }
    verdict := NoVerdict;
  }

  lemma AfterSpawnFailure(history: seq<Past>)
    ensures var after := history + [SpawnFailure];
            && Streak(after) == Streak(history) && LastSignature(after) == LastSignature(history)
            && NextBackoff(after) == Doubled(NextBackoff(history))
            && Waits(after) == Waits(history) + [NextBackoff(history)]
  {
    assert (history + [SpawnFailure])[..|history|] == history;
  }

  lemma AfterRestart(history: seq<Past>)
    ensures var after := history + [Restart];
            && Streak(after) == 0 && LastSignature(after) == None
            && NextBackoff(after) == FIRST_BACKOFF && Waits(after) == Waits(history)
  {
    assert (history + [Restart])[..|history|] == history;
  }

  lemma AfterDeath(history: seq<Past>, signature: string, longLived: bool)
    ensures var after := history + [Died(signature, longLived)];
            var wait := if longLived then FIRST_BACKOFF else NextBackoff(history);
            && Streak(after) == (if !longLived && LastSignature(history) == Some(signature) then Streak(history) + 1 else 1)
            && LastSignature(after) == Some(signature)
            && NextBackoff(after) == Doubled(wait)
            && Waits(after) == Waits(history) + (if StillTrying(after) then [wait] else [])
  {
    assert (history + [Died(signature, longLived)])[..|history|] == history;
  }

  /**
   * The supervisor's loop over its counters, its last signature and its backoff. `history` is
   * what its log says happened, `waits` the seconds of each sleep it began.
   */
  method Supervise(attempts: seq<Attempt>)
    returns (history: seq<Past>, ended: Ended, identical: nat, waits: seq<nat>)
    requires forall a | a in attempts :: AgesInOrder(a)
    ensures Report(history, ended) == Run([], attempts)
    ensures identical == if ended.SeenHealthy() then 0 else Streak(history)
    ensures waits == Waits(history)
  {
    var backoff: nat := FIRST_BACKOFF;
    var lastSignature: Option<string> := None;
    ghost var goal, rest := Run([], attempts), attempts;
    history, identical, waits := [], 0, [];
    for i := 0 to |attempts|
      invariant rest == attempts[i..] && goal == Run(history, rest)
      invariant identical == Streak(history) && lastSignature == LastSignature(history)
      invariant identical == 0 <==> lastSignature == None
      invariant backoff == NextBackoff(history)
      invariant waits == Waits(history)
    {
      var attempt := attempts[i];
      assert rest[0] == attempt && rest[1..] == attempts[i + 1..];
      rest := rest[1..];
      if attempt.CannotSpawn? {
        AfterSpawnFailure(history);
        history := history + [SpawnFailure];
        waits := waits + [backoff];
        if attempt.stopped {
          return history, Stopped(false), identical, waits;
        }
        backoff := Doubled(backoff);
        continue;
      }
      var verdict;
      verdict, identical, lastSignature := WatchChild(attempt.polls, identical, lastSignature);
      match verdict
      case StopAsked =>
        return history, Stopped(SeenHealthy(attempt.polls)), identical, waits;
      case NoVerdict =>
        return history, Watching(SeenHealthy(attempt.polls)), identical, waits;
      case RestartAsked =>
        AfterRestart(history);
        history := history + [Restart];
        identical, lastSignature, backoff := 0, None, FIRST_BACKOFF;
      case Death(text) =>
        var signature := Signature(text, attempt.reason);
        assert attempt in attempts && AgesInOrder(attempt);
        SeenHealthyIsOld(attempt.polls, attempt.ageAtEnd);
        AfterDeath(history, signature, attempt.ageAtEnd >= HEALTHY_AFTER);
        if lastSignature == Some(signature) {
          identical := identical + 1;
        } else {
          identical := 1;
          lastSignature := Some(signature);
        }
        if attempt.ageAtEnd >= HEALTHY_AFTER {
          backoff := FIRST_BACKOFF;
          identical := 1;
        }
        history := history + [Died(signature, attempt.ageAtEnd >= HEALTHY_AFTER)];
        if identical >= IDENTICAL_FAILURES_BEFORE_GIVING_UP {
          return history, Terminal, identical, waits;
        }
        waits := waits + [backoff];
        if attempt.stopped {
          return history, Stopped(false), identical, waits;
        }
        backoff := Doubled(backoff);
    }
    ended := Waiting;
  }

  lemma {:induction false} SeenHealthyIsOld(polls: seq<Poll>, ageAtEnd: nat)
    requires forall p | p in polls :: p.age <= ageAtEnd
    ensures SeenHealthy(polls) ==> ageAtEnd >= HEALTHY_AFTER
  {
    if polls != [] {
      assert polls[0] in polls;
      SeenHealthyIsOld(polls[1..], ageAtEnd);
    }
  }

  // ----- the counter is the run of equal deaths

  /** The deaths and restarts of a history; failed spawns neither add to a run nor cut it. */
  function Children(history: seq<Past>): (d: seq<Past>)
    ensures SpawnFailure !in d
  {
    if history == [] then []
    else
      var n := |history| - 1;
      Children(history[..n]) + (if history[n].SpawnFailure? then [] else [history[n]])
  }

  /** `b` repeats `a`: the same signature, from a child that did not live long. */
  predicate Repeats(a: Past, b: Past) {
    a.Died? && b.Died? && !b.longLived && a.signature == b.signature
  }

  /** The last `k` children, and no more, died one like the other. */
  ghost predicate IsLastRun(d: seq<Past>, k: nat) {
    && k <= |d|
    && (forall i | |d| - k <= i < |d| :: d[i].Died?)
    && (forall i | |d| - k < i < |d| :: Repeats(d[i - 1], d[i]))
    && (k == 0 ==> d == [] || d[|d| - 1].Restart?)
    && (0 < k < |d| ==> !Repeats(d[|d| - k - 1], d[|d| - k]))
  }

  lemma {:induction false} LastSignatureIs(history: seq<Past>)
    ensures var d := Children(history);
            LastSignature(history) == if d != [] && d[|d| - 1].Died? then Some(d[|d| - 1].signature) else None
  {
    if history != [] {
      LastSignatureIs(history[..|history| - 1]);
    }
  }

  lemma DeathExtends(d: seq<Past>, e: Past, last: Option<string>, k: nat)
    requires IsLastRun(d, k) && e.Died?
    requires last == if d != [] && d[|d| - 1].Died? then Some(d[|d| - 1].signature) else None
    ensures IsLastRun(d + [e], if !e.longLived && last == Some(e.signature) then k + 1 else 1)
  {
    RunExtends(d, e, k);
  }

  /** One more event, from what it makes of the streak and of the children. */
  lemma StreakMoves(d: seq<Past>, k: nat, last: Option<string>, e: Past, d': seq<Past>, k': nat)
    requires IsLastRun(d, k)
    requires last == if d != [] && d[|d| - 1].Died? then Some(d[|d| - 1].signature) else None
    requires d' == d + (if e.SpawnFailure? then [] else [e])
    requires k' == match e
                   case SpawnFailure => k
                   case Restart => 0
                   case Died(signature, longLived) => if !longLived && last == Some(signature) then k + 1 else 1
    ensures IsLastRun(d', k')
  {
    match e
    case SpawnFailure =>
      assert d' == d;
    case Restart =>
    case Died(_, _) =>
      DeathExtends(d, e, last, k);
  }

  lemma {:induction false} StreakIsARun(history: seq<Past>)
    ensures IsLastRun(Children(history), Streak(history))
  {
    if history != [] {
      var n := |history| - 1;
      var front := history[..n];
      StreakIsARun(front);
      LastSignatureIs(front);
      StreakMoves(Children(front), Streak(front), LastSignature(front), history[n], Children(history), Streak(history));
    }
  }

  lemma RunExtends(d: seq<Past>, e: Past, k: nat)
    requires IsLastRun(d, k) && e.Died?
    ensures IsLastRun(d + [e], if d != [] && Repeats(d[|d| - 1], e) then k + 1 else 1)
  {
  }

  lemma RunIsUnique(d: seq<Past>, j: nat, k: nat)
    requires IsLastRun(d, j) && IsLastRun(d, k)
    ensures j == k
  {
    if j < k {
      LongerRunRepeats(d, j, k);
    } else if k < j {
      LongerRunRepeats(d, k, j);
    }
  }

  lemma LongerRunRepeats(d: seq<Past>, j: nat, k: nat)
    requires IsLastRun(d, k) && j < k
    ensures !IsLastRun(d, j)
  {
    if j == 0 {
      assert d[|d| - 1].Died?;
    } else {
      assert Repeats(d[|d| - j - 1], d[|d| - j]);
    }
  }

  /** The counter is the length of the last run of equal deaths, and nothing else is. */
  lemma StreakIsTheLastRun(history: seq<Past>, k: nat)
    ensures Streak(history) == k <==> IsLastRun(Children(history), k)
  {
    StreakIsARun(history);
    if IsLastRun(Children(history), k) {
      RunIsUnique(Children(history), k, Streak(history));
    }
  }

  // ----- when it gives up, and how long it waits

  lemma StreakGrowsByOne(history: seq<Past>, e: Past)
    ensures Streak(history + [e]) <= if e.Died? then Streak(history) + 1 else Streak(history)
  {
    assert (history + [e])[..|history|] == history;
  }

  /** The run so far had not reached five at any earlier point. */
  ghost predicate NotYet(history: seq<Past>) {
    forall k: nat | k < |history| :: Streak(history[..k]) < IDENTICAL_FAILURES_BEFORE_GIVING_UP
  }

  lemma NotYetExtends(history: seq<Past>, e: Past)
    requires NotYet(history) && StillTrying(history)
    ensures NotYet(history + [e])
  {
    var more := history + [e];
    forall k: nat | k < |more|
      ensures Streak(more[..k]) < IDENTICAL_FAILURES_BEFORE_GIVING_UP
    {
      if k < |history| {
        assert more[..k] == history[..k];
      } else {
        assert more[..k] == history;
      }
    }
  }

  lemma OneMore(history: seq<Past>, e: Past)
    requires NotYet(history) && StillTrying(history)
    ensures NotYet(history + [e]) && Streak(history + [e]) <= IDENTICAL_FAILURES_BEFORE_GIVING_UP
    ensures !e.Died? ==> StillTrying(history + [e])
  {
    NotYetExtends(history, e);
    StreakGrowsByOne(history, e);
  }

  /** Terminal means five equal deaths, reached by the last event and never before; anything else means fewer. */
  ghost predicate EndsRight(r: Report) {
    && NotYet(r.history)
    && (r.ended == Terminal <==> !StillTrying(r.history))
    && (r.ended == Terminal ==> Streak(r.history) == IDENTICAL_FAILURES_BEFORE_GIVING_UP
                                && r.history != [] && r.history[|r.history| - 1].Died?)
  }

  /**
   * The supervisor gives up at the fifth equal death in a row, the first time there are five,
   * and at no other point; nothing is started after that.
   */
  lemma {:induction false} GivesUpExactlyAtFive(history: seq<Past>, attempts: seq<Attempt>)
    requires NotYet(history) && StillTrying(history)
    ensures EndsRight(Run(history, attempts))
    ensures |Run(history, attempts).history| <= |history| + |attempts|
    decreases |attempts|
  {
    if attempts != [] {
      var rest := attempts[1..];
      match attempts[0]
      case CannotSpawn(stopped) =>
        OneMore(history, SpawnFailure);
        if !stopped {
          GivesUpExactlyAtFive(history + [SpawnFailure], rest);
        }
      case Spawned(polls, ageAtEnd, reason, stopped) =>
        match Watch(polls)
        case NoVerdict =>
        case StopAsked =>
        case RestartAsked =>
          OneMore(history, Restart);
          GivesUpExactlyAtFive(history + [Restart], rest);
        case Death(text) =>
          var death := Died(Signature(text, reason), ageAtEnd >= HEALTHY_AFTER);
          OneMore(history, death);
          if StillTrying(history + [death]) && !stopped {
            GivesUpExactlyAtFive(history + [death], rest);
          }
    }
  }

  /** The waits grow from two seconds to thirty: powers of two below, and thirty at the top. */
  lemma {:induction false} BackoffIsBounded(history: seq<Past>)
    ensures WaitAfter(history) in {2, 4, 8, 16, 30} && NextBackoff(history) in {2, 4, 8, 16, 30}
  {
    if history != [] {
      BackoffIsBounded(history[..|history| - 1]);
    }
  }

  /** How many waits in a row, this one included, since the last restart or the last child that lived a minute. */
  function SinceReset(history: seq<Past>): nat {
    if history == [] || history[|history| - 1].Restart? then 0
    else
      var n := |history| - 1;
      if history[n].Died? && history[n].longLived then 1 else SinceReset(history[..n]) + 1
  }

  /** The wait doubles with each of those, from two seconds, up to the cap. */
  lemma {:induction false} BackoffIsAPower(history: seq<Past>)
    ensures var next := TwoTo(SinceReset(history) + 1);
            NextBackoff(history) == if next <= MAX_BACKOFF then next else MAX_BACKOFF
  {
    if history != [] {
      BackoffIsAPower(history[..|history| - 1]);
    }
  }

  /** The event puts the wait back to its start. */
  predicate IsReset(e: Past) {
    e.Restart? || (e.Died? && e.longLived)
  }

  /** The first `n` waits after a reset: two seconds, doubled each time up to the cap. */
  function Schedule(n: nat): (waits: seq<nat>)
    ensures |waits| == n
  {
    seq(n, k requires 0 <= k < n => CappedPower(k + 1))
  }

  function CappedPower(n: nat): nat {
    if TwoTo(n) <= MAX_BACKOFF then TwoTo(n) else MAX_BACKOFF
  }

  lemma WaitIsAPower(history: seq<Past>)
    requires history != [] && !history[|history| - 1].Restart?
    ensures WaitAfter(history) == CappedPower(SinceReset(history))
  {
    assert TwoTo(1) == FIRST_BACKOFF;
    BackoffIsAPower(history[..|history| - 1]);
  }

  lemma {:induction false} SinceResetCounts(history: seq<Past>, e: Past, tail: seq<Past>)
    requires IsReset(e) && forall x | x in tail :: !IsReset(x)
    ensures SinceReset(history + [e] + tail) == |tail| + (if e.Restart? then 0 else 1)
    decreases |tail|
  {
    var all := history + [e] + tail;
    var n := |all| - 1;
    if tail != [] {
      var front := tail[..|tail| - 1];
      SinceResetCounts(history, e, front);
      assert all[..n] == history + [e] + front && all[n] == tail[|tail| - 1] && all[n] in tail;
    }
  }

  lemma OneMoreWait(before: seq<Past>, x: Past, waits: seq<nat>, n: nat)
    requires !x.Restart? && StillTrying(before + [x])
    requires n > 0 && SinceReset(before + [x]) == n && Waits(before) == waits + Schedule(n - 1)
    ensures Waits(before + [x]) == waits + Schedule(n)
  {
    var all := before + [x];
    assert all[..|before|] == before;
    WaitIsAPower(all);
    ScheduleGrows(n);
    assert waits + Schedule(n - 1) + [CappedPower(n)] == waits + (Schedule(n - 1) + [CappedPower(n)]);
  }

  lemma FrontStillTrying(history: seq<Past>, x: Past)
    requires NotYet(history + [x])
    ensures NotYet(history) && StillTrying(history)
  {
    var all := history + [x];
    assert all[..|history|] == history;
    assert forall k: nat | k < |history| :: history[..k] == all[..k];
  }

  /** While it is still trying. */
  lemma {:induction false} SleepsSinceReset(history: seq<Past>, e: Past, tail: seq<Past>)
    requires IsReset(e) && forall x | x in tail :: !IsReset(x)
    requires NotYet(history + [e] + tail) && StillTrying(history + [e] + tail)
    ensures Waits(history + [e] + tail) == Waits(history) + Schedule(|tail| + (if e.Restart? then 0 else 1))
    decreases |tail|
  {
    var all := history + [e] + tail;
    if tail == [] {
      assert all == history + [e];
      WaitsOnce(history, e);
    } else {
      var front, x := tail[..|tail| - 1], tail[|tail| - 1];
      var before := history + [e] + front;
      var n := |tail| + (if e.Restart? then 0 else 1);
      assert x in tail && tail == front + [x] && all == before + [x];
      FrontStillTrying(before, x);
      SleepsSinceReset(history, e, front);
      SinceResetCounts(history, e, tail);
      OneMoreWait(before, x, Waits(history), n);
    }
  }

  lemma WaitsOnce(history: seq<Past>, e: Past)
    requires IsReset(e)
    ensures Waits(history + [e]) == Waits(history) + Schedule(if e.Restart? then 0 else 1)
  {
    if e.Restart? {
      AfterRestart(history);
    } else {
      AfterDeath(history, e.signature, true);
      assert TwoTo(1) == FIRST_BACKOFF;
      assert Schedule(1) == [FIRST_BACKOFF];
    }
  }

  lemma ScheduleGrows(n: nat)
    requires n > 0
    ensures Schedule(n) == Schedule(n - 1) + [CappedPower(n)]
  {
  }

  /**
   * From every restart that was asked for, and from every child that lived a minute, the
   * sleeps start over and run through the schedule until the next one; the last death of a
   * run that gives up is not slept after.
   */
  lemma BackoffRestarts(history: seq<Past>, e: Past, tail: seq<Past>)
    requires IsReset(e) && forall x | x in tail :: !IsReset(x)
    requires NotYet(history + [e] + tail)
    ensures var all, first := history + [e] + tail, if e.Restart? then 0 else 1;
            && (StillTrying(all) ==> Waits(all) == Waits(history) + Schedule(first + |tail|))
            && (!StillTrying(all) ==> tail != [] && Waits(all) == Waits(history) + Schedule(first + |tail| - 1))
  {
    var all := history + [e] + tail;
    WaitsOnce(history, e);
    assert tail == [] ==> all == history + [e];
    if StillTrying(all) {
      SleepsSinceReset(history, e, tail);
    } else {
      var front, x := tail[..|tail| - 1], tail[|tail| - 1];
      assert x in tail && all == (history + [e] + front) + [x];
      SleepsBeforeTheEnd(history, e, front, x);
    }
  }

  lemma SleepsBeforeTheEnd(history: seq<Past>, e: Past, front: seq<Past>, x: Past)
    requires IsReset(e) && !IsReset(x) && forall y | y in front :: !IsReset(y)
    requires NotYet(history + [e] + front + [x]) && !StillTrying(history + [e] + front + [x])
    ensures Waits(history + [e] + front + [x]) == Waits(history) + Schedule((if e.Restart? then 0 else 1) + |front|)
  {
    var before := history + [e] + front;
    FrontStillTrying(before, x);
    SleepsSinceReset(history, e, front);
    if x.SpawnFailure? {
      AfterSpawnFailure(before);
    } else {
      AfterDeath(before, x.signature, x.longLived);
    }
  }

  const FIRST_WAITS: seq<nat> := [2, 4, 8, 16]

  function Repeated(signature: string, n: nat): (history: seq<Past>)
    ensures |history| == n
  {
    seq(n, _ => Died(signature, false))
  }

  /** The attempt ends in a death with this signature, of a child that did not live long. */
  predicate DiesAs(a: Attempt, signature: string) {
    && a.Spawned? && Watch(a.polls).Death? && a.ageAtEnd < HEALTHY_AFTER && !a.stopped
    && Signature(Watch(a.polls).text, a.reason) == signature
  }

  lemma {:induction false} RepeatedStreak(signature: string, n: nat)
    ensures Streak(Repeated(signature, n)) == n
    ensures LastSignature(Repeated(signature, n)) == if n == 0 then None else Some(signature)
  {
    if n > 0 {
      RepeatedStreak(signature, n - 1);
      assert Repeated(signature, n)[..n - 1] == Repeated(signature, n - 1);
    }
  }

  lemma RepeatedWaits(signature: string, n: nat)
    requires n <= 4
    ensures Waits(Repeated(signature, n)) == FIRST_WAITS[..n]
    ensures n > 0 ==> WaitAfter(Repeated(signature, n)) == FIRST_WAITS[n - 1]
  {
    if n > 0 {
      RepeatedWaits(signature, n - 1);
      RepeatedStreak(signature, n);
      assert Repeated(signature, n)[..n - 1] == Repeated(signature, n - 1);
      assert Waits(Repeated(signature, n)) == Waits(Repeated(signature, n - 1)) + [WaitAfter(Repeated(signature, n))];
      assert WaitAfter(Repeated(signature, n)) == FIRST_WAITS[n - 1];
      assert FIRST_WAITS[..n] == FIRST_WAITS[..n - 1] + [FIRST_WAITS[n - 1]];
    }
  }

  lemma {:induction false} RunOfRepeated(signature: string, n: nat, attempts: seq<Attempt>)
    requires n < 5 <= n + |attempts| && forall a | a in attempts :: DiesAs(a, signature)
    ensures Run(Repeated(signature, n), attempts) == Report(Repeated(signature, 5), Terminal)
    decreases 5 - n
  {
    assert attempts[0] in attempts;
    assert Repeated(signature, n) + [Died(signature, false)] == Repeated(signature, n + 1);
    RepeatedStreak(signature, n + 1);
    if n < 4 {
      RunOfRepeated(signature, n + 1, attempts[1..]);
    }
  }

  /** A fixed fault: five children, four waits of 2, 4, 8 and 16 seconds, and then nothing more. */
  lemma FixedFaultStartsFiveChildren(signature: string, attempts: seq<Attempt>)
    requires |attempts| >= 5 && forall a | a in attempts :: DiesAs(a, signature)
    ensures Run([], attempts) == Report(Repeated(signature, 5), Terminal)
    ensures Waits(Repeated(signature, 5)) == [2, 4, 8, 16]
  {
    assert Repeated(signature, 0) == [];
    RunOfRepeated(signature, 0, attempts);
    RepeatedWaits(signature, 4);
    assert FIRST_WAITS[..4] == [2, 4, 8, 16];
    RepeatedStreak(signature, 5);
    assert Repeated(signature, 5)[..4] == Repeated(signature, 4);
  }
}
