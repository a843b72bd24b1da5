/** Status, unlocking and the offline gate over stored texts: what verifies counts, and the rest is counted. */
module NativeStatus {
  import opened Basics
  import opened Payloads
  import opened LicenseStatus
  import UnlockChain
  import UnlockCode

  /** What this build trusts: the signature check of its key, and its unlock chain. */
  datatype Trust = Trust(
    verify: (string, string) -> Option<Payload>,
    hashes: UnlockChain.Hashes,
    chain: UnlockChain.Chain
  ) {
    /** The end of the window an unlock code grants on `device`. */
    function UnlockEnd(text: string, device: string): Option<int> {
      match UnlockChain.Read(hashes, text, device, chain)
      case Ok(unlock) => Some(unlock.validUntil)
      case Err(_) => None
    }
  }

  datatype Stored = Stored(licenses: seq<Payload>, invalidCodes: nat, unlockEnds: seq<int>, invalidUnlocks: nat)

  /** The results that are there, in their order. */
  function Somes<T>(results: seq<Option<T>>): seq<T> {
    if results == [] then []
    else
      var n := |results| - 1;
      Somes(results[..n]) + (if results[n].Some? then [results[n].value] else [])
  }

  function Verified(t: Trust, codes: seq<string>, device: string): (r: seq<Option<Payload>>)
    ensures |r| == |codes|
  {
    seq(|codes|, i requires 0 <= i < |codes| => t.verify(codes[i], device))
  }

  function Licenses(t: Trust, codes: seq<string>, device: string): seq<Payload> {
    Somes(Verified(t, codes, device))
  }

  function Read(t: Trust, codes: seq<string>, device: string): (r: seq<Option<int>>)
    ensures |r| == |codes|
  {
    seq(|codes|, i requires 0 <= i < |codes| => t.UnlockEnd(codes[i], device))
  }

  function UnlockEnds(t: Trust, codes: seq<string>, device: string): seq<int> {
    Somes(Read(t, codes, device))
  }

  method ReadStored(t: Trust, codes: seq<string>, unlockCodes: seq<string>, device: string) returns (stored: Stored)
    ensures stored.licenses == Licenses(t, codes, device)
    ensures stored.unlockEnds == UnlockEnds(t, unlockCodes, device)
    ensures |stored.licenses| + stored.invalidCodes == |codes|
    ensures |stored.unlockEnds| + stored.invalidUnlocks == |unlockCodes|
  {
    ghost var verified := Verified(t, codes, device);
    var licenses, invalidCodes := [], 0;
    for i := 0 to |codes|
      invariant licenses == Somes(verified[..i])
      invariant |licenses| + invalidCodes == i
    {
      assert verified[..i + 1][..i] == verified[..i];
      match t.verify(codes[i], device)
      case Some(p) => licenses := licenses + [p];
      case None => invalidCodes := invalidCodes + 1;
    }
    assert verified[..|codes|] == verified;
    var unlockEnds, invalidUnlocks := ReadUnlocks(t, unlockCodes, device);
    stored := Stored(licenses, invalidCodes, unlockEnds, invalidUnlocks);
  }

  method ReadUnlocks(t: Trust, unlockCodes: seq<string>, device: string) returns (unlockEnds: seq<int>, invalidUnlocks: nat)
    ensures unlockEnds == UnlockEnds(t, unlockCodes, device)
    ensures |unlockEnds| + invalidUnlocks == |unlockCodes|
  {
    ghost var read := Read(t, unlockCodes, device);
    unlockEnds, invalidUnlocks := [], 0;
    for i := 0 to |unlockCodes|
      invariant unlockEnds == Somes(read[..i])
      invariant |unlockEnds| + invalidUnlocks == i
    {
      assert read[..i + 1][..i] == read[..i];
      var found := UnlockChain.ReadCode(t.hashes, unlockCodes[i], device, t.chain);
      match found
      case Ok(unlock) => unlockEnds := unlockEnds + [unlock.validUntil];
      case Err(_) => invalidUnlocks := invalidUnlocks + 1;
    }
    assert read[..|unlockCodes|] == read;
  }

  /** The evaluation of what verifies among the stored texts; one that does not makes the rest suspect. */
  function StatusOf(t: Trust, codes: seq<string>, unlockCodes: seq<string>, device: string, now: int, latest: Option<int>): Evaluation {
    var licenses := Licenses(t, codes, device);
    EvaluateAll(BestLicense(licenses), |licenses| < |codes|, UnlockEnds(t, unlockCodes, device), now, latest)
  }

  method LicenseStatusOf(t: Trust, codes: seq<string>, unlockCodes: seq<string>, device: string, now: int, latest: Option<int>)
    returns (evaluation: Evaluation)
    ensures evaluation == StatusOf(t, codes, unlockCodes, device, now, latest)
  {
    var stored := ReadStored(t, codes, unlockCodes, device);
    evaluation := EvaluateAll(BestLicense(stored.licenses), stored.invalidCodes > 0, stored.unlockEnds, now, latest);
  }

  /** The offline gate, over what verifies among the stored texts. */
  predicate RecordingAllowed(t: Trust, codes: seq<string>, unlockCodes: seq<string>, device: string, time: int) {
    RecordingAllowedAt(Licenses(t, codes, device), UnlockEnds(t, unlockCodes, device), time)
  }

  method RecordingAllowedOf(t: Trust, codes: seq<string>, unlockCodes: seq<string>, device: string, time: int)
    returns (allowed: bool)
    ensures allowed == RecordingAllowed(t, codes, unlockCodes, device, time)
  {
    var stored := ReadStored(t, codes, unlockCodes, device);
    allowed := RecordingAllowedAt(stored.licenses, stored.unlockEnds, time);
  }

  /** An entered code as this build judges it: expired once either clock is past its end. */
  function VerifyUnlock(t: Trust, text: string, device: string, now: int, latest: Option<int>)
    : Result<UnlockChain.Unlock, UnlockCode.UnlockError>
  {
    UnlockChain.Verify(t.hashes, text, device, t.chain, Later(latest, now))
  }

  // ----- one more stored code

  lemma {:induction false} SomesInserted<T(!new)>(results: seq<Option<T>>, i: nat, r: Option<T>) returns (j: nat)
    requires i <= |results|
    ensures j <= |Somes(results)|
    ensures Somes(Inserted(results, i, r)) == if r.Some? then Inserted(Somes(results), j, r.value) else Somes(results)
    decreases |results|
  {
    InsertedEnds(results, i, r);
    var n := |results|;
    if i == n {
      j := |Somes(results)|;
    } else {
      j := SomesInserted(results[..n - 1], i, r);
      var last := if results[n - 1].Some? then [results[n - 1].value] else [];
      assert Somes(Inserted(results, i, r)) == Somes(Inserted(results[..n - 1], i, r)) + last;
      if r.Some? {
        InsertedThenMore(Somes(results[..n - 1]), j, r.value, last);
      }
    }
  }

  lemma InsertedThenMore<T(!new)>(s: seq<T>, j: nat, x: T, more: seq<T>)
    requires j <= |s|
    ensures Inserted(s, j, x) + more == Inserted(s + more, j, x)
  {
  }

  lemma LicensesInserted(t: Trust, codes: seq<string>, device: string, i: nat, code: string) returns (j: nat)
    requires i <= |codes|
    ensures j <= |Licenses(t, codes, device)|
    ensures var p := t.verify(code, device);
            Licenses(t, Inserted(codes, i, code), device)
            == if p.Some? then Inserted(Licenses(t, codes, device), j, p.value) else Licenses(t, codes, device)
  {
    assert Verified(t, Inserted(codes, i, code), device) == Inserted(Verified(t, codes, device), i, t.verify(code, device));
    j := SomesInserted(Verified(t, codes, device), i, t.verify(code, device));
  }

  lemma UnlockEndsInserted(t: Trust, codes: seq<string>, device: string, i: nat, code: string) returns (j: nat)
    requires i <= |codes|
    ensures j <= |UnlockEnds(t, codes, device)|
    ensures var end := t.UnlockEnd(code, device);
            UnlockEnds(t, Inserted(codes, i, code), device)
            == if end.Some? then Inserted(UnlockEnds(t, codes, device), j, end.value) else UnlockEnds(t, codes, device)
  {
    assert Read(t, Inserted(codes, i, code), device) == Inserted(Read(t, codes, device), i, t.UnlockEnd(code, device));
    j := SomesInserted(Read(t, codes, device), i, t.UnlockEnd(code, device));
  }

  lemma {:induction false} SomesAreNoMore<T>(results: seq<Option<T>>)
    ensures |Somes(results)| <= |results|
  {
    if results != [] {
      SomesAreNoMore(results[..|results| - 1]);
    }
  }

  /**
   * A pasted text, whatever it is, stored anywhere among the codes of a working installation:
   * it stops the shop only as a genuine trial that comes to govern, issued more than the
   * tolerance ahead of the system clock, with no unlock to cover meanwhile.
   */
  lemma StoredCodeStopsOnlyWhen(
    t: Trust, codes: seq<string>, i: nat, code: string, unlockCodes: seq<string>, device: string, now: int, latest: Option<int>
  )
    requires i <= |codes|
    requires !StatusOf(t, codes, unlockCodes, device, now, latest).status.ReadOnly()
    ensures StatusOf(t, Inserted(codes, i, code), unlockCodes, device, now, latest).status.ReadOnly()
       <==> var p := t.verify(code, device);
            && p.Some? && p.value.kind.Trial? && now + CLOCK_TOLERANCE_SECS < p.value.iat
            && BestLicense(Licenses(t, Inserted(codes, i, code), device)) == p
            && !UnlockWorks(UnlockEnds(t, unlockCodes, device), now, latest)
  {
    var j := LicensesInserted(t, codes, device, i, code);
    SomesAreNoMore(Verified(t, codes, device));
    var licenses, ends := Licenses(t, codes, device), UnlockEnds(t, unlockCodes, device);
    var more := Licenses(t, Inserted(codes, i, code), device);
    WorksExactlyWhen(BestLicense(licenses), |licenses| < |codes|, ends, now, latest);
    WorksExactlyWhen(BestLicense(more), |more| < |codes| + 1, ends, now, latest);
    match t.verify(code, device)
    case None =>
    case Some(p) =>
      LicenseStopsOnlyWhen(licenses, j, p, |licenses| < |codes|, ends, now, latest);
      WorksExactlyWhen(BestLicense(more), |licenses| < |codes|, ends, now, latest);
  }

  /** An unlock code, or any text in its place, never stops a working installation. */
  lemma StoredUnlockOnlyRaises(
    t: Trust, codes: seq<string>, unlockCodes: seq<string>, i: nat, text: string, device: string, now: int, latest: Option<int>
  )
    requires i <= |unlockCodes|
    requires !StatusOf(t, codes, unlockCodes, device, now, latest).status.ReadOnly()
    ensures !StatusOf(t, codes, Inserted(unlockCodes, i, text), device, now, latest).status.ReadOnly()
  {
    var j := UnlockEndsInserted(t, unlockCodes, device, i, text);
    var licenses, ends := Licenses(t, codes, device), UnlockEnds(t, unlockCodes, device);
    match t.UnlockEnd(text, device)
    case None =>
    case Some(end) =>
      UnlockOnlyRaises(BestLicense(licenses), |licenses| < |codes|, ends, j, end, now, latest);
  }

  /**
   * An entered code is accepted exactly if it reads, and ends after both clocks; it is expired
   * exactly if it reads and does not.
   */
  lemma VerifyUnlockExactlyWhen(t: Trust, text: string, device: string, now: int, latest: Option<int>)
    ensures var r := VerifyUnlock(t, text, device, now, latest);
            var read := UnlockChain.Read(t.hashes, text, device, t.chain);
            && (r.Ok? <==> read.Ok? && Before(now, latest, read.value.validUntil))
            && (r.Ok? ==> r == read)
            && (read.Ok? && !Before(now, latest, read.value.validUntil) ==> r == Err(UnlockCode.Expired(read.value.validUntil)))
            && (read.Err? ==> r.Err? && r.error == read.error)
  {
  }

  /** What is stored for an accepted code reads back as the same unlock. */
  lemma StoredFormReadsBack(h: UnlockChain.Hashes, text: string, device: string, chain: UnlockChain.Chain)
    requires UnlockChain.Read(h, text, device, chain).Ok?
    ensures var unlock := UnlockChain.Read(h, text, device, chain).value;
            UnlockChain.Read(h, unlock.normalized, device, chain) == Ok(unlock)
  {
    UnlockCode.PrintedCodeDecodes(UnlockCode.Decode(text).value);
  }

  /** An accepted unlock code, once stored, has the shop fully working at once, whatever the licence. */
  lemma AcceptedUnlockRestoresTheShop(
    t: Trust, codes: seq<string>, unlockCodes: seq<string>, i: nat, text: string, device: string, now: int, latest: Option<int>
  )
    requires i <= |unlockCodes|
    requires VerifyUnlock(t, text, device, now, latest).Ok?
    ensures var stored := VerifyUnlock(t, text, device, now, latest).value.normalized;
            !StatusOf(t, codes, Inserted(unlockCodes, i, stored), device, now, latest).status.ReadOnly()
  {
    var unlock := VerifyUnlock(t, text, device, now, latest).value;
    StoredFormReadsBack(t.hashes, text, device, t.chain);
    var j := UnlockEndsInserted(t, unlockCodes, device, i, unlock.normalized);
    var ends := UnlockEnds(t, Inserted(unlockCodes, i, unlock.normalized), device);
    assert unlock.validUntil in ends;
    var licenses := Licenses(t, codes, device);
    WorksExactlyWhen(BestLicense(licenses), |licenses| < |codes|, ends, now, latest);
  }

  /** It does happen: `LicenseFromAheadStopsTheShop`, with both codes genuine. */
  lemma StoredCodeFromAheadStopsTheShop(t: Trust, running: string, ahead: string, device: string)
    requires t.verify(running, device) == Some(RUNNING_TRIAL) && t.verify(ahead, device) == Some(TRIAL_FROM_AHEAD)
    ensures !StatusOf(t, [running], [], device, Days(10), Some(Days(10))).status.ReadOnly()
    ensures StatusOf(t, [running, ahead], [], device, Days(10), Some(Days(10))).status.ReadOnly()
  {
    var one, both := Verified(t, [running], device), Verified(t, [running, ahead], device);
    assert one == [Some(RUNNING_TRIAL)] && both == [Some(RUNNING_TRIAL), Some(TRIAL_FROM_AHEAD)];
    assert one[..0] == [] && both[..1] == one;
    assert Somes(one) == [] + [RUNNING_TRIAL] && Somes(both) == Somes(one) + [TRIAL_FROM_AHEAD];
    assert Licenses(t, [running], device) == [RUNNING_TRIAL];
    assert Licenses(t, [running, ahead], device) == [RUNNING_TRIAL, TRIAL_FROM_AHEAD];
    assert UnlockEnds(t, [], device) == [];
    LicenseFromAheadStopsTheShop();
  }

  // ----- the two gates, over stored texts

  /** With an honest clock the two calls agree, whatever texts are stored. */
  lemma StoredGatesAgree(
    t: Trust, codes: seq<string>, unlockCodes: seq<string>, device: string, now: int, latest: Option<int>
  )
    requires HonestClock(Licenses(t, codes, device), UnlockEnds(t, unlockCodes, device), now, latest)
    ensures !StatusOf(t, codes, unlockCodes, device, now, latest).status.ReadOnly()
       <==> RecordingAllowed(t, codes, unlockCodes, device, now)
  {
    var licenses := Licenses(t, codes, device);
    GatesAgree(licenses, |licenses| < |codes|, UnlockEnds(t, unlockCodes, device), now, latest);
  }

  /**
   * A code issued for a shop, once stored there among any others, has the offline gate accept
   * every sale from the issue on, to the end of the window and five days beyond; a code is never
   * issued for a window too long for that.
   */
  lemma IssuedUnlockCoversItsWindow(
    t: Trust, secret: UnlockChain.Secret, device: string, now: int, days: int,
    codes: seq<string>, unlockCodes: seq<string>, i: nat, sale: int
  )
    requires i <= |unlockCodes|
    requires var issued := UnlockChain.Issue(t.hashes, secret, t.chain, device, now, days);
             && issued.Ok?
             && issued.value.day <= t.chain.length
             && UnlockChain.TipIsNew(t.hashes, secret, t.chain, issued.value.day)
             && now <= sale < issued.value.validUntil + Days(GRACE_DAYS)
    ensures var code := UnlockChain.Issue(t.hashes, secret, t.chain, device, now, days).value.code;
            RecordingAllowed(t, codes, Inserted(unlockCodes, i, code), device, sale)
  {
    var issued := UnlockChain.Issue(t.hashes, secret, t.chain, device, now, days).value;
    UnlockChain.IssuedCodeVerifies(t.hashes, secret, t.chain, device, now, days);
    assert t.UnlockEnd(issued.code, device) == Some(issued.validUntil);
    UnlockChain.IssuesExactlyInRange(t.hashes, secret, t.chain, device, now, days);
    UnlockChain.WindowIsCapped(now, days);
    var j := UnlockEndsInserted(t, unlockCodes, device, i, issued.code);
    assert issued.validUntil in UnlockEnds(t, Inserted(unlockCodes, i, issued.code), device);
    assert UnlockCovers(issued.validUntil, sale);
  }
}
