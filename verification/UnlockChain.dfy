/** The hash chain behind the unlock codes: issuing a code, and checking one. */
module UnlockChain {
  import opened Basics
  import opened UnlockNumeral
  import opened UnlockCode

  /** The UTC day a time falls in, counted from 1970-01-01. */
  function DayOf(time: int): int {
    time / 86400
  }

  const WINDOW_DAYS: int := 7
  const MAX_DAYS: int := 30
  const EPOCH_LEAD_DAYS: int := WINDOW_DAYS + 1

  /** The 32 bytes derived from the issuer's private key. */
  type Secret = seq<nat>

  /** The hashes, as functions of which nothing else is known. */
  datatype Hashes = Hashes(first: Secret -> Word, step: Word -> Word, bind: string -> Word)

  datatype Chain = Chain(epochDay: int, length: nat, tip: Word) {
    /** The end of the window of chain day `day`. */
    function ValidUntil(day: nat): int {
      Days(epochDay + day + WINDOW_DAYS)
    }

    /** The start of the day that the chain was made on. */
    function CreatedAt(): int {
      Days(epochDay + EPOCH_LEAD_DAYS)
    }
  }

  datatype Unlock = Unlock(day: nat, validUntil: int, normalized: string)

  datatype Issued = Issued(code: string, day: nat, validUntil: int)

  datatype IssueError = DaysOutOfRange | WrongKey | OutsideChain

  // ----- mixing with the device

  /** Bitwise exclusive or. */
  function Xor(a: nat, b: nat): nat
    decreases a + b
  {
    if a == 0 && b == 0 then 0
    else 2 * Xor(a / 2, b / 2) + (if a % 2 == b % 2 then 0 else 1)
  }

  lemma {:induction false} XorFits(a: nat, b: nat, n: nat)
    requires a < TwoTo(n) && b < TwoTo(n)
    ensures Xor(a, b) < TwoTo(n)
    decreases n
  {
    if n > 0 {
      XorFits(a / 2, b / 2, n - 1);
    }
  }

  lemma {:induction false} XorUndoes(a: nat, b: nat)
    ensures Xor(Xor(a, b), b) == a
    decreases a + b
  {
    if a != 0 || b != 0 {
      XorUndoes(a / 2, b / 2);
      assert Xor(a, b) / 2 == Xor(a / 2, b / 2);
    }
  }

  lemma WordIsTwoTo64()
    ensures WORDS == TwoTo(64)
  {
    assert TwoTo(8) == 256;
    TwoToAdd(8, 8);
    assert TwoTo(16) == 0x1_0000;
    TwoToAdd(16, 16);
    assert TwoTo(32) == 0x1_0000_0000;
    TwoToAdd(32, 32);
  }

  lemma {:induction false} TwoToAdd(m: nat, n: nat)
    ensures TwoTo(m + n) == TwoTo(m) * TwoTo(n)
  {
    if n > 0 {
      TwoToAdd(m, n - 1);
      assert TwoTo(m + n) == 2 * TwoTo(m + (n - 1));
    }
  }

  /** A link mixed with a device's word. */
  function Mix(x: Word, mask: Word): Word {
    WordIsTwoTo64();
    XorFits(x, mask, 64);
    Xor(x, mask)
  }

  /** Mixing twice gives the link back. */
  lemma MixUndoes(x: Word, mask: Word)
    ensures Mix(Mix(x, mask), mask) == x
  {
    XorUndoes(x, mask);
  }

  /** Bit `i` of `x`, the lowest being bit 0. */
  function Bit(x: nat, i: nat): nat {
    if i == 0 then x % 2 else Bit(x / 2, i - 1)
  }

  lemma {:induction false} XorBits(a: nat, b: nat, i: nat)
    ensures Bit(Xor(a, b), i) == 1 <==> Bit(a, i) != Bit(b, i)
    decreases i
  {
    if i > 0 {
      XorBits(a / 2, b / 2, i - 1);
      assert Xor(a, b) / 2 == Xor(a / 2, b / 2);
    }
  }

  /** A bit of the mixture is set exactly where the two words differ. */
  lemma MixBits(x: Word, mask: Word, i: nat)
    ensures Bit(Mix(x, mask), i) == 1 <==> Bit(x, i) != Bit(mask, i)
  {
    XorBits(x, mask, i);
  }

  lemma {:induction false} XorCommutes(a: nat, b: nat)
    ensures Xor(a, b) == Xor(b, a)
    decreases a + b
  {
    if a != 0 || b != 0 {
      XorCommutes(a / 2, b / 2);
    }
  }

  /** One word mixed with two masks gives the same exactly if the masks are. */
  lemma MixTellsMasksApart(x: Word, m: Word, n: Word)
    ensures Mix(x, m) == Mix(x, n) <==> m == n
  {
    XorCommutes(x, m);
    XorCommutes(x, n);
    XorUndoes(m, x);
    XorUndoes(n, x);
  }

  // ----- the chain

  function Iterate(step: Word -> Word, x: Word, n: nat): Word
    decreases n
  {
    if n == 0 then x else Iterate(step, step(x), n - 1)
  }

  lemma {:induction false} IterateAdds(step: Word -> Word, x: Word, m: nat, n: nat)
    ensures Iterate(step, Iterate(step, x, m), n) == Iterate(step, x, m + n)
    decreases m
  {
    if m > 0 {
      IterateAdds(step, step(x), m - 1, n);
    }
  }

  /** The first link hashed `length - day` times, so that the tip is the link of day 0. */
  function Link(h: Hashes, secret: Secret, length: nat, day: nat): Word
    requires day <= length
  {
    Iterate(h.step, h.first(secret), length - day)
  }

  method ComputeLink(h: Hashes, secret: Secret, length: nat, day: nat) returns (v: Word)
    requires day <= length
    ensures v == Link(h, secret, length, day)
  {
    v := h.first(secret);
    for i := day to length
      invariant Iterate(h.step, v, length - i) == Link(h, secret, length, day)
    {
      v := h.step(v);
    }
  }

  function NewChain(h: Hashes, secret: Secret, epochDay: int, length: nat): Chain {
    Chain(epochDay, length, Link(h, secret, length, 0))
  }

  // ----- checking a code

  /** Chain day `day` is the first on which `link`, hashed forward, meets the tip. */
  ghost predicate FirstMeets(step: Word -> Word, link: Word, tip: Word, day: nat) {
    && Iterate(step, link, day) == tip
    && forall j: nat | j < day :: Iterate(step, link, j) != tip
  }

  /** Looks for the tip from day `day` on. */
  function FindDay(step: Word -> Word, link: Word, chain: Chain, day: nat): (found: Option<nat>)
    requires day <= chain.length + 1
    decreases chain.length + 1 - day
  {
    if day > chain.length then None
    else if Iterate(step, link, day) == chain.tip then Some(day)
    else FindDay(step, link, chain, day + 1)
  }

  lemma {:induction false} FindDayIsFirst(step: Word -> Word, link: Word, chain: Chain, from: nat)
    requires from <= chain.length + 1
    requires forall j: nat | j < from :: Iterate(step, link, j) != chain.tip
    ensures var r := FindDay(step, link, chain, from);
            && (r.Some? ==> r.value <= chain.length && FirstMeets(step, link, chain.tip, r.value))
            && (r.None? ==> forall day: nat | day <= chain.length :: Iterate(step, link, day) != chain.tip)
    decreases chain.length + 1 - from
  {
    if from <= chain.length && Iterate(step, link, from) != chain.tip {
      FindDayIsFirst(step, link, chain, from + 1);
    }
  }

  lemma FindDayIs(step: Word -> Word, link: Word, chain: Chain, day: nat)
    requires day <= chain.length && FirstMeets(step, link, chain.tip, day)
    ensures FindDay(step, link, chain, 0) == Some(day)
  {
    FindDayIsFirst(step, link, chain, 0);
    assert Iterate(step, link, day) == chain.tip;
  }

  method WalkToTip(step: Word -> Word, link: Word, chain: Chain) returns (found: Option<nat>)
    ensures found == FindDay(step, link, chain, 0)
  {
    var y := link;
    for day := 0 to chain.length + 1
      invariant y == Iterate(step, link, day)
      invariant FindDay(step, link, chain, 0) == FindDay(step, link, chain, day)
    {
      if y == chain.tip {
        return Some(day);
      }
      y := step(y);
      IterateAdds(step, link, day, 1);
    }
    found := None;
  }

  /** The unlock whose link, unmixed with `device`, first meets the tip; any window will do. */
  function Read(h: Hashes, text: string, device: string, chain: Chain): Result<Unlock, UnlockError> {
    match Decode(text)
    case Err(error) => Err(error)
    case Ok(x) =>
      match FindDay(h.step, Mix(x, h.bind(device)), chain, 0)
      case None => Err(NotValid)
      case Some(day) => Ok(Unlock(day, chain.ValidUntil(day), Encode(x)))
  }

  method ReadCode(h: Hashes, text: string, device: string, chain: Chain) returns (r: Result<Unlock, UnlockError>)
    ensures r == Read(h, text, device, chain)
  {
    match Decode(text)
    case Err(error) =>
      r := Err(error);
    case Ok(x) =>
      var found := WalkToTip(h.step, Mix(x, h.bind(device)), chain);
      match found
      case None => r := Err(NotValid);
      case Some(day) => r := Ok(Unlock(day, chain.ValidUntil(day), Encode(x)));
  }

  /** `Read`, but an unlock that ends by `reference` is an error. */
  function Verify(h: Hashes, text: string, device: string, chain: Chain, reference: int): Result<Unlock, UnlockError> {
    match Read(h, text, device, chain)
    case Err(error) => Err(error)
    case Ok(unlock) =>
      if unlock.validUntil <= reference then Err(Expired(unlock.validUntil)) else Ok(unlock)
  }

  /** The code that carries `link` to `device`. */
  function CodeOf(h: Hashes, link: Word, device: string): string {
    Encode(Mix(link, h.bind(device)))
  }

  lemma ReadOfLink(h: Hashes, link: Word, device: string, chain: Chain)
    ensures var code := CodeOf(h, link, device);
            var day := FindDay(h.step, link, chain, 0);
            Read(h, code, device, chain)
            == if day.Some? then Ok(Unlock(day.value, chain.ValidUntil(day.value), code)) else Err(NotValid)
  {
    var x := Mix(link, h.bind(device));
    PrintedCodeDecodes(x);
    MixUndoes(link, h.bind(device));
  }

  /** The code carries its link to one device: to another it is the code of the link mixed with both words. */
  lemma ReadOnAnotherDevice(h: Hashes, link: Word, a: string, b: string, chain: Chain, day: nat)
    requires day <= chain.length
    ensures Read(h, CodeOf(h, link, a), b, chain) == Ok(Unlock(day, chain.ValidUntil(day), CodeOf(h, link, a)))
       <==> FirstMeets(h.step, Mix(Mix(link, h.bind(a)), h.bind(b)), chain.tip, day)
  {
    var x := Mix(link, h.bind(a));
    var other := Mix(x, h.bind(b));
    MixUndoes(x, h.bind(b));
    ReadIsFirstMeeting(h, other, b, chain, day);
  }

  /** Two devices print the same code for one link exactly if their words are the same. */
  lemma CodesTellDevicesApart(h: Hashes, link: Word, a: string, b: string)
    ensures CodeOf(h, link, a) == CodeOf(h, link, b) <==> h.bind(a) == h.bind(b)
  {
    PrintedCodeDecodes(Mix(link, h.bind(a)));
    PrintedCodeDecodes(Mix(link, h.bind(b)));
    MixTellsMasksApart(link, h.bind(a), h.bind(b));
  }

  /** A code is read as the first day its link meets the tip, and as nothing if there is none. */
  lemma ReadIsFirstMeeting(h: Hashes, link: Word, device: string, chain: Chain, day: nat)
    requires day <= chain.length
    ensures Read(h, CodeOf(h, link, device), device, chain)
            == Ok(Unlock(day, chain.ValidUntil(day), CodeOf(h, link, device)))
       <==> FirstMeets(h.step, link, chain.tip, day)
  {
    ReadOfLink(h, link, device, chain);
    FindDayIsFirst(h.step, link, chain, 0);
    if FirstMeets(h.step, link, chain.tip, day) {
      FindDayIs(h.step, link, chain, day);
    }
  }

  /**
   * A code derived from one that was heard dies no later than it does: the link hashed `k`
   * times more is a code for the day `k` before, ends `k` days earlier, and so is expired
   * when the heard code ends. Nothing is assumed of `step`.
   */
  lemma DerivedCodesDieEarlier(h: Hashes, heard: string, x: Word, u: Unlock, device: string, chain: Chain, k: nat, earlier: nat)
    requires Decode(heard) == Ok(x) && u.day == earlier + k
    requires Read(h, heard, device, chain) == Ok(u)
    ensures var derived := CodeOf(h, Iterate(h.step, Mix(x, h.bind(device)), k), device);
            var end := chain.ValidUntil(earlier);
            && end == u.validUntil - Days(k)
            && Read(h, derived, device, chain) == Ok(Unlock(earlier, end, derived))
            && Verify(h, derived, device, chain, u.validUntil) == Err(Expired(end))
  {
    ReadMeans(h, heard, x, u, device, chain);
    EndsEarlier(chain, u, k, earlier);
    DerivedLinkDies(h, Mix(x, h.bind(device)), u, device, chain, k, earlier);
  }

  lemma ReadMeans(h: Hashes, text: string, x: Word, u: Unlock, device: string, chain: Chain)
    requires Decode(text) == Ok(x) && Read(h, text, device, chain) == Ok(u)
    ensures FindDay(h.step, Mix(x, h.bind(device)), chain, 0) == Some(u.day)
    ensures u.validUntil == chain.ValidUntil(u.day)
  {
  }

  lemma EndsEarlier(chain: Chain, u: Unlock, k: nat, earlier: nat)
    requires u.day == earlier + k && u.validUntil == chain.ValidUntil(u.day)
    ensures chain.ValidUntil(earlier) == u.validUntil - Days(k)
  {
  }

  lemma DerivedLinkDies(h: Hashes, link: Word, u: Unlock, device: string, chain: Chain, k: nat, earlier: nat)
    requires FindDay(h.step, link, chain, 0) == Some(u.day) && u.day == earlier + k
    requires chain.ValidUntil(earlier) <= u.validUntil
    ensures var derived := CodeOf(h, Iterate(h.step, link, k), device);
            var end := chain.ValidUntil(earlier);
            && Read(h, derived, device, chain) == Ok(Unlock(earlier, end, derived))
            && Verify(h, derived, device, chain, u.validUntil) == Err(Expired(end))
  {
    DerivedLinkReads(h, link, device, chain, u.day, k, earlier);
    VerifyMeans(h, CodeOf(h, Iterate(h.step, link, k), device), device, chain, u.validUntil);
  }

  lemma VerifyMeans(h: Hashes, text: string, device: string, chain: Chain, reference: int)
    requires Read(h, text, device, chain).Ok?
    ensures var u := Read(h, text, device, chain).value;
            Verify(h, text, device, chain, reference)
            == if u.validUntil <= reference then Err(Expired(u.validUntil)) else Ok(u)
  {
  }

  lemma DerivedLinkReads(h: Hashes, link: Word, device: string, chain: Chain, day: nat, k: nat, earlier: nat)
    requires FindDay(h.step, link, chain, 0) == Some(day) && day == earlier + k
    ensures var derived := CodeOf(h, Iterate(h.step, link, k), device);
            Read(h, derived, device, chain) == Ok(Unlock(earlier, chain.ValidUntil(earlier), derived))
  {
    FindDayLater(h.step, link, chain, earlier, k);
    ReadOfLink(h, Iterate(h.step, link, k), device, chain);
  }

  lemma FindDayLater(step: Word -> Word, link: Word, chain: Chain, earlier: nat, k: nat)
    requires FindDay(step, link, chain, 0) == Some(earlier + k)
    ensures FindDay(step, Iterate(step, link, k), chain, 0) == Some(earlier)
  {
    FindDayIsFirst(step, link, chain, 0);
    FirstMeetsLater(step, link, chain.tip, earlier, k);
    FindDayIs(step, Iterate(step, link, k), chain, earlier);
  }

  lemma FirstMeetsLater(step: Word -> Word, link: Word, tip: Word, earlier: nat, k: nat)
    requires FirstMeets(step, link, tip, earlier + k)
    ensures FirstMeets(step, Iterate(step, link, k), tip, earlier)
  {
    IterateAdds(step, link, k, earlier);
    forall j: nat | j < earlier
      ensures Iterate(step, Iterate(step, link, k), j) != tip
    {
      IterateAdds(step, link, k, j);
      assert Iterate(step, link, k + j) != tip;
    }
  }

  // ----- issuing a code

  function Issue(h: Hashes, secret: Secret, chain: Chain, device: string, now: int, days: int): Result<Issued, IssueError> {
    if !(1 <= days <= MAX_DAYS) then Err(DaysOutOfRange)
    else if NewChain(h, secret, chain.epochDay, chain.length) != chain then Err(WrongKey)
    else
      var today := DayOf(now);
      var day := today + days + 1 - WINDOW_DAYS - chain.epochDay;
      if day < 0 || day > chain.length then Err(OutsideChain)
      else Ok(Issued(CodeOf(h, Link(h, secret, chain.length, day), device), day, chain.ValidUntil(day)))
  }

  /** The start of the UTC day after the last day a code issued now for `days` days covers. */
  function EndOf(now: int, days: int): int {
    Days(DayOf(now) + days + 1)
  }

  /** The issuer refuses, once its own checks pass, exactly the ends outside the chain's range. */
  lemma IssuesExactlyInRange(h: Hashes, secret: Secret, chain: Chain, device: string, now: int, days: int)
    requires 1 <= days <= MAX_DAYS
    requires chain == NewChain(h, secret, chain.epochDay, chain.length)
    ensures var r := Issue(h, secret, chain, device, now, days);
            && (r.Ok? <==> chain.ValidUntil(0) <= EndOf(now, days) <= chain.ValidUntil(chain.length))
            && (r.Err? ==> r.error == OutsideChain)
            && (r.Ok? ==> r.value.validUntil == EndOf(now, days) && r.value.day == DayOf(now) + days - 6 - chain.epochDay)
  {
  }

  /** The chain of a key made at `time`. */
  function KeyMadeAt(h: Hashes, secret: Secret, time: int, length: nat): Chain {
    NewChain(h, secret, DayOf(time) - EPOCH_LEAD_DAYS, length)
  }

  /** A key's first window ends as the day before the one it was made on begins, and each next window a day later. */
  lemma KeyBeginsTheDayBefore(h: Hashes, secret: Secret, time: int, length: nat)
    ensures var chain := KeyMadeAt(h, secret, time, length);
            && chain.length == length
            && chain.CreatedAt() <= time < chain.CreatedAt() + 86400
            && chain.ValidUntil(0) + 86400 == chain.CreatedAt()
            && forall day: nat :: chain.ValidUntil(day) == chain.ValidUntil(0) + day * 86400
  {
  }

  /** What the issuer checks first: the number of days, then that the key is this chain's. */
  lemma IssueErrsExactlyWhen(h: Hashes, secret: Secret, chain: Chain, device: string, now: int, days: int)
    ensures var r := Issue(h, secret, chain, device, now, days);
            var key := Link(h, secret, chain.length, 0) == chain.tip;
            && (r == Err(DaysOutOfRange) <==> !(1 <= days <= 30))
            && (r == Err(WrongKey) <==> 1 <= days <= 30 && !key)
            && (r == Err(OutsideChain) <==>
                  1 <= days <= 30 && key && !(chain.ValidUntil(0) <= EndOf(now, days) <= chain.ValidUntil(chain.length)))
  {
  }

  /**
   * What a text that is no code draws is the error of decoding it; what a code draws is only that
   * its link never meets the tip.
   */
  lemma ReadErrsExactlyWhen(h: Hashes, text: string, device: string, chain: Chain)
    ensures Decode(text).Err? ==> Read(h, text, device, chain) == Err(Decode(text).error)
    ensures Decode(text).Ok? && Read(h, text, device, chain).Err? ==> Read(h, text, device, chain) == Err(NotValid)
  {
  }

  /** Not valid, exactly when no step within the chain's length takes the link to the tip. */
  lemma NotValidExactlyWhen(h: Hashes, text: string, x: Word, link: Word, device: string, chain: Chain)
    requires Decode(text) == Ok(x) && link == Mix(x, h.bind(device))
    ensures Read(h, text, device, chain) == Err(NotValid)
       <==> forall day: nat | day <= chain.length :: Iterate(h.step, link, day) != chain.tip
  {
    FindDayIsNone(h.step, link, chain);
    ReadByFindDay(h, text, x, link, device, chain);
  }

  lemma FindDayIsNone(step: Word -> Word, link: Word, chain: Chain)
    ensures FindDay(step, link, chain, 0).None? <==> forall day: nat | day <= chain.length :: Iterate(step, link, day) != chain.tip
  {
    FindDayIsFirst(step, link, chain, 0);
    var r := FindDay(step, link, chain, 0);
    assert r.Some? ==> Iterate(step, link, r.value) == chain.tip;
  }

  lemma ReadByFindDay(h: Hashes, text: string, x: Word, link: Word, device: string, chain: Chain)
    requires Decode(text) == Ok(x) && link == Mix(x, h.bind(device))
    ensures Read(h, text, device, chain) == Err(NotValid) <==> FindDay(h.step, link, chain, 0).None?
  {
  }

  /** From the day it was made a key serves every window there is, until its chain runs out: only the far end ever refuses. */
  lemma KeyServesFromItsDay(h: Hashes, secret: Secret, made: int, length: nat, device: string, now: int, days: int)
    requires 1 <= days <= MAX_DAYS
    ensures var chain := KeyMadeAt(h, secret, made, length);
            && chain.CreatedAt() <= made < chain.CreatedAt() + Days(1)
            && (chain.CreatedAt() <= now ==>
                  (Issue(h, secret, chain, device, now, days).Ok? <==> EndOf(now, days) <= chain.ValidUntil(length)))
  {
  }

  /** No window ends more than 31 days after it was granted, and every one lasts at least a day. */
  lemma WindowIsCapped(now: int, days: int)
    requires 1 <= days <= MAX_DAYS
    ensures now + Days(1) < EndOf(now, days) <= now + Days(MAX_DAYS + 1)
  {
  }

  /** The code depends on the device and the end day alone. */
  lemma CodeDependsOnEndDay(h: Hashes, secret: Secret, chain: Chain, device: string, now: int, days: int, now': int, days': int)
    requires Issue(h, secret, chain, device, now, days).Ok?
    requires Issue(h, secret, chain, device, now', days').Ok?
    ensures Issue(h, secret, chain, device, now, days) == Issue(h, secret, chain, device, now', days')
       <==> EndOf(now, days) == EndOf(now', days')
  {
  }

  /** For one end day, two devices are issued the same code exactly if their words are the same. */
  lemma CodeDependsOnDevice(h: Hashes, secret: Secret, chain: Chain, a: string, b: string, now: int, days: int, now': int, days': int)
    requires Issue(h, secret, chain, a, now, days).Ok? && Issue(h, secret, chain, b, now', days').Ok?
    requires EndOf(now, days) == EndOf(now', days')
    ensures Issue(h, secret, chain, a, now, days).value.code == Issue(h, secret, chain, b, now', days').value.code
       <==> h.bind(a) == h.bind(b)
  {
    var one, two := Issue(h, secret, chain, a, now, days).value, Issue(h, secret, chain, b, now', days').value;
    IssuedIs(h, secret, chain, a, now, days);
    IssuedIs(h, secret, chain, b, now', days');
    IssuesExactlyInRange(h, secret, chain, a, now, days);
    IssuesExactlyInRange(h, secret, chain, b, now', days');
    assert one.day == two.day;
    CodesTellDevicesApart(h, Link(h, secret, chain.length, one.day), a, b);
  }

  /** The links of the chain after day 0 up to `day` all differ from the tip. */
  ghost predicate TipIsNew(h: Hashes, secret: Secret, chain: Chain, day: nat)
    requires day <= chain.length
  {
    forall d: nat | 1 <= d <= day :: Link(h, secret, chain.length, d) != chain.tip
  }

  lemma LinkMeetsTip(h: Hashes, secret: Secret, chain: Chain, day: nat, j: nat)
    requires j <= day <= chain.length
    ensures Iterate(h.step, Link(h, secret, chain.length, day), j) == Link(h, secret, chain.length, day - j)
  {
    IterateAdds(h.step, h.first(secret), chain.length - day, j);
  }

  /**
   * What is issued is what the shop accepts: the same day, the same end and the printed code,
   * exactly when the tip does not turn up again among the links the check walks over.
   */
  lemma IssuedCodeVerifies(h: Hashes, secret: Secret, chain: Chain, device: string, now: int, days: int)
    requires Issue(h, secret, chain, device, now, days).Ok?
    ensures var issued := Issue(h, secret, chain, device, now, days).value;
            && issued.day <= chain.length
            && (Verify(h, issued.code, device, chain, now) == Ok(Unlock(issued.day, issued.validUntil, issued.code))
                <==> TipIsNew(h, secret, chain, issued.day))
  {
    var issued := Issue(h, secret, chain, device, now, days).value;
    IssuedIs(h, secret, chain, device, now, days);
    ReadIsFirstMeeting(h, Link(h, secret, chain.length, issued.day), device, chain, issued.day);
    FirstMeetsMeansNew(h, secret, chain, issued.day);
  }

  lemma IssuedIs(h: Hashes, secret: Secret, chain: Chain, device: string, now: int, days: int)
    requires Issue(h, secret, chain, device, now, days).Ok?
    ensures var issued := Issue(h, secret, chain, device, now, days).value;
            && chain == NewChain(h, secret, chain.epochDay, chain.length)
            && issued.day <= chain.length
            && issued.code == CodeOf(h, Link(h, secret, chain.length, issued.day), device)
            && issued.validUntil == chain.ValidUntil(issued.day) > now
  {
  }

  lemma FirstMeetsMeansNew(h: Hashes, secret: Secret, chain: Chain, day: nat)
    requires chain == NewChain(h, secret, chain.epochDay, chain.length) && day <= chain.length
    ensures FirstMeets(h.step, Link(h, secret, chain.length, day), chain.tip, day) <==> TipIsNew(h, secret, chain, day)
  {
    var link := Link(h, secret, chain.length, day);
    LinkMeetsTip(h, secret, chain, day, day);
    forall j: nat | j < day
      ensures Iterate(h.step, link, j) == Link(h, secret, chain.length, day - j)
    {
      LinkMeetsTip(h, secret, chain, day, j);
    }
    if FirstMeets(h.step, link, chain.tip, day) {
      forall d: nat | 1 <= d <= day
        ensures Link(h, secret, chain.length, d) != chain.tip
      {
        assert Iterate(h.step, link, day - d) != chain.tip;
      }
    }
  }

  /** A code that ends one day later is one hash further from the tip. */
  lemma LaterCodeIsThePreimage(h: Hashes, secret: Secret, chain: Chain, day: nat)
    requires day < chain.length
    ensures h.step(Link(h, secret, chain.length, day + 1)) == Link(h, secret, chain.length, day)
  {
    LinkMeetsTip(h, secret, chain, day + 1, 1);
  }
}
