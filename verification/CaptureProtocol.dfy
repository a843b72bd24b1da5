/**
 * Delivery as a state machine: enqueue, send, settle or set aside, under lost messages, failing
 * disks, expired tokens and restarts.
 */
module CaptureProtocol {
  import opened Basics

  datatype Invoice = Invoice(key: string, branch: string, invoiceId: string, amount: int)

  datatype Slot = Slot(branch: string, invoiceId: string)

  function SlotOf(i: Invoice): Slot {
    Slot(i.branch, i.invoiceId)
  }

  datatype File = Readable(invoice: Invoice) | Unreadable

  // ----- the manager machine, as its contract states it

  /** The manager already holds a transaction for this branch and invoice. */
  predicate Held(transactions: seq<Invoice>, slot: Slot) {
    exists t | t in transactions :: SlotOf(t) == slot
  }

  /** Inserted if absent; answered as a duplicate otherwise. */
  function Ingested(transactions: seq<Invoice>, i: Invoice): seq<Invoice> {
    if Held(transactions, SlotOf(i)) then transactions else transactions + [i]
  }

  // ----- one request, and what the client makes of it

  /**
   * What becomes of a request: lost on the way, carried out with the answer lost, carried out
   * and answered, turned away for its token, refused for its content, or failed on the manager.
   */
  datatype Exchange =
    | RequestLost
    | ResponseLost
    | Answered
    | TokenRefused
    | ContentRefused(bodyRead: bool)
    | ManagerFailed(carriedOut: bool)

  datatype Detail = NotSignedIn | Recorded | AlreadyRecorded | TokenExpired | Rejected | NoAnswer | OtherStatus

  datatype DeliveryResult = DeliveryResult(settled: bool, duplicate: bool, retryable: bool, detail: Detail)

  /** The manager's transactions after the exchange. */
  function Carried(transactions: seq<Invoice>, i: Invoice, x: Exchange): seq<Invoice> {
    if x in {ResponseLost, Answered, ManagerFailed(true)} then Ingested(transactions, i) else transactions
  }

  /** How the client classifies the answer; no result where reading the answer fails and the pass is given up. */
  function Classified(transactions: seq<Invoice>, i: Invoice, token: Option<string>, x: Exchange): Option<DeliveryResult> {
    if token.None? then Some(DeliveryResult(false, false, true, NotSignedIn))
    else
      match x
      case RequestLost => Some(DeliveryResult(false, false, true, NoAnswer))
      case ResponseLost => Some(DeliveryResult(false, false, true, NoAnswer))
      case Answered =>
        if Held(transactions, SlotOf(i)) then Some(DeliveryResult(true, true, false, AlreadyRecorded))
        else Some(DeliveryResult(true, false, false, Recorded))
      case TokenRefused => Some(DeliveryResult(false, false, true, TokenExpired))
      case ContentRefused(bodyRead) => if bodyRead then Some(DeliveryResult(false, false, false, Rejected)) else None
      case ManagerFailed(_) => Some(DeliveryResult(false, false, true, OtherStatus))
  }

  function TokenAfter(token: Option<string>, x: Exchange): Option<string> {
    if token.Some? && x.TokenRefused? then None else token
  }

  datatype SignIn = Granted(token: string) | NoTokenInBody | NotAccepted | Unreachable

  // ----- the whole system

  /** Where the delivery loop is. */
  datatype Phase =
    | Idle
    | Listing(paths: seq<string>)
    | Sending(path: string, invoice: Invoice, rest: seq<string>)
    | Deciding(path: string, invoice: Invoice, result: DeliveryResult, rest: seq<string>)

  /** `enqueued`, `settled` and `foreign`, what others had recorded, say what happened; nothing reads them. */
  datatype State = State(
    queue: map<string, File>,
    rejected: map<string, File>,
    transactions: seq<Invoice>,
    token: Option<string>,
    signedIn: bool,
    phase: Phase,
    enqueued: map<string, Invoice>,
    settled: set<string>,
    foreign: set<Invoice>
  )

  const INIT: State := State(map[], map[], [], None, false, Idle, map[], {}, {})

  /** A file operation works, fails as an I/O error, or fails in a way that the queue does not catch. */
  datatype Disk = Works | IoError | Denied

  datatype Event =
    | Enqueue(invoice: Invoice, moved: bool)
    | Junk(path: string)
    | TrySignIn(outcome: SignIn)
    | BeginPass(paths: seq<string>)
    | Read(disk: Disk)
    | Send(exchange: Exchange)
    | Finish(disk: Disk)
    | Foreign(invoice: Invoice)
    | Restart

  function Listed(paths: seq<string>): Phase {
    if paths == [] then Idle else Listing(paths)
  }

  predicate AllDifferent(paths: seq<string>) {
    forall i, j | 0 <= i < j < |paths| :: paths[i] != paths[j]
  }

  /** A listing names every file of the queue once, in some order. */
  predicate IsListing(queue: map<string, File>, paths: seq<string>) {
    && (forall p | p in paths :: p in queue)
    && (forall p | p in queue :: p in paths)
    && AllDifferent(paths)
  }

  function AfterSignIn(s: State, outcome: SignIn): State {
    match outcome
    case Granted(token) => s.(token := Some(token), signedIn := true)
    case NoTokenInBody => s.(token := None, signedIn := false)
    case NotAccepted => s.(signedIn := false)
    case Unreachable => s.(signedIn := false)
  }

  /** The next file of the listing is read; one that is gone or cannot be read is passed over. */
  function AfterRead(s: State, disk: Disk): State
    requires s.phase.Listing? && s.phase.paths != []
  {
    var path, rest := s.phase.paths[0], s.phase.paths[1..];
    if path in s.queue && disk == Denied then s.(phase := Idle)
    else if path in s.queue && s.queue[path].Readable? && disk == Works then
      s.(phase := Sending(path, s.queue[path].invoice, rest))
    else s.(phase := Listed(rest))
  }

  function AfterSend(s: State, x: Exchange): State
    requires s.phase.Sending?
  {
    var i := s.phase.invoice;
    var sent := if s.token.None? then s else s.(transactions := Carried(s.transactions, i, x), token := TokenAfter(s.token, x));
    match Classified(s.transactions, i, s.token, x)
    case None => sent.(phase := Idle)
    case Some(result) => sent.(phase := Deciding(s.phase.path, i, result, s.phase.rest))
  }

  /** Settled files are deleted, refused ones set aside; anything else ends the pass. */
  function AfterFinish(s: State, disk: Disk): State
    requires s.phase.Deciding?
  {
    var path, r := s.phase.path, s.phase.result;
    var next := s.(phase := if disk == Denied then Idle else Listed(s.phase.rest));
    if r.settled then
      if disk == Works then next.(queue := s.queue - {path}, settled := s.settled + {path}) else next
    else if !r.retryable then
      if disk == Works && path in s.queue then
        next.(queue := s.queue - {path}, rejected := s.rejected[path := s.queue[path]])
      else next
    else s.(phase := Idle, signedIn := s.signedIn && r.detail != TokenExpired)
  }

  /** One step; a step that is not possible changes nothing. A key names one capture for good. */
  function Apply(s: State, e: Event): State {
    match e
    case Enqueue(i, moved) =>
      if !moved || (i.key in s.enqueued && s.enqueued[i.key] != i) || (i.key in s.queue && i.key !in s.enqueued) then s
      else s.(queue := s.queue[i.key := Readable(i)], enqueued := s.enqueued[i.key := i])
    case Junk(path) =>
      if path in s.queue || path in s.enqueued then s else s.(queue := s.queue[path := Unreadable])
    case TrySignIn(outcome) => if !s.phase.Idle? || s.signedIn then s else AfterSignIn(s, outcome)
    case BeginPass(paths) =>
      if !s.phase.Idle? || !s.signedIn || !IsListing(s.queue, paths) then s else s.(phase := Listed(paths))
    case Read(disk) => if s.phase.Listing? && s.phase.paths != [] then AfterRead(s, disk) else s
    case Send(x) => if s.phase.Sending? then AfterSend(s, x) else s
    case Finish(disk) => if s.phase.Deciding? then AfterFinish(s, disk) else s
    case Foreign(i) =>
      if Held(s.transactions, SlotOf(i)) then s
      else s.(transactions := s.transactions + [i], foreign := s.foreign + {i})
    case Restart => s.(phase := Idle, token := None, signedIn := false)
  }

  function Run(s: State, events: seq<Event>): State
    decreases |events|
  {
    if events == [] then s else Run(Apply(s, events[0]), events[1..])
  }

  // ----- what every step keeps

  /** The capture is in the queue, set aside, or settled. */
  ghost predicate IsSafe(s: State, path: string, i: Invoice) {
    || (path in s.queue && s.queue[path] == Readable(i))
    || (path in s.rejected && s.rejected[path] == Readable(i))
    || path in s.settled
  }

  ghost predicate NothingLost(s: State) {
    forall path | path in s.enqueued :: IsSafe(s, path, s.enqueued[path])
  }

  /** For every settled path some transaction has its branch and invoice number. */
  ghost predicate SettledIsHeld(s: State) {
    forall path | path in s.settled :: path in s.enqueued && Held(s.transactions, SlotOf(s.enqueued[path]))
  }

  /** At most one transaction for a branch and invoice, and each is a capture or from elsewhere. */
  ghost predicate OncePerSlot(s: State) {
    && (forall i, j | 0 <= i < j < |s.transactions| :: SlotOf(s.transactions[i]) != SlotOf(s.transactions[j]))
    && (forall t | t in s.transactions :: t in s.foreign || (t.key in s.enqueued && s.enqueued[t.key] == t))
  }

  ghost predicate FilesAreCaptures(s: State) {
    && (forall p | p in s.enqueued :: s.enqueued[p].key == p)
    && (forall p | p in s.queue && s.queue[p].Readable? :: p in s.enqueued && s.queue[p].invoice == s.enqueued[p])
    && (forall p | p in s.queue && s.queue[p].Unreadable? :: p !in s.enqueued)
  }

  /** Signed in means that a token is there, but for the moment between a refusal and its being acted on. */
  ghost predicate SignedInHasToken(s: State) {
    s.signedIn && !(s.phase.Deciding? && s.phase.result.detail == TokenExpired) ==> s.token.Some?
  }

  ghost predicate PhaseIsSound(s: State) {
    && (!s.phase.Idle? ==> s.signedIn)
    && (s.phase.Sending? ==> s.phase.path in s.enqueued && s.phase.invoice == s.enqueued[s.phase.path])
    && (s.phase.Deciding? ==> s.phase.path in s.enqueued && s.phase.invoice == s.enqueued[s.phase.path])
    && (s.phase.Deciding? && s.phase.result.settled ==> Held(s.transactions, SlotOf(s.phase.invoice)))
    && (s.phase.Deciding? && s.phase.result.detail == TokenExpired ==>
          s.phase.result == DeliveryResult(false, false, true, TokenExpired))
  }

  ghost predicate Inv(s: State) {
    && NothingLost(s) && SettledIsHeld(s) && OncePerSlot(s)
    && FilesAreCaptures(s) && SignedInHasToken(s) && PhaseIsSound(s)
  }

  lemma IngestHolds(transactions: seq<Invoice>, i: Invoice, slot: Slot)
    ensures Held(Ingested(transactions, i), slot) <==> Held(transactions, slot) || slot == SlotOf(i)
  {
    if Held(transactions, slot) {
      var t :| t in transactions && SlotOf(t) == slot;
      assert t in Ingested(transactions, i);
    }
    if !Held(transactions, SlotOf(i)) {
      assert i in Ingested(transactions, i);
    }
  }

  lemma CarryHolds(transactions: seq<Invoice>, i: Invoice, x: Exchange, slot: Slot)
    ensures Held(transactions, slot) ==> Held(Carried(transactions, i, x), slot)
    ensures x.Answered? ==> Held(Carried(transactions, i, x), SlotOf(i))
  {
    IngestHolds(transactions, i, slot);
    IngestHolds(transactions, i, SlotOf(i));
  }

  lemma EnqueueKeeps(s: State, i: Invoice, moved: bool)
    requires Inv(s)
    ensures Inv(Apply(s, Enqueue(i, moved)))
  {
  }

  /** More transactions, one to a slot and each accounted for, keep everything. */
  lemma TransactionsMayGrow(s: State, transactions: seq<Invoice>, foreign: set<Invoice>)
    requires Inv(s)
    requires forall slot :: Held(s.transactions, slot) ==> Held(transactions, slot)
    requires OncePerSlot(s.(transactions := transactions, foreign := foreign))
    ensures Inv(s.(transactions := transactions, foreign := foreign))
  {
    var s' := s.(transactions := transactions, foreign := foreign);
    assert NothingLost(s');
    assert SettledIsHeld(s');
  }

  lemma CarryKeepsOnce(s: State, i: Invoice, x: Exchange)
    requires OncePerSlot(s) && i.key in s.enqueued && s.enqueued[i.key] == i
    ensures OncePerSlot(s.(transactions := Carried(s.transactions, i, x)))
  {
  }

  lemma PhaseMayChange(s: State, token: Option<string>, phase: Phase)
    requires Inv(s)
    requires PhaseIsSound(s.(token := token, phase := phase)) && SignedInHasToken(s.(token := token, phase := phase))
    ensures Inv(s.(token := token, phase := phase))
  {
    var s' := s.(token := token, phase := phase);
    assert NothingLost(s');
    assert SettledIsHeld(s');
  }

  lemma SentPhaseIsSound(s: State, x: Exchange)
    requires Inv(s) && s.phase.Sending?
    ensures PhaseIsSound(AfterSend(s, x)) && SignedInHasToken(AfterSend(s, x))
  {
    CarryHolds(s.transactions, s.phase.invoice, x, SlotOf(s.phase.invoice));
  }

  lemma SendKeeps(s: State, x: Exchange)
    requires Inv(s) && s.phase.Sending?
    ensures Inv(AfterSend(s, x))
  {
    var i := s.phase.invoice;
    var transactions := Carried(s.transactions, i, x);
    forall slot
      ensures Held(s.transactions, slot) ==> Held(transactions, slot)
    {
      CarryHolds(s.transactions, i, x, slot);
    }
    CarryKeepsOnce(s, i, x);
    TransactionsMayGrow(s, transactions, s.foreign);
    SentPhaseIsSound(s, x);
    var s' := AfterSend(s, x);
    assert s' == s.(transactions := transactions).(token := TokenAfter(s.token, x), phase := s'.phase);
    PhaseMayChange(s.(transactions := transactions), TokenAfter(s.token, x), s'.phase);
  }

  /** A settled capture's file may go. */
  lemma SettledMayGo(s: State, path: string)
    requires Inv(s) && path in s.enqueued && Held(s.transactions, SlotOf(s.enqueued[path]))
    ensures Inv(s.(queue := s.queue - {path}, settled := s.settled + {path}))
  {
  }

  /** A refused capture's file may be moved. */
  lemma RefusedMayMove(s: State, path: string)
    requires Inv(s) && path in s.queue
    ensures Inv(s.(queue := s.queue - {path}, rejected := s.rejected[path := s.queue[path]]))
  {
  }

  lemma FinishKeeps(s: State, disk: Disk)
    requires Inv(s) && s.phase.Deciding?
    ensures Inv(AfterFinish(s, disk))
  {
    var path, r := s.phase.path, s.phase.result;
    var phase := if disk == Denied then Idle else Listed(s.phase.rest);
    if r.settled {
      PhaseMayChange(s, s.token, phase);
      if disk == Works {
        SettledMayGo(s.(phase := phase), path);
      }
    } else if !r.retryable {
      PhaseMayChange(s, s.token, phase);
      if disk == Works && path in s.queue {
        RefusedMayMove(s.(phase := phase), path);
      }
    } else {
      var s' := AfterFinish(s, disk);
      assert NothingLost(s') && SettledIsHeld(s');
    }
  }

  lemma ReadKeeps(s: State, disk: Disk)
    requires Inv(s) && s.phase.Listing? && s.phase.paths != []
    ensures Inv(AfterRead(s, disk))
  {
    PhaseMayChange(s, s.token, AfterRead(s, disk).phase);
  }

  lemma SignInKeeps(s: State, outcome: SignIn)
    requires Inv(s) && s.phase.Idle?
    ensures Inv(AfterSignIn(s, outcome))
  {
    var s' := AfterSignIn(s, outcome);
    assert NothingLost(s') && SettledIsHeld(s');
  }

  lemma RestartKeeps(s: State)
    requires Inv(s)
    ensures Inv(Apply(s, Restart))
  {
    var s' := Apply(s, Restart);
    assert NothingLost(s') && SettledIsHeld(s');
  }

  lemma ForeignKeeps(s: State, i: Invoice)
    requires Inv(s)
    ensures Inv(Apply(s, Foreign(i)))
  {
    if !Held(s.transactions, SlotOf(i)) {
      forall slot
        ensures Held(s.transactions, slot) ==> Held(s.transactions + [i], slot)
      {
        IngestHolds(s.transactions, i, slot);
      }
      TransactionsMayGrow(s, s.transactions + [i], s.foreign + {i});
    }
  }

  lemma JunkKeeps(s: State, path: string)
    requires Inv(s)
    ensures Inv(Apply(s, Junk(path)))
  {
  }

  lemma EveryStepKeeps(s: State, e: Event)
    requires Inv(s)
    ensures Inv(Apply(s, e))
  {
    match e
    case Enqueue(i, moved) => EnqueueKeeps(s, i, moved);
    case Junk(path) => JunkKeeps(s, path);
    case TrySignIn(outcome) =>
      if s.phase.Idle? { SignInKeeps(s, outcome); }
    case BeginPass(paths) =>
      if s.phase.Idle? && s.signedIn { PhaseMayChange(s, s.token, Listed(paths)); }
    case Read(disk) =>
      if s.phase.Listing? && s.phase.paths != [] { ReadKeeps(s, disk); }
    case Send(x) =>
      if s.phase.Sending? { SendKeeps(s, x); }
    case Finish(disk) =>
      if s.phase.Deciding? { FinishKeeps(s, disk); }
    case Foreign(i) => ForeignKeeps(s, i);
    case Restart => RestartKeeps(s);
  }

  lemma {:induction false} EveryRunKeeps(s: State, events: seq<Event>)
    requires Inv(s)
    ensures Inv(Run(s, events))
    decreases |events|
  {
    if events != [] {
      EveryStepKeeps(s, events[0]);
      EveryRunKeeps(Apply(s, events[0]), events[1..]);
    }
  }

  /**
   * After every run: each capture whose enqueue succeeded is in the queue, set aside, or settled;
   * for a settled one the manager holds its branch and invoice number, once; each transaction is
   * a capture or from elsewhere; and signed in means a token, but for the moment between the
   * manager's refusing a token and the worker's acting on that.
   */
  lemma NothingIsLostOrDoubled(events: seq<Event>)
    ensures var s := Run(INIT, events);
            && (forall path | path in s.enqueued :: IsSafe(s, path, s.enqueued[path]))
            && (forall path | path in s.settled :: path in s.enqueued && Held(s.transactions, SlotOf(s.enqueued[path])))
            && (forall i, j | 0 <= i < j < |s.transactions| :: SlotOf(s.transactions[i]) != SlotOf(s.transactions[j]))
            && (forall t | t in s.transactions :: t in s.foreign || (t.key in s.enqueued && s.enqueued[t.key] == t))
            && (s.signedIn && s.token.None? ==>
                  s.phase.Deciding? && s.phase.result == DeliveryResult(false, false, true, TokenExpired))
  {
    EveryRunKeeps(INIT, events);
  }

  // ----- whose transaction it is

  /** Another transaction, of this agent or from elsewhere, has the capture's branch and invoice number. */
  predicate IsForestalled(s: State, i: Invoice) {
    exists t | t in s.transactions :: SlotOf(t) == SlotOf(i) && t != i
  }

  /**
   * A settled capture, whose file is gone, is not itself recorded exactly when another one under its
   * number is, whatever the amounts.
   */
  lemma SettledIsRecordedExactlyWhen(events: seq<Event>, path: string)
    requires path in Run(INIT, events).settled
    ensures var s := Run(INIT, events);
            path in s.enqueued && (s.enqueued[path] in s.transactions <==> !IsForestalled(s, s.enqueued[path]))
  {
    EveryRunKeeps(INIT, events);
    var s := Run(INIT, events);
    var i := s.enqueued[path];
    var t :| t in s.transactions && SlotOf(t) == SlotOf(i);
    forall u | u in s.transactions && SlotOf(u) == SlotOf(i)
      ensures u == t
    {
      OneForASlot(s, t, u);
    }
  }

  lemma OneForASlot(s: State, t: Invoice, u: Invoice)
    requires OncePerSlot(s) && t in s.transactions && u in s.transactions && SlotOf(t) == SlotOf(u)
    ensures t == u
  {
    var j :| 0 <= j < |s.transactions| && s.transactions[j] == t;
    var k :| 0 <= k < |s.transactions| && s.transactions[k] == u;
  }

  /**
   * Where no two captures share a branch and number, with each other or with one from elsewhere,
   * every capture is queued, set aside, or itself recorded.
   */
  lemma DistinctNumbersAreAllRecorded(events: seq<Event>, path: string)
    requires var s := Run(INIT, events);
             && path in s.enqueued
             && (forall p | p in s.enqueued && p != path :: SlotOf(s.enqueued[p]) != SlotOf(s.enqueued[path]))
             && (forall t | t in s.foreign :: SlotOf(t) != SlotOf(s.enqueued[path]))
    ensures var s := Run(INIT, events);
            var i := s.enqueued[path];
            || (path in s.queue && s.queue[path] == Readable(i))
            || (path in s.rejected && s.rejected[path] == Readable(i))
            || i in s.transactions
  {
    EveryRunKeeps(INIT, events);
    var s := Run(INIT, events);
    if path in s.settled {
      SettledIsRecordedExactlyWhen(events, path);
    }
  }

  // ----- what an answer means

  /**
   * Settled, exactly with an answer of success; then a duplicate, exactly if the manager held the
   * number before. Refused for good, exactly for its content.
   */
  lemma AnswerMeans(transactions: seq<Invoice>, i: Invoice, token: string, x: Exchange)
    ensures var r := Classified(transactions, i, Some(token), x);
            && (r.None? <==> x == ContentRefused(false))
            && (r.Some? ==>
                  && (r.value.settled <==> x == Answered)
                  && (r.value.duplicate <==> x == Answered && exists t | t in transactions :: SlotOf(t) == SlotOf(i))
                  && (r.value.retryable <==> x != Answered && x != ContentRefused(true))
                  && (r.value.detail == AlreadyRecorded <==> r.value.duplicate)
                  && (r.value.detail == Recorded <==> x == Answered && !r.value.duplicate)
                  && (r.value.detail == TokenExpired <==> x == TokenRefused)
                  && (r.value.detail == Rejected <==> x == ContentRefused(true))
                  && (r.value.detail == NoAnswer <==> x == RequestLost || x == ResponseLost)
                  && (r.value.detail == OtherStatus <==> x.ManagerFailed?))
    ensures Classified(transactions, i, None, x) == Some(DeliveryResult(false, false, true, NotSignedIn))
  {
  }

  /** Without a token nothing is sent. */
  lemma NothingIsSentUnsigned(s: State, x: Exchange)
    requires s.phase.Sending? && s.token.None?
    ensures var unsigned := DeliveryResult(false, false, true, NotSignedIn);
            Apply(s, Send(x)) == s.(phase := Deciding(s.phase.path, s.phase.invoice, unsigned, s.phase.rest))
  {
  }

  /**
   * A sign-in succeeds exactly by a token in the answer; an answer without one forgets the token
   * there was, and no answer keeps it.
   */
  lemma SignInMeans(s: State, outcome: SignIn)
    requires s.phase.Idle? && !s.signedIn
    ensures var s' := Apply(s, TrySignIn(outcome));
            && (s'.signedIn <==> outcome.Granted?)
            && (outcome.Granted? ==> s'.token == Some(outcome.token))
            && (outcome == NoTokenInBody ==> s'.token == None)
            && (outcome == NotAccepted || outcome == Unreachable ==> s'.token == s.token)
            && s'.(token := s.token, signedIn := false) == s
  {
  }

  /** Only a refused token signs the worker out, and clears the token. */
  lemma OnlyARefusedTokenSignsOut(s: State, x: Exchange, disk: Disk)
    requires s.phase.Sending? && s.token.Some? && s.signedIn
    ensures var s' := Apply(Apply(s, Send(x)), Finish(disk));
            && (s'.signedIn <==> x != TokenRefused)
            && s'.token == (if x == TokenRefused then None else s.token)
  {
  }

  /**
   * A request is carried out if it got there and was not turned away; it adds the capture's
   * transaction if the number is new, and nothing else.
   */
  lemma CarriedOutExactlyWhen(transactions: seq<Invoice>, i: Invoice, x: Exchange)
    ensures var unknown := forall t | t in transactions :: SlotOf(t) != SlotOf(i);
            var reached := x == ResponseLost || x == Answered || x == ManagerFailed(true);
            Carried(transactions, i, x) == if unknown && reached then transactions + [i] else transactions
  {
  }

  // ----- one file's turn, and a whole pass

  /** What happens to one file of the listing: reading it, sending it, and the file operation after. */
  datatype Outcome = Outcome(read: Disk, exchange: Exchange, finish: Disk)

  function TurnOf(s: State, o: Outcome): State {
    Apply(Apply(Apply(s, Read(o.read)), Send(o.exchange)), Finish(o.finish))
  }

  /** The turns of a pass, while there are files to go. */
  function Turns(s: State, outcomes: seq<Outcome>): State
    decreases |outcomes|
  {
    if outcomes == [] || s.phase.Idle? then s else Turns(TurnOf(s, outcomes[0]), outcomes[1..])
  }

  lemma TurnsStep(s: State, o: Outcome, rest: seq<Outcome>, next: State)
    requires !s.phase.Idle? && next == TurnOf(s, o)
    ensures Turns(s, [o] + rest) == Turns(next, rest)
  {
    assert ([o] + rest)[1..] == rest;
  }

  /** The answer says for good whether the capture is recorded. */
  predicate IsFinal(x: Exchange) {
    x.Answered? || (x.ContentRefused? && x.bodyRead)
  }

  /** The rest of a turn, once the file has been read. */
  lemma SentTurnMeans(s: State, x: Exchange, finish: Disk)
    requires s.phase.Sending? && s.token.Some?
    ensures var s' := Apply(Apply(s, Send(x)), Finish(finish));
            && s'.queue == (if IsFinal(x) && finish == Works then s.queue - {s.phase.path} else s.queue)
            && s'.phase == if !IsFinal(x) || finish == Denied then Idle else Listed(s.phase.rest)
  {
    var sent := Apply(s, Send(x));
    if IsFinal(x) {
      assert sent.phase.Deciding? && sent.phase.path == s.phase.path && sent.phase.rest == s.phase.rest;
      assert sent.phase.result.settled || !sent.phase.result.retryable;
    }
    assert s.phase.path !in s.queue ==> s.queue - {s.phase.path} == s.queue;
  }

  /**
   * A turn takes its file out of the queue exactly when the file can be read, the answer is
   * final, and the file operation works; and it ends the pass early exactly when the answer is
   * not final, or a file operation fails in a way the queue does not catch.
   */
  lemma TurnMeans(s: State, o: Outcome)
    requires s.phase.Listing? && s.phase.paths != [] && s.token.Some?
    ensures var path, rest := s.phase.paths[0], s.phase.paths[1..];
            var sent := path in s.queue && s.queue[path].Readable? && o.read == Works;
            && TurnOf(s, o).queue == (if sent && IsFinal(o.exchange) && o.finish == Works then s.queue - {path} else s.queue)
            && TurnOf(s, o).phase == (if (path in s.queue && o.read == Denied) || (sent && (!IsFinal(o.exchange) || o.finish == Denied))
                                      then Idle else Listed(rest))
  {
    var read := Apply(s, Read(o.read));
    if read.phase.Sending? {
      SentTurnMeans(read, o.exchange, o.finish);
    }
  }

  /** The event is one of a pass in which every answer is final and no file operation fails; `watched` files are left to it. */
  predicate IsCleanEvent(e: Event, watched: set<string>) {
    match e
    case Enqueue(i, _) => i.key !in watched
    case Junk(path) => path !in watched
    case Read(disk) => disk == Works
    case Send(x) => IsFinal(x)
    case Finish(disk) => disk == Works
    case Restart => false
    case _ => true
  }

  /** The files still ahead in the pass. */
  function Ahead(phase: Phase): set<string> {
    match phase
    case Idle => {}
    case Listing(paths) => set p | p in paths
    case Sending(path, _, rest) => {path} + set p | p in rest
    case Deciding(path, _, _, rest) => {path} + set p | p in rest
  }

  /** Every watched file is still ahead, or gone. */
  ghost predicate AheadOrGone(s: State, watched: set<string>) {
    && (forall p | p in watched :: p in s.queue ==> p in Ahead(s.phase) && s.queue[p].Readable?)
    && (s.phase.Deciding? ==> s.phase.result.settled || !s.phase.result.retryable)
  }

  lemma AheadOfListed(paths: seq<string>)
    ensures Ahead(Listed(paths)) == set p | p in paths
  {
  }

  lemma AheadSplits(paths: seq<string>)
    requires paths != []
    ensures (set p | p in paths) == {paths[0]} + set p | p in paths[1..]
  {
    assert forall p :: p in paths <==> p == paths[0] || p in paths[1..];
  }

  lemma ListingIsAhead(s: State, paths: seq<string>)
    requires IsListing(s.queue, paths)
    ensures Ahead(Listed(paths)) == s.queue.Keys
  {
    AheadOfListed(paths);
  }

  lemma CleanReadKeeps(s: State, watched: set<string>)
    requires AheadOrGone(s, watched) && s.phase.Listing? && s.phase.paths != []
    ensures AheadOrGone(AfterRead(s, Works), watched)
  {
    AheadSplits(s.phase.paths);
    AheadOfListed(s.phase.paths[1..]);
  }

  lemma CleanSendKeeps(s: State, x: Exchange, watched: set<string>)
    requires AheadOrGone(s, watched) && s.phase.Sending? && s.token.Some? && IsFinal(x)
    ensures AheadOrGone(AfterSend(s, x), watched)
  {
    var s' := AfterSend(s, x);
    assert s'.phase.Deciding? && (s'.phase.result.settled || !s'.phase.result.retryable);
    assert Ahead(s'.phase) == Ahead(s.phase) && s'.queue == s.queue;
  }

  lemma CleanFinishKeeps(s: State, watched: set<string>)
    requires AheadOrGone(s, watched) && s.phase.Deciding?
    ensures AheadOrGone(AfterFinish(s, Works), watched)
  {
    AheadOfListed(s.phase.rest);
  }

  lemma CleanStepKeeps(s: State, e: Event, watched: set<string>)
    requires Inv(s) && AheadOrGone(s, watched) && IsCleanEvent(e, watched)
    ensures AheadOrGone(Apply(s, e), watched)
  {
    match e
    case Read(_) =>
      if s.phase.Listing? && s.phase.paths != [] { CleanReadKeeps(s, watched); }
    case Send(x) =>
      if s.phase.Sending? { CleanSendKeeps(s, x, watched); }
    case Finish(_) =>
      if s.phase.Deciding? { CleanFinishKeeps(s, watched); }
    case BeginPass(paths) =>
      if IsListing(s.queue, paths) { ListingIsAhead(s, paths); }
    case _ =>
  }

  lemma {:induction false} CleanRunKeeps(s: State, events: seq<Event>, watched: set<string>)
    requires Inv(s) && AheadOrGone(s, watched)
    requires forall e | e in events :: IsCleanEvent(e, watched)
    ensures AheadOrGone(Run(s, events), watched)
    decreases |events|
  {
    if events != [] {
      assert events[0] in events;
      EveryStepKeeps(s, events[0]);
      CleanStepKeeps(s, events[0], watched);
      CleanRunKeeps(Apply(s, events[0]), events[1..], watched);
    }
  }

  /**
   * A pass in which every answer is final and no file operation fails takes every readable file
   * that was pending at its start out of the queue, however new captures come in meanwhile: a
   * refused capture never blocks the ones behind it.
   */
  lemma CleanPassEmptiesTheQueue(s: State, paths: seq<string>, events: seq<Event>)
    requires Inv(s) && s.phase.Idle? && s.signedIn && IsListing(s.queue, paths)
    requires var readable := set p | p in s.queue && s.queue[p].Readable?;
             forall e | e in events :: IsCleanEvent(e, readable)
    requires Run(Apply(s, BeginPass(paths)), events).phase.Idle?
    ensures forall p | p in s.queue && s.queue[p].Readable? :: p !in Run(Apply(s, BeginPass(paths)), events).queue
  {
    var readable := set p | p in s.queue && s.queue[p].Readable?;
    var started := Apply(s, BeginPass(paths));
    EveryStepKeeps(s, BeginPass(paths));
    ListingIsAhead(s, paths);
    CleanRunKeeps(started, events, readable);
  }

  // ----- a pass without faults, turn by turn

  /** The file can be read, the answer is final, and the file operation works. */
  predicate IsClean(o: Outcome) {
    o.read == Works && IsFinal(o.exchange) && o.finish == Works
  }

  /** What a pass without faults leaves of a queue: the files that cannot be read, as they were. */
  function Unread(queue: map<string, File>): map<string, File> {
    map p | p in queue && queue[p].Unreadable? :: queue[p]
  }

  lemma CleanTurnMeans(s: State, o: Outcome)
    requires s.phase.Listing? && s.phase.paths != [] && s.token.Some? && IsClean(o)
    ensures var path := s.phase.paths[0];
            && TurnOf(s, o).phase == Listed(s.phase.paths[1..]) && TurnOf(s, o).token == s.token
            && TurnOf(s, o).queue == if path in s.queue && s.queue[path].Readable? then s.queue - {path} else s.queue
  {
    TurnMeans(s, o);
  }

  lemma UnreadStep(queue: map<string, File>, path: string)
    ensures path in queue && queue[path].Readable? ==> Unread(queue - {path}) == Unread(queue)
  {
  }

  /**
   * As many turns as files, none with a fault, end the pass, and take out every file that can be
   * read: nothing is left to assume.
   */
  lemma {:induction false} CleanTurnsEmptyTheQueue(s: State, paths: seq<string>, outcomes: seq<Outcome>)
    requires s.phase == Listed(paths) && s.token.Some? && |outcomes| == |paths|
    requires forall o | o in outcomes :: IsClean(o)
    requires forall p | p in s.queue && s.queue[p].Readable? :: p in paths
    ensures var after := Turns(s, outcomes);
            after.phase == Idle && after.queue == Unread(s.queue)
    decreases |paths|
  {
    if paths == [] {
      assert Unread(s.queue) == s.queue;
    } else {
      var next := TurnOf(s, outcomes[0]);
      assert outcomes[0] in outcomes;
      CleanTurnMeans(s, outcomes[0]);
      UnreadStep(s.queue, paths[0]);
      forall p | p in next.queue && next.queue[p].Readable?
        ensures p in paths[1..]
      {
        assert p in paths && p != paths[0];
      }
      CleanTurnsEmptyTheQueue(next, paths[1..], outcomes[1..]);
    }
  }

  // ----- a pass with faults

  /** The file is read, and what it holds is sent. */
  predicate IsSent(queue: map<string, File>, path: string, o: Outcome) {
    path in queue && queue[path].Readable? && o.read == Works
  }

  /** Its turn takes the file out of the queue. */
  predicate Takes(queue: map<string, File>, path: string, o: Outcome) {
    IsSent(queue, path, o) && IsFinal(o.exchange) && o.finish == Works
  }

  /** Its turn ends the pass, whatever comes after it. */
  predicate Stops(queue: map<string, File>, path: string, o: Outcome) {
    || (path in queue && o.read == Denied)
    || (IsSent(queue, path, o) && (!IsFinal(o.exchange) || o.finish == Denied))
  }

  /** The first place at which a turn ends the pass, or else the end of the listing. */
  function FirstStop(queue: map<string, File>, paths: seq<string>, outcomes: seq<Outcome>): (n: nat)
    requires |outcomes| == |paths|
    ensures n <= |paths|
    ensures n < |paths| ==> Stops(queue, paths[n], outcomes[n])
    ensures forall i | 0 <= i < n :: !Stops(queue, paths[i], outcomes[i])
  {
    if paths == [] || Stops(queue, paths[0], outcomes[0]) then 0
    else FirstStop(queue, paths[1..], outcomes[1..]) + 1
  }

  /** The path is listed before the first stop, and its turn takes the file out. */
  predicate IsTaken(queue: map<string, File>, paths: seq<string>, outcomes: seq<Outcome>, path: string)
    requires |outcomes| == |paths|
  {
    exists i | 0 <= i < FirstStop(queue, paths, outcomes) :: paths[i] == path && Takes(queue, paths[i], outcomes[i])
  }

  lemma FaultyTurnMeans(s: State, o: Outcome)
    requires s.phase.Listing? && s.phase.paths != [] && s.token.Some?
    ensures var path, rest := s.phase.paths[0], s.phase.paths[1..];
            && TurnOf(s, o).queue == (if Takes(s.queue, path, o) then s.queue - {path} else s.queue)
            && TurnOf(s, o).phase == (if Stops(s.queue, path, o) then Idle else Listed(rest))
            && (!Stops(s.queue, path, o) ==> TurnOf(s, o).token == s.token)
  {
    TurnMeans(s, o);
  }

  /** A file that is not listed makes no difference to those that are. */
  lemma {:induction false} StopWithout(queue: map<string, File>, gone: string, paths: seq<string>, outcomes: seq<Outcome>)
    requires |outcomes| == |paths| && gone !in paths
    ensures FirstStop(queue - {gone}, paths, outcomes) == FirstStop(queue, paths, outcomes)
    ensures forall p :: IsTaken(queue - {gone}, paths, outcomes, p) <==> IsTaken(queue, paths, outcomes, p)
    decreases |paths|
  {
    if paths != [] {
      StopWithout(queue, gone, paths[1..], outcomes[1..]);
      assert paths[0] in paths;
    }
    forall i | 0 <= i < |paths|
      ensures Takes(queue - {gone}, paths[i], outcomes[i]) <==> Takes(queue, paths[i], outcomes[i])
    {
      assert paths[i] in paths;
    }
  }

  lemma TakenStep(queue: map<string, File>, paths: seq<string>, outcomes: seq<Outcome>, p: string)
    requires |outcomes| == |paths| && paths != [] && !Stops(queue, paths[0], outcomes[0])
    ensures IsTaken(queue, paths, outcomes, p)
       <==> (p == paths[0] && Takes(queue, p, outcomes[0])) || IsTaken(queue, paths[1..], outcomes[1..], p)
  {
    var n := FirstStop(queue, paths, outcomes);
    if i :| 0 < i < n && paths[i] == p && Takes(queue, paths[i], outcomes[i]) {
      assert paths[1..][i - 1] == p && outcomes[1..][i - 1] == outcomes[i];
    }
    if i :| 0 <= i < n - 1 && paths[1..][i] == p && Takes(queue, paths[1..][i], outcomes[1..][i]) {
      assert paths[i + 1] == p && outcomes[i + 1] == outcomes[1..][i];
    }
  }

  function Left(queue: map<string, File>, paths: seq<string>, outcomes: seq<Outcome>): map<string, File>
    requires |outcomes| == |paths|
  {
    map p | p in queue && !IsTaken(queue, paths, outcomes, p) :: queue[p]
  }

  lemma LeftStep(queue: map<string, File>, paths: seq<string>, outcomes: seq<Outcome>, next: map<string, File>)
    requires |outcomes| == |paths| && paths != [] && AllDifferent(paths) && !Stops(queue, paths[0], outcomes[0])
    requires next == if Takes(queue, paths[0], outcomes[0]) then queue - {paths[0]} else queue
    ensures Left(queue, paths, outcomes) == Left(next, paths[1..], outcomes[1..])
  {
    var path := paths[0];
    assert path !in paths[1..];
    StopWithout(queue, path, paths[1..], outcomes[1..]);
    forall p
      ensures IsTaken(queue, paths, outcomes, p)
         <==> (p == path && Takes(queue, p, outcomes[0])) || IsTaken(queue, paths[1..], outcomes[1..], p)
    {
      TakenStep(queue, paths, outcomes, p);
    }
    assert !IsTaken(queue, paths[1..], outcomes[1..], path);
  }

  /**
   * Whatever goes wrong, a pass takes out exactly the files listed before its first stop whose
   * content was sent, finally answered, and could be deleted or moved; it changes no other file.
   */
  lemma {:induction false} PassTakesExactly(s: State, paths: seq<string>, outcomes: seq<Outcome>)
    requires s.phase == Listed(paths) && s.token.Some? && |outcomes| == |paths| && AllDifferent(paths)
    ensures Turns(s, outcomes).phase == Idle && Turns(s, outcomes).queue == Left(s.queue, paths, outcomes)
    decreases |paths|
  {
    if paths == [] {
      assert Left(s.queue, paths, outcomes) == s.queue;
    } else {
      var o, path := outcomes[0], paths[0];
      var next := TurnOf(s, o);
      FaultyTurnMeans(s, o);
      if Stops(s.queue, path, o) {
        assert FirstStop(s.queue, paths, outcomes) == 0;
        assert Left(s.queue, paths, outcomes) == s.queue == next.queue;
        assert Turns(next, outcomes[1..]) == next;
      } else {
        LeftStep(s.queue, paths, outcomes, next.queue);
        PassTakesExactly(next, paths[1..], outcomes[1..]);
      }
    }
  }

  /** A pass from its listing on. */
  lemma PassMeans(s: State, paths: seq<string>, outcomes: seq<Outcome>)
    requires s.phase.Idle? && s.signedIn && s.token.Some? && IsListing(s.queue, paths) && |outcomes| == |paths|
    ensures Turns(Apply(s, BeginPass(paths)), outcomes).queue == Left(s.queue, paths, outcomes)
    ensures (forall o | o in outcomes :: IsClean(o)) ==> Left(s.queue, paths, outcomes) == Unread(s.queue)
  {
    var started := Apply(s, BeginPass(paths));
    PassTakesExactly(started, paths, outcomes);
    if forall o | o in outcomes :: IsClean(o) {
      CleanTurnsEmptyTheQueue(started, paths, outcomes);
    }
  }

  /**
   * So one capture whose answer is neither a success nor a refusal of its content holds back
   * every file listed after it, in each pass that lists it first.
   */
  lemma OneAnswerHoldsBackTheRest(s: State, paths: seq<string>, outcomes: seq<Outcome>, k: nat, j: nat)
    requires s.phase == Listed(paths) && s.token.Some? && |outcomes| == |paths| && AllDifferent(paths)
    requires k <= j < |paths| && paths[j] in s.queue
    requires IsSent(s.queue, paths[k], outcomes[k]) && !IsFinal(outcomes[k].exchange)
    ensures paths[j] in Turns(s, outcomes).queue
  {
    PassTakesExactly(s, paths, outcomes);
    assert Stops(s.queue, paths[k], outcomes[k]);
    assert FirstStop(s.queue, paths, outcomes) <= k;
  }

  // ----- a second sale under one number

  const ONE_TURN: seq<Event> := [Read(Works), Send(Answered), Finish(Works)]

  lemma {:induction false} RunConcat(s: State, a: seq<Event>, b: seq<Event>)
    ensures Run(s, a + b) == Run(Run(s, a), b)
    decreases |a|
  {
    if a == [] {
      assert a + b == b;
    } else {
      assert (a + b)[0] == a[0] && (a + b)[1..] == a[1..] + b;
      RunConcat(Apply(s, a[0]), a[1..], b);
    }
  }

  lemma RunOfOne(s: State, e: Event)
    ensures Run(s, [e]) == Apply(s, e)
  {
    assert [e][1..] == [];
  }

  lemma OneTurnMeans(s: State, path: string, i: Invoice, rest: seq<string>)
    requires s.phase == Listing([path] + rest) && s.token.Some?
    requires path in s.queue && s.queue[path] == Readable(i)
    ensures Run(s, ONE_TURN)
         == s.(phase := Listed(rest), queue := s.queue - {path}, settled := s.settled + {path},
               transactions := Ingested(s.transactions, i))
  {
    var sending := Apply(s, Read(Works));
    var deciding := Apply(sending, Send(Answered));
    assert ([path] + rest)[1..] == rest;
    assert sending.phase == Sending(path, i, rest);
    assert deciding.phase.Deciding? && deciding.phase.result.settled;
    ThreeSteps(s, Read(Works), Send(Answered), Finish(Works));
  }

  lemma ThreeSteps(s: State, a: Event, b: Event, c: Event)
    ensures Run(s, [a, b, c]) == Apply(Apply(Apply(s, a), b), c)
  {
    assert [a, b, c] == [a] + ([b] + [c]);
    RunConcat(s, [a], [b] + [c]);
    RunConcat(Run(s, [a]), [b], [c]);
    RunOfOne(s, a);
    RunOfOne(Apply(s, a), b);
    RunOfOne(Apply(Apply(s, a), b), c);
  }

  /** Enqueue both, sign in, and deliver both. */
  function TwoSales(a: Invoice, b: Invoice): seq<Event> {
    [Enqueue(a, true)] + [Enqueue(b, true)] + [TrySignIn(Granted("token"))] + [BeginPass([a.key, b.key])] + ONE_TURN + ONE_TURN
  }

  /**
   * Two captures under one branch and number: both are deleted, and only the first was recorded,
   * whatever the second is worth.
   */
  lemma SecondSaleUnderOneNumberIsDeleted(a: Invoice, b: Invoice)
    requires a.key != b.key && SlotOf(a) == SlotOf(b)
    ensures var s := Run(INIT, TwoSales(a, b));
            && s.enqueued == map[a.key := a, b.key := b] && s.settled == {a.key, b.key}
            && s.queue == map[] && s.rejected == map[] && s.transactions == [a] && b !in s.transactions
  {
    var s3 := Apply(Apply(Apply(INIT, Enqueue(a, true)), Enqueue(b, true)), TrySignIn(Granted("token")));
    var s4 := Apply(s3, BeginPass([a.key, b.key]));
    FourSteps(a, b);
    assert s3.queue == map[a.key := Readable(a), b.key := Readable(b)];
    assert IsListing(s3.queue, [a.key, b.key]);
    assert [a.key, b.key] == [a.key] + [b.key] && [b.key] == [b.key] + [];
    BothSettled(s4, a, b);
  }

  lemma BothSettled(s: State, a: Invoice, b: Invoice)
    requires a.key != b.key && SlotOf(a) == SlotOf(b) && s.transactions == [] && s.token.Some? && s.rejected == map[]
    requires s.queue == map[a.key := Readable(a), b.key := Readable(b)] && s.phase == Listing([a.key] + [b.key])
    ensures var s' := Run(Run(s, ONE_TURN), ONE_TURN);
            && s'.enqueued == s.enqueued && s'.settled == s.settled + {a.key, b.key}
            && s'.queue == map[] && s'.rejected == map[] && s'.transactions == [a]
  {
    OneTurnMeans(s, a.key, a, [b.key]);
    var s1 := Run(s, ONE_TURN);
    assert s1.transactions == [] + [a] && a in s1.transactions && Held(s1.transactions, SlotOf(b));
    assert [b.key] == [b.key] + [];
    OneTurnMeans(s1, b.key, b, []);
  }

  lemma FourSteps(a: Invoice, b: Invoice)
    ensures var s3 := Apply(Apply(Apply(INIT, Enqueue(a, true)), Enqueue(b, true)), TrySignIn(Granted("token")));
            Run(INIT, TwoSales(a, b)) == Run(Run(Apply(s3, BeginPass([a.key, b.key])), ONE_TURN), ONE_TURN)
  {
    var e1, e2, e3, e4 := [Enqueue(a, true)], [Enqueue(b, true)], [TrySignIn(Granted("token"))], [BeginPass([a.key, b.key])];
    RunConcat(INIT, e1 + e2 + e3 + e4 + ONE_TURN, ONE_TURN);
    RunConcat(INIT, e1 + e2 + e3 + e4, ONE_TURN);
    RunConcat(INIT, e1 + e2 + e3, e4);
    RunConcat(INIT, e1 + e2, e3);
    RunConcat(INIT, e1, e2);
    var s1 := Apply(INIT, Enqueue(a, true));
    var s2 := Apply(s1, Enqueue(b, true));
    RunOfOne(INIT, Enqueue(a, true));
    RunOfOne(s1, Enqueue(b, true));
    RunOfOne(s2, TrySignIn(Granted("token")));
    RunOfOne(Apply(s2, TrySignIn(Granted("token"))), BeginPass([a.key, b.key]));
  }
}
