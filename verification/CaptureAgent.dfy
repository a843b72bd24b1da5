/** The agent's queue, client and delivery loop, as they run: each step of theirs is a step of the protocol. */
module CaptureAgent {
  import opened Basics
  import opened CaptureProtocol

  /** The manager machine behind the ingest endpoint. */
  class Manager {
    var transactions: seq<Invoice>
    ghost var foreign: set<Invoice>

    constructor ()
      ensures transactions == [] && foreign == {}
    {
      transactions, foreign := [], {};
    }

    method Ingest(i: Invoice) returns (duplicate: bool)
      modifies this
      ensures duplicate <==> Held(old(transactions), SlotOf(i))
      ensures transactions == Ingested(old(transactions), i) && foreign == old(foreign)
    {
      duplicate := exists t | t in transactions :: SlotOf(t) == SlotOf(i);
      if !duplicate {
        transactions := transactions + [i];
      }
    }
  }

  /** A file of the listing, read: a capture, nothing to send, or a failure that leaves the loop. */
  datatype ReadResult = Got(invoice: Invoice) | PassedOver | Escaped

  /** `files` is the queue and `rejected` what was set aside, by idempotency key; `temporary` holds what was never moved in. */
  class CaptureQueue {
    var temporary: set<string>
    var files: map<string, File>
    var rejected: map<string, File>
    ghost var enqueued: map<string, Invoice>
    ghost var settled: set<string>

    constructor ()
      ensures temporary == {} && files == map[] && rejected == map[] && enqueued == map[] && settled == {}
    {
      temporary, files, rejected := {}, map[], map[];
      enqueued, settled := map[], {};
    }

    /** The capture enters `files` if it is written and moved there; if not, no file changes but perhaps one in `temporary`. */
    method Enqueue(i: Invoice, writes: bool, moves: bool, cleans: bool) returns (path: Option<string>)
      requires i.key in enqueued ==> enqueued[i.key] == i
      modifies this
      ensures path == if writes && moves then Some(i.key) else None
      ensures files == (if path.Some? then old(files)[i.key := Readable(i)] else old(files))
      ensures enqueued == (if path.Some? then old(enqueued)[i.key := i] else old(enqueued))
      ensures rejected == old(rejected) && settled == old(settled)
      ensures temporary - {i.key} == old(temporary) - {i.key}
      ensures (path.Some? || cleans) ==> i.key !in temporary
    {
      temporary := temporary + {i.key};
      if writes && moves {
        temporary := temporary - {i.key};
        files := files[i.key := Readable(i)];
        enqueued := enqueued[i.key := i];
        return Some(i.key);
      }
      if cleans {
        temporary := temporary - {i.key};
      }
      path := None;
    }

    method ReadPending(path: string, disk: Disk) returns (r: ReadResult)
      ensures r.Got? <==> path in files && files[path].Readable? && disk == Works
      ensures r.Got? ==> r.invoice == files[path].invoice
      ensures r.Escaped? <==> path in files && disk == Denied
    {
      if path !in files {
        return PassedOver;
      }
      match disk
      case Denied => r := Escaped;
      case IoError => r := PassedOver;
      case Works => r := if files[path].Readable? then Got(files[path].invoice) else PassedOver;
    }

    /** Takes `path` out of `files`, where the disk works. */
    method Settle(path: string, disk: Disk) returns (escaped: bool)
      modifies this
      ensures escaped <==> disk == Denied
      ensures files == (if disk == Works then old(files) - {path} else old(files))
      ensures settled == (if disk == Works then old(settled) + {path} else old(settled))
      ensures rejected == old(rejected) && enqueued == old(enqueued) && temporary == old(temporary)
    {
      if disk == Works {
        files := files - {path};
        settled := settled + {path};
      }
      escaped := disk == Denied;
    }

    /** Moves `path` from `files` to `rejected`, where the disk works. */
    method Quarantine(path: string, disk: Disk) returns (escaped: bool)
      modifies this
      ensures escaped <==> disk == Denied
      ensures var moved := disk == Works && path in old(files);
              && files == (if moved then old(files) - {path} else old(files))
              && rejected == (if moved then old(rejected)[path := old(files)[path]] else old(rejected))
      ensures settled == old(settled) && enqueued == old(enqueued) && temporary == old(temporary)
    {
      if disk == Works && path in files {
        rejected := rejected[path := files[path]];
        files := files - {path};
      }
      escaped := disk == Denied;
    }
  }

  /** Delivers captures; holds the access token between calls. */
  class IngestClient {
    const manager: Manager
    var accessToken: Option<string>

    constructor (manager: Manager)
      ensures this.manager == manager && accessToken == None
    {
      this.manager := manager;
      accessToken := None;
    }

    method SignInAsync(outcome: SignIn) returns (signedIn: bool)
      modifies this
      ensures signedIn ==> accessToken.Some?
      ensures signedIn <==> outcome.Granted?
      ensures accessToken == if outcome.Granted? then Some(outcome.token) else if outcome.NoTokenInBody? then None else old(accessToken)
    {
      match outcome
      case Granted(token) =>
        accessToken := Some(token);
        signedIn := true;
      case NoTokenInBody =>
        accessToken := None;
        signedIn := false;
      case NotAccepted => signedIn := false;
      case Unreachable => signedIn := false;
    }

    /** Posts one capture, and says what to do with its file; no result where the answer's body cannot be read. */
    method DeliverAsync(i: Invoice, x: Exchange) returns (r: Option<DeliveryResult>)
      modifies this, manager
      ensures r == Classified(old(manager.transactions), i, old(accessToken), x)
      ensures manager.transactions
           == if old(accessToken).None? then old(manager.transactions) else Carried(old(manager.transactions), i, x)
      ensures manager.foreign == old(manager.foreign)
      ensures accessToken == TokenAfter(old(accessToken), x)
    {
      if accessToken.None? {
        return Some(DeliveryResult(false, false, true, NotSignedIn));
      }
      match x
      case RequestLost =>
        r := Some(DeliveryResult(false, false, true, NoAnswer));
      case ResponseLost =>
        var _ := manager.Ingest(i);
        r := Some(DeliveryResult(false, false, true, NoAnswer));
      case Answered =>
        var duplicate := manager.Ingest(i);
        r := Some(DeliveryResult(true, duplicate, false, if duplicate then AlreadyRecorded else Recorded));
      case TokenRefused =>
        accessToken := None;
        r := Some(DeliveryResult(false, false, true, TokenExpired));
      case ContentRefused(bodyRead) =>
        r := if bodyRead then Some(DeliveryResult(false, false, false, Rejected)) else None;
      case ManagerFailed(carriedOut) =>
        if carriedOut {
          var _ := manager.Ingest(i);
        }
        r := Some(DeliveryResult(false, false, true, OtherStatus));
    }
  }

  /** The delivery loop over them. */
  class AgentWorker {
    const queue: CaptureQueue
    const ingest: IngestClient
    var signedIn: bool

    constructor (queue: CaptureQueue, ingest: IngestClient)
      ensures this.queue == queue && this.ingest == ingest && !signedIn
    {
      this.queue, this.ingest, signedIn := queue, ingest, false;
    }

    /** Where the protocol stands, with the loop at `phase`. */
    ghost function At(phase: Phase): State
      reads this, queue, ingest, ingest.manager
    {
      State(queue.files, queue.rejected, ingest.manager.transactions, ingest.accessToken, signedIn, phase,
            queue.enqueued, queue.settled, ingest.manager.foreign)
    }

    method TrySignIn(outcome: SignIn)
      modifies this, ingest
      ensures At(Idle) == Apply(old(At(Idle)), CaptureProtocol.Event.TrySignIn(outcome))
    {
      if !signedIn {
        signedIn := ingest.SignInAsync(outcome);
      }
    }

    /** What the answer means for the file, and for the rest of the pass. */
    method ActOn(path: string, r: DeliveryResult, disk: Disk, ghost i: Invoice, ghost rest: seq<string>) returns (go: bool)
      modifies this, queue
      ensures At(if go then Listed(rest) else Idle) == AfterFinish(old(At(Deciding(path, i, r, rest))), disk)
      ensures go ==> (r.settled || !r.retryable) && signedIn == old(signedIn)
    {
      if r.settled {
        var escaped := queue.Settle(path, disk);
        go := !escaped;
      } else if !r.retryable {
        var escaped := queue.Quarantine(path, disk);
        go := !escaped;
      } else {
        if r.detail == TokenExpired {
          signedIn := false;
        }
        go := false;
      }
    }

    /** One file of the listing: sent, and settled, set aside, or left; `go` says that the pass goes on. */
    method DeliverOne(path: string, o: Outcome, ghost rest: seq<string>) returns (go: bool)
      requires ingest.accessToken.Some?
      modifies this, queue, ingest, ingest.manager
      ensures At(if go then Listed(rest) else Idle) == TurnOf(old(At(Listing([path] + rest))), o)
      ensures go ==> ingest.accessToken.Some? && signedIn == old(signedIn)
    {
      ghost var s0 := At(Listing([path] + rest));
      ghost var s1 := AfterRead(s0, o.read);
      assert ([path] + rest)[1..] == rest;
      var read := queue.ReadPending(path, o.read);
      if !read.Got? {
        go := !read.Escaped?;
        assert s1 == At(if go then Listed(rest) else Idle);
        return;
      }
      var i := read.invoice;
      assert s1 == At(Sending(path, i, rest));
      var r := ingest.DeliverAsync(i, o.exchange);
      ghost var s2 := AfterSend(s1, o.exchange);
      if r.None? {
        assert s2 == At(Idle);
        return false;
      }
      assert s2 == At(Deciding(path, i, r.value, rest));
      go := ActOn(path, r.value, o.finish, i, rest);
    }

    /**
     * A pass over everything that was waiting, in the order it was listed, until it ends or is
     * given up. It leaves what `Left` says, and without a fault only the files that cannot be read.
     */
    method DeliverPass(paths: seq<string>, outcomes: seq<Outcome>)
      requires signedIn && ingest.accessToken.Some?
      requires IsListing(queue.files, paths) && |outcomes| == |paths|
      modifies this, queue, ingest, ingest.manager
      ensures At(Idle) == Turns(Apply(old(At(Idle)), BeginPass(paths)), outcomes)
      ensures queue.files == Left(old(queue.files), paths, outcomes)
      ensures (forall o | o in outcomes :: IsClean(o)) ==> queue.files == Unread(old(queue.files))
    {
      ghost var started := Apply(At(Idle), BeginPass(paths));
      ghost var goal := Turns(started, outcomes);
      PassMeans(At(Idle), paths, outcomes);
      ghost var here, ahead, left := started, paths, outcomes;
      var i, go := 0, true;
      while i < |paths| && go
        invariant 0 <= i <= |paths| && ahead == paths[i..] && left == outcomes[i..]
        invariant go ==> ingest.accessToken.Some?
        invariant here == At(if go then Listed(ahead) else Idle)
        invariant goal == Turns(here, left)
      {
        ghost var o, more := outcomes[i], outcomes[i + 1..];
        assert ahead == [paths[i]] + paths[i + 1..] && left == [o] + more;
        go := DeliverOne(paths[i], outcomes[i], paths[i + 1..]);
        ghost var next := At(if go then Listed(paths[i + 1..]) else Idle);
        TurnsStep(here, o, more, next);
        here, ahead, left := next, paths[i + 1..], more;
        i := i + 1;
      }
    }
  }
}
