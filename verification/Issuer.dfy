/** The licence issuer: building a payload, and the log every later command builds on. */
module Issuer {
  import opened Basics
  import opened Text
  import opened Payloads
  import LicenseStatus
  import UnlockNumeral

  const MAX_DAYS: nat := 3650
  const DEFAULT_FEATURES: seq<string> := ["drive_backup", "multi_device"]
  const KNOWN_FEATURES: set<string> := {"drive_backup", "multi_device"}

  datatype Term = ForDays(days: nat) | Forever

  datatype Request = Request(device: string, term: Term, extend: bool, features: Option<seq<string>>, note: Option<string>)

  datatype IssueError =
    | BadDevice | UnknownFeature | NoteTooLong | DaysOnPerpetual | DaysOutOfRange | NoTrialToExtend | Inconsistent
    | HoldsPerpetual | HoldsLicense | NothingToRenew | DuplicateId

  // ----- the log

  /** A row of the log as `List` returns it, and the payload inside the code the row keeps. */
  datatype Entry = Entry(
    licenseId: string, deviceId: string, kind: LicenseKind, issuedAt: int, expiresAt: Option<int>,
    features: string, note: Option<string>, extended: bool, payload: Payload
  )

  function Join(parts: seq<string>): string {
    if parts == [] then "" else if |parts| == 1 then parts[0] else parts[0] + "," + Join(parts[1..])
  }

  /** The pieces between commas; a text without commas is one piece. */
  function Split(s: string): (parts: seq<string>)
    ensures parts != []
  {
    if s == "" then [""]
    else
      var rest := Split(s[1..]);
      if s[0] == ',' then [""] + rest else [[s[0]] + rest[0]] + rest[1..]
  }

  function EntryOf(p: Payload, extended: bool): Entry {
    Entry(p.lid, p.did, p.kind, p.iat, p.exp, Join(p.feat), p.note, extended, p)
  }

  /** `entry` put after every entry issued no later. */
  function InsertByIssued(sorted: seq<Entry>, entry: Entry): seq<Entry> {
    var n := |sorted|;
    if n == 0 || sorted[n - 1].issuedAt <= entry.issuedAt then sorted + [entry]
    else InsertByIssued(sorted[..n - 1], entry) + [sorted[n - 1]]
  }

  /** Ordered by issue time, then by the order of insertion. */
  function ByIssued(rows: seq<Entry>): seq<Entry> {
    if rows == [] then [] else InsertByIssued(ByIssued(rows[..|rows| - 1]), rows[|rows| - 1])
  }

  /** The rows of one device, in the order they were inserted. */
  function Of(rows: seq<Entry>, device: string): seq<Entry> {
    if rows == [] then []
    else
      var last := rows[|rows| - 1];
      Of(rows[..|rows| - 1], device) + (if last.deviceId == device then [last] else [])
  }

  function List(rows: seq<Entry>, device: string): seq<Entry> {
    ByIssued(Of(rows, device))
  }

  // ----- what a device already holds

  datatype Current = Current(trialUntil: Option<int>, perpetualSince: Option<int>, features: seq<string>, note: Option<string>)

  function TrialUntil(entries: seq<Entry>): Option<int> {
    if entries == [] then None
    else
      var front, last := TrialUntil(entries[..|entries| - 1]), entries[|entries| - 1];
      if last.kind.Trial? && last.expiresAt.Some? then Some(LicenseStatus.Later(front, last.expiresAt.value)) else front
  }

  function PerpetualSince(entries: seq<Entry>): Option<int> {
    if entries == [] then None
    else if entries[0].kind.Perpetual? then Some(entries[0].issuedAt)
    else PerpetualSince(entries[1..])
  }

  function NonEmptyTrimmed(parts: seq<string>): seq<string> {
    if parts == [] then []
    else (if Trim(parts[0]) == "" then [] else [Trim(parts[0])]) + NonEmptyTrimmed(parts[1..])
  }

  function CurrentOf(entries: seq<Entry>): Option<Current> {
    if entries == [] then None
    else
      var latest := entries[|entries| - 1];
      Some(Current(TrialUntil(entries), PerpetualSince(entries), NonEmptyTrimmed(Split(latest.features)), latest.note))
  }

  /** The error with which a first licence is refused, by what the device holds. */
  function RefuseIfLicensed(current: Option<Current>): Option<IssueError> {
    if current.None? then None
    else if current.value.perpetualSince.Some? then Some(HoldsPerpetual)
    else Some(HoldsLicense)
  }

  function Renewal(device: string, term: Term, features: Option<seq<string>>, note: Option<string>, current: Option<Current>)
    : Result<Request, IssueError>
  {
    if current.None? then Err(NothingToRenew)
    else if current.value.perpetualSince.Some? then Err(HoldsPerpetual)
    else
      Ok(Request(device, term, term.ForDays?,
                 if features.Some? then features else Some(current.value.features),
                 if note.Some? then note else current.value.note))
  }

  // ----- building a payload

  /** `a` comes no later than `b` in the order of their characters. */
  predicate AtMost(a: string, b: string) {
    if a == "" then true
    else if b == "" then false
    else a[0] < b[0] || (a[0] == b[0] && AtMost(a[1..], b[1..]))
  }

  function InsertString(sorted: seq<string>, s: string): seq<string> {
    if sorted == [] || AtMost(s, sorted[0]) then [s] + sorted else [sorted[0]] + InsertString(sorted[1..], s)
  }

  function SortStrings(list: seq<string>): seq<string> {
    if list == [] then [] else InsertString(SortStrings(list[1..]), list[0])
  }

  /** Runs of equal neighbours reduced to one. */
  function Dedup(list: seq<string>): seq<string> {
    if |list| <= 1 then list
    else if list[0] == list[1] then Dedup(list[1..])
    else [list[0]] + Dedup(list[1..])
  }

  function FeatureSet(features: Option<seq<string>>): seq<string> {
    Dedup(SortStrings(if features.Some? then NonEmptyTrimmed(features.value) else DEFAULT_FEATURES))
  }

  function TidyNote(note: Option<string>): Option<string> {
    if note.None? || Trim(note.value) == "" then None else Some(Trim(note.value))
  }

  function Build(request: Request, now: int, previousExpiry: Option<int>, lid: string): Result<Payload, IssueError> {
    var device := NormalizeDeviceId(request.device);
    if !IsValidDeviceId(device) then Err(BadDevice)
    else
      var features := FeatureSet(request.features);
      if exists f | f in features :: f !in KNOWN_FEATURES then Err(UnknownFeature)
      else
        var note := TidyNote(request.note);
        if note.Some? && |note.value| > 120 then Err(NoteTooLong)
        else if request.term.Forever? then
          if request.extend then Err(DaysOnPerpetual)
          else Checked(Payload(FORMAT_VERSION, lid, device, LicenseKind.Perpetual, now, None, features, note))
        else if request.term.days == 0 || request.term.days > MAX_DAYS then Err(DaysOutOfRange)
        else if request.extend && previousExpiry.None? then Err(NoTrialToExtend)
        else
          var base := if request.extend then LicenseStatus.Later(previousExpiry, now) else now;
          var exp := base + Days(request.term.days);
          Checked(Payload(FORMAT_VERSION, lid, device, LicenseKind.Trial, now, Some(exp), features, note))
  }

  function Checked(p: Payload): Result<Payload, IssueError> {
    if IsConsistent(p) then Ok(p) else Err(Inconsistent)
  }

  // ----- one command

  datatype Command = Command(
    renew: bool, device: string, term: Term, features: Option<seq<string>>, note: Option<string>, now: int, lid: string
  )

  function RequestOf(rows: seq<Entry>, c: Command): Result<Request, IssueError> {
    var device := NormalizeDeviceId(c.device);
    var current := CurrentOf(List(rows, device));
    if c.renew then Renewal(device, c.term, c.features, c.note, current)
    else
      match RefuseIfLicensed(current)
      case Some(error) => Err(error)
      case None => Ok(Request(device, c.term, false, c.features, c.note))
  }

  /** The row a command adds to the log, or why it adds none. */
  function Execute(rows: seq<Entry>, c: Command): Result<Entry, IssueError> {
    match RequestOf(rows, c)
    case Err(error) => Err(error)
    case Ok(request) =>
      var current := CurrentOf(List(rows, NormalizeDeviceId(c.device)));
      match Build(request, c.now, if current.Some? then current.value.trialUntil else None, c.lid)
      case Err(error) => Err(error)
      case Ok(payload) =>
        if exists e | e in rows :: e.licenseId == payload.lid then Err(DuplicateId)
        else Ok(EntryOf(payload, request.extend))
  }

  /** The table behind the commands; `Run` is the only way it grows. */
  class IssueLog {
    var rows: seq<Entry>

    constructor ()
      ensures rows == []
    {
      rows := [];
    }

    method Record(payload: Payload, extended: bool) returns (added: bool)
      modifies this
      ensures added <==> !exists e | e in old(rows) :: e.licenseId == payload.lid
      ensures rows == if added then old(rows) + [EntryOf(payload, extended)] else old(rows)
    {
      added := !exists e | e in rows :: e.licenseId == payload.lid;
      if added {
        rows := rows + [EntryOf(payload, extended)];
      }
    }

    method Run(c: Command) returns (r: Result<Entry, IssueError>)
      modifies this
      ensures r == Execute(old(rows), c)
      ensures rows == if r.Ok? then old(rows) + [r.value] else old(rows)
    {
      var device := NormalizeDeviceId(c.device);
      var current := CurrentOf(List(rows, device));
      var request := RequestOf(rows, c);
      if request.Err? {
        return Err(request.error);
      }
      var built := Build(request.value, c.now, if current.Some? then current.value.trialUntil else None, c.lid);
      if built.Err? {
        return Err(built.error);
      }
      var added := Record(built.value, request.value.extend);
      r := if added then Ok(EntryOf(built.value, request.value.extend)) else Err(DuplicateId);
    }
  }

  function Commands(rows: seq<Entry>, commands: seq<Command>): seq<Entry>
    decreases |commands|
  {
    if commands == [] then rows
    else
      var r := Execute(rows, commands[0]);
      Commands(if r.Ok? then rows + [r.value] else rows, commands[1..])
  }

  // ----- what the log says

  lemma {:induction false} OfHolds(rows: seq<Entry>, device: string)
    ensures forall e :: e in Of(rows, device) <==> e in rows && e.deviceId == device
  {
    if rows != [] {
      var n := |rows| - 1;
      OfHolds(rows[..n], device);
      assert forall e :: e in rows <==> e == rows[n] || e in rows[..n];
    }
  }

  lemma {:induction false} InsertHolds(sorted: seq<Entry>, entry: Entry)
    ensures forall e :: e in InsertByIssued(sorted, entry) <==> e == entry || e in sorted
  {
    var n := |sorted|;
    if n > 0 && sorted[n - 1].issuedAt > entry.issuedAt {
      InsertHolds(sorted[..n - 1], entry);
      assert forall e :: e in sorted <==> e == sorted[n - 1] || e in sorted[..n - 1];
    }
  }

  lemma {:induction false} ByIssuedHolds(rows: seq<Entry>)
    ensures forall e :: e in ByIssued(rows) <==> e in rows
    ensures |ByIssued(rows)| == |rows|
  {
    if rows != [] {
      var n := |rows| - 1;
      ByIssuedHolds(rows[..n]);
      InsertHolds(ByIssued(rows[..n]), rows[n]);
      InsertLast(ByIssued(rows[..n]), rows[n]);
      assert forall e :: e in rows <==> e == rows[n] || e in rows[..n];
    }
  }

  function LastOf(entries: seq<Entry>): Entry
    requires entries != []
  {
    entries[|entries| - 1]
  }

  lemma {:induction false} InsertLast(sorted: seq<Entry>, entry: Entry)
    ensures |InsertByIssued(sorted, entry)| == |sorted| + 1
    ensures LastOf(InsertByIssued(sorted, entry))
         == if sorted == [] || LastOf(sorted).issuedAt <= entry.issuedAt then entry else LastOf(sorted)
  {
    var n := |sorted|;
    if n > 0 && sorted[n - 1].issuedAt > entry.issuedAt {
      InsertLast(sorted[..n - 1], entry);
    }
  }

  /** The last entry listed is the one issued last by the issuer's clock. */
  lemma {:induction false} ListedLastIsLatest(rows: seq<Entry>, e: Entry)
    requires e in rows
    ensures ByIssued(rows) != [] && e.issuedAt <= LastOf(ByIssued(rows)).issuedAt
  {
    var n := |rows| - 1;
    ByIssuedHolds(rows[..n]);
    InsertLast(ByIssued(rows[..n]), rows[n]);
    if e != rows[n] {
      assert e in rows[..n];
      ListedLastIsLatest(rows[..n], e);
    }
  }

  lemma {:induction false} TrialUntilIsMax(entries: seq<Entry>)
    ensures var r := TrialUntil(entries);
            && (forall e | e in entries && e.kind.Trial? && e.expiresAt.Some? :: r.Some? && e.expiresAt.value <= r.value)
            && (r.Some? ==> exists e | e in entries :: e.kind.Trial? && e.expiresAt == r)
  {
    if entries != [] {
      var n := |entries| - 1;
      TrialUntilIsMax(entries[..n]);
      assert forall e :: e in entries <==> e == entries[n] || e in entries[..n];
      var front := TrialUntil(entries[..n]);
      if front.Some? {
        var e :| e in entries[..n] && e.kind.Trial? && e.expiresAt == front;
        assert e in entries;
      }
      assert entries[n] in entries;
    }
  }

  lemma {:induction false} PerpetualSinceFinds(entries: seq<Entry>)
    ensures PerpetualSince(entries).Some? <==> exists e | e in entries :: e.kind.Perpetual?
  {
    if entries != [] {
      PerpetualSinceFinds(entries[1..]);
      assert forall e :: e in entries <==> e == entries[0] || e in entries[1..];
    }
  }

  // ----- features through the log and back

  predicate IsSorted(list: seq<string>) {
    |list| <= 1 || (AtMost(list[0], list[1]) && list[0] != list[1] && IsSorted(list[1..]))
  }

  predicate IsWeaklySorted(list: seq<string>) {
    |list| <= 1 || (AtMost(list[0], list[1]) && IsWeaklySorted(list[1..]))
  }

  lemma {:induction false} AtMostIsTotal(a: string, b: string)
    ensures AtMost(a, b) || AtMost(b, a)
  {
    if a != "" && b != "" && a[0] == b[0] {
      AtMostIsTotal(a[1..], b[1..]);
    }
  }

  lemma {:induction false} InsertSorts(sorted: seq<string>, s: string)
    requires IsWeaklySorted(sorted)
    ensures IsWeaklySorted(InsertString(sorted, s))
    ensures InsertString(sorted, s)[0] == s || (sorted != [] && InsertString(sorted, s)[0] == sorted[0])
    ensures forall x :: x in InsertString(sorted, s) <==> x == s || x in sorted
  {
    if sorted != [] && !AtMost(s, sorted[0]) {
      AtMostIsTotal(s, sorted[0]);
      InsertSorts(sorted[1..], s);
      assert ([sorted[0]] + InsertString(sorted[1..], s))[1..] == InsertString(sorted[1..], s);
      assert forall x :: x in sorted <==> x == sorted[0] || x in sorted[1..];
    } else {
      assert ([s] + sorted)[1..] == sorted;
    }
  }

  lemma {:induction false} SortSorts(list: seq<string>)
    ensures IsWeaklySorted(SortStrings(list))
    ensures forall x :: x in SortStrings(list) <==> x in list
  {
    if list != [] {
      SortSorts(list[1..]);
      InsertSorts(SortStrings(list[1..]), list[0]);
      assert forall x :: x in list <==> x == list[0] || x in list[1..];
    }
  }

  lemma {:induction false} DedupSorts(list: seq<string>)
    requires IsWeaklySorted(list)
    ensures IsSorted(Dedup(list))
    ensures list != [] ==> Dedup(list) != [] && Dedup(list)[0] == list[0]
    ensures forall x :: x in Dedup(list) <==> x in list
  {
    if |list| > 1 {
      DedupSorts(list[1..]);
      assert forall x :: x in list <==> x == list[0] || x in list[1..];
      if list[0] != list[1] {
        assert ([list[0]] + Dedup(list[1..]))[1..] == Dedup(list[1..]);
      }
    }
  }

  /** A feature list as the issuer writes it: known names, each once, in order. */
  predicate IsFeatureList(list: seq<string>) {
    IsSorted(list) && forall f | f in list :: f in KNOWN_FEATURES
  }

  predicate IsPlain(c: char) {
    0x20 < c as int < 0x80 && c != ','
  }

  lemma KnownFeaturesArePlain(f: string)
    requires f in KNOWN_FEATURES
    ensures |f| == 12
    ensures forall i | 0 <= i < |f| :: IsPlain(f[i])
  {
    if f != "drive_backup" {
      assert f == "multi_device";
    }
  }

  lemma {:induction false} PlainLength(s: string)
    requires forall i | 0 <= i < |s| :: IsPlain(s[i])
    ensures Utf8Length(s) == |s|
  {
    if s != "" {
      PlainLength(s[1..]);
    }
  }

  /** A name that comes back whole from a list joined with commas. */
  predicate IsTidy(f: string) {
    f != "" && IsTrimmed(f) && ',' !in f
  }

  lemma PlainIsTidy(f: string)
    requires |f| == 12 && forall i | 0 <= i < |f| :: IsPlain(f[i])
    ensures IsTidy(f) && Utf8Length(f) == 12
  {
    PlainLength(f);
  }

  lemma KnownFeaturesAreTidy(f: string)
    requires f in KNOWN_FEATURES
    ensures IsTidy(f) && Utf8Length(f) == 12
  {
    KnownFeaturesArePlain(f);
    PlainIsTidy(f);
  }

  lemma {:induction false} SplitPiece(piece: string, rest: string)
    requires ',' !in piece
    ensures Split(piece) == [piece]
    ensures Split(piece + "," + rest) == [piece] + Split(rest)
  {
    var whole := piece + "," + rest;
    if piece == "" {
      assert whole[1..] == rest;
    } else {
      SplitPiece(piece[1..], rest);
      assert whole[1..] == piece[1..] + "," + rest;
      assert [piece[0]] + piece[1..] == piece;
    }
  }

  lemma TidyFirst(piece: string, rest: seq<string>)
    requires IsTidy(piece)
    ensures NonEmptyTrimmed([piece] + rest) == [piece] + NonEmptyTrimmed(rest)
  {
    TrimmedIsFixed(piece);
    assert ([piece] + rest)[1..] == rest;
  }

  lemma JoinSplitsOneMore(piece: string, rest: seq<string>)
    requires IsTidy(piece) && rest != [] && NonEmptyTrimmed(Split(Join(rest))) == rest
    ensures NonEmptyTrimmed(Split(Join([piece] + rest))) == [piece] + rest
  {
    assert Join([piece] + rest) == piece + "," + Join(rest) by {
      assert ([piece] + rest)[1..] == rest;
    }
    SplitPiece(piece, Join(rest));
    TidyFirst(piece, Split(Join(rest)));
  }

  lemma {:induction false} JoinSplits(list: seq<string>)
    requires forall f | f in list :: IsTidy(f)
    ensures NonEmptyTrimmed(Split(Join(list))) == list
  {
    if list == [] {
      assert NonEmptyTrimmed([""]) == [];
    } else {
      var piece, rest := list[0], list[1..];
      assert piece in list && list == [piece] + rest;
      if rest == [] {
        SplitPiece(piece, "");
        TidyFirst(piece, []);
      } else {
        JoinSplits(rest);
        JoinSplitsOneMore(piece, rest);
      }
    }
  }

  lemma FeatureListIsTidy(list: seq<string>)
    requires IsFeatureList(list)
    ensures forall f | f in list :: IsTidy(f) && Utf8Length(f) == 12
  {
    forall f | f in list
      ensures IsTidy(f) && Utf8Length(f) == 12
    {
      KnownFeaturesAreTidy(f);
    }
  }

  lemma {:induction false} TidyListIsFixed(list: seq<string>)
    requires forall f | f in list :: IsTidy(f)
    ensures NonEmptyTrimmed(list) == list
  {
    if list != [] {
      assert list[0] in list;
      TidyListIsFixed(list[1..]);
      TidyFirst(list[0], list[1..]);
      assert list == [list[0]] + list[1..];
    }
  }

  lemma {:induction false} SortedListIsFixed(list: seq<string>)
    requires IsSorted(list)
    ensures SortStrings(list) == list && Dedup(list) == list
  {
    if list != [] {
      SortedListIsFixed(list[1..]);
      assert list == [list[0]] + list[1..];
    }
  }

  /** The features of a licence are the same set after the log's text and a renewal. */
  lemma FeaturesSurviveRenewal(list: seq<string>)
    requires IsFeatureList(list)
    ensures FeatureSet(Some(NonEmptyTrimmed(Split(Join(list))))) == list
  {
    FeatureListIsTidy(list);
    JoinSplits(list);
    TidyListIsFixed(list);
    SortedListIsFixed(list);
  }

  /** A request's features are exactly those asked for, each once. */
  lemma FeatureSetIsASet(features: seq<string>)
    ensures IsSorted(FeatureSet(Some(features)))
    ensures forall x :: x in FeatureSet(Some(features)) <==> x in NonEmptyTrimmed(features)
  {
    SortSorts(NonEmptyTrimmed(features));
    DedupSorts(SortStrings(NonEmptyTrimmed(features)));
  }

  lemma {:induction false} AtMostBothWays(a: string, b: string)
    requires AtMost(a, b) && AtMost(b, a)
    ensures a == b
  {
    if a != "" {
      AtMostBothWays(a[1..], b[1..]);
      assert a == [a[0]] + a[1..] && b == [b[0]] + b[1..];
    }
  }

  lemma FeatureListIsShort(list: seq<string>)
    requires IsFeatureList(list)
    ensures |list| <= 2
  {
    if |list| > 2 {
      assert IsSorted(list[1..]) && list[1..][0] == list[1] && list[1..][1] == list[2];
      assert list[0] in list && list[1] in list && list[2] in list;
      assert list[2] == list[0];
      AtMostBothWays(list[0], list[1]);
    }
  }

  lemma FeatureListIsConsistent(list: seq<string>)
    requires IsFeatureList(list)
    ensures |list| <= 32 && forall f | f in list :: 0 < Utf8Length(f) <= 40
  {
    FeatureListIsShort(list);
    FeatureListIsTidy(list);
  }

  lemma FeatureSetIsSorted(features: Option<seq<string>>)
    ensures IsSorted(FeatureSet(features))
  {
    var list := if features.Some? then NonEmptyTrimmed(features.value) else DEFAULT_FEATURES;
    SortSorts(list);
    DedupSorts(SortStrings(list));
  }

  predicate IsLicenseId(lid: string) {
    0 < Utf8Length(lid) <= 64
  }

  /** What a built payload is; and the builder never contradicts itself. */
  lemma BuildIs(request: Request, now: int, previousExpiry: Option<int>, lid: string)
    requires IsLicenseId(lid)
    ensures var r := Build(request, now, previousExpiry, lid);
            && r != Err(Inconsistent)
            && (r.Ok? ==>
                  && IsConsistent(r.value) && IsFeatureList(r.value.feat)
                  && r.value.lid == lid && r.value.iat == now
                  && r.value.did == NormalizeDeviceId(request.device)
                  && r.value.feat == FeatureSet(request.features)
                  && r.value.v == 1 && r.value.note == TidyNote(request.note)
                  && (r.value.kind.Trial? <==> request.term.ForDays?)
                  && (r.value.kind.Trial? && request.extend ==> previousExpiry.Some?)
                  && (r.value.kind.Trial? ==> request.term.days > 0)
                  && (r.value.kind.Trial? ==>
                        LicenseStatus.End(r.value) == Days(request.term.days)
                          + if request.extend then LicenseStatus.Later(previousExpiry, now) else now))
  {
    FeatureSetIsSorted(request.features);
    if IsFeatureList(FeatureSet(request.features)) {
      FeatureListIsConsistent(FeatureSet(request.features));
    }
  }

  // ----- which requests are built

  predicate AsksForKnownFeatures(features: Option<seq<string>>) {
    features.Some? ==>
      forall f | f in NonEmptyTrimmed(features.value) :: f == "drive_backup" || f == "multi_device"
  }

  /** The note, trimmed, has at most 120 characters; none at all is as good. */
  predicate NoteFits(note: Option<string>) {
    note.Some? ==> |Trim(note.value)| <= 120
  }

  /** A licence for ever adds to nothing; a trial has 1 to 3650 days, and added ones need an end to add to. */
  predicate TermFits(term: Term, extend: bool, previousExpiry: Option<int>) {
    match term
    case Forever => !extend
    case ForDays(days) => 1 <= days <= 3650 && (extend ==> previousExpiry.Some?)
  }

  lemma DefaultFeatures()
    ensures FeatureSet(None) == ["drive_backup", "multi_device"]
  {
    var a, b := "drive_backup", "multi_device";
    assert a[0] == 'd' && b[0] == 'm' && a != b;
    assert AtMost(a, b);
    var one, both: seq<string> := [b], [a, b];
    assert both[1..] == one && one[1..] == [];
    assert SortStrings(one) == one;
    assert SortStrings(both) == InsertString(one, a) == both;
    assert Dedup(one) == one && Dedup(both) == [a] + one;
  }

  lemma FeaturesAreKnown(features: Option<seq<string>>)
    ensures AsksForKnownFeatures(features) <==> forall f | f in FeatureSet(features) :: f in KNOWN_FEATURES
  {
    if features.Some? {
      FeatureSetIsASet(features.value);
    } else {
      DefaultFeatures();
    }
  }

  /** What a note becomes: itself, trimmed, or none if nothing is left. */
  lemma TidyNoteIs(note: Option<string>)
    ensures TidyNote(note).Some? <==> note.Some? && Trim(note.value) != ""
    ensures TidyNote(note).Some? ==> TidyNote(note).value == Trim(note.value) && IsTrimmed(TidyNote(note).value)
    ensures NoteFits(note) <==> TidyNote(note).None? || |TidyNote(note).value| <= 120
  {
    if note.Some? {
      TrimTrims(note.value);
    }
  }

  /**
   * A request is built exactly when its device, features, note and term are all as they must be;
   * otherwise the first that is not is named.
   */
  lemma BuildExactlyWhen(request: Request, now: int, previousExpiry: Option<int>, lid: string)
    requires IsLicenseId(lid)
    ensures var r := Build(request, now, previousExpiry, lid);
            var device := IsValidDeviceId(NormalizeDeviceId(request.device));
            var features := AsksForKnownFeatures(request.features);
            var note := NoteFits(request.note);
            && (r.Ok? <==> device && features && note && TermFits(request.term, request.extend, previousExpiry))
            && (r == Err(BadDevice) <==> !device)
            && (r == Err(UnknownFeature) <==> device && !features)
            && (r == Err(NoteTooLong) <==> device && features && !note)
            && (r == Err(DaysOnPerpetual) <==> device && features && note && request.term.Forever? && request.extend)
            && (r == Err(DaysOutOfRange) <==>
                  device && features && note && request.term.ForDays? && !(1 <= request.term.days <= 3650))
            && (r == Err(NoTrialToExtend) <==>
                  && device && features && note && request.term.ForDays? && 1 <= request.term.days <= 3650
                  && request.extend && previousExpiry.None?)
  {
    FeaturesAreKnown(request.features);
    TidyNoteIs(request.note);
    BuildIs(request, now, previousExpiry, lid);
  }

  // ----- every run of the issuer

  ghost predicate IsRow(e: Entry) {
    e == EntryOf(e.payload, e.extended) && IsConsistent(e.payload) && IsFeatureList(e.payload.feat)
  }

  /** `a`, inserted before `b` for the same device, is a trial, and ends before `b` does. */
  predicate Precedes(a: Entry, b: Entry) {
    a.deviceId == b.deviceId ==>
      && a.payload.kind.Trial?
      && (b.payload.kind.Trial? ==> LicenseStatus.End(a.payload) < LicenseStatus.End(b.payload))
  }

  /**
   * Every payload is consistent, licence ids are unique, each device's trials end later and
   * later in the order they were issued, and a perpetual licence can only be its last.
   */
  ghost predicate InOrder(rows: seq<Entry>) {
    && (forall e | e in rows :: IsRow(e))
    && (forall i, j | 0 <= i < j < |rows| :: Precedes(rows[i], rows[j]) && rows[i].licenseId != rows[j].licenseId)
  }

  lemma ListHolds(rows: seq<Entry>, device: string)
    ensures forall e :: e in List(rows, device) <==> e in rows && e.deviceId == device
  {
    OfHolds(rows, device);
    ByIssuedHolds(Of(rows, device));
  }

  /** What the log says of a device, under the invariant: its latest end is the end of some trial, and bounds them all. */
  lemma CurrentMeans(rows: seq<Entry>, device: string)
    requires InOrder(rows)
    ensures var current := CurrentOf(List(rows, device));
            && (current.None? <==> forall e | e in rows :: e.deviceId != device)
            && (current.Some? && current.value.perpetualSince.None? ==> current.value.trialUntil.Some?)
            && (current.Some? && current.value.perpetualSince.None? ==>
                  forall e | e in rows && e.deviceId == device ::
                    e.payload.kind.Trial? && LicenseStatus.End(e.payload) <= current.value.trialUntil.value)
            && (current.Some? && current.value.perpetualSince.Some? ==>
                  exists e | e in rows :: e.deviceId == device && e.payload.kind.Perpetual?)
  {
    var list := List(rows, device);
    ListHolds(rows, device);
    TrialUntilIsMax(list);
    PerpetualSinceFinds(list);
    if list != [] {
      assert list[0] in list;
    } else {
      forall e | e in rows
        ensures e.deviceId != device
      {
        assert e !in list;
      }
    }
  }

  lemma RequestIs(rows: seq<Entry>, c: Command)
    requires RequestOf(rows, c).Ok?
    ensures var device := NormalizeDeviceId(c.device);
            var current := CurrentOf(List(rows, device));
            var request := RequestOf(rows, c).value;
            && request.device == device && request.term == c.term
            && (c.renew <==> current.Some?)
            && (c.renew ==> current.value.perpetualSince.None? && request.extend == c.term.ForDays?)
            && (!c.renew ==> !request.extend)
  {
  }

  /** A command that succeeds adds a row that follows every earlier row of its device. */
  lemma ExecuteAdds(rows: seq<Entry>, c: Command)
    requires InOrder(rows) && IsLicenseId(c.lid)
    requires Execute(rows, c).Ok?
    ensures var row := Execute(rows, c).value;
            && IsRow(row) && row.deviceId == NormalizeDeviceId(c.device)
            && (forall e | e in rows :: Precedes(e, row) && e.licenseId != row.licenseId)
  {
    var device := NormalizeDeviceId(c.device);
    var current := CurrentOf(List(rows, device));
    var request := RequestOf(rows, c).value;
    RequestIs(rows, c);
    CurrentMeans(rows, device);
    NormalizeDeviceIdTwice(c.device);
    BuildIs(request, c.now, if current.Some? then current.value.trialUntil else None, c.lid);
  }

  lemma ExecuteKeepsOrder(rows: seq<Entry>, c: Command)
    requires InOrder(rows) && IsLicenseId(c.lid)
    requires Execute(rows, c).Ok?
    ensures InOrder(rows + [Execute(rows, c).value])
  {
    ExecuteAdds(rows, c);
    var row := Execute(rows, c).value;
    var more := rows + [row];
    forall i, j | 0 <= i < j < |more|
      ensures Precedes(more[i], more[j]) && more[i].licenseId != more[j].licenseId
    {
      assert more[i] == rows[i] && rows[i] in rows;
    }
  }

  /** The invariant holds after every sequence of commands, whatever the issuer's clock says. */
  lemma {:induction false} EveryRunIsInOrder(rows: seq<Entry>, commands: seq<Command>)
    requires InOrder(rows) && forall c | c in commands :: IsLicenseId(c.lid)
    ensures InOrder(Commands(rows, commands))
    ensures rows <= Commands(rows, commands)
    decreases |commands|
  {
    if commands != [] {
      var c := commands[0];
      if Execute(rows, c).Ok? {
        ExecuteKeepsOrder(rows, c);
        EveryRunIsInOrder(rows + [Execute(rows, c).value], commands[1..]);
      } else {
        EveryRunIsInOrder(rows, commands[1..]);
      }
    }
  }

  function TrialUntilOf(rows: seq<Entry>, device: string): Option<int> {
    var current := CurrentOf(List(rows, device));
    if current.Some? then current.value.trialUntil else None
  }

  lemma BuildErrs(request: Request, now: int, previousExpiry: Option<int>, lid: string)
    requires IsLicenseId(lid)
    requires request.extend ==> request.term.ForDays? && previousExpiry.Some?
    ensures var r := Build(request, now, previousExpiry, lid);
            r.Err? ==> r.error in {BadDevice, UnknownFeature, NoteTooLong, DaysOutOfRange}
  {
    BuildIs(request, now, previousExpiry, lid);
  }

  lemma RequestErrs(rows: seq<Entry>, c: Command)
    ensures RequestOf(rows, c).Err? ==> RequestOf(rows, c).error in {HoldsPerpetual, HoldsLicense, NothingToRenew}
  {
  }

  /** No renewal lacks a trial to add days to, and nothing built is inconsistent. */
  lemma NoInternalErrors(rows: seq<Entry>, c: Command)
    requires InOrder(rows) && IsLicenseId(c.lid)
    ensures Execute(rows, c).Err? ==> Execute(rows, c).error !in {NoTrialToExtend, DaysOnPerpetual, Inconsistent}
  {
    RequestErrs(rows, c);
    if RequestOf(rows, c).Ok? {
      var device := NormalizeDeviceId(c.device);
      RequestIs(rows, c);
      CurrentMeans(rows, device);
      BuildErrs(RequestOf(rows, c).value, c.now, TrialUntilOf(rows, device), c.lid);
    }
  }

  /** What a command asks to be built: its own features and note, or on a renewal those of the last row listed. */
  function FeaturesOf(rows: seq<Entry>, c: Command): Option<seq<string>> {
    var list := List(rows, NormalizeDeviceId(c.device));
    if c.features.Some? || !c.renew || list == [] then c.features else Some(LastOf(list).payload.feat)
  }

  function NoteOf(rows: seq<Entry>, c: Command): Option<string> {
    var list := List(rows, NormalizeDeviceId(c.device));
    if c.note.Some? || !c.renew || list == [] then c.note else LastOf(list).payload.note
  }

  predicate HasRow(rows: seq<Entry>, device: string) {
    exists e | e in rows :: e.deviceId == device
  }

  predicate HasPerpetual(rows: seq<Entry>, device: string) {
    exists e | e in rows :: e.deviceId == device && e.payload.kind.Perpetual?
  }

  /** A device without a row is issued a licence, and one with trials alone is renewed. */
  predicate StateFits(rows: seq<Entry>, c: Command) {
    var device := NormalizeDeviceId(c.device);
    (c.renew <==> HasRow(rows, device)) && !HasPerpetual(rows, device)
  }

  /** What the request of a command is made of. */
  lemma RequestHas(rows: seq<Entry>, c: Command)
    requires InOrder(rows)
    ensures var device := NormalizeDeviceId(c.device);
            var r := RequestOf(rows, c);
            && (r.Ok? <==> StateFits(rows, c))
            && (r == Err(HoldsPerpetual) <==> HasPerpetual(rows, device))
            && (r == Err(HoldsLicense) <==> !c.renew && HasRow(rows, device) && !HasPerpetual(rows, device))
            && (r == Err(NothingToRenew) <==> c.renew && !HasRow(rows, device))
            && (r.Ok? ==>
                  && r.value.device == device && r.value.term == c.term && r.value.extend == (c.renew && c.term.ForDays?)
                  && r.value.note == NoteOf(rows, c)
                  && FeatureSet(r.value.features) == FeatureSet(FeaturesOf(rows, c))
                  && (AsksForKnownFeatures(r.value.features) <==> AsksForKnownFeatures(FeaturesOf(rows, c)))
                  && (r.value.extend ==> TrialUntilOf(rows, device).Some?))
  {
    var device := NormalizeDeviceId(c.device);
    var list := List(rows, device);
    ListHolds(rows, device);
    CurrentMeans(rows, device);
    PerpetualSinceFinds(list);
    if list != [] {
      var latest := LastOf(list);
      assert latest in list && IsRow(latest);
      FeatureListIsTidy(latest.payload.feat);
      JoinSplits(latest.payload.feat);
      assert NonEmptyTrimmed(Split(latest.features)) == latest.payload.feat;
    }
  }

  /** A command adds a row exactly when the device's state, the request and the id allow it. */
  lemma ExecuteExactlyWhen(rows: seq<Entry>, c: Command)
    requires InOrder(rows) && IsLicenseId(c.lid)
    ensures Execute(rows, c).Ok?
       <==> && StateFits(rows, c)
            && IsValidDeviceId(NormalizeDeviceId(c.device))
            && AsksForKnownFeatures(FeaturesOf(rows, c)) && NoteFits(NoteOf(rows, c))
            && (c.term.ForDays? ==> 1 <= c.term.days <= 3650)
            && forall e | e in rows :: e.licenseId != c.lid
    ensures Execute(rows, c).Ok? ==>
              && Execute(rows, c).value.payload.feat == FeatureSet(FeaturesOf(rows, c))
              && Execute(rows, c).value.payload.note == TidyNote(NoteOf(rows, c))
              && Execute(rows, c).value.payload.iat == c.now
              && (Execute(rows, c).value.payload.kind.Trial? <==> c.term.ForDays?)
              && Execute(rows, c).value.extended == (c.renew && c.term.ForDays?)
  {
    var device := NormalizeDeviceId(c.device);
    RequestHas(rows, c);
    if RequestOf(rows, c).Ok? {
      var request := RequestOf(rows, c).value;
      NormalizeDeviceIdTwice(c.device);
      BuildExactlyWhen(request, c.now, TrialUntilOf(rows, device), c.lid);
      BuildIs(request, c.now, TrialUntilOf(rows, device), c.lid);
    }
  }

  /** And if it adds none, which of these is the first to fail. */
  lemma ExecuteErrsExactlyWhen(rows: seq<Entry>, c: Command)
    requires InOrder(rows) && IsLicenseId(c.lid)
    ensures var r, device := Execute(rows, c), NormalizeDeviceId(c.device);
            var taken := exists e | e in rows :: e.licenseId == c.lid;
            var known := StateFits(rows, c) && IsValidDeviceId(device);
            var listed := known && AsksForKnownFeatures(FeaturesOf(rows, c));
            var noted := listed && NoteFits(NoteOf(rows, c));
            var inRange := c.term.ForDays? ==> 1 <= c.term.days <= 3650;
            && (r == Err(HoldsPerpetual) <==> HasPerpetual(rows, device))
            && (r == Err(HoldsLicense) <==> !c.renew && HasRow(rows, device) && !HasPerpetual(rows, device))
            && (r == Err(NothingToRenew) <==> c.renew && !HasRow(rows, device))
            && (r == Err(BadDevice) <==> StateFits(rows, c) && !IsValidDeviceId(device))
            && (r == Err(UnknownFeature) <==> known && !listed)
            && (r == Err(NoteTooLong) <==> listed && !noted)
            && (r == Err(DaysOutOfRange) <==> noted && !inRange)
            && (r == Err(DuplicateId) <==> noted && inRange && taken)
  {
    var device := NormalizeDeviceId(c.device);
    RequestHas(rows, c);
    RequestErrs(rows, c);
    if RequestOf(rows, c).Ok? {
      var request := RequestOf(rows, c).value;
      NormalizeDeviceIdTwice(c.device);
      BuildExactlyWhen(request, c.now, TrialUntilOf(rows, device), c.lid);
      BuildErrs(request, c.now, TrialUntilOf(rows, device), c.lid);
      BuildIs(request, c.now, TrialUntilOf(rows, device), c.lid);
    }
  }

  /** One first licence, then renewals, all of them of trials. */
  lemma FirstThenRenewals(rows: seq<Entry>, c: Command)
    requires InOrder(rows) && IsLicenseId(c.lid)
    requires Execute(rows, c).Ok?
    ensures c.renew <==> exists e | e in rows :: e.deviceId == Execute(rows, c).value.deviceId
    ensures forall e | e in rows && e.deviceId == Execute(rows, c).value.deviceId :: e.payload.kind.Trial?
  {
    ExecuteAdds(rows, c);
    RequestIs(rows, c);
    CurrentMeans(rows, NormalizeDeviceId(c.device));
  }

  /** A renewal runs its days from now, or from the latest end of everything before it, whichever is later. */
  lemma RenewalAddsItsDays(rows: seq<Entry>, c: Command)
    requires InOrder(rows) && IsLicenseId(c.lid)
    requires c.renew && c.term.ForDays? && Execute(rows, c).Ok?
    ensures var base := LicenseStatus.End(Execute(rows, c).value.payload) - Days(c.term.days);
            && base >= c.now
            && (forall e | e in rows && e.deviceId == NormalizeDeviceId(c.device) :: base >= LicenseStatus.End(e.payload))
            && (base == c.now
                || exists e | e in rows :: e.deviceId == NormalizeDeviceId(c.device) && base == LicenseStatus.End(e.payload))
  {
    var device := NormalizeDeviceId(c.device);
    RequestIs(rows, c);
    BuildIs(RequestOf(rows, c).value, c.now, TrialUntilOf(rows, device), c.lid);
    LatestEndIsSomeEnd(rows, device);
  }

  lemma LatestEndIsSomeEnd(rows: seq<Entry>, device: string)
    requires InOrder(rows)
    requires CurrentOf(List(rows, device)).Some? && CurrentOf(List(rows, device)).value.perpetualSince.None?
    ensures var latest := TrialUntilOf(rows, device);
            && latest.Some?
            && (forall e | e in rows && e.deviceId == device :: LicenseStatus.End(e.payload) <= latest.value)
            && (exists e | e in rows :: e.deviceId == device && LicenseStatus.End(e.payload) == latest.value)
  {
    var list := List(rows, device);
    CurrentMeans(rows, device);
    ListHolds(rows, device);
    TrialUntilIsMax(list);
    var e :| e in list && e.kind.Trial? && e.expiresAt == TrialUntil(list);
    assert e in rows && IsRow(e);
  }

  /** However the shop enters its codes, in any order and any number of times, the newest governs. */
  lemma NewestGoverns(rows: seq<Entry>, device: string, entered: seq<Payload>)
    requires InOrder(rows) && Of(rows, device) != []
    requires LastOf(Of(rows, device)).payload in entered
    requires forall p | p in entered :: exists e | e in Of(rows, device) :: e.payload == p
    ensures LicenseStatus.BestLicense(entered) == Some(LastOf(Of(rows, device)).payload)
  {
    var newest := LastOf(Of(rows, device));
    forall e | e in Of(rows, device)
      ensures e == newest || Precedes(e, newest)
    {
      LastOfDevice(rows, device, e);
    }
    OfHolds(rows, device);
    LicenseStatus.BestGoverns(entered);
    var best := LicenseStatus.BestLicense(entered).value;
    var e :| e in Of(rows, device) && e.payload == best;
  }

  lemma {:induction false} LastOfDevice(rows: seq<Entry>, device: string, e: Entry)
    requires InOrder(rows) && e in Of(rows, device)
    ensures e == LastOf(Of(rows, device)) || Precedes(e, LastOf(Of(rows, device)))
  {
    var n := |rows| - 1;
    OfHolds(rows, device);
    if rows[n].deviceId == device {
      var i :| 0 <= i < |rows| && rows[i] == e;
      assert i < n ==> Precedes(rows[i], rows[n]);
    } else {
      LastOfDevice(rows[..n], device, e);
    }
  }

  // ----- which licence a renewal carries forward

  /** A renewal that names no features carries those of the last entry the log lists. */
  lemma RenewalCarriesListedFeatures(rows: seq<Entry>, c: Command)
    requires InOrder(rows) && IsLicenseId(c.lid)
    requires c.renew && c.features.None? && Execute(rows, c).Ok?
    ensures List(rows, NormalizeDeviceId(c.device)) != []
    ensures Execute(rows, c).value.payload.feat == LastOf(List(rows, NormalizeDeviceId(c.device))).payload.feat
  {
    var device := NormalizeDeviceId(c.device);
    var list := List(rows, device);
    RequestIs(rows, c);
    ListHolds(rows, device);
    var latest := LastOf(list);
    assert latest in list && IsRow(latest);
    FeaturesSurviveRenewal(latest.payload.feat);
    BuildIs(RequestOf(rows, c).value, c.now, CurrentOf(list).value.trialUntil, c.lid);
  }

  /** That entry is the device's newest licence exactly when the issuer's clock had not gone back before it was issued. */
  lemma ListedLastIsNewestExactlyWhen(rows: seq<Entry>, device: string)
    requires Of(rows, device) != []
    ensures List(rows, device) != []
    ensures LastOf(List(rows, device)) == LastOf(Of(rows, device))
       <==> forall e | e in Of(rows, device) :: e.issuedAt <= LastOf(Of(rows, device)).issuedAt
  {
    var own := Of(rows, device);
    var n := |own| - 1;
    ByIssuedHolds(own);
    ByIssuedHolds(own[..n]);
    InsertLast(ByIssued(own[..n]), own[n]);
    forall e | e in own
      ensures e.issuedAt <= LastOf(ByIssued(own)).issuedAt
    {
      ListedLastIsLatest(own, e);
    }
    if n > 0 {
      assert LastOf(ByIssued(own[..n])) in ByIssued(own[..n]);
      assert LastOf(ByIssued(own[..n])) in own;
    }
  }

  // ----- an issuer whose clock goes back

  /** One day for the shop, as its first licence or as a renewal. */
  function OneDay(renew: bool, shop: string, features: Option<seq<string>>, now: int, lid: string): Command {
    Command(renew, shop, ForDays(1), features, None, now, lid)
  }

  function TrialOf(lid: string, shop: string, iat: int, exp: int, feature: string): Payload {
    Payload(FORMAT_VERSION, lid, shop, LicenseKind.Trial, iat, Some(exp), [feature], None)
  }

  predicate IsShop(shop: string) {
    IsValidDeviceId(shop) && NormalizeDeviceId(shop) == shop
  }

  lemma OneFeature(feature: string)
    requires feature in KNOWN_FEATURES
    ensures FeatureSet(Some([feature])) == [feature]
    ensures NonEmptyTrimmed(Split(Join([feature]))) == [feature]
  {
    KnownFeaturesAreTidy(feature);
    JoinSplits([feature]);
    FeaturesSurviveRenewal([feature]);
  }

  lemma TrialIsConsistent(lid: string, shop: string, iat: int, exp: int, feature: string)
    requires IsLicenseId(lid) && feature in KNOWN_FEATURES && IsValidDeviceId(shop) && iat < exp
    ensures Checked(TrialOf(lid, shop, iat, exp, feature)) == Ok(TrialOf(lid, shop, iat, exp, feature))
  {
    assert IsFeatureList([feature]);
    FeatureListIsConsistent([feature]);
  }

  /** When one day granted now ends. */
  function OneDayOn(extend: bool, previous: Option<int>, now: int): int {
    (if extend then LicenseStatus.Later(previous, now) else now) + Days(1)
  }

  lemma BuildsPayload(request: Request, features: seq<string>, now: int, previous: Option<int>, lid: string, exp: int)
    requires IsShop(request.device) && request.term == ForDays(1) && request.note == None
    requires FeatureSet(request.features) == features && forall f | f in features :: f in KNOWN_FEATURES
    requires (request.extend ==> previous.Some?) && exp == OneDayOn(request.extend, previous, now)
    ensures Build(request, now, previous, lid)
         == Checked(Payload(FORMAT_VERSION, lid, request.device, LicenseKind.Trial, now, Some(exp), features, None))
  {
  }

  lemma BuildsTrial(request: Request, feature: string, now: int, previous: Option<int>, lid: string, exp: int)
    requires IsLicenseId(lid) && feature in KNOWN_FEATURES && IsShop(request.device)
    requires request.term == ForDays(1) && request.features == Some([feature]) && request.note == None
    requires (request.extend ==> previous.Some?) && exp == OneDayOn(request.extend, previous, now)
    ensures Build(request, now, previous, lid) == Ok(TrialOf(lid, request.device, now, exp, feature))
  {
    OneFeature(feature);
    BuildsPayload(request, [feature], now, previous, lid, exp);
    TrialIsConsistent(lid, request.device, now, exp, feature);
  }

  lemma FirstRow(shop: string, feature: string, now: int, lid: string, exp: int)
    requires IsLicenseId(lid) && feature in KNOWN_FEATURES && IsShop(shop) && exp == OneDayOn(false, None, now)
    ensures Execute([], OneDay(false, shop, Some([feature]), now, lid)) == Ok(EntryOf(TrialOf(lid, shop, now, exp, feature), false))
  {
    assert List([], shop) == [];
    BuildsTrial(Request(shop, ForDays(1), false, Some([feature]), None), feature, now, None, lid, exp);
  }

  lemma RenewalRow(
    rows: seq<Entry>, shop: string, features: Option<seq<string>>, feature: string, now: int, lid: string, current: Current, exp: int
  )
    requires IsLicenseId(lid) && feature in KNOWN_FEATURES && IsShop(shop)
    requires forall e | e in rows :: e.licenseId != lid
    requires CurrentOf(List(rows, shop)) == Some(current)
    requires current.trialUntil.Some? && current.perpetualSince == None && current.note == None
    requires [feature] == if features.Some? then features.value else current.features
    requires exp == OneDayOn(true, current.trialUntil, now)
    ensures Execute(rows, OneDay(true, shop, features, now, lid)) == Ok(EntryOf(TrialOf(lid, shop, now, exp, feature), true))
  {
    BuildsTrial(Request(shop, ForDays(1), true, Some([feature]), None), feature, now, current.trialUntil, lid, exp);
  }

  lemma OneRow(a: Entry, shop: string)
    requires a.deviceId == shop && a.kind.Trial? && a.expiresAt.Some?
    ensures List([a], shop) == [a]
    ensures CurrentOf([a]) == Some(Current(a.expiresAt, None, NonEmptyTrimmed(Split(a.features)), a.note))
  {
    assert [a][..0] == [];
    assert Of([a], shop) == [] + [a];
    assert ByIssued([a]) == [a];
    assert TrialUntil([a]) == a.expiresAt;
    PerpetualSinceFinds([a]);
  }

  lemma TwoRows(a: Entry, b: Entry, shop: string)
    requires a.deviceId == shop && b.deviceId == shop && b.issuedAt < a.issuedAt
    requires a.kind.Trial? && b.kind.Trial? && a.expiresAt.Some? && b.expiresAt.Some?
    ensures List([a, b], shop) == [b, a]
    ensures CurrentOf([b, a])
         == Some(Current(Some(LicenseStatus.Later(b.expiresAt, a.expiresAt.value)), None, NonEmptyTrimmed(Split(a.features)), a.note))
  {
    assert [a, b][..1] == [a] && [a][..0] == [] && [b, a][..1] == [b] && [b][..0] == [];
    assert Of([a], shop) == [] + [a];
    assert ByIssued([a]) == [a];
    assert ByIssued([a, b]) == InsertByIssued([a], b);
    assert InsertByIssued([a], b) == InsertByIssued([], b) + [a];
    assert TrialUntil([b]) == b.expiresAt;
    PerpetualSinceFinds([b, a]);
  }

  lemma CommandsStep(rows: seq<Entry>, c: Command, more: seq<Command>, row: Entry)
    requires Execute(rows, c) == Ok(row)
    ensures Commands(rows, [c] + more) == Commands(rows + [row], more)
  {
    assert ([c] + more)[1..] == more;
  }

  lemma ThreeCommands(first: Command, second: Command, third: Command, a: Entry, b: Entry, c: Entry)
    requires Execute([], first) == Ok(a) && Execute([a], second) == Ok(b) && Execute([a, b], third) == Ok(c)
    ensures Commands([], [first, second, third]) == [a, b, c]
  {
    CommandsStep([], first, [second, third], a);
    assert [first, second, third] == [first] + [second, third] && [] + [a] == [a];
    CommandsStep([a], second, [third], b);
    assert [second, third] == [second] + [third] && [a] + [b] == [a, b];
    CommandsStep([a, b], third, [], c);
    assert [third] == [third] + [] && [a, b] + [c] == [a, b, c];
  }

  /**
   * A shop is issued one feature, then renewed for another with the issuer's clock set back. Its
   * next renewal, which names no feature, carries on the older one, whatever the time is then.
   */
  lemma ClockSetBackCarriesOlderFeatures(
    shop: string, older: string, newer: string, t: int, back: int, later: int, a: string, b: string, c: string
  )
    requires IsShop(shop) && older in KNOWN_FEATURES && newer in KNOWN_FEATURES && back < t
    requires IsLicenseId(a) && IsLicenseId(b) && IsLicenseId(c) && a != b && a != c && b != c
    ensures var log := Commands([], [OneDay(false, shop, Some([older]), t, a),
                                     OneDay(true, shop, Some([newer]), back, b),
                                     OneDay(true, shop, None, later, c)]);
            && |log| == 3
            && log[0].payload.feat == [older] && log[1].payload.feat == [newer] && log[2].payload.feat == [older]
  {
    var endA := OneDayOn(false, None, t);
    var rowA := EntryOf(TrialOf(a, shop, t, endA, older), false);
    FirstRow(shop, older, t, a, endA);
    OneRow(rowA, shop);
    var heldA := CurrentOf([rowA]).value;
    var endB := OneDayOn(true, heldA.trialUntil, back);
    var rowB := EntryOf(TrialOf(b, shop, back, endB, newer), true);
    RenewalRow([rowA], shop, Some([newer]), newer, back, b, heldA, endB);
    TwoRows(rowA, rowB, shop);
    OneFeature(older);
    var heldB := CurrentOf([rowB, rowA]).value;
    var endC := OneDayOn(true, heldB.trialUntil, later);
    var rowC := EntryOf(TrialOf(c, shop, later, endC, older), true);
    RenewalRow([rowA, rowB], shop, None, older, later, c, heldB, endC);
    ThreeCommands(OneDay(false, shop, Some([older]), t, a), OneDay(true, shop, Some([newer]), back, b),
                  OneDay(true, shop, None, later, c), rowA, rowB, rowC);
  }

  const SAMPLE_SHOP: string := "WL-2345-6789"

  /** There are such shops, and such features and ids. */
  lemma SampleShopIsShop()
    ensures IsShop(SAMPLE_SHOP)
    ensures "drive_backup" in KNOWN_FEATURES && "multi_device" in KNOWN_FEATURES && "drive_backup" != "multi_device"
    ensures IsLicenseId("a") && IsLicenseId("b") && IsLicenseId("c") && "a" != "b" && "a" != "c" && "b" != "c"
  {
    assert SAMPLE_SHOP[..3] == "WL-";
    forall i | 3 <= i < 12 && i != 7
      ensures SAMPLE_SHOP[i] in UnlockNumeral.ALPHABET
    {
      var d := if i < 7 then i - 3 else i - 4;
      assert SAMPLE_SHOP[i] == UnlockNumeral.ALPHABET[d];
    }
    TrimmedIsFixed(SAMPLE_SHOP);
    assert UpperAscii(SAMPLE_SHOP) == SAMPLE_SHOP;
    assert "drive_backup"[0] != "multi_device"[0];
    assert "a"[0] != "b"[0] && "a"[0] != "c"[0] && "b"[0] != "c"[0];
  }
}
