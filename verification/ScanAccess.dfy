/**
 * Access to scan results: ownership, privileged roles, sharing with expiry, and the rotating access log.
 * Times are seconds; each method is one atomic step.
 */
module ScanAccess {
  import opened Foundations

  datatype Role = Admin | Auditor | SecurityResearcher | Developer | User

  datatype Action = View | Download | Share | Delete | Verify | Export

  datatype LogEntry = LogEntry(userId: string, role: Role, accessedAt: nat, ipAddress: Option<string>, action: Action,
                               success: bool, failureReason: Option<string>)

  datatype ScanRecord = ScanRecord(
    scanId: string,
    ownerId: string,
    target: string,
    createdAt: nat,
    updatedAt: nat,
    isPublic: bool,
    sharedWith: seq<string>,
    sharingExpiresAt: Option<nat>,
    accessLog: seq<LogEntry>)

  datatype Config = Config(
    enforceAccessControl: bool,
    maxShareRecipients: nat,
    defaultShareExpiryHours: Option<nat>,
    maxShareExpiryHours: nat,
    logAllAccess: bool,
    maxAccessLogEntries: nat)

  datatype AccessError = ScanNotFound | AccessDenied | InvalidOperation | LimitExceeded

  predicate CanAccessOthers(r: Role) {
    r.Admin? || r.Auditor?
  }

  function NewScan(scanId: string, ownerId: string, target: string, now: nat): ScanRecord {
    ScanRecord(scanId, ownerId, target, now, now, false, [], None, [])
  }

  /** Listed, and the scan's one sharing expiry has not passed. */
  predicate SharedNow(scan: ScanRecord, userId: string, now: nat) {
    !(scan.sharingExpiresAt.Some? && now > scan.sharingExpiresAt.value) && userId in scan.sharedWith
  }

  predicate MayAccess(scan: ScanRecord, userId: string, role: Role, now: nat) {
    scan.ownerId == userId || CanAccessOthers(role) || SharedNow(scan, userId, now) || scan.isPublic
  }

  // ---------------------------------------------------------------- changes to one record

  function ShareHours(config: Config, requested: Option<nat>): nat {
    var hours := if requested.Some? then requested.value else config.defaultShareExpiryHours.GetOr(720);
    Min(hours, config.maxShareExpiryHours)
  }

  function Shared(config: Config, scan: ScanRecord, actor: string, userId: string, hours: Option<nat>, now: nat)
    : Result<ScanRecord, AccessError>
  {
    if scan.ownerId != actor then Err(AccessDenied)
    else if userId == actor then Err(InvalidOperation)
    else if |scan.sharedWith| >= config.maxShareRecipients then Err(LimitExceeded)
    else Ok(scan.(sharedWith := if userId in scan.sharedWith then scan.sharedWith else scan.sharedWith + [userId],
                  sharingExpiresAt := Some(now + ShareHours(config, hours) * 3600),
                  updatedAt := now))
  }

  function Without(users: seq<string>, userId: string): seq<string> {
    Filter(users, u => u != userId)
  }

  function Unshared(scan: ScanRecord, actor: string, userId: string, now: nat): Result<ScanRecord, AccessError> {
    if scan.ownerId != actor then Err(AccessDenied)
    else Ok(scan.(sharedWith := Without(scan.sharedWith, userId), updatedAt := now))
  }

  function Logged(config: Config, scan: ScanRecord, entry: LogEntry): ScanRecord {
    if !config.logAllAccess then scan
    else scan.(accessLog := LastN(scan.accessLog + [entry], config.maxAccessLogEntries))
  }

  // ---------------------------------------------------------------- the history of one record

  datatype Event =
    | ShareEvent(actor: string, userId: string, hours: Option<nat>, now: nat)
    | RevokeEvent(actor: string, userId: string, now: nat)
    | LogEvent(entry: LogEntry)

  function ApplyEvent(config: Config, scan: ScanRecord, e: Event): Result<ScanRecord, AccessError> {
    match e
    case ShareEvent(actor, userId, hours, now) => Shared(config, scan, actor, userId, hours, now)
    case RevokeEvent(actor, userId, now) => Unshared(scan, actor, userId, now)
    case LogEvent(entry) => Ok(Logged(config, scan, entry))
  }

  function Run(config: Config, scan: ScanRecord, events: seq<Event>): ScanRecord {
    if events == [] then scan
    else
      var n := |events| - 1;
      var before := Run(config, scan, events[..n]);
      match ApplyEvent(config, before, events[n])
      case Ok(after) => after
      case Err(_) => before
  }

  predicate Succeeds(config: Config, scan: ScanRecord, events: seq<Event>, i: nat)
    requires i < |events|
  {
    ApplyEvent(config, Run(config, scan, events[..i]), events[i]).Ok?
  }

  /** Event `i` is a successful share with the user. */
  predicate SharesWith(config: Config, scan: ScanRecord, events: seq<Event>, i: nat, userId: string)
    requires i < |events|
  {
    Succeeds(config, scan, events, i) && events[i].ShareEvent? && events[i].userId == userId
  }

  predicate RevokesFrom(config: Config, scan: ScanRecord, events: seq<Event>, i: nat, userId: string)
    requires i < |events|
  {
    Succeeds(config, scan, events, i) && events[i].RevokeEvent? && events[i].userId == userId
  }

  /** The user's last successful share or revocation was a share. */
  ghost predicate LastWordIsShare(config: Config, scan: ScanRecord, events: seq<Event>, userId: string) {
    exists i :: 0 <= i < |events| && SharesWith(config, scan, events, i, userId)
                && forall j :: i < j < |events| ==> !RevokesFrom(config, scan, events, j, userId)
  }

  /** The expiry set by the scan's latest successful share, with whomever. */
  ghost function LatestExpiry(config: Config, scan: ScanRecord, events: seq<Event>): Option<nat> {
    if events == [] then None
    else
      var n := |events| - 1;
      if Succeeds(config, scan, events, n) && events[n].ShareEvent?
      then Some(events[n].now + ShareHours(config, events[n].hours) * 3600)
      else LatestExpiry(config, scan, events[..n])
  }

  ghost function LogEntries(events: seq<Event>): seq<LogEntry> {
    if events == [] then []
    else LogEntries(events[..|events| - 1])
         + (if events[|events| - 1].LogEvent? then [events[|events| - 1].entry] else [])
  }

  lemma PrefixWords(config: Config, scan: ScanRecord, events: seq<Event>, i: nat, userId: string)
    requires i < |events| - 1
    ensures SharesWith(config, scan, events[..|events| - 1], i, userId) <==> SharesWith(config, scan, events, i, userId)
    ensures RevokesFrom(config, scan, events[..|events| - 1], i, userId) <==> RevokesFrom(config, scan, events, i, userId)
  {
    assert events[..|events| - 1][..i] == events[..i];
  }

  lemma LastWordStep(config: Config, scan: ScanRecord, events: seq<Event>, userId: string)
    requires events != []
    ensures var n := |events| - 1;
            LastWordIsShare(config, scan, events, userId) <==>
            || SharesWith(config, scan, events, n, userId)
            || (!RevokesFrom(config, scan, events, n, userId) && LastWordIsShare(config, scan, events[..n], userId))
  {
    hide SharesWith, RevokesFrom;
    var n := |events| - 1;
    var front := events[..n];
    forall i | 0 <= i < n
      ensures SharesWith(config, scan, front, i, userId) <==> SharesWith(config, scan, events, i, userId)
      ensures RevokesFrom(config, scan, front, i, userId) <==> RevokesFrom(config, scan, events, i, userId)
    {
      PrefixWords(config, scan, events, i, userId);
    }
    if LastWordIsShare(config, scan, events, userId) && !SharesWith(config, scan, events, n, userId) {
      var i :| 0 <= i < |events| && SharesWith(config, scan, events, i, userId)
               && forall j :: i < j < |events| ==> !RevokesFrom(config, scan, events, j, userId);
      assert SharesWith(config, scan, front, i, userId);
    }
    if !RevokesFrom(config, scan, events, n, userId) && LastWordIsShare(config, scan, front, userId) {
      var i :| 0 <= i < n && SharesWith(config, scan, front, i, userId)
               && forall j :: i < j < n ==> !RevokesFrom(config, scan, front, j, userId);
      assert SharesWith(config, scan, events, i, userId);
    }
    if SharesWith(config, scan, events, n, userId) {
      assert LastWordIsShare(config, scan, events, userId);
    }
  }

  lemma {:induction false} WithoutKeepsDistinct(users: seq<string>, userId: string)
    requires NoDuplicates(users)
    ensures NoDuplicates(Without(users, userId))
    ensures |Without(users, userId)| <= |users|
    ensures forall u :: u in Without(users, userId) <==> u in users && u != userId
  {
    if users != [] {
      WithoutKeepsDistinct(users[1..], userId);
      assert users == [users[0]] + users[1..];
      assert users[0] !in users[1..];
      WithoutCons(users, userId);
    }
  }

  lemma WithoutCons(users: seq<string>, userId: string)
    requires users != []
    ensures Without(users, userId) == (if users[0] != userId then [users[0]] else []) + Without(users[1..], userId)
  {
  }

  /** What one successful event does to a record with a duplicate-free list within the cap. */
  lemma EventEffect(config: Config, before: ScanRecord, e: Event, after: ScanRecord)
    requires ApplyEvent(config, before, e) == Ok(after)
    requires NoDuplicates(before.sharedWith) && |before.sharedWith| <= config.maxShareRecipients
    ensures after.ownerId == before.ownerId && after.isPublic == before.isPublic
    ensures NoDuplicates(after.sharedWith) && |after.sharedWith| <= config.maxShareRecipients
    ensures forall u :: u in after.sharedWith <==>
              (e.ShareEvent? && e.userId == u) || (!(e.RevokeEvent? && e.userId == u) && u in before.sharedWith)
    ensures after.sharingExpiresAt ==
            if e.ShareEvent? then Some(e.now + ShareHours(config, e.hours) * 3600) else before.sharingExpiresAt
    ensures after.accessLog ==
            if e.LogEvent? && config.logAllAccess then LastN(before.accessLog + [e.entry], config.maxAccessLogEntries)
            else before.accessLog
  {
    if e.RevokeEvent? {
      WithoutKeepsDistinct(before.sharedWith, e.userId);
    }
  }

  /** Who is listed, until when, in what numbers, and what the log holds, told by the history alone. */
  ghost predicate ToldByHistory(config: Config, scan: ScanRecord, events: seq<Event>, r: ScanRecord) {
    && r.ownerId == scan.ownerId && r.isPublic == scan.isPublic
    && (forall u :: u in r.sharedWith <==> LastWordIsShare(config, scan, events, u))
    && r.sharingExpiresAt == LatestExpiry(config, scan, events)
    && NoDuplicates(r.sharedWith) && |r.sharedWith| <= config.maxShareRecipients
    && r.accessLog == (if config.logAllAccess then LastN(LogEntries(events), config.maxAccessLogEntries) else [])
  }

  lemma LogNeverFails(config: Config, scan: ScanRecord, e: Event)
    ensures e.LogEvent? ==> ApplyEvent(config, scan, e).Ok?
  {
  }

  lemma LogStep(config: Config, events: seq<Event>)
    requires events != []
    ensures var n := |events| - 1;
            LastN(LogEntries(events), config.maxAccessLogEntries) ==
            if events[n].LogEvent?
            then LastN(LastN(LogEntries(events[..n]), config.maxAccessLogEntries) + [events[n].entry], config.maxAccessLogEntries)
            else LastN(LogEntries(events[..n]), config.maxAccessLogEntries)
  {
    hide LastN;
    var n := |events| - 1;
    if events[n].LogEvent? {
      LastNIdempotent(LogEntries(events[..n]), events[n].entry, config.maxAccessLogEntries);
    } else {
      assert LogEntries(events) == LogEntries(events[..n]);
    }
  }

  lemma MembershipStep(config: Config, scan: ScanRecord, events: seq<Event>, before: ScanRecord, after: ScanRecord, u: string)
    requires events != []
    requires var n := |events| - 1; before == Run(config, scan, events[..n]) && after == Run(config, scan, events)
    requires NoDuplicates(before.sharedWith) && |before.sharedWith| <= config.maxShareRecipients
    requires u in before.sharedWith <==> LastWordIsShare(config, scan, events[..|events| - 1], u)
    ensures u in after.sharedWith <==> LastWordIsShare(config, scan, events, u)
  {
    hide LastWordIsShare, ApplyEvent, NoDuplicates;
    var n := |events| - 1;
    LastWordStep(config, scan, events, u);
    if Succeeds(config, scan, events, n) {
      EventEffect(config, before, events[n], after);
    }
  }

  /** Everything of the record but the list's members. */
  lemma RestStep(config: Config, scan: ScanRecord, events: seq<Event>, before: ScanRecord, after: ScanRecord)
    requires events != []
    requires var n := |events| - 1; before == Run(config, scan, events[..n]) && after == Run(config, scan, events)
    requires ToldByHistory(config, scan, events[..|events| - 1], before)
    ensures after.ownerId == scan.ownerId && after.isPublic == scan.isPublic
    ensures after.sharingExpiresAt == LatestExpiry(config, scan, events)
    ensures NoDuplicates(after.sharedWith) && |after.sharedWith| <= config.maxShareRecipients
    ensures after.accessLog == (if config.logAllAccess then LastN(LogEntries(events), config.maxAccessLogEntries) else [])
  {
    hide LastWordIsShare, ApplyEvent, LastN, LogEntries, ShareHours, NoDuplicates;
    var n := |events| - 1;
    LogStep(config, events);
    LogNeverFails(config, before, events[n]);
    if Succeeds(config, scan, events, n) {
      EventEffect(config, before, events[n], after);
    }
  }

  /** The record after any history is the one the history tells of. */
  lemma {:induction false} HistoryDeterminesRecord(config: Config, scan: ScanRecord, events: seq<Event>)
    requires scan.sharedWith == [] && scan.sharingExpiresAt == None && scan.accessLog == []
    ensures ToldByHistory(config, scan, events, Run(config, scan, events))
  {
    if events != [] {
      var n := |events| - 1;
      var before, after := Run(config, scan, events[..n]), Run(config, scan, events);
      HistoryDeterminesRecord(config, scan, events[..n]);
      RestStep(config, scan, events, before, after);
      hide Run, LastWordIsShare, LastN, LogEntries, LatestExpiry, NoDuplicates;
      forall u
        ensures u in after.sharedWith <==> LastWordIsShare(config, scan, events, u)
      {
        MembershipStep(config, scan, events, before, after, u);
      }
    }
  }

  /**
   * For a user who neither owns a private scan nor has a privileged role, access is granted exactly if the user's
   * last successful share or revocation was a share and the expiry of the scan's latest share has not passed.
   */
  lemma AccessAgreesWithHistory(config: Config, scanId: string, owner: string, target: string, t0: nat, events: seq<Event>,
                                userId: string, role: Role, now: nat)
    requires userId != owner && role in {SecurityResearcher, Developer, User}
    ensures var start := NewScan(scanId, owner, target, t0);
            MayAccess(Run(config, start, events), userId, role, now) <==>
            && LastWordIsShare(config, start, events, userId)
            && LatestExpiry(config, start, events).Some? && now <= LatestExpiry(config, start, events).value
  {
    var start := NewScan(scanId, owner, target, t0);
    HistoryDeterminesRecord(config, start, events);
    if LastWordIsShare(config, start, events, userId) {
      var i :| 0 <= i < |events| && SharesWith(config, start, events, i, userId);
      ShareSetsExpiry(config, start, events, i);
    }
  }

  /** After any history the owner in any role, and admins and auditors, may access the scan; a public one is open to all. */
  lemma AlwaysAllowed(config: Config, scanId: string, owner: string, target: string, t0: nat, events: seq<Event>,
                      userId: string, role: Role, now: nat)
    ensures var scan := Run(config, NewScan(scanId, owner, target, t0), events);
            && (userId == owner || role in {Admin, Auditor} ==> MayAccess(scan, userId, role, now))
            && MayAccess(scan.(isPublic := true), userId, role, now)
  {
    HistoryDeterminesRecord(config, NewScan(scanId, owner, target, t0), events);
  }

  lemma {:induction false} ShareSetsExpiry(config: Config, scan: ScanRecord, events: seq<Event>, i: nat)
    requires i < |events| && Succeeds(config, scan, events, i) && events[i].ShareEvent?
    ensures LatestExpiry(config, scan, events).Some?
  {
    var n := |events| - 1;
    if i < n {
      assert events[..n][..i] == events[..i];
      ShareSetsExpiry(config, scan, events[..n], i);
    }
  }

  // ---------------------------------------------------------------- renewing a share

  /** The owner is never a recipient. */
  lemma {:induction false} OwnerIsNotListed(config: Config, scan: ScanRecord, events: seq<Event>)
    requires scan.sharedWith == [] && scan.sharingExpiresAt == None && scan.accessLog == []
    ensures scan.ownerId !in Run(config, scan, events).sharedWith
  {
    HistoryDeterminesRecord(config, scan, events);
    if scan.ownerId in Run(config, scan, events).sharedWith {
      var i :| 0 <= i < |events| && SharesWith(config, scan, events, i, scan.ownerId);
      HistoryDeterminesRecord(config, scan, events[..i]);
      assert false;
    }
  }

  /** Only the owner shares, with anyone else, and only below the recipient limit, whoever is listed already. */
  lemma ShareSucceedsIff(config: Config, scan: ScanRecord, actor: string, userId: string, hours: Option<nat>, now: nat)
    ensures Shared(config, scan, actor, userId, hours, now).Ok? <==>
            actor == scan.ownerId && userId != scan.ownerId && |scan.sharedWith| < config.maxShareRecipients
  {
  }

  /** After any history the owner fails to renew the share of a listed user exactly if the list is full. */
  lemma RenewalFailsIffFull(config: Config, scanId: string, owner: string, target: string, t0: nat, events: seq<Event>,
                            userId: string, hours: Option<nat>, now: nat)
    requires userId in Run(config, NewScan(scanId, owner, target, t0), events).sharedWith
    ensures var scan := Run(config, NewScan(scanId, owner, target, t0), events);
            && (Shared(config, scan, owner, userId, hours, now).Err? <==> |scan.sharedWith| == config.maxShareRecipients)
            && (Shared(config, scan, owner, userId, hours, now).Ok? ==>
                  Shared(config, scan, owner, userId, hours, now).value.sharedWith == scan.sharedWith)
  {
    HistoryDeterminesRecord(config, NewScan(scanId, owner, target, t0), events);
    OwnerIsNotListed(config, NewScan(scanId, owner, target, t0), events);
  }

  /**
   * No share is without expiry, not even when neither the request nor the configuration names one: then it is 720
   * hours, and in every case the configured maximum at most.
   */
  lemma EveryShareExpires(config: Config, scan: ScanRecord, actor: string, userId: string, hours: Option<nat>, now: nat)
    requires Shared(config, scan, actor, userId, hours, now).Ok?
    ensures var expiry := Shared(config, scan, actor, userId, hours, now).value.sharingExpiresAt;
            && expiry.Some? && expiry.value <= now + config.maxShareExpiryHours * 3600
            && (hours.None? && config.defaultShareExpiryHours.None? ==>
                  expiry.value == now + Min(720, config.maxShareExpiryHours) * 3600)
  {
  }

  /** A share lists the user once, and runs the hours asked for, or else the configured default, or else 720, up to the maximum. */
  lemma ShareEffect(config: Config, scan: ScanRecord, actor: string, userId: string, hours: Option<nat>, now: nat)
    requires Shared(config, scan, actor, userId, hours, now).Ok?
    ensures var scan' := Shared(config, scan, actor, userId, hours, now).value;
            var asked := match hours
                         case Some(h) => h
                         case None => (match config.defaultShareExpiryHours case Some(d) => d case None => 720);
            && scan' == scan.(sharedWith := scan'.sharedWith, sharingExpiresAt := scan'.sharingExpiresAt, updatedAt := now)
            && scan'.sharedWith == scan.sharedWith + (if userId in scan.sharedWith then [] else [userId])
            && scan'.sharingExpiresAt ==
               Some(now + (if asked <= config.maxShareExpiryHours then asked else config.maxShareExpiryHours) * 3600)
  {
    assert scan.sharedWith + [] == scan.sharedWith;
  }

  /** Only the owner revokes; the user leaves the list, and neither the others nor the expiry change. */
  lemma RevokeSucceedsIff(config: Config, scan: ScanRecord, actor: string, userId: string, now: nat)
    ensures Unshared(scan, actor, userId, now).Ok? <==> actor == scan.ownerId
    ensures Unshared(scan, actor, userId, now).Ok? ==>
              var scan' := Unshared(scan, actor, userId, now).value;
              && scan' == scan.(sharedWith := scan'.sharedWith, updatedAt := now)
              && (forall u :: u in scan'.sharedWith <==> u in scan.sharedWith && u != userId)
              && (userId !in scan.sharedWith ==> scan'.sharedWith == scan.sharedWith)
  {
    FilterMembers(scan.sharedWith, u => u != userId);
    if userId !in scan.sharedWith {
      NothingFiltered(scan.sharedWith, userId);
    }
  }

  lemma {:induction false} NothingFiltered(users: seq<string>, userId: string)
    requires userId !in users
    ensures Without(users, userId) == users
  {
    if users != [] {
      WithoutCons(users, userId);
      NothingFiltered(users[1..], userId);
    }
  }

  /** With a limit of one recipient the first share cannot be renewed, and runs out. */
  lemma FullListCannotRenew() returns (config: Config, events: seq<Event>)
    ensures |events| == 2 && events[0] == ShareEvent("alice", "bob", Some(1), 0) && events[1] == ShareEvent("alice", "bob", Some(2), 60)
    ensures var start := NewScan("s", "alice", "t", 0);
            && Succeeds(config, start, events, 0) && !Succeeds(config, start, events, 1)
            && "bob" in Run(config, start, events).sharedWith
            && MayAccess(Run(config, start, events), "bob", User, 3600)
            && !MayAccess(Run(config, start, events), "bob", User, 3601)
  {
    config := Config(true, 1, None, 100, true, 10);
    events := [ShareEvent("alice", "bob", Some(1), 0), ShareEvent("alice", "bob", Some(2), 60)];
    var start := NewScan("s", "alice", "t", 0);
    assert events[..1][..0] == [] && events[..0] == [] && events[..2] == events;
    assert Run(config, start, []) == start;
    var once := start.(sharedWith := ["bob"], sharingExpiresAt := Some(3600), updatedAt := 0);
    assert [] + ["bob"] == ["bob"];
    assert Run(config, start, events[..1]) == once;
    assert Run(config, start, events) == once;
  }

  // ---------------------------------------------------------------- the engine

  class ScanAccessControl {
    const config: Config
    var scans: map<string, ScanRecord>

    constructor (config: Config)
      ensures this.config == config && scans == map[]
    {
      this.config := config;
      scans := map[];
    }

    /** `scanId` is the freshly drawn identifier. */
    method RegisterScan(scanId: string, ownerId: string, target: string, now: nat)
      requires scanId !in scans
      modifies this
      ensures scans == old(scans)[scanId := NewScan(scanId, ownerId, target, now)]
      ensures scans[scanId] == ScanRecord(scanId, ownerId, target, now, now, false, [], None, [])
    {
      scans := scans[scanId := NewScan(scanId, ownerId, target, now)];
    }

    method IsScanSharedWith(scan: ScanRecord, userId: string, now: nat) returns (r: bool)
      ensures r <==> SharedNow(scan, userId, now)
    {
      if scan.sharingExpiresAt.Some? && now > scan.sharingExpiresAt.value {
        return false;
      }
      r := userId in scan.sharedWith;
    }

    method VerifyScanAccess(scanId: string, userId: string, role: Role, now: nat) returns (r: Result<(), AccessError>)
      ensures r == if !config.enforceAccessControl then Ok(())
                   else if scanId !in scans then Err(ScanNotFound)
                   else if MayAccess(scans[scanId], userId, role, now) then Ok(()) else Err(AccessDenied)
    {
      if !config.enforceAccessControl { return Ok(()); }
      if scanId !in scans { return Err(ScanNotFound); }
      var scan := scans[scanId];
      if scan.ownerId == userId { return Ok(()); }
      if CanAccessOthers(role) { return Ok(()); }
      var shared := IsScanSharedWith(scan, userId, now);
      if shared { return Ok(()); }
      if scan.isPublic { return Ok(()); }
      r := Err(AccessDenied);
    }

    /** The answer is the expiry of the share. */
    method ShareScan(scanId: string, ownerId: string, userId: string, expiresInHours: Option<nat>, now: nat)
      returns (r: Result<nat, AccessError>)
      modifies this
      ensures scanId !in old(scans) ==> r == Err(ScanNotFound) && scans == old(scans)
      ensures scanId in old(scans) ==>
                match ApplyEvent(config, old(scans)[scanId], ShareEvent(ownerId, userId, expiresInHours, now))
                case Ok(scan) => scans == old(scans)[scanId := scan] && r.Ok? && scan.sharingExpiresAt == Some(r.value)
                case Err(e) => scans == old(scans) && r == Err(e)
    {
      if scanId !in scans { return Err(ScanNotFound); }
      var scan := scans[scanId];
      if scan.ownerId != ownerId { return Err(AccessDenied); }
      if userId == ownerId { return Err(InvalidOperation); }
      if |scan.sharedWith| >= config.maxShareRecipients { return Err(LimitExceeded); }
      var hours := if expiresInHours.Some? then expiresInHours.value else config.defaultShareExpiryHours.GetOr(720);
      hours := Min(hours, config.maxShareExpiryHours);
      var expiresAt := now + hours * 3600;
      if userId !in scan.sharedWith {
        scan := scan.(sharedWith := scan.sharedWith + [userId]);
      }
      scan := scan.(sharingExpiresAt := Some(expiresAt), updatedAt := now);
      scans := scans[scanId := scan];
      r := Ok(expiresAt);
    }

    method RevokeShare(scanId: string, ownerId: string, userId: string, now: nat) returns (r: Result<(), AccessError>)
      modifies this
      ensures scanId !in old(scans) ==> r == Err(ScanNotFound) && scans == old(scans)
      ensures scanId in old(scans) ==>
                match ApplyEvent(config, old(scans)[scanId], RevokeEvent(ownerId, userId, now))
                case Ok(scan) => scans == old(scans)[scanId := scan] && r == Ok(())
                case Err(e) => scans == old(scans) && r == Err(e)
    {
      if scanId !in scans { return Err(ScanNotFound); }
      var scan := scans[scanId];
      if scan.ownerId != ownerId { return Err(AccessDenied); }
      scan := scan.(sharedWith := Without(scan.sharedWith, userId), updatedAt := now);
      scans := scans[scanId := scan];
      r := Ok(());
    }

    /** Logging an access to an unknown scan is silently ignored. */
    method LogAccess(scanId: string, entry: LogEntry)
      modifies this
      ensures scanId !in old(scans) ==> scans == old(scans)
      ensures scanId in old(scans) ==>
                match ApplyEvent(config, old(scans)[scanId], LogEvent(entry))
                case Ok(scan) => scans == old(scans)[scanId := scan]
                case Err(_) => false
    {
      if !config.logAllAccess {
        assert scanId in scans ==> scans == scans[scanId := scans[scanId]];
        return;
      }
      if scanId in scans {
        var scan := scans[scanId];
        var log := scan.accessLog + [entry];
        if |log| > config.maxAccessLogEntries {
          var excess := |log| - config.maxAccessLogEntries;
          log := log[excess..];
        }
        scans := scans[scanId := scan.(accessLog := log)];
      }
    }
  }
}
