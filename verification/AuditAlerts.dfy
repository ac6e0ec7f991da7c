/** Suspicious-pattern detection: administrators seen from several IP addresses within the window. */
module AuditAlerts {
  import opened Foundations
  import opened StableSort
  import opened AuditEvents

  datatype SuspiciousActivityAlert = SuspiciousActivityAlert(
    userId: string,
    distinctIps: nat,
    ipAddresses: seq<string>,
    actionCount: nat,
    firstSeen: nat,
    lastSeen: nat)

  datatype UserActivity = UserActivity(ips: seq<string>, actionCount: nat, firstSeen: nat, lastSeen: nat)

  /** An administrative event inside the window with a known address. */
  predicate InWindow(e: AuditEvent, windowStart: nat) {
    e.category == Admin && e.eventTimestamp >= windowStart && e.ipAddress.Some?
  }

  /** The in-window events of one user, in order. */
  ghost function Hits(entries: seq<AuditEvent>, windowStart: nat, user: string): seq<AuditEvent> {
    if entries == [] then []
    else
      var n := |entries| - 1;
      Hits(entries[..n], windowStart, user)
      + (if InWindow(entries[n], windowStart) && entries[n].userId == user then [entries[n]] else [])
  }

  lemma {:induction false} HitsAreExact(entries: seq<AuditEvent>, windowStart: nat, user: string)
    ensures forall e :: e in Hits(entries, windowStart, user) <==>
                        && e in entries && e.userId == user
                        && e.category == Admin && windowStart <= e.eventTimestamp && e.ipAddress.Some?
  {
    if entries != [] {
      var n := |entries| - 1;
      HitsAreExact(entries[..n], windowStart, user);
      assert entries == entries[..n] + [entries[n]];
    }
  }

  ghost predicate EarliestOf(t: nat, hits: seq<AuditEvent>) {
    && (exists i :: 0 <= i < |hits| && hits[i].eventTimestamp == t)
    && forall i :: 0 <= i < |hits| ==> t <= hits[i].eventTimestamp
  }

  ghost predicate LatestOf(t: nat, hits: seq<AuditEvent>) {
    && (exists i :: 0 <= i < |hits| && hits[i].eventTimestamp == t)
    && forall i :: 0 <= i < |hits| ==> hits[i].eventTimestamp <= t
  }

  /** The addresses the events came from. */
  ghost function AddressSet(hits: seq<AuditEvent>): set<string> {
    set i | 0 <= i < |hits| && hits[i].ipAddress.Some? :: hits[i].ipAddress.value
  }

  ghost predicate Summarises(a: UserActivity, hits: seq<AuditEvent>) {
    && NoDuplicates(a.ips)
    && Elements(a.ips) == AddressSet(hits)
    && a.actionCount == |hits|
    && EarliestOf(a.firstSeen, hits)
    && LatestOf(a.lastSeen, hits)
  }

  function Extended(a: UserActivity, e: AuditEvent): UserActivity
    requires e.ipAddress.Some?
  {
    var ip := e.ipAddress.value;
    UserActivity(if ip in a.ips then a.ips else a.ips + [ip],
                 a.actionCount + 1,
                 Min(a.firstSeen, e.eventTimestamp),
                 Max(a.lastSeen, e.eventTimestamp))
  }

  lemma AddressSetAppend(hits: seq<AuditEvent>, e: AuditEvent)
    requires e.ipAddress.Some?
    ensures AddressSet(hits + [e]) == AddressSet(hits) + {e.ipAddress.value}
  {
    var longer := hits + [e];
    assert longer[|hits|] == e;
    forall ip | ip in AddressSet(hits)
      ensures ip in AddressSet(longer)
    {
      var i :| 0 <= i < |hits| && hits[i].ipAddress.Some? && hits[i].ipAddress.value == ip;
      assert longer[i] == hits[i];
    }
  }

  lemma TimesAppend(a: UserActivity, hits: seq<AuditEvent>, e: AuditEvent)
    requires EarliestOf(a.firstSeen, hits) && LatestOf(a.lastSeen, hits)
    ensures EarliestOf(Min(a.firstSeen, e.eventTimestamp), hits + [e])
    ensures LatestOf(Max(a.lastSeen, e.eventTimestamp), hits + [e])
  {
    var longer := hits + [e];
    var first :| 0 <= first < |hits| && hits[first].eventTimestamp == a.firstSeen;
    var last :| 0 <= last < |hits| && hits[last].eventTimestamp == a.lastSeen;
    assert longer[first] == hits[first] && longer[last] == hits[last] && longer[|hits|] == e;
  }

  lemma ExtendedSummarises(a: UserActivity, hits: seq<AuditEvent>, e: AuditEvent)
    requires Summarises(a, hits) && e.ipAddress.Some?
    ensures Summarises(Extended(a, e), hits + [e])
  {
    AddressSetAppend(hits, e);
    TimesAppend(a, hits, e);
  }

  lemma FirstSummarises(e: AuditEvent)
    requires e.ipAddress.Some?
    ensures Summarises(Extended(UserActivity([], 0, e.eventTimestamp, e.eventTimestamp), e), [e])
  {
    AddressSetAppend([], e);
    assert [] + [e] == [e];
    assert [e][0] == e;
  }

  /** The accumulator after `entries`: one summary for each user with in-window events. */
  ghost predicate Accumulated(byUser: map<string, UserActivity>, entries: seq<AuditEvent>, windowStart: nat) {
    && (forall u :: u in byUser <==> Hits(entries, windowStart, u) != [])
    && forall u :: u in byUser ==> Summarises(byUser[u], Hits(entries, windowStart, u))
  }

  /** The user's entry in the accumulator, or a fresh one at the time of the event. */
  function ActivityOrNew(byUser: map<string, UserActivity>, e: AuditEvent): UserActivity {
    if e.userId in byUser then byUser[e.userId] else UserActivity([], 0, e.eventTimestamp, e.eventTimestamp)
  }

  lemma HitsStep(entries: seq<AuditEvent>, windowStart: nat, i: nat, user: string)
    requires i < |entries|
    ensures Hits(entries[..i + 1], windowStart, user) ==
            Hits(entries[..i], windowStart, user)
            + (if InWindow(entries[i], windowStart) && entries[i].userId == user then [entries[i]] else [])
  {
    assert entries[..i + 1][..i] == entries[..i];
  }

  lemma AccumulateSkip(byUser: map<string, UserActivity>, entries: seq<AuditEvent>, windowStart: nat, i: nat)
    requires i < |entries| && Accumulated(byUser, entries[..i], windowStart)
    requires !InWindow(entries[i], windowStart)
    ensures Accumulated(byUser, entries[..i + 1], windowStart)
  {
    forall u
      ensures Hits(entries[..i + 1], windowStart, u) == Hits(entries[..i], windowStart, u)
    {
      HitsStep(entries, windowStart, i, u);
    }
  }

  lemma AccumulatedUpdate(byUser: map<string, UserActivity>, before: seq<AuditEvent>, after: seq<AuditEvent>,
                          windowStart: nat, user: string, activity: UserActivity)
    requires Accumulated(byUser, before, windowStart)
    requires forall u :: u != user ==> Hits(after, windowStart, u) == Hits(before, windowStart, u)
    requires Summarises(activity, Hits(after, windowStart, user))
    ensures Accumulated(byUser[user := activity], after, windowStart)
  {
  }

  lemma ActivityStep(byUser: map<string, UserActivity>, before: seq<AuditEvent>, windowStart: nat, e: AuditEvent)
    requires Accumulated(byUser, before, windowStart) && e.ipAddress.Some?
    ensures Summarises(Extended(ActivityOrNew(byUser, e), e), Hits(before, windowStart, e.userId) + [e])
  {
    var hits := Hits(before, windowStart, e.userId);
    if e.userId in byUser {
      ExtendedSummarises(byUser[e.userId], hits, e);
    } else {
      FirstSummarises(e);
      assert hits + [e] == [e];
    }
  }

  lemma AccumulateHit(byUser: map<string, UserActivity>, entries: seq<AuditEvent>, windowStart: nat, i: nat)
    requires i < |entries| && Accumulated(byUser, entries[..i], windowStart)
    requires InWindow(entries[i], windowStart)
    ensures var e := entries[i];
            Accumulated(byUser[e.userId := Extended(ActivityOrNew(byUser, e), e)], entries[..i + 1], windowStart)
  {
    var e, before, after := entries[i], entries[..i], entries[..i + 1];
    ActivityStep(byUser, before, windowStart, e);
    forall u
      ensures Hits(after, windowStart, u) ==
              Hits(before, windowStart, u) + (if u == e.userId then [e] else [])
    {
      HitsStep(entries, windowStart, i, u);
    }
    AccumulatedUpdate(byUser, before, after, windowStart, e.userId, Extended(ActivityOrNew(byUser, e), e));
  }

  /** An alert says exactly what the user's in-window events say. */
  ghost predicate AlertIsExact(a: SuspiciousActivityAlert, entries: seq<AuditEvent>, windowStart: nat) {
    var hits := Hits(entries, windowStart, a.userId);
    && Summarises(UserActivity(a.ipAddresses, a.actionCount, a.firstSeen, a.lastSeen), hits)
    && a.distinctIps == |AddressSet(hits)|
  }

  ghost predicate IsSuspicious(entries: seq<AuditEvent>, windowStart: nat, minDistinctIps: nat, user: string) {
    var hits := Hits(entries, windowStart, user);
    hits != [] && |AddressSet(hits)| >= minDistinctIps
  }

  ghost predicate OneAlertPerUser(alerts: seq<SuspiciousActivityAlert>) {
    forall i, j :: 0 <= i < j < |alerts| ==> alerts[i].userId != alerts[j].userId
  }

  ghost predicate HasAlert(alerts: seq<SuspiciousActivityAlert>, user: string) {
    exists a :: a in alerts && a.userId == user
  }

  lemma NoAlerts()
    ensures OneAlertPerUser([]) && forall u :: !HasAlert([], u)
  {
  }

  lemma AddAlert(alerts: seq<SuspiciousActivityAlert>, alert: SuspiciousActivityAlert)
    requires OneAlertPerUser(alerts) && !HasAlert(alerts, alert.userId)
    ensures OneAlertPerUser(alerts + [alert])
    ensures forall u :: HasAlert(alerts + [alert], u) <==> HasAlert(alerts, u) || u == alert.userId
  {
    assert forall a :: a in alerts + [alert] <==> a in alerts || a == alert;
    assert forall i :: 0 <= i < |alerts| ==> alerts[i] in alerts;
    forall u
      ensures HasAlert(alerts + [alert], u) <==> HasAlert(alerts, u) || u == alert.userId
    {
      assert u == alert.userId ==> alert in alerts + [alert];
    }
  }

  /** `Reverse(distinct_ips)` as a sort key. */
  function MostAddressesFirst(a: SuspiciousActivityAlert): int {
    0 - a.distinctIps
  }

  method Accumulate(entries: seq<AuditEvent>, windowStart: nat) returns (byUser: map<string, UserActivity>)
    ensures Accumulated(byUser, entries, windowStart)
  {
    byUser := map[];
    for i := 0 to |entries|
      invariant Accumulated(byUser, entries[..i], windowStart)
    {
      var entry := entries[i];
      if entry.category != Admin || entry.eventTimestamp < windowStart || entry.ipAddress.None? {
        AccumulateSkip(byUser, entries, windowStart, i);
        continue;
      }
      AccumulateHit(byUser, entries, windowStart, i);
      var activity := ActivityOrNew(byUser, entry);
      byUser := byUser[entry.userId := Extended(activity, entry)];
    }
    assert entries[..|entries|] == entries;
  }

  lemma UsersWithHits(byUser: map<string, UserActivity>, entries: seq<AuditEvent>, windowStart: nat, minDistinctIps: nat)
    requires Accumulated(byUser, entries, windowStart)
    ensures forall u :: IsSuspicious(entries, windowStart, minDistinctIps, u) ==> u in byUser
  {
  }

  lemma ActivityAlert(byUser: map<string, UserActivity>, entries: seq<AuditEvent>, windowStart: nat, user: string)
    requires Accumulated(byUser, entries, windowStart) && user in byUser
    ensures var a := byUser[user];
            && AlertIsExact(SuspiciousActivityAlert(user, |a.ips|, a.ips, a.actionCount, a.firstSeen, a.lastSeen), entries, windowStart)
            && forall n: nat :: IsSuspicious(entries, windowStart, n, user) <==> |a.ips| >= n
  {
    DistinctLength(byUser[user].ips);
  }

  method CollectAlerts(byUser: map<string, UserActivity>, minDistinctIps: nat, ghost entries: seq<AuditEvent>, ghost windowStart: nat)
    returns (alerts: seq<SuspiciousActivityAlert>)
    requires Accumulated(byUser, entries, windowStart)
    ensures forall a :: a in alerts ==> AlertIsExact(a, entries, windowStart)
    ensures forall u :: HasAlert(alerts, u) <==> IsSuspicious(entries, windowStart, minDistinctIps, u)
    ensures OneAlertPerUser(alerts)
  {
    UsersWithHits(byUser, entries, windowStart, minDistinctIps);
    hide Accumulated, AlertIsExact, IsSuspicious, HasAlert, OneAlertPerUser;
    alerts := [];
    NoAlerts();
    var todo := byUser.Keys;
    while todo != {}
      invariant todo <= byUser.Keys
      invariant forall a :: a in alerts ==> AlertIsExact(a, entries, windowStart)
      invariant forall u :: HasAlert(alerts, u) ==> u !in todo && IsSuspicious(entries, windowStart, minDistinctIps, u)
      invariant forall u :: IsSuspicious(entries, windowStart, minDistinctIps, u) ==>
        u in todo || HasAlert(alerts, u)
      invariant OneAlertPerUser(alerts)
      decreases todo
    {
      var user :| user in todo;
      var activity := byUser[user];
      ActivityAlert(byUser, entries, windowStart, user);
      if |activity.ips| >= minDistinctIps {
        var alert := SuspiciousActivityAlert(user, |activity.ips|, activity.ips, activity.actionCount,
                                             activity.firstSeen, activity.lastSeen);
        AddAlert(alerts, alert);
        alerts := alerts + [alert];
      }
      todo := todo - {user};
    }
  }

  method DetectSuspicious(entries: seq<AuditEvent>, windowStart: nat, minDistinctIps: nat)
    returns (alerts: seq<SuspiciousActivityAlert>)
    ensures forall a :: a in alerts ==> AlertIsExact(a, entries, windowStart)
    ensures forall u :: HasAlert(alerts, u) <==> IsSuspicious(entries, windowStart, minDistinctIps, u)
    ensures OneAlertPerUser(alerts)
    ensures forall i, j :: 0 <= i < j < |alerts| ==> alerts[i].distinctIps >= alerts[j].distinctIps
  {
    var byUser := Accumulate(entries, windowStart);
    var unsorted := CollectAlerts(byUser, minDistinctIps, entries, windowStart);
    alerts := SortBy(unsorted, MostAddressesFirst);
    SortByIsStable(unsorted, MostAddressesFirst);
    SameMembers(unsorted, alerts);
    OneAlertPerUserPermutes(unsorted, alerts);
    forall i, j | 0 <= i < j < |alerts|
      ensures alerts[i].distinctIps >= alerts[j].distinctIps
    {
      assert MostAddressesFirst(alerts[i]) <= MostAddressesFirst(alerts[j]);
    }
  }

  lemma SameMembers(xs: seq<SuspiciousActivityAlert>, ys: seq<SuspiciousActivityAlert>)
    requires multiset(xs) == multiset(ys)
    ensures forall a :: a in xs <==> a in ys
  {
    forall a
      ensures a in xs <==> a in ys
    {
      assert a in xs <==> a in multiset(xs);
      assert a in ys <==> a in multiset(ys);
    }
  }

  lemma {:induction false} DistinctUsersMultiset(xs: seq<SuspiciousActivityAlert>)
    requires OneAlertPerUser(xs)
    ensures forall a :: multiset(xs)[a] <= 1
    ensures forall a, b :: a in xs && b in xs && a.userId == b.userId ==> a == b
  {
    if xs != [] {
      var n := |xs| - 1;
      DistinctUsersMultiset(xs[..n]);
      assert xs == xs[..n] + [xs[n]];
      assert xs[n] !in xs[..n];
    }
  }

  lemma OneAlertPerUserPermutes(xs: seq<SuspiciousActivityAlert>, ys: seq<SuspiciousActivityAlert>)
    requires OneAlertPerUser(xs) && multiset(xs) == multiset(ys)
    ensures OneAlertPerUser(ys)
  {
    DistinctUsersMultiset(xs);
    SameMembers(xs, ys);
    forall i, j | 0 <= i < j < |ys|
      ensures ys[i].userId != ys[j].userId
    {
      assert ys[i] in xs && ys[j] in xs;
      OccursTwice(ys, i, j);
    }
  }

  lemma OccursTwice(ys: seq<SuspiciousActivityAlert>, i: nat, j: nat)
    requires i < j < |ys|
    ensures ys[i] == ys[j] ==> multiset(ys)[ys[i]] >= 2
  {
    assert ys == ys[..j] + [ys[j]] + ys[j + 1..];
    assert ys[i] in ys[..j];
  }
}
