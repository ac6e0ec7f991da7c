/** Role-gated, filtered, newest-first and paged queries over the audit trail. */
module AuditQueries {
  import opened Foundations
  import opened StableSort
  import opened AuditEvents

  datatype AuditQuery = AuditQuery(
    userId: Option<string>,
    action: Option<AuditAction>,
    category: Option<AuditCategory>,
    severity: Option<AuditSeverity>,
    outcome: Option<AuditOutcome>,
    resourceType: Option<string>,
    resourceId: Option<string>,
    ipAddress: Option<string>,
    startTime: Option<nat>,
    endTime: Option<nat>,
    offset: nat,
    limit: Option<nat>)

  const EMPTY_QUERY := AuditQuery(None, None, None, None, None, None, None, None, None, None, 0, None)

  predicate Matches(q: AuditQuery, e: AuditEvent) {
    && (q.userId.Some? ==> e.userId == q.userId.value)
    && (q.action.Some? ==> e.action == q.action.value)
    && (q.category.Some? ==> e.category == q.category.value)
    && (q.severity.Some? ==> e.severity == q.severity.value)
    && (q.outcome.Some? ==> e.outcome == q.outcome.value)
    && (q.resourceType.Some? ==> e.resourceType == q.resourceType)
    && (q.resourceId.Some? ==> e.resourceId == q.resourceId)
    && (q.ipAddress.Some? ==> e.ipAddress == q.ipAddress)
    && (q.startTime.Some? ==> e.eventTimestamp >= q.startTime.value)
    && (q.endTime.Some? ==> e.eventTimestamp <= q.endTime.value)
  }

  /**
   * Every set field narrows the result by its own condition, the empty query admits everything, paging is irrelevant.
   * The values asked for are those of `x`, `s` and `t`.
   */
  lemma EveryFieldNarrows(q: AuditQuery, e: AuditEvent, x: AuditEvent, s: string, t: nat, limit: Option<nat>)
    ensures Matches(EMPTY_QUERY, e)
    ensures Matches(q.(userId := Some(s)), e) <==> Matches(q.(userId := None), e) && e.userId == s
    ensures Matches(q.(action := Some(x.action)), e) <==> Matches(q.(action := None), e) && e.action == x.action
    ensures Matches(q.(category := Some(x.category)), e) <==> Matches(q.(category := None), e) && e.category == x.category
    ensures Matches(q.(severity := Some(x.severity)), e) <==> Matches(q.(severity := None), e) && e.severity == x.severity
    ensures Matches(q.(outcome := Some(x.outcome)), e) <==> Matches(q.(outcome := None), e) && e.outcome == x.outcome
    ensures Matches(q.(resourceType := Some(s)), e) <==> Matches(q.(resourceType := None), e) && e.resourceType == Some(s)
    ensures Matches(q.(resourceId := Some(s)), e) <==> Matches(q.(resourceId := None), e) && e.resourceId == Some(s)
    ensures Matches(q.(ipAddress := Some(s)), e) <==> Matches(q.(ipAddress := None), e) && e.ipAddress == Some(s)
    ensures Matches(q.(startTime := Some(t)), e) <==> Matches(q.(startTime := None), e) && t <= e.eventTimestamp
    ensures Matches(q.(endTime := Some(t)), e) <==> Matches(q.(endTime := None), e) && e.eventTimestamp <= t
    ensures Matches(q.(offset := t, limit := limit), e) <==> Matches(q, e)
  {
  }

  /** `Reverse(event_timestamp)` as a sort key. */
  function NewestFirst(e: AuditEvent): int {
    0 - e.eventTimestamp
  }

  function Matcher(q: AuditQuery): AuditEvent -> bool {
    e => Matches(q, e)
  }

  /** All matching entries, newest first; entries of one timestamp keep their order of recording. */
  function SortedMatches(entries: seq<AuditEvent>, q: AuditQuery): seq<AuditEvent> {
    SortBy(Filter(entries, Matcher(q)), NewestFirst)
  }

  function AccessDenied(role: UserRole): string {
    "access denied: role '" + RoleName(role) + "' is not permitted to read the audit trail"
  }

  function Query(entries: seq<AuditEvent>, requesterRole: UserRole, q: AuditQuery): Result<seq<AuditEvent>, string> {
    if !CanReadAudit(requesterRole) then
      Err(AccessDenied(requesterRole))
    else
      var matched := SortedMatches(entries, q);
      var start := if q.offset <= |matched| then q.offset else |matched|;
      var page := matched[start..];
      Ok(if q.limit.Some? && q.limit.value < |page| then page[..q.limit.value] else page)
  }

  /** What a permitted reader may rely on: the sorted list holds exactly the matches, stably newest first. */
  lemma SortedMatchesAreExact(entries: seq<AuditEvent>, q: AuditQuery)
    ensures IsStableSort(SortedMatches(entries, q), Filter(entries, Matcher(q)), NewestFirst)
    ensures forall e :: e in SortedMatches(entries, q) <==> e in entries && Matches(q, e)
    ensures forall i, j :: 0 <= i < j < |SortedMatches(entries, q)| ==>
              SortedMatches(entries, q)[i].eventTimestamp >= SortedMatches(entries, q)[j].eventTimestamp
  {
    var matching := Filter(entries, Matcher(q));
    SortByIsStable(matching, NewestFirst);
    FilterMembers(entries, Matcher(q));
    forall e
      ensures e in SortedMatches(entries, q) <==> e in matching
    {
      assert e in SortedMatches(entries, q) <==> e in multiset(SortedMatches(entries, q));
      assert e in matching <==> e in multiset(matching);
    }
    var sorted := SortedMatches(entries, q);
    forall i, j | 0 <= i < j < |sorted|
      ensures sorted[i].eventTimestamp >= sorted[j].eventTimestamp
    {
      assert NewestFirst(sorted[i]) <= NewestFirst(sorted[j]);
    }
  }

  /** Exactly the three reading roles get an answer, and it is the requested stretch of the one stable newest-first sort. */
  lemma QueryAnswersWithSlice(entries: seq<AuditEvent>, role: UserRole, q: AuditQuery, sorted: seq<AuditEvent>)
    requires IsStableSort(sorted, Filter(entries, Matcher(q)), NewestFirst)
    ensures Query(entries, role, q).Ok? <==> role in {AdminRole, SecurityAdmin, Auditor}
    ensures Query(entries, role, q).Ok? ==>
              var from := Min(q.offset, |sorted|);
              var to := if q.limit.Some? then Min(from + q.limit.value, |sorted|) else |sorted|;
              Query(entries, role, q).value == sorted[from..to]
  {
    hide Matches, SortBy;
    SortedMatchesAreExact(entries, q);
    StableSortIsUnique(sorted, SortedMatches(entries, q), NewestFirst);
    var from := Min(q.offset, |sorted|);
    if q.limit.Some? && q.limit.value < |sorted[from..]| {
      assert sorted[from..][..q.limit.value] == sorted[from..from + q.limit.value];
    } else {
      assert sorted[from..] == sorted[from..|sorted|];
    }
  }

  // ---------------------------------------------------------------- narrowing a query

  predicate SameOrUnset<T(==)>(stricter: Option<T>, looser: Option<T>) {
    looser.Some? ==> stricter == looser
  }

  /** `stricter` asks for everything `looser` asks for: the same values, and a time range inside the other. */
  predicate Narrows(stricter: AuditQuery, looser: AuditQuery) {
    && SameOrUnset(stricter.userId, looser.userId) && SameOrUnset(stricter.action, looser.action)
    && SameOrUnset(stricter.category, looser.category) && SameOrUnset(stricter.severity, looser.severity)
    && SameOrUnset(stricter.outcome, looser.outcome) && SameOrUnset(stricter.resourceType, looser.resourceType)
    && SameOrUnset(stricter.resourceId, looser.resourceId) && SameOrUnset(stricter.ipAddress, looser.ipAddress)
    && (looser.startTime.Some? ==> stricter.startTime.Some? && stricter.startTime.value >= looser.startTime.value)
    && (looser.endTime.Some? ==> stricter.endTime.Some? && stricter.endTime.value <= looser.endTime.value)
  }

  lemma {:induction false} FilterTwice(entries: seq<AuditEvent>, p: AuditEvent -> bool, r: AuditEvent -> bool)
    requires forall e :: r(e) ==> p(e)
    ensures Filter(Filter(entries, p), r) == Filter(entries, r)
  {
    if entries != [] {
      FilterTwice(entries[1..], p, r);
      if p(entries[0]) {
        var kept := Filter(entries[1..], p);
        assert ([entries[0]] + kept)[1..] == kept;
      }
    }
  }

  /** The answer to a stricter query is the part of the looser one's answer that matches it, in the same order. */
  lemma NarrowingFiltersTheAnswer(entries: seq<AuditEvent>, stricter: AuditQuery, looser: AuditQuery)
    requires Narrows(stricter, looser)
    ensures SortedMatches(entries, stricter) == Filter(SortedMatches(entries, looser), Matcher(stricter))
  {
    hide SortBy, Filter;
    FilterTwice(entries, Matcher(looser), Matcher(stricter));
    FilterCommutesWithSort(Filter(entries, Matcher(looser)), Matcher(stricter), NewestFirst);
  }

  // ---------------------------------------------------------------- paging

  function Sum(sizes: seq<nat>): nat {
    if sizes == [] then 0 else Sum(sizes[..|sizes| - 1]) + sizes[|sizes| - 1]
  }

  /** The answers to consecutive page requests of the given sizes, joined. */
  function JoinedPages(entries: seq<AuditEvent>, role: UserRole, q: AuditQuery, sizes: seq<nat>): seq<AuditEvent>
    requires CanReadAudit(role)
  {
    if sizes == [] then []
    else
      var n := |sizes| - 1;
      JoinedPages(entries, role, q, sizes[..n])
      + Page(entries, role, q, Sum(sizes[..n]), sizes[n])
  }

  lemma PagingIgnoresWindow(entries: seq<AuditEvent>, q: AuditQuery, offset: nat, limit: Option<nat>)
    ensures SortedMatches(entries, q.(offset := offset, limit := limit)) == SortedMatches(entries, q)
  {
    FilterAgrees(entries, Matcher(q), Matcher(q.(offset := offset, limit := limit)));
  }

  lemma {:induction false} FilterAgrees(entries: seq<AuditEvent>, p: AuditEvent -> bool, r: AuditEvent -> bool)
    requires forall e :: p(e) == r(e)
    ensures Filter(entries, p) == Filter(entries, r)
  {
    if entries != [] {
      FilterAgrees(entries[1..], p, r);
    }
  }

  function Page(entries: seq<AuditEvent>, role: UserRole, q: AuditQuery, offset: nat, size: nat): seq<AuditEvent>
    requires CanReadAudit(role)
  {
    Query(entries, role, q.(offset := offset, limit := Some(size))).value
  }

  lemma PageIsSlice(entries: seq<AuditEvent>, role: UserRole, q: AuditQuery, offset: nat, size: nat)
    requires CanReadAudit(role)
    ensures var sorted := SortedMatches(entries, q);
            Page(entries, role, q, offset, size) == sorted[Min(offset, |sorted|)..Min(offset + size, |sorted|)]
  {
    PagingIgnoresWindow(entries, q, offset, Some(size));
  }

  /** Consecutive pages of any sizes are a prefix of the sorted matches, and the whole of it once they reach its length. */
  lemma {:induction false} PagesRebuildTheList(entries: seq<AuditEvent>, role: UserRole, q: AuditQuery, sizes: seq<nat>)
    requires CanReadAudit(role)
    ensures var sorted := SortedMatches(entries, q);
            JoinedPages(entries, role, q, sizes) == sorted[..Min(Sum(sizes), |sorted|)]
  {
    if sizes != [] {
      var n := |sizes| - 1;
      PagesRebuildTheList(entries, role, q, sizes[..n]);
      PageIsSlice(entries, role, q, Sum(sizes[..n]), sizes[n]);
      var sorted := SortedMatches(entries, q);
      var done, upTo := Min(Sum(sizes[..n]), |sorted|), Min(Sum(sizes), |sorted|);
      assert sorted[..done] + sorted[done..upTo] == sorted[..upTo];
    }
  }
}
