/** The append-only audit trail with its in-memory cap, chain verification, queries and alerting. */
module AuditTrails {
  import opened Foundations
  import opened Digests
  import opened StableSort
  import opened AuditEvents
  import opened AuditChain
  import opened AuditQueries
  import opened AuditAlerts

  datatype AuditConfig = AuditConfig(
    enabled: bool,
    maxEntriesInMemory: nat,
    suspiciousWindowSeconds: nat,
    suspiciousMinDistinctIps: nat)

  const COUNTER_MODULUS: nat := 0x1_0000_0000_0000_0000

  /** The event as it enters the trail: an id if it had none, and the time of recording. */
  function Stamped(event: AuditEvent, counter: nat, now: nat): AuditEvent {
    event.(auditId := if event.auditId == "" then "audit_" + Digits(now) + "_" + Digits(counter) else event.auditId,
           recordedAt := now)
  }

  /** The atomic id counter, which wraps around. */
  function NextCounter(event: AuditEvent, counter: nat): nat {
    if event.auditId == "" then (counter + 1) % COUNTER_MODULUS else counter
  }

  /** Nothing but the id and the time of recording is touched, and the id only if there was none. */
  lemma StampedKeeps(event: AuditEvent, counter: nat, now: nat)
    ensures Stamped(event, counter, now).recordedAt == now
    ensures Stamped(event, counter, now) ==
            event.(auditId := Stamped(event, counter, now).auditId, recordedAt := now)
    ensures event.auditId != "" ==> Stamped(event, counter, now).auditId == event.auditId && NextCounter(event, counter) == counter
    ensures event.auditId == "" ==> Stamped(event, counter, now).auditId == "audit_" + Digits(now) + "_" + Digits(counter)
    ensures event.auditId == "" && counter < U64_MAX ==> NextCounter(event, counter) == counter + 1
    ensures event.auditId == "" && counter == U64_MAX ==> NextCounter(event, counter) == 0
  {
    hide Digits;
  }

  /** Ids given out at one time are different. */
  lemma FreshIdsDiffer(a: AuditEvent, b: AuditEvent, m: nat, n: nat, now: nat)
    requires a.auditId == "" && b.auditId == "" && m != n
    ensures Stamped(a, m, now).auditId != Stamped(b, n, now).auditId
  {
    var front := "audit_" + Digits(now) + "_";
    DigitsDiffer(m, n);
    assert (front + Digits(m))[|front|..] == Digits(m) && (front + Digits(n))[|front|..] == Digits(n);
  }

  class AuditTrail {
    const config: AuditConfig
    const sha: HashFunction
    var entries: seq<AuditEvent>
    var counter: nat
    /** Every event ever recorded, as stamped, oldest first. */
    ghost var history: seq<AuditEvent>

    /** The trail is the rebuilt chain over the newest events of the whole history. */
    ghost predicate Valid()
      reads this
    {
      entries == Rechained(sha, LastN(history, config.maxEntriesInMemory))
    }

    constructor (config: AuditConfig, sha: HashFunction)
      ensures Valid() && history == [] && entries == [] && counter == 0
      ensures this.config == config && this.sha == sha
    {
      this.config, this.sha := config, sha;
      entries, counter, history := [], 0, [];
    }

    method Record(event: AuditEvent, now: nat) returns (recorded: AuditEvent)
      requires Valid()
      modifies this
      ensures Valid()
      ensures !config.enabled ==> recorded == event && history == old(history) && entries == old(entries) && counter == old(counter)
      ensures config.enabled ==>
                && history == old(history) + [Stamped(event, old(counter), now)]
                && counter == NextCounter(event, old(counter))
                && recorded == Linked(sha, Stamped(event, old(counter), now), LastHash(old(entries)))
                && entries == (if |old(entries)| < config.maxEntriesInMemory then old(entries) + [recorded]
                               else Rechained(sha, (old(entries) + [recorded])[1..]))
    {
      hide Body, Rechained, LastN;
      if !config.enabled {
        return event;
      }
      var stamped := Stamped(event, counter, now);
      counter := NextCounter(event, counter);
      recorded := Linked(sha, stamped, LastHash(entries));
      RecordStep(sha, history, entries, stamped, config.maxEntriesInMemory);
      entries := entries + [recorded];
      history := history + [stamped];
      if |entries| > config.maxEntriesInMemory {
        entries := entries[1..];
        RebuildChain();
      }
    }

    /** Recomputes the whole chain, entry by entry. */
    method RebuildChain()
      modifies this`entries
      ensures entries == Rechained(sha, old(entries))
    {
      hide Body;
      ghost var before := entries;
      var prevHash := "";
      for i := 0 to |entries|
        invariant |entries| == |before|
        invariant entries[..i] == Rechained(sha, before[..i])
        invariant entries[i..] == before[i..]
        invariant prevHash == LastHash(entries[..i])
      {
        var relinked := Linked(sha, entries[i], prevHash);
        assert before[..i + 1][..i] == before[..i];
        assert entries[i] == entries[i..][0] == before[i];
        ghost var done := entries[..i];
        entries := entries[i := relinked];
        assert entries[..i + 1] == done + [relinked];
        prevHash := relinked.entryHash;
      }
      assert before[..|before|] == before && entries[..|entries|] == entries;
    }

    method VerifyChain() returns (v: ChainVerification)
      ensures v.intact <==> Intact(sha, entries)
      ensures v.verifiedCount == |entries|
      ensures v.mismatches == Mismatches(sha, entries, |entries|)
    {
      hide Body;
      var mismatches := [];
      var prevHash := "";
      for i := 0 to |entries|
        invariant mismatches == Mismatches(sha, entries, i)
        invariant prevHash == LastHash(entries[..i])
      {
        var entry := entries[i];
        var recomputed := EntryHash(sha, entry);
        ghost var contentReport := if HashRecomputes(sha, entry) then [] else [ChainMismatch(i, entry.auditId, ContentHash)];
        ghost var linkReport := if LinkMatches(entries, i) then [] else [ChainMismatch(i, entry.auditId, PreviousHash)];
        assert Mismatches(sha, entries, i + 1) == mismatches + contentReport + linkReport;
        if recomputed != entry.entryHash {
          mismatches := mismatches + [ChainMismatch(i, entry.auditId, ContentHash)];
        }
        if entry.previousEntryHash != prevHash {
          mismatches := mismatches + [ChainMismatch(i, entry.auditId, PreviousHash)];
        }
        assert LastHash(entries[..i + 1]) == entry.entryHash;
        prevHash := entry.entryHash;
      }
      NoMismatchIffIntact(sha, entries);
      v := ChainVerification(mismatches == [], |entries|, mismatches);
    }

    /** Filter, stable sort, slice: the permitted reader gets the requested stretch of all matches, newest first. */
    method RunQuery(requesterRole: UserRole, filter: AuditQuery) returns (r: Result<seq<AuditEvent>, string>)
      ensures r.Ok? <==> requesterRole in {AdminRole, SecurityAdmin, Auditor}
      ensures r.Err? ==> r.error == AccessDenied(requesterRole)
      ensures r.Ok? ==>
                forall sorted :: IsStableSort(sorted, Filter(entries, Matcher(filter)), NewestFirst) ==>
                  var from := Min(filter.offset, |sorted|);
                  var to := if filter.limit.Some? then Min(from + filter.limit.value, |sorted|) else |sorted|;
                  r.value == sorted[from..to]
      ensures r == Query(entries, requesterRole, filter)
    {
      hide SortBy, IsStableSort;
      if !CanReadAudit(requesterRole) {
        return Err(AccessDenied(requesterRole));
      }
      var matched := [];
      for i := 0 to |entries|
        invariant matched == Filter(entries[..i], Matcher(filter))
      {
        assert entries[..i + 1] == entries[..i] + [entries[i]];
        FilterAppend(entries[..i], [entries[i]], Matcher(filter));
        if Matches(filter, entries[i]) {
          matched := matched + [entries[i]];
        }
      }
      assert entries[..|entries|] == entries;
      matched := SortBy(matched, NewestFirst);
      var start := Min(filter.offset, |matched|);
      var page := matched[start..];
      if filter.limit.Some? && filter.limit.value < |page| {
        page := page[..filter.limit.value];
      }
      r := Ok(page);
      forall sorted | IsStableSort(sorted, Filter(entries, Matcher(filter)), NewestFirst)
        ensures var from := Min(filter.offset, |sorted|);
                var to := if filter.limit.Some? then Min(from + filter.limit.value, |sorted|) else |sorted|;
                page == sorted[from..to]
      {
        QueryAnswersWithSlice(entries, requesterRole, filter, sorted);
      }
    }

    method DetectSuspiciousPatterns(now: nat) returns (alerts: seq<SuspiciousActivityAlert>)
      ensures var windowStart := SaturatingSub(now, config.suspiciousWindowSeconds);
              && (forall a :: a in alerts ==> AlertIsExact(a, entries, windowStart))
              && (forall u :: HasAlert(alerts, u) <==>
                    IsSuspicious(entries, windowStart, config.suspiciousMinDistinctIps, u))
      ensures OneAlertPerUser(alerts)
      ensures forall i, j :: 0 <= i < j < |alerts| ==> alerts[i].distinctIps >= alerts[j].distinctIps
    {
      var windowStart := SaturatingSub(now, config.suspiciousWindowSeconds);
      alerts := DetectSuspicious(entries, windowStart, config.suspiciousMinDistinctIps);
    }
  }

  /** Linking one more event, and rebuilding without the oldest when over the cap, gives the chain of the newest events. */
  lemma RecordStep(sha: HashFunction, history: seq<AuditEvent>, entries: seq<AuditEvent>, stamped: AuditEvent, cap: nat)
    requires entries == Rechained(sha, LastN(history, cap))
    ensures var longer := entries + [Linked(sha, stamped, LastHash(entries))];
            Rechained(sha, LastN(history + [stamped], cap)) ==
            if |longer| > cap then Rechained(sha, longer[1..]) else longer
  {
    hide Body;
    var kept := LastN(history, cap);
    var longer := entries + [Linked(sha, stamped, LastHash(entries))];
    assert (kept + [stamped])[..|kept|] == kept;
    assert longer == Rechained(sha, kept + [stamped]);
    LastNAppend(history, stamped, cap);
    if |longer| > cap {
      RechainedKeepsContents(sha, kept + [stamped]);
      RechainedDependsOnContents(sha, longer[1..], (kept + [stamped])[1..]);
    }
  }

  /**
   * The hash a recording answers is the one stored last exactly if nothing was evicted; after an eviction it is not,
   * unless one of the rehashed entries exhibits a collision.
   */
  lemma AnsweredHashIsStoredIff(sha: HashFunction, entries: seq<AuditEvent>, stamped: AuditEvent, cap: nat)
    requires Intact(sha, entries)
    ensures var recorded := Linked(sha, stamped, LastHash(entries));
            var longer := entries + [recorded];
            var after := if |longer| > cap then Rechained(sha, longer[1..]) else longer;
            && (|longer| <= cap ==> LastHash(after) == recorded.entryHash)
            && (|longer| > cap && LastHash(after) == recorded.entryHash ==> CollisionWithin(sha, longer[1..], after))
  {
    hide Body;
    var longer := entries + [Linked(sha, stamped, LastHash(entries))];
    AppendKeepsIntact(sha, entries, stamped);
    var after := Rechained(sha, longer[1..]);
    RechainedIsIntact(sha, longer[1..]);
    RechainedKeepsContents(sha, longer[1..]);
    assert SameContents(longer[1..], after);
    if LastHash(after) == LastHash(longer) {
      EvictionChangesLastHash(sha, longer, after);
    }
  }

  /** A rebuild looks at contents only, never at the hashes that stood there before. */
  lemma {:induction false} RechainedDependsOnContents(sha: HashFunction, a: seq<AuditEvent>, b: seq<AuditEvent>)
    requires SameContents(a, b)
    ensures Rechained(sha, a) == Rechained(sha, b)
  {
    RechainedIsIntact(sha, a);
    RechainedKeepsContents(sha, a);
    assert SameContents(Rechained(sha, a), b);
    IntactIsRechained(sha, Rechained(sha, a), b);
  }

  /** After any sequence of recordings the chain is intact, and holds exactly the newest recorded events in order. */
  lemma ValidTrailIsIntact(sha: HashFunction, entries: seq<AuditEvent>, history: seq<AuditEvent>, cap: nat)
    ensures entries == Rechained(sha, LastN(history, cap)) <==>
            Intact(sha, entries) && SameContents(entries, LastN(history, cap))
  {
    RechainedIsIntact(sha, LastN(history, cap));
    RechainedKeepsContents(sha, LastN(history, cap));
    if SameContents(entries, LastN(history, cap)) {
      IntactIsRechained(sha, entries, LastN(history, cap));
    }
  }
}
