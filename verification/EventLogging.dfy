/**
 * The critical-event log. An event's hash does not cover its predecessor's hash, so links and contents are
 * checked apart: eviction and retention behave differently from the audit trail's chain.
 */
module EventLogging {
  import opened Foundations
  import opened Digests
  import opened AuditEvents

  datatype CriticalOperation =
    | FundTransfer | VulnerabilityVerification | EscrowOperation | RewardDistribution | AdminApproval
    | OwnershipChange | EscrowRefunded | EscrowCancelled | BountyCreation | BountyApproval | BountyClaim
    | ResearcherAssignment | ContractUpgrade | EmergencyStop | ConfigurationChange | ScanResultAccess | ScanResultShare

  datatype EventStatus = Started | InProgress | Completed | Failed | Cancelled

  datatype CriticalEvent = CriticalEvent(
    eventId: string,
    timestamp: nat,
    operation: CriticalOperation,
    severity: AuditSeverity,
    status: EventStatus,
    description: string,
    actor: string,
    target: Option<string>,
    metadata: map<string, string>,
    previousState: Option<string>,
    newState: Option<string>,
    errorMessage: Option<string>,
    executionDurationMs: Option<nat>,
    gasConsumed: Option<nat>,
    transactionHash: Option<string>,
    ledgerSequence: Option<nat>,
    eventHash: string,
    previousEventHash: string)

  function OperationText(o: CriticalOperation): string {
    match o
    case FundTransfer => "FundTransfer"
    case VulnerabilityVerification => "VulnerabilityVerification"
    case EscrowOperation => "EscrowOperation"
    case RewardDistribution => "RewardDistribution"
    case AdminApproval => "AdminApproval"
    case OwnershipChange => "OwnershipChange"
    case EscrowRefunded => "EscrowRefunded"
    case EscrowCancelled => "EscrowCancelled"
    case BountyCreation => "BountyCreation"
    case BountyApproval => "BountyApproval"
    case BountyClaim => "BountyClaim"
    case ResearcherAssignment => "ResearcherAssignment"
    case ContractUpgrade => "ContractUpgrade"
    case EmergencyStop => "EmergencyStop"
    case ConfigurationChange => "ConfigurationChange"
    case ScanResultAccess => "ScanResultAccess"
    case ScanResultShare => "ScanResultShare"
  }

  function SeverityText(s: AuditSeverity): string {
    match s
    case Low => "Low"
    case Medium => "Medium"
    case High => "High"
    case Critical => "Critical"
  }

  function StatusText(s: EventStatus): string {
    match s
    case Started => "Started"
    case InProgress => "InProgress"
    case Completed => "Completed"
    case Failed => "Failed"
    case Cancelled => "Cancelled"
  }

  const HASHED_FIELDS: nat := 12

  /** The fields in the order in which they are hashed; an absent one contributes nothing. */
  function HashedField(e: CriticalEvent, k: nat): string {
    match k
    case 0 => e.eventId
    case 1 => LittleEndian(e.timestamp, 8)
    case 2 => OperationText(e.operation)
    case 3 => SeverityText(e.severity)
    case 4 => StatusText(e.status)
    case 5 => e.description
    case 6 => e.actor
    case 7 => e.target.GetOr("")
    case 8 => e.previousState.GetOr("")
    case 9 => e.newState.GetOr("")
    case 10 => e.errorMessage.GetOr("")
    case _ => e.transactionHash.GetOr("")
  }

  /** The fields from the `k`-th on, joined without separators. */
  function FieldsFrom(e: CriticalEvent, k: nat): string
    decreases e, HASHED_FIELDS - k
  {
    if k >= HASHED_FIELDS then "" else HashedField(e, k) + FieldsFrom(e, k + 1)
  }

  /** The text that is hashed; metadata, duration, gas, ledger sequence and both hash fields are not part of it. */
  function EventText(e: CriticalEvent): string {
    FieldsFrom(e, 0)
  }

  function EventHash(sha: HashFunction, e: CriticalEvent): string {
    sha(EventText(e))
  }

  function LastEventHash(events: seq<CriticalEvent>): string {
    if events == [] then "" else events[|events| - 1].eventHash
  }

  function Chained(sha: HashFunction, e: CriticalEvent, previousHash: string): CriticalEvent {
    e.(previousEventHash := previousHash, eventHash := EventHash(sha, e))
  }

  function WithoutHashes(e: CriticalEvent): CriticalEvent {
    e.(eventHash := "", previousEventHash := "")
  }

  predicate HashHolds(sha: HashFunction, e: CriticalEvent) {
    e.eventHash == EventHash(sha, e)
  }

  predicate LinkHolds(events: seq<CriticalEvent>, i: nat)
    requires 0 < i < |events|
  {
    events[i].previousEventHash == events[i - 1].eventHash
  }

  ghost predicate HashesHold(sha: HashFunction, events: seq<CriticalEvent>) {
    forall i :: 0 <= i < |events| ==> HashHolds(sha, events[i])
  }

  /** What verifying the closed index range `from..to` demands; the link into the first event is not looked at. */
  ghost predicate RangeIntact(sha: HashFunction, events: seq<CriticalEvent>, from: nat, to: nat)
    requires from <= to < |events|
  {
    forall i :: from <= i <= to ==> HashHolds(sha, events[i]) && (i > from ==> LinkHolds(events, i))
  }

  /** The whole store verifies; an empty one trivially does. */
  ghost predicate StoreIntact(sha: HashFunction, events: seq<CriticalEvent>) {
    events == [] || RangeIntact(sha, events, 0, |events| - 1)
  }

  /** Range verification composes at every index in between. */
  lemma RangesCompose(sha: HashFunction, events: seq<CriticalEvent>, from: nat, mid: nat, to: nat)
    requires from <= mid <= to < |events|
    ensures RangeIntact(sha, events, from, to) <==>
            RangeIntact(sha, events, from, mid) && RangeIntact(sha, events, mid, to)
  {
    if RangeIntact(sha, events, from, mid) && RangeIntact(sha, events, mid, to) {
      forall i | from <= i <= to
        ensures HashHolds(sha, events[i]) && (i > from ==> LinkHolds(events, i))
      {
        assert i <= mid || i > mid;
      }
    }
  }

  // ---------------------------------------------------------------- rebuilding

  /** The store with every hash and link recomputed, the first link empty. */
  function Rebuilt(sha: HashFunction, events: seq<CriticalEvent>): (r: seq<CriticalEvent>)
    ensures |r| == |events|
  {
    seq(|events|, i requires 0 <= i < |events| =>
      Chained(sha, events[i], if i == 0 then "" else EventHash(sha, events[i - 1])))
  }

  lemma {:induction false} FieldsIgnoreHashes(e: CriticalEvent, eventHash: string, previousEventHash: string, k: nat)
    ensures FieldsFrom(e.(eventHash := eventHash, previousEventHash := previousEventHash), k) == FieldsFrom(e, k)
    decreases HASHED_FIELDS - k
  {
    if k < HASHED_FIELDS {
      FieldsIgnoreHashes(e, eventHash, previousEventHash, k + 1);
    }
  }

  lemma TextIgnoresHashes(e: CriticalEvent, eventHash: string, previousEventHash: string)
    ensures EventText(e.(eventHash := eventHash, previousEventHash := previousEventHash)) == EventText(e)
  {
    FieldsIgnoreHashes(e, eventHash, previousEventHash, 0);
  }

  lemma ChainedHolds(sha: HashFunction, e: CriticalEvent, previous: string)
    ensures HashHolds(sha, Chained(sha, e, previous))
    ensures Chained(sha, e, previous).eventHash == EventHash(sha, e)
    ensures Chained(sha, e, previous).previousEventHash == previous
    ensures WithoutHashes(Chained(sha, e, previous)) == WithoutHashes(e)
  {
    hide EventText;
    TextIgnoresHashes(e, Chained(sha, e, previous).eventHash, previous);
  }

  lemma RebuiltEntry(sha: HashFunction, events: seq<CriticalEvent>, i: nat)
    requires i < |events|
    ensures HashHolds(sha, Rebuilt(sha, events)[i])
    ensures i > 0 ==> LinkHolds(Rebuilt(sha, events), i)
    ensures WithoutHashes(Rebuilt(sha, events)[i]) == WithoutHashes(events[i])
  {
    hide Chained, HashHolds, WithoutHashes, EventHash;
    ChainedHolds(sha, events[i], if i == 0 then "" else EventHash(sha, events[i - 1]));
    if i > 0 {
      ChainedHolds(sha, events[i - 1], if i == 1 then "" else EventHash(sha, events[i - 2]));
    }
  }

  /** A rebuild leaves contents alone and makes the whole store verify, whatever state it was in. */
  lemma RebuiltIsIntact(sha: HashFunction, events: seq<CriticalEvent>)
    ensures StoreIntact(sha, Rebuilt(sha, events)) && HashesHold(sha, Rebuilt(sha, events))
    ensures forall i :: 0 <= i < |events| ==> WithoutHashes(Rebuilt(sha, events)[i]) == WithoutHashes(events[i])
  {
    hide Rebuilt, HashHolds, LinkHolds, WithoutHashes;
    forall i | 0 <= i < |events|
      ensures HashHolds(sha, Rebuilt(sha, events)[i])
      ensures i > 0 ==> LinkHolds(Rebuilt(sha, events), i)
      ensures WithoutHashes(Rebuilt(sha, events)[i]) == WithoutHashes(events[i])
    {
      RebuiltEntry(sha, events, i);
    }
  }

  /** Two different texts, one digest. */
  ghost predicate TextsCollide(sha: HashFunction, x: CriticalEvent, y: CriticalEvent) {
    EventText(x) != EventText(y) && sha(EventText(x)) == sha(EventText(y))
  }

  /** Two stores whose hashes recompute and that end in one hash end in events of one text, or in a collision. */
  lemma LastEventHashFixesLastEvent(sha: HashFunction, a: seq<CriticalEvent>, b: seq<CriticalEvent>)
    requires a != [] && b != [] && StoreIntact(sha, a) && StoreIntact(sha, b)
    ensures LastEventHash(a) == LastEventHash(b) <==>
            || EventText(a[|a| - 1]) == EventText(b[|b| - 1])
            || TextsCollide(sha, a[|a| - 1], b[|b| - 1])
  {
    hide EventText;
    assert HashHolds(sha, a[|a| - 1]) && HashHolds(sha, b[|b| - 1]);
  }

  /**
   * The last hash of an event store commits to its last event only: whatever went before, of whatever length, both
   * stores verify, and they end in one hash exactly if their last events have one text, or collide. An event's hash
   * does not cover the hash before it.
   */
  lemma LastEventHashForgetsHistory(sha: HashFunction, front: seq<CriticalEvent>, other: seq<CriticalEvent>,
                                    e: CriticalEvent, f: CriticalEvent)
    ensures StoreIntact(sha, Rebuilt(sha, front + [e])) && StoreIntact(sha, Rebuilt(sha, other + [f]))
    ensures LastEventHash(Rebuilt(sha, front + [e])) == EventHash(sha, e)
    ensures LastEventHash(Rebuilt(sha, front + [e])) == LastEventHash(Rebuilt(sha, other + [f])) <==>
            EventText(e) == EventText(f) || TextsCollide(sha, e, f)
  {
    hide StoreIntact, Rebuilt, LastEventHash, EventText;
    RebuiltEnd(sha, front, e);
    RebuiltEnd(sha, other, f);
  }

  lemma RebuiltEnd(sha: HashFunction, front: seq<CriticalEvent>, e: CriticalEvent)
    ensures StoreIntact(sha, Rebuilt(sha, front + [e]))
    ensures LastEventHash(Rebuilt(sha, front + [e])) == EventHash(sha, e)
  {
    hide StoreIntact, HashesHold, Chained, EventHash;
    RebuiltIsIntact(sha, front + [e]);
    var n := |front|;
    ChainedHolds(sha, e, if n == 0 then "" else EventHash(sha, (front + [e])[n - 1]));
  }

  lemma KeptOnRebuild(sha: HashFunction, events: seq<CriticalEvent>, i: nat)
    requires i + 1 < |events| && StoreIntact(sha, events)
    ensures Rebuilt(sha, events[1..])[i] == if i == 0 then events[1].(previousEventHash := "") else events[i + 1]
  {
    hide EventText;
    assert HashHolds(sha, events[i + 1]) && HashHolds(sha, events[i]);
    if i > 0 {
      assert LinkHolds(events, i + 1);
    }
  }

  /** Evicting the oldest event of an intact store rewrites nothing but the link of the new oldest event. */
  lemma EvictionRewritesOneLink(sha: HashFunction, events: seq<CriticalEvent>)
    requires |events| > 1 && StoreIntact(sha, events)
    ensures Rebuilt(sha, events[1..]) == [events[1].(previousEventHash := "")] + events[2..]
    ensures forall i :: 1 <= i < |events| ==> Rebuilt(sha, events[1..])[i - 1].eventHash == events[i].eventHash
  {
    hide EventText;
    var rebuilt := Rebuilt(sha, events[1..]);
    forall i | 0 <= i < |rebuilt|
      ensures rebuilt[i] == if i == 0 then events[1].(previousEventHash := "") else events[i + 1]
    {
      KeptOnRebuild(sha, events, i);
    }
  }

  // ---------------------------------------------------------------- retention

  predicate Kept(e: CriticalEvent, cutoff: nat) {
    e.timestamp >= cutoff
  }

  function Keeper(cutoff: nat): CriticalEvent -> bool {
    e => Kept(e, cutoff)
  }

  function Retained(events: seq<CriticalEvent>, cutoff: nat): seq<CriticalEvent> {
    Filter(events, Keeper(cutoff))
  }

  ghost predicate NondecreasingTimes(events: seq<CriticalEvent>) {
    forall i, j :: 0 <= i < j < |events| ==> events[i].timestamp <= events[j].timestamp
  }

  lemma {:induction false} AllKept(events: seq<CriticalEvent>, cutoff: nat)
    requires forall i :: 0 <= i < |events| ==> Kept(events[i], cutoff)
    ensures Retained(events, cutoff) == events
  {
    if events != [] {
      AllKept(events[1..], cutoff);
    }
  }

  /** With nondecreasing timestamps retention drops a prefix, and what stays verifies if the store did. */
  lemma {:induction false} OrderedRetentionDropsPrefix(sha: HashFunction, events: seq<CriticalEvent>, cutoff: nat)
    requires NondecreasingTimes(events)
    ensures var dropped := |events| - |Retained(events, cutoff)|;
            && 0 <= dropped <= |events|
            && Retained(events, cutoff) == events[dropped..]
            && (forall i :: 0 <= i < dropped ==> !Kept(events[i], cutoff))
            && (forall i :: dropped <= i < |events| ==> Kept(events[i], cutoff))
    ensures StoreIntact(sha, events) ==> StoreIntact(sha, Retained(events, cutoff))
  {
    hide EventText;
    if events != [] {
      if Kept(events[0], cutoff) {
        AllKept(events, cutoff);
      } else {
        OrderedRetentionDropsPrefix(sha, events[1..], cutoff);
        if StoreIntact(sha, events) && |events| > 1 {
          RangesCompose(sha, events, 0, 1, |events| - 1);
          assert RangeIntact(sha, events[1..], 0, |events| - 2) by {
            forall i | 0 <= i <= |events| - 2
              ensures HashHolds(sha, events[1..][i]) && (i > 0 ==> LinkHolds(events[1..], i))
            {
              assert HashHolds(sha, events[i + 1]) && (i > 0 ==> LinkHolds(events, i + 1));
            }
          }
        }
      }
    }
  }

  /** Retention keeps events `i` and `j` and drops everything between them, of which there is something. */
  ghost predicate Gap(events: seq<CriticalEvent>, cutoff: nat, i: nat, j: nat) {
    && i + 1 < j < |events|
    && Kept(events[i], cutoff) && Kept(events[j], cutoff)
    && forall k :: i < k < j ==> !Kept(events[k], cutoff)
  }

  /** Across every gap the surviving predecessor happens to have the digest of the dropped one. */
  ghost predicate GapsHarmless(events: seq<CriticalEvent>, cutoff: nat) {
    forall i: nat, j: nat :: Gap(events, cutoff, i, j) ==> events[i].eventHash == events[j - 1].eventHash
  }

  /** The last event retention keeps, with everything after it dropped. */
  lemma {:induction false} LastRetained(events: seq<CriticalEvent>, cutoff: nat) returns (i: nat)
    requires Retained(events, cutoff) != []
    ensures i < |events| && Kept(events[i], cutoff)
    ensures forall k :: i < k < |events| ==> !Kept(events[k], cutoff)
    ensures Retained(events, cutoff)[|Retained(events, cutoff)| - 1] == events[i]
  {
    var n := |events| - 1;
    RetainedStep(events, cutoff);
    if Kept(events[n], cutoff) {
      i := n;
    } else {
      i := LastRetained(events[..n], cutoff);
      assert events[..n][i] == events[i];
      forall k | i < k < |events|
        ensures !Kept(events[k], cutoff)
      {
        if k < n {
          assert events[..n][k] == events[k];
        }
      }
    }
  }

  lemma RetainedStep(events: seq<CriticalEvent>, cutoff: nat)
    ensures events != [] ==>
              var n := |events| - 1;
              Retained(events, cutoff) ==
              Retained(events[..n], cutoff) + (if Kept(events[n], cutoff) then [events[n]] else [])
  {
    if events != [] {
      var n := |events| - 1;
      assert events == events[..n] + [events[n]];
      FilterAppend(events[..n], [events[n]], Keeper(cutoff));
    }
  }

  lemma StoreIntactStep(sha: HashFunction, events: seq<CriticalEvent>, e: CriticalEvent)
    ensures StoreIntact(sha, events + [e]) <==>
            StoreIntact(sha, events) && HashHolds(sha, e) && (events != [] ==> e.previousEventHash == LastEventHash(events))
  {
    hide EventText;
    var longer := events + [e];
    var n := |events|;
    if StoreIntact(sha, longer) && n > 0 {
      RangesCompose(sha, longer, 0, n - 1, n);
      assert LinkHolds(longer, n);
      forall i | 0 <= i <= n - 1
        ensures HashHolds(sha, events[i]) && (i > 0 ==> LinkHolds(events, i))
      {
        assert HashHolds(sha, longer[i]) && (i > 0 ==> LinkHolds(longer, i));
      }
    }
    if StoreIntact(sha, longer) {
      assert HashHolds(sha, longer[n]);
    }
    if StoreIntact(sha, events) && HashHolds(sha, e) && (n > 0 ==> e.previousEventHash == LastEventHash(events)) {
      forall i | 0 <= i <= n
        ensures HashHolds(sha, longer[i]) && (i > 0 ==> LinkHolds(longer, i))
      {
        if i < n {
          assert HashHolds(sha, events[i]) && (i > 0 ==> LinkHolds(events, i));
        }
      }
    }
  }

  lemma GapInFront(events: seq<CriticalEvent>, cutoff: nat, a: nat, b: nat)
    requires a + 1 < b < |events|
    ensures Gap(events, cutoff, a, b) <==> Gap(events[..b + 1], cutoff, a, b)
  {
    assert forall k :: 0 <= k <= b ==> events[..b + 1][k] == events[k];
  }

  lemma GapsHarmlessFront(events: seq<CriticalEvent>, cutoff: nat)
    requires events != []
    ensures var n := |events| - 1;
            GapsHarmless(events, cutoff) <==>
            && GapsHarmless(events[..n], cutoff)
            && forall a: nat :: Gap(events, cutoff, a, n) ==> events[a].eventHash == events[n - 1].eventHash
  {
    var n := |events| - 1;
    var front := events[..n];
    forall a: nat, b: nat | a + 1 < b < n
      ensures Gap(events, cutoff, a, b) <==> Gap(front, cutoff, a, b)
    {
      GapInFront(events, cutoff, a, b);
      GapInFront(front, cutoff, a, b);
      assert front[..b + 1] == events[..b + 1];
    }
    if GapsHarmless(events, cutoff) {
      forall a: nat, b: nat | Gap(front, cutoff, a, b)
        ensures front[a].eventHash == front[b - 1].eventHash
      {
        assert Gap(events, cutoff, a, b);
      }
    }
    if GapsHarmless(front, cutoff) && forall a: nat :: Gap(events, cutoff, a, n) ==> events[a].eventHash == events[n - 1].eventHash {
      forall a: nat, b: nat | Gap(events, cutoff, a, b)
        ensures events[a].eventHash == events[b - 1].eventHash
      {
        if b < n {
          assert Gap(front, cutoff, a, b);
        }
      }
    }
  }

  /** The newest event closes at most one gap: the one after the last event kept before it. */
  lemma GapsStep(events: seq<CriticalEvent>, cutoff: nat, i: nat)
    requires events != [] && i < |events| - 1 && Kept(events[|events| - 1], cutoff)
    requires Kept(events[i], cutoff) && forall k :: i < k < |events| - 1 ==> !Kept(events[k], cutoff)
    ensures var n := |events| - 1;
            GapsHarmless(events, cutoff) <==>
            GapsHarmless(events[..n], cutoff) && events[i].eventHash == events[n - 1].eventHash
  {
    var n := |events| - 1;
    GapsHarmlessFront(events, cutoff);
    forall a: nat
      ensures Gap(events, cutoff, a, n) <==> a == i && i + 1 < n
    {
      if a < i {
        assert Kept(events[i], cutoff) && a < i < n;
      }
    }
  }

  lemma GapsStepDropped(events: seq<CriticalEvent>, cutoff: nat)
    requires events != []
    requires var n := |events| - 1; !Kept(events[n], cutoff) || Retained(events[..n], cutoff) == []
    ensures GapsHarmless(events, cutoff) <==> GapsHarmless(events[..|events| - 1], cutoff)
  {
    var n := |events| - 1;
    var front := events[..n];
    GapsHarmlessFront(events, cutoff);
    FilterMembers(front, Keeper(cutoff));
    forall a: nat
      ensures !Gap(events, cutoff, a, n)
    {
      if a < n {
        assert front[a] == events[a] && front[a] in front;
        assert Kept(events[a], cutoff) ==> Keeper(cutoff)(front[a]);
      }
    }
  }

  lemma RetentionChainKept(sha: HashFunction, front: seq<CriticalEvent>, e: CriticalEvent, cutoff: nat)
    requires front != [] && HashHolds(sha, e) && e.previousEventHash == LastEventHash(front)
    requires Kept(e, cutoff) && Retained(front, cutoff) != []
    requires StoreIntact(sha, Retained(front, cutoff)) <==> GapsHarmless(front, cutoff)
    ensures StoreIntact(sha, Retained(front, cutoff) + [e]) <==> GapsHarmless(front + [e], cutoff)
  {
    hide EventText, GapsHarmless, HashHolds, RangeIntact, Retained, Gap;
    var events := front + [e];
    assert events[..|front|] == front;
    var i := LastRetained(front, cutoff);
    GapsStep(events, cutoff, i);
    StoreIntactStep(sha, Retained(front, cutoff), e);
  }

  lemma RetentionChainStep(sha: HashFunction, front: seq<CriticalEvent>, e: CriticalEvent, cutoff: nat)
    requires StoreIntact(sha, front + [e])
    requires StoreIntact(sha, Retained(front, cutoff)) <==> GapsHarmless(front, cutoff)
    ensures StoreIntact(sha, Retained(front + [e], cutoff)) <==> GapsHarmless(front + [e], cutoff)
  {
    hide EventText, GapsHarmless, HashHolds, RangeIntact;
    var events := front + [e];
    assert events[..|front|] == front;
    StoreIntactStep(sha, front, e);
    RetainedStep(events, cutoff);
    assert events[|front|] == e;
    assert Retained(events, cutoff) == Retained(front, cutoff) + (if Kept(e, cutoff) then [e] else []);
    if Kept(e, cutoff) && Retained(front, cutoff) != [] {
      RetentionChainKept(sha, front, e, cutoff);
    } else {
      GapsStepDropped(events, cutoff);
      if Kept(e, cutoff) {
        StoreIntactStep(sha, [], e);
        assert Retained(events, cutoff) == [] + [e];
      } else {
        assert Retained(events, cutoff) == Retained(front, cutoff);
      }
    }
  }

  /** Exactly when an intact store still verifies after retention, in whatever order the timestamps come. */
  lemma {:induction false} RetentionKeepsChainIff(sha: HashFunction, events: seq<CriticalEvent>, cutoff: nat)
    requires StoreIntact(sha, events)
    ensures StoreIntact(sha, Retained(events, cutoff)) <==> GapsHarmless(events, cutoff)
  {
    hide EventText;
    if events != [] {
      var n := |events| - 1;
      assert events == events[..n] + [events[n]];
      StoreIntactStep(sha, events[..n], events[n]);
      RetentionKeepsChainIff(sha, events[..n], cutoff);
      RetentionChainStep(sha, events[..n], events[n], cutoff);
    }
  }

  /** A hash that tells texts apart by their first character, to exhibit a store with. */
  function FirstCharacterHash(s: string): string {
    seq(DIGEST_LENGTH, _ => if s == "" then '0' else s[0])
  }

  function PlainEvent(id: string, timestamp: nat): CriticalEvent {
    CriticalEvent(id, timestamp, FundTransfer, Low, Started, "", "", None, map[], None, None, None, None, None, None, None, "", "")
  }

  lemma TextBeginsWithId(e: CriticalEvent)
    requires e.eventId != ""
    ensures EventText(e) != "" && EventText(e)[0] == e.eventId[0]
  {
    assert EventText(e) == HashedField(e, 0) + FieldsFrom(e, 1);
  }

  /** Three events, the middle one with an older timestamp: the store verifies, and no longer does after retention. */
  lemma RetentionBreaksChain() returns (sha: HashFunction, events: seq<CriticalEvent>)
    ensures |events| == 3 && events[0].timestamp == 10 && events[1].timestamp == 0 && events[2].timestamp == 10
    ensures StoreIntact(sha, events) && !StoreIntact(sha, Retained(events, 5))
  {
    hide EventText;
    assert FixedLength(FirstCharacterHash);
    sha := FirstCharacterHash;
    var plain := [PlainEvent("a", 10), PlainEvent("b", 0), PlainEvent("c", 10)];
    events := Rebuilt(sha, plain);
    RebuiltIsIntact(sha, plain);
    assert events[0].eventHash == EventHash(sha, plain[0]) && events[1].eventHash == EventHash(sha, plain[1]);
    TextBeginsWithId(plain[0]);
    TextBeginsWithId(plain[1]);
    assert events[0].eventHash[0] == 'a' && events[1].eventHash[0] == 'b';
    RetentionKeepsChainIff(sha, events, 5);
    assert Gap(events, 5, 0, 2);
  }

  // ---------------------------------------------------------------- the logger

  datatype EventLoggingConfig = EventLoggingConfig(
    enabled: bool,
    enablePersistence: bool,
    maxEventsInMemory: nat,
    retentionPeriodSeconds: nat,
    criticalOperations: seq<CriticalOperation>)

  datatype LinkMismatchKind = EventContent | EventLink

  datatype EventMismatch = EventMismatch(index: nat, eventId: string, expectedHash: string, actualHash: string,
                                         kind: LinkMismatchKind)

  datatype RangeVerification = RangeVerification(
    chainIntegrity: bool,
    verifiedCount: nat,
    mismatches: seq<EventMismatch>,
    totalEventsInStore: nat)

  function ContentReport(sha: HashFunction, events: seq<CriticalEvent>, i: nat): seq<EventMismatch>
    requires i < |events|
  {
    if HashHolds(sha, events[i]) then []
    else [EventMismatch(i, events[i].eventId, EventHash(sha, events[i]), events[i].eventHash, EventContent)]
  }

  function LinkReport(events: seq<CriticalEvent>, from: nat, i: nat): seq<EventMismatch>
    requires i < |events|
  {
    if i <= from || LinkHolds(events, i) then []
    else [EventMismatch(i, events[i].eventId, events[i - 1].eventHash, events[i].previousEventHash, EventLink)]
  }

  /** The mismatches at the indices from `from` up to but excluding `n`, in the order they are reported. */
  ghost function EventMismatches(sha: HashFunction, events: seq<CriticalEvent>, from: nat, n: nat): seq<EventMismatch>
    requires from <= n <= |events|
    decreases n - from
  {
    if n == from then []
    else EventMismatches(sha, events, from, n - 1) + ContentReport(sha, events, n - 1) + LinkReport(events, from, n - 1)
  }

  /** Every reported mismatch is a failing check of the range, told with the right index, id and hashes, and conversely. */
  lemma {:induction false} EventMismatchesAreExact(sha: HashFunction, events: seq<CriticalEvent>, from: nat, n: nat, m: EventMismatch)
    requires from <= n <= |events|
    ensures m in EventMismatches(sha, events, from, n) <==>
            && from <= m.index < n
            && m.eventId == events[m.index].eventId
            && match m.kind
               case EventContent =>
                 && m.actualHash == events[m.index].eventHash != m.expectedHash
                 && m.expectedHash == EventHash(sha, events[m.index])
               case EventLink =>
                 && m.index > from && m.actualHash == events[m.index].previousEventHash != m.expectedHash
                 && m.expectedHash == events[m.index - 1].eventHash
    decreases n - from
  {
    hide EventText, EventHash;
    if n > from {
      EventMismatchesAreExact(sha, events, from, n - 1, m);
    }
  }

  lemma RangeIntactStep(sha: HashFunction, events: seq<CriticalEvent>, from: nat, to: nat)
    requires from <= to < |events|
    ensures RangeIntact(sha, events, from, to) <==>
            && (to > from ==> RangeIntact(sha, events, from, to - 1) && LinkHolds(events, to))
            && HashHolds(sha, events[to])
  {
    hide HashHolds, LinkHolds;
  }

  lemma ReportsEmptyIff(sha: HashFunction, events: seq<CriticalEvent>, from: nat, i: nat)
    requires i < |events|
    ensures ContentReport(sha, events, i) == [] <==> HashHolds(sha, events[i])
    ensures LinkReport(events, from, i) == [] <==> i <= from || LinkHolds(events, i)
  {
    hide EventText, EventHash, HashHolds, LinkHolds;
  }

  lemma {:induction false} NoEventMismatchIff(sha: HashFunction, events: seq<CriticalEvent>, from: nat, n: nat)
    requires from < n <= |events|
    ensures EventMismatches(sha, events, from, n) == [] <==> RangeIntact(sha, events, from, n - 1)
    decreases n - from
  {
    hide HashHolds, LinkHolds, RangeIntact, ContentReport, LinkReport;
    RangeIntactStep(sha, events, from, n - 1);
    ReportsEmptyIff(sha, events, from, n - 1);
    if n == from + 1 {
      assert EventMismatches(sha, events, from, from) == [];
    } else {
      NoEventMismatchIff(sha, events, from, n - 1);
    }
  }

  function Contents(events: seq<CriticalEvent>): seq<CriticalEvent> {
    seq(|events|, i requires 0 <= i < |events| => WithoutHashes(events[i]))
  }

  function Identified(event: CriticalEvent, counter: nat, now: nat): CriticalEvent {
    if event.eventId == "" then event.(eventId := "evt_" + Digits(now) + "_" + Digits(counter)) else event
  }

  /** Only a missing id is filled in. */
  lemma IdentifiedKeeps(event: CriticalEvent, counter: nat, now: nat)
    ensures Identified(event, counter, now) == event.(eventId := Identified(event, counter, now).eventId)
    ensures Identified(event, counter, now).eventId ==
            if event.eventId != "" then event.eventId else "evt_" + Digits(now) + "_" + Digits(counter)
  {
  }

  /** Appending a chained event keeps an intact store intact and adds just its contents. */
  lemma StoreAppends(sha: HashFunction, events: seq<CriticalEvent>, e: CriticalEvent)
    requires HashesHold(sha, events)
    ensures var longer := events + [Chained(sha, e, LastEventHash(events))];
            && HashesHold(sha, longer)
            && Contents(longer) == Contents(events) + [WithoutHashes(e)]
            && (StoreIntact(sha, events) ==> StoreIntact(sha, longer))
  {
    hide EventText;
    var chained := Chained(sha, e, LastEventHash(events));
    TextIgnoresHashes(e, chained.eventHash, chained.previousEventHash);
    StoreIntactStep(sha, events, chained);
  }

  lemma EvictionKeepsContents(sha: HashFunction, events: seq<CriticalEvent>, cap: nat)
    requires |events| == cap + 1
    ensures Contents(Rebuilt(sha, events[1..])) == LastN(Contents(events), cap)
  {
    hide EventText, Rebuilt, StoreIntact, HashesHold;
    RebuiltIsIntact(sha, events[1..]);
  }

  class EventLogger {
    const config: EventLoggingConfig
    const sha: HashFunction
    var events: seq<CriticalEvent>
    var eventCounter: nat

    /** Every stored hash recomputes and the cap is respected; links are a separate matter. */
    ghost predicate Valid()
      reads this
    {
      HashesHold(sha, events) && |events| <= config.maxEventsInMemory
    }

    constructor (config: EventLoggingConfig, sha: HashFunction)
      ensures Valid() && events == [] && eventCounter == 0
      ensures this.config == config && this.sha == sha
    {
      this.config, this.sha := config, sha;
      events, eventCounter := [], 0;
    }

    method LogEvent(event: CriticalEvent, now: nat)
      requires Valid()
      modifies this
      ensures Valid()
      ensures old(StoreIntact(sha, events)) ==> StoreIntact(sha, events)
      ensures Contents(events) ==
              if config.enabled && config.enablePersistence && event.operation in config.criticalOperations
              then LastN(Contents(old(events)) + [WithoutHashes(Identified(event, old(eventCounter), now))], config.maxEventsInMemory)
              else Contents(old(events))
      ensures !(config.enabled && config.enablePersistence && event.operation in config.criticalOperations) ==>
                events == old(events) && eventCounter == old(eventCounter)
    {
      if !config.enabled {
        return;
      }
      if event.operation !in config.criticalOperations {
        return;
      }
      if config.enablePersistence {
        StoreEvent(event, now);
      }
    }

    method StoreEvent(event: CriticalEvent, now: nat)
      requires Valid()
      modifies this
      ensures Valid()
      ensures Contents(events) ==
              LastN(Contents(old(events)) + [WithoutHashes(Identified(event, old(eventCounter), now))], config.maxEventsInMemory)
      ensures old(StoreIntact(sha, events)) || old(|events|) == config.maxEventsInMemory ==> StoreIntact(sha, events)
      ensures old(|events|) < config.maxEventsInMemory ==>
                events == old(events) + [Chained(sha, Identified(event, old(eventCounter), now), LastEventHash(old(events)))]
      ensures eventCounter == if event.eventId == "" then (old(eventCounter) + 1) % (U64_MAX + 1) else old(eventCounter)
    {
      hide EventText, HashesHold, Rebuilt;
      var previousHash := LastEventHash(events);
      var chainedEvent := Chained(sha, Identified(event, eventCounter, now), previousHash);
      StoreAppends(sha, events, Identified(event, eventCounter, now));
      eventCounter := if event.eventId == "" then (eventCounter + 1) % (U64_MAX + 1) else eventCounter;
      events := events + [chainedEvent];
      if |events| > config.maxEventsInMemory {
        EvictionKeepsContents(sha, events, config.maxEventsInMemory);
        events := events[1..];
        RebuiltIsIntact(sha, events);
        RebuildHashChain();
      }
    }

    /** Rewrites every stored event's hashes in place, oldest first. */
    method RebuildHashChain()
      modifies this`events
      ensures events == Rebuilt(sha, old(events))
    {
      hide EventText;
      ghost var before := events;
      var prevHash := "";
      for i := 0 to |events|
        invariant |events| == |before|
        invariant forall k :: 0 <= k < i ==> events[k] == Rebuilt(sha, before)[k]
        invariant forall k :: i <= k < |before| ==> events[k] == before[k]
        invariant prevHash == if i == 0 then "" else EventHash(sha, before[i - 1])
      {
        var e := events[i].(previousEventHash := prevHash);
        TextIgnoresHashes(before[i], before[i].eventHash, prevHash);
        e := e.(eventHash := EventHash(sha, e));
        events := events[i := e];
        prevHash := e.eventHash;
      }
    }

    /** Verifies a range of indices, clamped into the store; an empty store aborts on the first index. */
    method VerifyChain(fromIndex: nat, toIndex: nat) returns (r: Option<RangeVerification>)
      ensures r.None? <==> events == []
      ensures r.Some? ==>
                var to := Min(toIndex, |events| - 1);
                var from := Min(fromIndex, to);
                && (r.value.chainIntegrity <==> RangeIntact(sha, events, from, to))
                && r.value.verifiedCount == to - from + 1
                && r.value.totalEventsInStore == |events|
                && r.value.mismatches == EventMismatches(sha, events, from, to + 1)
    {
      hide EventText;
      var total := |events|;
      if total == 0 {
        return None;
      }
      var actualTo := Min(toIndex, SaturatingSub(total, 1));
      var actualFrom := Min(fromIndex, actualTo);
      var verifiedCount := 0;
      var mismatches := [];
      for i := actualFrom to actualTo + 1
        invariant verifiedCount == i - actualFrom
        invariant mismatches == EventMismatches(sha, events, actualFrom, i)
      {
        var event := events[i];
        var recomputed := EventHash(sha, event);
        if recomputed != event.eventHash {
          mismatches := mismatches + [EventMismatch(i, event.eventId, recomputed, event.eventHash, EventContent)];
        }
        if i > actualFrom {
          var prevHash := events[i - 1].eventHash;
          if event.previousEventHash != prevHash {
            mismatches := mismatches + [EventMismatch(i, event.eventId, prevHash, event.previousEventHash, EventLink)];
          }
        }
        verifiedCount := verifiedCount + 1;
      }
      NoEventMismatchIff(sha, events, actualFrom, actualTo + 1);
      r := Some(RangeVerification(mismatches == [], verifiedCount, mismatches, total));
    }

    /** Drops events older than the retention period; a clock before the period's length aborts the subtraction. */
    method CleanupOldEvents(now: nat) returns (removed: Option<nat>)
      requires Valid()
      modifies this`events
      ensures Valid()
      ensures removed.None? <==> now < config.retentionPeriodSeconds
      ensures removed.None? ==> events == old(events)
      ensures removed.Some? ==>
                && events == Retained(old(events), now - config.retentionPeriodSeconds)
                && (forall e :: e in events <==> e in old(events) && now <= e.timestamp + config.retentionPeriodSeconds)
                && removed.value == |old(events)| - |events|
    {
      hide EventText;
      if now < config.retentionPeriodSeconds {
        return None;
      }
      var cutoff := now - config.retentionPeriodSeconds;
      var initialCount := |events|;
      var kept := [];
      ghost var before := events;
      for i := 0 to |events|
        invariant events == before
        invariant kept == Retained(events[..i], cutoff)
        invariant |kept| <= i
      {
        RetainedStep(events[..i + 1], cutoff);
        assert events[..i + 1][..i] == events[..i];
        if events[i].timestamp >= cutoff {
          kept := kept + [events[i]];
        }
      }
      assert events[..|events|] == events;
      FilterMembers(events, Keeper(cutoff));
      assert forall i :: 0 <= i < |kept| ==> kept[i] in kept;
      events := kept;
      removed := Some(initialCount - |events|);
    }
  }
}
