/** Which alterations of the critical-event log go unnoticed. Its hash covers twelve fields, not all of an event. */
module EventTampering {
  import opened Foundations
  import opened Digests
  import opened EventLogging

  /** `b` differs from `a` in contents only: every event still carries the hashes it had. */
  ghost predicate SameHashFields(a: seq<CriticalEvent>, b: seq<CriticalEvent>) {
    && |a| == |b|
    && forall i :: 0 <= i < |a| ==> a[i].eventHash == b[i].eventHash && a[i].previousEventHash == b[i].previousEventHash
  }

  /** The two events have one hashed text, or two texts with one digest. */
  ghost predicate Unnoticed(sha: HashFunction, x: CriticalEvent, y: CriticalEvent) {
    EventText(x) == EventText(y) || TextsCollide(sha, x, y)
  }

  lemma HashStillHoldsIff(sha: HashFunction, x: CriticalEvent, y: CriticalEvent)
    requires HashHolds(sha, x) && x.eventHash == y.eventHash
    ensures HashHolds(sha, y) <==> Unnoticed(sha, x, y)
  {
    hide EventText;
  }

  lemma IntactMeans(sha: HashFunction, events: seq<CriticalEvent>)
    ensures StoreIntact(sha, events) <==>
            && (forall i :: 0 <= i < |events| ==> HashHolds(sha, events[i]))
            && (forall i :: 0 < i < |events| ==> LinkHolds(events, i))
  {
    hide HashHolds, LinkHolds;
    if events != [] {
      assert RangeIntact(sha, events, 0, |events| - 1) <==> StoreIntact(sha, events);
      if forall i :: 0 < i < |events| ==> LinkHolds(events, i) {
        forall i | 0 <= i < |events|
          ensures i > 0 ==> LinkHolds(events, i)
        {
        }
      }
      if StoreIntact(sha, events) {
        forall i | 0 < i < |events|
          ensures LinkHolds(events, i)
        {
          assert HashHolds(sha, events[i]) && (i > 0 ==> LinkHolds(events, i));
        }
      }
    }
  }

  /** A verifying store whose contents are altered, in any number of events, verifies exactly if each alteration is unnoticed. */
  lemma AlterationUnnoticedIff(sha: HashFunction, a: seq<CriticalEvent>, b: seq<CriticalEvent>)
    requires StoreIntact(sha, a) && SameHashFields(a, b)
    ensures StoreIntact(sha, b) <==> forall i :: 0 <= i < |a| ==> Unnoticed(sha, a[i], b[i])
  {
    hide HashHolds, Unnoticed, StoreIntact;
    IntactMeans(sha, a);
    IntactMeans(sha, b);
    forall i | 0 <= i < |a|
      ensures i > 0 ==> LinkHolds(b, i)
      ensures HashHolds(sha, b[i]) <==> Unnoticed(sha, a[i], b[i])
    {
      assert HashHolds(sha, a[i]) && (i > 0 ==> LinkHolds(a, i));
      HashStillHoldsIff(sha, a[i], b[i]);
    }
  }

  /** The same for one event. */
  lemma OneAlterationUnnoticedIff(sha: HashFunction, events: seq<CriticalEvent>, i: nat, e: CriticalEvent)
    requires StoreIntact(sha, events) && i < |events|
    requires e.eventHash == events[i].eventHash && e.previousEventHash == events[i].previousEventHash
    ensures StoreIntact(sha, events[i := e]) <==> Unnoticed(sha, events[i], e)
  {
    hide StoreIntact, EventText, TextsCollide;
    AlterationUnnoticedIff(sha, events, events[i := e]);
  }

  // ---------------------------------------------------------------- what the hash does not see

  lemma {:induction false} FieldsAgree(x: CriticalEvent, y: CriticalEvent, k: nat)
    requires forall j: nat :: k <= j < HASHED_FIELDS ==> HashedField(x, j) == HashedField(y, j)
    ensures FieldsFrom(x, k) == FieldsFrom(y, k)
    decreases HASHED_FIELDS - k
  {
    if k < HASHED_FIELDS {
      FieldsAgree(x, y, k + 1);
    }
  }

  /** Metadata, duration, gas and ledger sequence are no part of the hashed text. */
  lemma TextIgnoresUncovered(e: CriticalEvent, metadata: map<string, string>, duration: Option<nat>, gas: Option<nat>,
                             ledgerSequence: Option<nat>)
    ensures EventText(e.(metadata := metadata, executionDurationMs := duration, gasConsumed := gas,
                         ledgerSequence := ledgerSequence)) == EventText(e)
  {
    var x := e.(metadata := metadata, executionDurationMs := duration, gasConsumed := gas, ledgerSequence := ledgerSequence);
    assert forall j: nat :: HashedField(x, j) == HashedField(e, j);
    hide HashedField;
    FieldsAgree(x, e, 0);
  }

  /** They may be altered unnoticed in every verifying store. */
  lemma UncoveredFieldsUnnoticed(sha: HashFunction, events: seq<CriticalEvent>, i: nat, metadata: map<string, string>,
                                 duration: Option<nat>, gas: Option<nat>, ledgerSequence: Option<nat>)
    requires StoreIntact(sha, events) && i < |events|
    ensures StoreIntact(sha, events[i := events[i].(metadata := metadata, executionDurationMs := duration, gasConsumed := gas,
                                                    ledgerSequence := ledgerSequence)])
  {
    hide StoreIntact, EventText;
    TextIgnoresUncovered(events[i], metadata, duration, gas, ledgerSequence);
    OneAlterationUnnoticedIff(sha, events, i, events[i].(metadata := metadata, executionDurationMs := duration,
                                                         gasConsumed := gas, ledgerSequence := ledgerSequence));
  }

  // ---------------------------------------------------------------- different events, one text

  lemma {:induction false} EarlierFieldsAgree(x: CriticalEvent, y: CriticalEvent, k: nat)
    requires k <= HASHED_FIELDS && FieldsFrom(x, k) == FieldsFrom(y, k)
    requires forall j: nat :: j < k ==> HashedField(x, j) == HashedField(y, j)
    ensures EventText(x) == EventText(y)
  {
    if k > 0 {
      assert FieldsFrom(x, k - 1) == HashedField(x, k - 1) + FieldsFrom(x, k);
      assert FieldsFrom(y, k - 1) == HashedField(y, k - 1) + FieldsFrom(y, k);
      EarlierFieldsAgree(x, y, k - 1);
    }
  }

  lemma TwoFields(e: CriticalEvent)
    ensures FieldsFrom(e, 5) == e.description + (e.actor + FieldsFrom(e, 7))
  {
    assert FieldsFrom(e, 6) == e.actor + FieldsFrom(e, 7);
  }

  lemma TextMoved(x: CriticalEvent, y: CriticalEvent, s: string, t: string, u: string)
    requires x.description == s + t && x.actor == u && y.description == s && y.actor == t + u
    requires forall j: nat :: j != 5 && j != 6 ==> HashedField(x, j) == HashedField(y, j)
    ensures EventText(x) == EventText(y)
  {
    hide HashedField, EventText, FieldsFrom;
    FieldsAgree(x, y, 7);
    TwoFields(x);
    TwoFields(y);
    Regrouped(s, t, u, FieldsFrom(x, 7));
    EarlierFieldsAgree(x, y, 5);
  }

  /** A piece of text may move from the end of the description to the front of the actor: the hashed text stays the same. */
  lemma TextMovesBetweenFields(e: CriticalEvent, s: string, t: string, u: string)
    ensures EventText(e.(description := s + t, actor := u)) == EventText(e.(description := s, actor := t + u))
  {
    var x, y := e.(description := s + t, actor := u), e.(description := s, actor := t + u);
    assert forall j: nat :: j != 5 && j != 6 ==> HashedField(x, j) == HashedField(y, j);
    hide HashedField, EventText;
    TextMoved(x, y, s, t, u);
  }

  /** An event of actor "c" described as "ab" can be made one of actor "bc" described as "a". */
  lemma ActorChangesUnnoticed(sha: HashFunction, events: seq<CriticalEvent>, i: nat)
    requires StoreIntact(sha, events) && i < |events|
    requires events[i].description == "ab" && events[i].actor == "c"
    ensures var e := events[i].(description := "a", actor := "bc");
            e.actor != events[i].actor && StoreIntact(sha, events[i := e])
  {
    hide EventText, StoreIntact;
    assert "a" + "b" == "ab" && "b" + "c" == "bc";
    TextMovesBetweenFields(events[i], "a", "b", "c");
    assert events[i] == events[i].(description := "ab", actor := "c");
    OneAlterationUnnoticedIff(sha, events, i, events[i].(description := "a", actor := "bc"));
  }
}
