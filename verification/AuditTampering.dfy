/** Which alterations of an audit trail go unnoticed: exactly those that keep every hashed text, or exhibit a collision. */
module AuditTampering {
  import opened Foundations
  import opened Digests
  import opened AuditEvents
  import opened AuditChain

  // ---------------------------------------------------------------- alterations that leave the hash fields alone

  /** `b` differs from `a` in contents only: every entry still carries the hashes it had. */
  ghost predicate SameHashFields(a: seq<AuditEvent>, b: seq<AuditEvent>) {
    && |a| == |b|
    && forall i :: 0 <= i < |a| ==> a[i].entryHash == b[i].entryHash && a[i].previousEntryHash == b[i].previousEntryHash
  }

  /** The two entries have one hashed body, or two texts with one digest. */
  ghost predicate Unnoticed(sha: HashFunction, x: AuditEvent, y: AuditEvent) {
    Body(x) == Body(y) || Collide(sha, x, y)
  }

  lemma SameLinks(a: seq<AuditEvent>, b: seq<AuditEvent>, i: nat)
    requires SameHashFields(a, b) && i < |a|
    ensures LinkMatches(a, i) <==> LinkMatches(b, i)
  {
    if i > 0 {
      assert a[..i][i - 1] == a[i - 1] && b[..i][i - 1] == b[i - 1];
    }
  }

  lemma HashStillRecomputesIff(sha: HashFunction, x: AuditEvent, y: AuditEvent)
    requires HashRecomputes(sha, x)
    requires x.entryHash == y.entryHash && x.previousEntryHash == y.previousEntryHash
    ensures HashRecomputes(sha, y) <==> Unnoticed(sha, x, y)
  {
    hide Body;
    if HashInput(x) == HashInput(y) {
      EqualInputsSplit(x, y);
    }
  }

  /** An intact trail whose contents are altered, in any number of entries, stays intact exactly if each alteration is unnoticed. */
  lemma AlterationUnnoticedIff(sha: HashFunction, a: seq<AuditEvent>, b: seq<AuditEvent>)
    requires Intact(sha, a) && SameHashFields(a, b)
    ensures Intact(sha, b) <==> forall i :: 0 <= i < |a| ==> Unnoticed(sha, a[i], b[i])
  {
    hide HashRecomputes, LinkMatches, Unnoticed;
    forall i | 0 <= i < |a|
      ensures LinkMatches(b, i)
      ensures HashRecomputes(sha, b[i]) <==> Unnoticed(sha, a[i], b[i])
    {
      assert HashRecomputes(sha, a[i]) && LinkMatches(a, i);
      SameLinks(a, b, i);
      HashStillRecomputesIff(sha, a[i], b[i]);
    }
  }

  /** The same for one entry. */
  lemma OneAlterationUnnoticedIff(sha: HashFunction, entries: seq<AuditEvent>, i: nat, e: AuditEvent)
    requires Intact(sha, entries) && i < |entries|
    requires e.entryHash == entries[i].entryHash && e.previousEntryHash == entries[i].previousEntryHash
    ensures Intact(sha, entries[i := e]) <==> Unnoticed(sha, entries[i], e)
  {
    hide Intact, Body, Collide;
    AlterationUnnoticedIff(sha, entries, entries[i := e]);
  }

  // ---------------------------------------------------------------- rewritten histories

  /** From `k` on the bodies are the same. */
  ghost predicate SameBodiesFrom(a: seq<AuditEvent>, b: seq<AuditEvent>, k: nat) {
    |a| == |b| && forall j :: k <= j < |a| ==> Body(a[j]) == Body(b[j])
  }

  /** The texts at `k` are different and have one digest, and all later bodies are the same. */
  ghost predicate CollideLastAt(sha: HashFunction, a: seq<AuditEvent>, b: seq<AuditEvent>, k: nat) {
    k < |a| && k < |b| && Collide(sha, a[k], b[k]) && SameBodiesFrom(a, b, k + 1)
  }

  /** Equal hashes before and equal bodies give equal hashes. */
  lemma EqualHashesStep(sha: HashFunction, a: seq<AuditEvent>, b: seq<AuditEvent>)
    requires Intact(sha, a) && Intact(sha, b) && |a| == |b| > 0
    requires var n := |a| - 1; LastHash(a[..n]) == LastHash(b[..n]) && Body(a[n]) == Body(b[n])
    ensures LastHash(a) == LastHash(b)
  {
    hide Body;
    var n := |a| - 1;
    assert LinkMatches(a, n) && LinkMatches(b, n);
    assert HashRecomputes(sha, a[n]) && HashRecomputes(sha, b[n]);
  }

  lemma CollisionGivesEqualHash(sha: HashFunction, a: seq<AuditEvent>, b: seq<AuditEvent>)
    requires Intact(sha, a) && Intact(sha, b) && |a| == |b| > 0 && Collide(sha, a[|a| - 1], b[|b| - 1])
    ensures LastHash(a) == LastHash(b)
  {
    hide Body;
    assert HashRecomputes(sha, a[|a| - 1]) && HashRecomputes(sha, b[|b| - 1]);
  }

  /** Two intact trails that agree from some point on, from the start or after a collision, end in one hash. */
  lemma {:induction false} AgreementGivesLastHash(sha: HashFunction, a: seq<AuditEvent>, b: seq<AuditEvent>, k: nat)
    requires Intact(sha, a) && Intact(sha, b)
    requires |a| == |b| && k <= |a| && SameBodiesFrom(a, b, k)
    requires k == 0 || Collide(sha, a[k - 1], b[k - 1])
    ensures LastHash(a) == LastHash(b)
  {
    hide Body, Collide, Intact;
    if a != [] {
      var n := |a| - 1;
      if k == |a| {
        CollisionGivesEqualHash(sha, a, b);
      } else {
        PrefixIntact(sha, a, n);
        PrefixIntact(sha, b, n);
        assert k > 0 ==> a[..n][k - 1] == a[k - 1] && b[..n][k - 1] == b[k - 1];
        assert SameBodiesFrom(a[..n], b[..n], k) by {
          assert forall j :: k <= j < n ==> a[..n][j] == a[j] && b[..n][j] == b[j];
        }
        AgreementGivesLastHash(sha, a[..n], b[..n], k);
        EqualHashesStep(sha, a, b);
      }
    }
  }

  lemma AgreementExtends(sha: HashFunction, a: seq<AuditEvent>, b: seq<AuditEvent>)
    requires |a| == |b| > 0 && Body(a[|a| - 1]) == Body(b[|b| - 1])
    requires var n := |a| - 1;
             SameBodiesFrom(a[..n], b[..n], 0) || exists k: nat :: CollideLastAt(sha, a[..n], b[..n], k)
    ensures SameBodiesFrom(a, b, 0) || exists k: nat :: CollideLastAt(sha, a, b, k)
  {
    hide Body, Collide;
    var n := |a| - 1;
    assert forall j :: 0 <= j < n ==> a[..n][j] == a[j] && b[..n][j] == b[j];
    if k: nat :| CollideLastAt(sha, a[..n], b[..n], k) {
      assert CollideLastAt(sha, a, b, k);
    }
  }

  /**
   * Exactly when two intact trails of one length end in one hash: all their bodies are the same, or they are the same
   * after an index at which two different texts have one digest.
   */
  lemma {:induction false} LastHashAgreesIff(sha: HashFunction, a: seq<AuditEvent>, b: seq<AuditEvent>)
    requires Intact(sha, a) && Intact(sha, b) && |a| == |b|
    ensures LastHash(a) == LastHash(b) <==> SameBodiesFrom(a, b, 0) || exists k: nat :: CollideLastAt(sha, a, b, k)
  {
    hide Body, Collide, Intact;
    if SameBodiesFrom(a, b, 0) {
      AgreementGivesLastHash(sha, a, b, 0);
    }
    if k: nat :| CollideLastAt(sha, a, b, k) {
      AgreementGivesLastHash(sha, a, b, k + 1);
    }
    if LastHash(a) == LastHash(b) && a != [] {
      var n := |a| - 1;
      LastEntriesAgree(sha, a, b);
      if Collide(sha, a[n], b[n]) {
        assert CollideLastAt(sha, a, b, n);
      } else {
        PrefixIntact(sha, a, n);
        PrefixIntact(sha, b, n);
        LastHashAgreesIff(sha, a[..n], b[..n]);
        AgreementExtends(sha, a, b);
      }
    }
  }

  // ---------------------------------------------------------------- different events, one body

  /** A piece of text may move from the end of the description to the front of the user id: the body stays the same. */
  lemma TextMovesBetweenFields(e: AuditEvent, s: string, t: string, u: string)
    ensures Body(e.(description := s + t, userId := u)) == Body(e.(description := s, userId := t + u))
  {
    var x, y := e.(description := s + t, userId := u), e.(description := s, userId := t + u);
    assert forall j: nat :: j != 6 && j != 7 ==> HashedField(x, j) == HashedField(y, j);
    hide HashedField, Body;
    TextMoved(x, y, s, t, u);
  }

  lemma TextMoved(x: AuditEvent, y: AuditEvent, s: string, t: string, u: string)
    requires x.description == s + t && x.userId == u && y.description == s && y.userId == t + u
    requires forall j: nat :: j != 6 && j != 7 ==> HashedField(x, j) == HashedField(y, j)
    ensures Body(x) == Body(y)
  {
    hide HashedField, Body, FieldsFrom;
    LaterFieldsAgree(x, y, 8);
    TwoFields(x, s + t, u);
    TwoFields(y, s, t + u);
    Regrouped(s, t, u, FieldsFrom(x, 8));
    EarlierFieldsAgree(x, y, 6);
  }

  lemma TwoFields(e: AuditEvent, description: string, userId: string)
    requires e.description == description && e.userId == userId
    ensures FieldsFrom(e, 6) == description + (userId + FieldsFrom(e, 8))
  {
    assert FieldsFrom(e, 7) == userId + FieldsFrom(e, 8);
  }

  lemma {:induction false} LaterFieldsAgree(x: AuditEvent, y: AuditEvent, k: nat)
    requires forall j: nat :: k <= j < HASHED_FIELDS ==> HashedField(x, j) == HashedField(y, j)
    ensures FieldsFrom(x, k) == FieldsFrom(y, k)
    decreases HASHED_FIELDS - k
  {
    if k < HASHED_FIELDS {
      LaterFieldsAgree(x, y, k + 1);
    }
  }

  lemma {:induction false} EarlierFieldsAgree(x: AuditEvent, y: AuditEvent, k: nat)
    requires k <= HASHED_FIELDS && FieldsFrom(x, k) == FieldsFrom(y, k)
    requires forall j: nat :: j < k ==> HashedField(x, j) == HashedField(y, j)
    ensures Body(x) == Body(y)
  {
    if k > 0 {
      assert FieldsFrom(x, k - 1) == HashedField(x, k - 1) + FieldsFrom(x, k);
      assert FieldsFrom(y, k - 1) == HashedField(y, k - 1) + FieldsFrom(y, k);
      EarlierFieldsAgree(x, y, k - 1);
    }
  }

  /** An entry by user "c" described as "ab" can be made one by "bc" described as "a": every intact trail stays intact. */
  lemma UserChangesUnnoticed(sha: HashFunction, entries: seq<AuditEvent>, i: nat)
    requires Intact(sha, entries) && i < |entries|
    requires entries[i].description == "ab" && entries[i].userId == "c"
    ensures var e := entries[i].(description := "a", userId := "bc");
            e.userId != entries[i].userId && Intact(sha, entries[i := e])
  {
    hide Body, Intact;
    assert "a" + "b" == "ab" && "b" + "c" == "bc";
    TextMovesBetweenFields(entries[i], "a", "b", "c");
    assert entries[i] == entries[i].(description := "ab", userId := "c");
    OneAlterationUnnoticedIff(sha, entries, i, entries[i].(description := "a", userId := "bc"));
  }
}
