/** The SHA-256 chain over audit events: linking, intactness, rebuilding, and what the last hash commits to. */
module AuditChain {
  import opened Foundations
  import opened Digests
  import opened AuditEvents

  /** The very text that is hashed for an entry. */
  function HashInput(e: AuditEvent): string {
    Body(e) + e.previousEntryHash
  }

  function EntryHash(sha: HashFunction, e: AuditEvent): string {
    sha(HashInput(e))
  }

  function LastHash(entries: seq<AuditEvent>): string {
    if entries == [] then "" else entries[|entries| - 1].entryHash
  }

  /** `e` as the successor of an entry whose hash is `previousHash`. */
  function Linked(sha: HashFunction, e: AuditEvent, previousHash: string): AuditEvent {
    var e' := e.(previousEntryHash := previousHash);
    e'.(entryHash := EntryHash(sha, e'))
  }

  /** An event without its two hash fields. */
  function Unhashed(e: AuditEvent): AuditEvent {
    e.(entryHash := "", previousEntryHash := "")
  }

  ghost predicate SameContents(a: seq<AuditEvent>, b: seq<AuditEvent>) {
    |a| == |b| && forall i :: 0 <= i < |a| ==> Unhashed(a[i]) == Unhashed(b[i])
  }

  predicate HashRecomputes(sha: HashFunction, e: AuditEvent) {
    e.entryHash == EntryHash(sha, e)
  }

  predicate LinkMatches(entries: seq<AuditEvent>, i: nat)
    requires i < |entries|
  {
    entries[i].previousEntryHash == LastHash(entries[..i])
  }

  /** Every hash recomputes and every link matches. */
  ghost predicate Intact(sha: HashFunction, entries: seq<AuditEvent>) {
    forall i :: 0 <= i < |entries| ==> HashRecomputes(sha, entries[i]) && LinkMatches(entries, i)
  }

  /** The chain rebuilt from its first entry on. */
  function Rechained(sha: HashFunction, entries: seq<AuditEvent>): (r: seq<AuditEvent>)
    ensures |r| == |entries|
  {
    if entries == [] then []
    else
      var n := |entries| - 1;
      var front := Rechained(sha, entries[..n]);
      front + [Linked(sha, entries[n], LastHash(front))]
  }

  lemma {:induction false} RechainedKeepsContents(sha: HashFunction, entries: seq<AuditEvent>)
    ensures SameContents(Rechained(sha, entries), entries)
  {
    if entries != [] {
      RechainedKeepsContents(sha, entries[..|entries| - 1]);
    }
  }

  lemma BodyIgnoresHashes(e: AuditEvent, entryHash: string, previousEntryHash: string)
    ensures Body(e.(entryHash := entryHash, previousEntryHash := previousEntryHash)) == Body(e)
  {
    FieldsIgnoreHashes(e, e.recordedAt, entryHash, previousEntryHash, 0);
  }

  lemma LinkedIsSound(sha: HashFunction, e: AuditEvent, previousHash: string)
    ensures HashRecomputes(sha, Linked(sha, e, previousHash))
    ensures forall x :: Unhashed(x) == Unhashed(e) && HashRecomputes(sha, x) && x.previousEntryHash == previousHash ==>
              x == Linked(sha, e, previousHash)
  {
    hide Body;
    var r := Linked(sha, e, previousHash);
    BodyIgnoresHashes(e, r.entryHash, previousHash);
    BodyIgnoresHashes(e, e.entryHash, previousHash);
    forall x | Unhashed(x) == Unhashed(e) && HashRecomputes(sha, x) && x.previousEntryHash == previousHash
      ensures x == r
    {
      BodyIgnoresHashes(e, x.entryHash, x.previousEntryHash);
      assert x == e.(entryHash := x.entryHash, previousEntryHash := x.previousEntryHash);
    }
  }

  lemma AppendKeepsIntact(sha: HashFunction, entries: seq<AuditEvent>, e: AuditEvent)
    requires Intact(sha, entries)
    ensures Intact(sha, entries + [Linked(sha, e, LastHash(entries))])
  {
    hide Body;
    var longer := entries + [Linked(sha, e, LastHash(entries))];
    forall i | 0 <= i < |longer|
      ensures HashRecomputes(sha, longer[i]) && LinkMatches(longer, i)
    {
      if i < |entries| {
        assert longer[..i] == entries[..i];
        assert HashRecomputes(sha, entries[i]) && LinkMatches(entries, i);
      } else {
        assert longer[..i] == entries;
        LinkedIsSound(sha, e, LastHash(entries));
      }
    }
  }

  lemma PrefixIntact(sha: HashFunction, entries: seq<AuditEvent>, n: nat)
    requires Intact(sha, entries) && n <= |entries|
    ensures Intact(sha, entries[..n])
  {
    forall i | 0 <= i < n
      ensures HashRecomputes(sha, entries[..n][i]) && LinkMatches(entries[..n], i)
    {
      assert entries[..n][..i] == entries[..i];
      assert HashRecomputes(sha, entries[i]) && LinkMatches(entries, i);
    }
  }

  lemma {:induction false} RechainedIsIntact(sha: HashFunction, entries: seq<AuditEvent>)
    ensures Intact(sha, Rechained(sha, entries))
  {
    hide Body;
    if entries != [] {
      var n := |entries| - 1;
      RechainedIsIntact(sha, entries[..n]);
      AppendKeepsIntact(sha, Rechained(sha, entries[..n]), entries[n]);
    }
  }

  /** An intact chain is determined by its contents: it is the one a rebuild gives. */
  lemma {:induction false} IntactIsRechained(sha: HashFunction, chain: seq<AuditEvent>, entries: seq<AuditEvent>)
    requires SameContents(chain, entries)
    ensures Intact(sha, chain) <==> chain == Rechained(sha, entries)
  {
    hide Body;
    RechainedIsIntact(sha, entries);
    if Intact(sha, chain) && chain != [] {
      var n := |chain| - 1;
      PrefixIntact(sha, chain, n);
      IntactIsRechained(sha, chain[..n], entries[..n]);
      assert HashRecomputes(sha, chain[n]) && LinkMatches(chain, n);
      assert Unhashed(chain[n]) == Unhashed(entries[n]);
      LinkedIsSound(sha, entries[n], LastHash(chain[..n]));
      assert chain[n] == Linked(sha, entries[n], LastHash(chain[..n]));
      assert chain == chain[..n] + [chain[n]];
    }
  }

  // ---------------------------------------------------------------- what the last hash commits to

  /** Two different hashed texts, one digest. */
  ghost predicate Collide(sha: HashFunction, x: AuditEvent, y: AuditEvent) {
    HashInput(x) != HashInput(y) && sha(HashInput(x)) == sha(HashInput(y))
  }

  ghost predicate CollisionWithin(sha: HashFunction, a: seq<AuditEvent>, b: seq<AuditEvent>) {
    exists i :: 0 <= i < |a| && i < |b| && Collide(sha, a[i], b[i])
  }

  ghost predicate SameBodies(a: seq<AuditEvent>, b: seq<AuditEvent>) {
    |a| == |b| && forall i :: 0 <= i < |a| ==> Body(a[i]) == Body(b[i]) && a[i].entryHash == b[i].entryHash
  }

  /** Equal hashed texts split alike: the previous hash at the end has a known length. */
  lemma EqualInputsSplit(x: AuditEvent, y: AuditEvent)
    requires |x.previousEntryHash| == |y.previousEntryHash|
    requires HashInput(x) == HashInput(y)
    ensures Body(x) == Body(y) && x.previousEntryHash == y.previousEntryHash
  {
    var n := |HashInput(x)| - |x.previousEntryHash|;
    assert HashInput(x)[..n] == Body(x) && HashInput(y)[..n] == Body(y);
    assert HashInput(x)[n..] == x.previousEntryHash && HashInput(y)[n..] == y.previousEntryHash;
  }

  lemma IntactLinkLength(sha: HashFunction, entries: seq<AuditEvent>, i: nat)
    requires Intact(sha, entries) && i < |entries|
    ensures |entries[i].previousEntryHash| == if i == 0 then 0 else DIGEST_LENGTH
  {
    assert LinkMatches(entries, i);
    if i > 0 {
      assert entries[..i][i - 1] == entries[i - 1];
      assert HashRecomputes(sha, entries[i - 1]);
    }
  }

  lemma PrefixVerdictExtends(sha: HashFunction, a: seq<AuditEvent>, b: seq<AuditEvent>)
    requires |a| == |b| > 0
    requires var n := |a| - 1; SameBodies(a[..n], b[..n]) || CollisionWithin(sha, a[..n], b[..n])
    requires var n := |a| - 1; Body(a[n]) == Body(b[n]) && a[n].entryHash == b[n].entryHash
    ensures SameBodies(a, b) || CollisionWithin(sha, a, b)
  {
    hide Body;
    var n := |a| - 1;
    if CollisionWithin(sha, a[..n], b[..n]) {
      var i :| 0 <= i < n && Collide(sha, a[..n][i], b[..n][i]);
      assert Collide(sha, a[i], b[i]);
    } else {
      forall i | 0 <= i < n
        ensures Body(a[i]) == Body(b[i]) && a[i].entryHash == b[i].entryHash
      {
        assert a[..n][i] == a[i] && b[..n][i] == b[i];
      }
    }
  }

  /** The newest entries of two intact trails that end in one hash: equal bodies and equal predecessors, or a collision. */
  lemma LastEntriesAgree(sha: HashFunction, a: seq<AuditEvent>, b: seq<AuditEvent>)
    requires Intact(sha, a) && Intact(sha, b)
    requires |a| == |b| > 0 && LastHash(a) == LastHash(b)
    ensures var n := |a| - 1;
            || Collide(sha, a[n], b[n])
            || (Body(a[n]) == Body(b[n]) && LastHash(a[..n]) == LastHash(b[..n]))
  {
    hide Body;
    var n := |a| - 1;
    assert HashRecomputes(sha, a[n]) && HashRecomputes(sha, b[n]);
    if HashInput(a[n]) == HashInput(b[n]) {
      IntactLinkLength(sha, a, n);
      IntactLinkLength(sha, b, n);
      EqualInputsSplit(a[n], b[n]);
      assert LinkMatches(a, n) && LinkMatches(b, n);
    }
  }

  /**
   * Two intact trails of one length with the same last hash have the same hashed body at every index, or the
   * trails themselves exhibit two texts with one digest.
   */
  lemma {:induction false} LastHashCommitsToHistory(sha: HashFunction, a: seq<AuditEvent>, b: seq<AuditEvent>)
    requires Intact(sha, a) && Intact(sha, b)
    requires |a| == |b| && LastHash(a) == LastHash(b)
    ensures SameBodies(a, b) || CollisionWithin(sha, a, b)
  {
    hide Body;
    if a != [] {
      var n := |a| - 1;
      LastEntriesAgree(sha, a, b);
      if !Collide(sha, a[n], b[n]) {
        PrefixIntact(sha, a, n);
        PrefixIntact(sha, b, n);
        LastHashCommitsToHistory(sha, a[..n], b[..n]);
        PrefixVerdictExtends(sha, a, b);
      }
    }
  }

  lemma SameContentsSameBody(a: AuditEvent, b: AuditEvent)
    requires Unhashed(a) == Unhashed(b)
    ensures Body(a) == Body(b)
  {
    hide Body;
    BodyIgnoresHashes(a, "", "");
    BodyIgnoresHashes(b, "", "");
  }

  /** The newest entries of two intact trails, one shorter at the front: one hash only if a text before collides. */
  lemma ShorterTrailStep(sha: HashFunction, a: seq<AuditEvent>, b: seq<AuditEvent>)
    requires Intact(sha, a) && Intact(sha, b) && |a| == |b| + 1 > 1 && SameContents(a[1..], b)
    requires LastHash(a) == LastHash(b)
    ensures var n := |b| - 1;
            || Collide(sha, a[n + 1], b[n])
            || (n > 0 && LastHash(a[..n + 1]) == LastHash(b[..n]))
  {
    hide Body;
    var n := |b| - 1;
    assert Unhashed(a[1..][n]) == Unhashed(b[n]) && a[1..][n] == a[n + 1];
    SameContentsSameBody(a[n + 1], b[n]);
    assert HashRecomputes(sha, a[n + 1]) && HashRecomputes(sha, b[n]);
    assert LinkMatches(a, n + 1) && LinkMatches(b, n);
    if HashInput(a[n + 1]) == HashInput(b[n]) {
      assert |HashInput(a[n + 1])| == |Body(b[n])| + |a[n + 1].previousEntryHash|;
      IntactLinkLength(sha, a, n + 1);
      IntactLinkLength(sha, b, n);
      EqualInputsSplit(a[n + 1], b[n]);
    }
  }

  lemma LastHashLength(sha: HashFunction, entries: seq<AuditEvent>)
    requires Intact(sha, entries) && entries != []
    ensures |LastHash(entries)| == DIGEST_LENGTH
  {
    hide Body;
    assert HashRecomputes(sha, entries[|entries| - 1]);
  }

  lemma ShorterTrailPrefix(a: seq<AuditEvent>, b: seq<AuditEvent>, n: nat)
    requires |a| == |b| + 1 && n <= |b| && SameContents(a[1..], b)
    ensures a[..n + 1][1..] == a[1..][..n] && SameContents(a[1..][..n], b[..n])
  {
  }

  lemma CollisionAt(sha: HashFunction, a: seq<AuditEvent>, b: seq<AuditEvent>, i: nat)
    requires i < |a| && i < |b| && Collide(sha, a[i], b[i])
    ensures CollisionWithin(sha, a, b)
  {
  }

  lemma CollisionExtends(sha: HashFunction, a: seq<AuditEvent>, b: seq<AuditEvent>, n: nat)
    requires n <= |a| && n <= |b| && CollisionWithin(sha, a[..n], b[..n])
    ensures CollisionWithin(sha, a, b)
  {
    hide Collide;
    var i :| 0 <= i < n && Collide(sha, a[..n][i], b[..n][i]);
    assert Collide(sha, a[i], b[i]);
  }

  /**
   * Dropping the oldest entry and rehashing changes the last hash, unless one of the rehashed texts collides with its
   * former one.
   */
  lemma {:induction false} EvictionChangesLastHash(sha: HashFunction, a: seq<AuditEvent>, b: seq<AuditEvent>)
    requires Intact(sha, a) && Intact(sha, b) && |a| == |b| + 1 && SameContents(a[1..], b)
    requires LastHash(a) == LastHash(b)
    ensures CollisionWithin(sha, a[1..], b)
  {
    LastHashLength(sha, a);
    assert b != [];
    var n := |b| - 1;
    hide Body, Intact, SameContents, LastHash, CollisionWithin, Collide;
    ShorterTrailStep(sha, a, b);
    assert a[1..][n] == a[n + 1];
    if Collide(sha, a[n + 1], b[n]) {
      CollisionAt(sha, a[1..], b, n);
    } else {
      PrefixIntact(sha, a, n + 1);
      PrefixIntact(sha, b, n);
      ShorterTrailPrefix(a, b, n);
      EvictionChangesLastHash(sha, a[..n + 1], b[..n]);
      CollisionExtends(sha, a[1..], b, n);
    }
  }

  /** The time of recording may be altered unnoticed. */
  lemma RecordingTimeIsNotCovered(sha: HashFunction, entries: seq<AuditEvent>, i: nat, recordedAt: nat)
    requires i < |entries|
    ensures Intact(sha, entries[i := entries[i].(recordedAt := recordedAt)]) <==> Intact(sha, entries)
  {
    hide Body;
    var altered := entries[i := entries[i].(recordedAt := recordedAt)];
    forall k | 0 <= k < |entries|
      ensures HashRecomputes(sha, altered[k]) <==> HashRecomputes(sha, entries[k])
      ensures LinkMatches(altered, k) <==> LinkMatches(entries, k)
    {
      SameChecks(sha, entries, i, recordedAt, k);
    }
  }

  lemma SameChecks(sha: HashFunction, entries: seq<AuditEvent>, i: nat, recordedAt: nat, k: nat)
    requires i < |entries| && k < |entries|
    ensures var altered := entries[i := entries[i].(recordedAt := recordedAt)];
            && (HashRecomputes(sha, altered[k]) <==> HashRecomputes(sha, entries[k]))
            && (LinkMatches(altered, k) <==> LinkMatches(entries, k))
  {
    hide FieldsFrom;
    FieldsIgnoreHashes(entries[i], recordedAt, entries[i].entryHash, entries[i].previousEntryHash, 0);
  }

  // ---------------------------------------------------------------- verification reports

  datatype MismatchKind = ContentHash | PreviousHash

  datatype ChainMismatch = ChainMismatch(index: nat, auditId: string, kind: MismatchKind)

  datatype ChainVerification = ChainVerification(intact: bool, verifiedCount: nat, mismatches: seq<ChainMismatch>)

  /** The mismatches among the first `n` entries, in the order they are reported. */
  ghost function Mismatches(sha: HashFunction, entries: seq<AuditEvent>, n: nat): seq<ChainMismatch>
    requires n <= |entries|
  {
    if n == 0 then []
    else
      Mismatches(sha, entries, n - 1)
      + (if HashRecomputes(sha, entries[n - 1]) then [] else [ChainMismatch(n - 1, entries[n - 1].auditId, ContentHash)])
      + (if LinkMatches(entries, n - 1) then [] else [ChainMismatch(n - 1, entries[n - 1].auditId, PreviousHash)])
  }

  ghost predicate IsMismatch(sha: HashFunction, entries: seq<AuditEvent>, m: ChainMismatch) {
    && m.index < |entries|
    && m.auditId == entries[m.index].auditId
    && match m.kind
       case ContentHash => !HashRecomputes(sha, entries[m.index])
       case PreviousHash => !LinkMatches(entries, m.index)
  }

  /** Exactly the failing checks are reported. */
  lemma {:induction false} MismatchesAreExact(sha: HashFunction, entries: seq<AuditEvent>, n: nat, m: ChainMismatch)
    requires n <= |entries|
    ensures m in Mismatches(sha, entries, n) <==> IsMismatch(sha, entries, m) && m.index < n
  {
    hide Body, HashRecomputes, LinkMatches;
    if n > 0 {
      MismatchesAreExact(sha, entries, n - 1, m);
    }
  }

  lemma ChecksAtIndex(sha: HashFunction, entries: seq<AuditEvent>, i: nat)
    requires i < |entries|
    ensures IsMismatch(sha, entries, ChainMismatch(i, entries[i].auditId, ContentHash)) <==> !HashRecomputes(sha, entries[i])
    ensures IsMismatch(sha, entries, ChainMismatch(i, entries[i].auditId, PreviousHash)) <==> !LinkMatches(entries, i)
  {
    hide HashRecomputes, LinkMatches;
  }

  lemma MismatchMeansBroken(sha: HashFunction, entries: seq<AuditEvent>, m: ChainMismatch)
    requires IsMismatch(sha, entries, m)
    ensures !Intact(sha, entries)
  {
    hide HashRecomputes, LinkMatches;
  }

  lemma NoMismatchIffIntact(sha: HashFunction, entries: seq<AuditEvent>)
    ensures Mismatches(sha, entries, |entries|) == [] <==> Intact(sha, entries)
  {
    hide Mismatches, HashRecomputes, LinkMatches, IsMismatch;
    var n := |entries|;
    if Mismatches(sha, entries, n) != [] {
      var m := Mismatches(sha, entries, n)[0];
      MismatchesAreExact(sha, entries, n, m);
      MismatchMeansBroken(sha, entries, m);
    } else {
      forall i | 0 <= i < n
        ensures HashRecomputes(sha, entries[i]) && LinkMatches(entries, i)
      {
        ChecksAtIndex(sha, entries, i);
        MismatchesAreExact(sha, entries, n, ChainMismatch(i, entries[i].auditId, ContentHash));
        MismatchesAreExact(sha, entries, n, ChainMismatch(i, entries[i].auditId, PreviousHash));
      }
    }
  }
}
