/** The proof-of-scan contract: its storage, and the loops of its cleanup. */
module ProofOfScan {
  import opened Foundations
  import opened StableSort
  import opened ScanRegistry

  /** The issue time of a stored certificate, as a sort key. */
  function IssueTime(certificates: map<nat, Certificate>): nat -> int {
    id => if id in certificates then certificates[id].issuedAt else 0
  }

  /** Sorting a contract's ids by issue time leaves them in ascending order. */
  lemma IssueOrderIsIdOrder(certificates: map<nat, Certificate>, all: map<nat, Certificate>, ids: set<nat>)
    requires ids <= all.Keys
    requires forall i :: i in ids ==> i in certificates && certificates[i] == all[i]
    requires forall i, j :: i in all && j in all && i < j ==> all[i].issuedAt <= all[j].issuedAt
    ensures SortBy(Ascending(ids), IssueTime(certificates)) == Ascending(ids)
  {
    hide Ascending;
    var xs := Ascending(ids);
    assert forall k :: 0 <= k < |xs| ==> xs[k] in xs;
    SortBySorted(xs, IssueTime(certificates));
  }

  /** `current` is `all` with the excess removed for the contracts no longer in `todo`. */
  ghost predicate TrimmedExcept(current: map<nat, Certificate>, all: map<nat, Certificate>, todo: set<Address>) {
    && (forall id :: id in current ==> id in all && current[id] == all[id])
    && forall id :: id in all ==> (id in current <==> all[id].contractId in todo || AmongNewest(all, id))
  }

  lemma TrimmedIds(current: map<nat, Certificate>, all: map<nat, Certificate>, todo: set<Address>, c: Address)
    requires TrimmedExcept(current, all, todo) && c in todo
    ensures IdsOf(current, c) == IdsOf(all, c)
  {
  }

  lemma TrimStarts(all: map<nat, Certificate>, todo: set<Address>)
    requires forall c :: c in todo <==> IdsOf(all, c) != {}
    ensures TrimmedExcept(all, all, todo)
  {
    forall id | id in all
      ensures all[id].contractId in todo
    {
      assert id in IdsOf(all, all[id].contractId);
    }
  }

  lemma TrimEnds(current: map<nat, Certificate>, all: map<nat, Certificate>)
    requires TrimmedExcept(current, all, {})
    ensures current == NewestPerContract(all)
  {
  }

  /** What is known of one contract's certificates while it waits to be trimmed. */
  lemma TrimContext(current: map<nat, Certificate>, all: map<nat, Certificate>, todo: set<Address>, c: Address)
    requires TrimmedExcept(current, all, todo) && c in todo
    requires forall i, j :: i in all && j in all && i < j ==> all[i].issuedAt <= all[j].issuedAt
    ensures IdsOf(current, c) == IdsOf(all, c)
    ensures SortBy(Ascending(IdsOf(current, c)), IssueTime(current)) == Ascending(IdsOf(all, c))
    ensures forall id :: id in Ascending(IdsOf(all, c)) ==> id in current
  {
    hide Ascending, AmongNewest;
    TrimmedIds(current, all, todo, c);
    IssueOrderIsIdOrder(current, all, IdsOf(all, c));
  }

  lemma RemovingNone(certs: map<nat, Certificate>, ids: seq<nat>)
    ensures certs - Elements(ids[..0]) == certs
  {
  }

  lemma TrimOne(current: map<nat, Certificate>, all: map<nat, Certificate>, todo: set<Address>, c: Address, excess: nat)
    requires TrimmedExcept(current, all, todo) && c in todo
    requires excess == SaturatingSub(|IdsOf(all, c)|, MAX_CERTIFICATES_PER_CONTRACT)
    ensures TrimmedExcept(current - Elements(Ascending(IdsOf(all, c))[..excess]), all, todo - {c})
  {
    hide Ascending, AmongNewest;
    var ids := Ascending(IdsOf(all, c));
    forall id | id in all && all[id].contractId == c
      ensures id in ids[..excess] <==> !AmongNewest(all, id)
    {
      SplitAt(IdsOf(all, c), excess, id);
      LargestAreLast(IdsOf(all, c), MAX_CERTIFICATES_PER_CONTRACT, id);
      NewestMeansFewAbove(all, id);
    }
    forall id | id in ids[..excess]
      ensures id in all && all[id].contractId == c
    {
      assert id in ids;
    }
  }

  lemma NewestMeansFewAbove(all: map<nat, Certificate>, id: nat)
    requires id in all
    ensures AmongNewest(all, id) <==> |Above(IdsOf(all, all[id].contractId), id)| < MAX_CERTIFICATES_PER_CONTRACT
  {
    assert NewerIds(all, id) == Above(IdsOf(all, all[id].contractId), id);
  }

  lemma SplitAt(s: set<nat>, n: nat, j: nat)
    requires j in s && n <= |s|
    ensures j in Ascending(s)[..n] <==> j !in Ascending(s)[n..]
  {
    hide Ascending;
    var xs := Ascending(s);
    assert j in xs;
    var k :| 0 <= k < |xs| && xs[k] == j;
    if k < n {
      assert xs[..n][k] == j;
    } else {
      assert xs[n..][k - n] == j;
    }
  }

  /** The mapping without the contracts whose current certificate is gone. */
  ghost function MappingWithout(mapping: map<Address, nat>, gone: set<nat>): map<Address, nat> {
    map c | c in mapping && mapping[c] !in gone :: mapping[c]
  }

  function StaleIds(certificates: map<nat, Certificate>, cutoff: nat): (s: set<nat>)
    ensures s <= certificates.Keys
  {
    set id | id in certificates && Stale(certificates[id], cutoff)
  }

  ghost function CertificatesAfter(r: Registry, gone: seq<nat>): map<nat, Certificate> {
    r.certificates - Elements(gone)
  }

  ghost function MappingAfter(r: Registry, gone: seq<nat>): map<Address, nat> {
    MappingWithout(r.contractCertificates, Elements(gone))
  }

  /** Removing all stale ids leaves the fresh certificates and the mapping restricted to them. */
  lemma StaleRemoved(r: Registry, now: nat)
    requires MappingOk(r)
    ensures var expired := Ascending(StaleIds(r.certificates, CutoffTime(now)));
            && CertificatesAfter(r, expired) == FreshCertificates(r.certificates, CutoffTime(now))
            && MappingAfter(r, expired) == KeptMapping(r, now)
            && StrictlyAscending(expired) && forall id :: id in expired ==> id in r.certificates
  {
    hide Stale, CutoffTime, Ascending;
    var expired := Ascending(StaleIds(r.certificates, CutoffTime(now)));
    assert Elements(expired) == StaleIds(r.certificates, CutoffTime(now));
  }

  lemma FreshInOrder(r: Registry, now: nat)
    requires RegistryOk(r, now)
    ensures var unstale := FreshCertificates(r.certificates, CutoffTime(now));
            forall i, j :: i in unstale && j in unstale && i < j ==> unstale[i].issuedAt <= unstale[j].issuedAt
  {
    hide WindowsOk, MappingOk, UnmappedOk, Stale, CutoffTime;
  }

  lemma NothingRemoved(r: Registry)
    ensures CertificatesAfter(r, []) == r.certificates && MappingAfter(r, []) == r.contractCertificates
  {
  }

  lemma StaleStep(r: Registry, expired: seq<nat>, i: nat)
    requires MappingOk(r) && i < |expired| && StrictlyAscending(expired)
    requires forall id :: id in expired ==> id in r.certificates
    ensures var certs, mapping, id := CertificatesAfter(r, expired[..i]), MappingAfter(r, expired[..i]), expired[i];
            && id in certs
            && CertificatesAfter(r, expired[..i + 1]) == certs - {id}
            && |certs - {id}| == |certs| - 1
            && MappingAfter(r, expired[..i + 1]) ==
               if certs[id].contractId in mapping && mapping[certs[id].contractId] == id
               then mapping - {certs[id].contractId} else mapping
  {
    assert expired[i] in expired;
    PrefixRemoval(r.certificates, expired, i);
    MappingWithoutOne(r, Elements(expired[..i]), expired[i]);
  }

  /** A certificate is current for its own contract at most, so removing it unmaps that contract or none. */
  lemma MappingWithoutOne(r: Registry, gone: set<nat>, id: nat)
    requires MappingOk(r) && id in r.certificates
    ensures var mapping, c := MappingWithout(r.contractCertificates, gone), r.certificates[id].contractId;
            MappingWithout(r.contractCertificates, gone + {id}) ==
            if c in mapping && mapping[c] == id then mapping - {c} else mapping
  {
  }

  lemma PrefixRemoval(certs: map<nat, Certificate>, ids: seq<nat>, i: nat)
    requires i < |ids| && NoDuplicates(ids) && ids[i] in certs
    ensures ids[i] in certs - Elements(ids[..i])
    ensures Elements(ids[..i + 1]) == Elements(ids[..i]) + {ids[i]}
    ensures (certs - Elements(ids[..i])) - {ids[i]} == certs - Elements(ids[..i + 1])
    ensures |certs - Elements(ids[..i + 1])| == |certs - Elements(ids[..i])| - 1
  {
    var before := certs - Elements(ids[..i]);
    assert ids[i] !in ids[..i];
    assert Elements(ids[..i + 1]) == Elements(ids[..i]) + {ids[i]};
    assert (before - {ids[i]}).Keys == before.Keys - {ids[i]};
  }

  /** The counts so far: of the certificates no longer in `todo`. */
  ghost predicate CountsMatch(counts: map<Address, nat>, all: map<nat, Certificate>, todo: set<nat>) {
    forall c :: CountMatches(counts, c, IdsOf(all, c) - todo)
  }

  /** A contract has an entry exactly if something of it was counted, and then the entry is the number. */
  ghost predicate CountMatches(counts: map<Address, nat>, c: Address, ids: set<nat>) {
    (c in counts <==> ids != {}) && (c in counts ==> counts[c] == |ids|)
  }

  lemma NothingCounted(all: map<nat, Certificate>)
    ensures CountsMatch(map[], all, all.Keys)
  {
    forall c
      ensures CountMatches(map[], c, IdsOf(all, c) - all.Keys)
    {
      assert IdsOf(all, c) - all.Keys == {};
    }
  }

  lemma AllCounted(counts: map<Address, nat>, all: map<nat, Certificate>)
    requires CountsMatch(counts, all, {})
    ensures forall c :: c in counts <==> IdsOf(all, c) != {}
    ensures forall c :: c in counts ==> counts[c] == |IdsOf(all, c)|
  {
    forall c
      ensures CountMatches(counts, c, IdsOf(all, c))
    {
      assert CountMatches(counts, c, IdsOf(all, c) - {}) && IdsOf(all, c) - {} == IdsOf(all, c);
    }
  }

  lemma CountStep(all: map<nat, Certificate>, todo: set<nat>, id: nat, x: Address)
    requires id in todo && id in all
    ensures IdsOf(all, x) - (todo - {id}) ==
            (IdsOf(all, x) - todo) + (if x == all[id].contractId then {id} else {})
  {
  }

  lemma CountChangedKey(counts: map<Address, nat>, c: Address, ids: set<nat>, id: nat)
    requires CountMatches(counts, c, ids) && id !in ids
    ensures CountMatches(counts[c := (if c in counts then counts[c] else 0) + 1], c, ids + {id})
  {
    assert |ids + {id}| == |ids| + 1;
  }

  lemma CountOne(counts: map<Address, nat>, all: map<nat, Certificate>, todo: set<nat>, id: nat)
    requires CountsMatch(counts, all, todo) && id in todo && id in all
    ensures var c := all[id].contractId;
            CountsMatch(counts[c := (if c in counts then counts[c] else 0) + 1], all, todo - {id})
  {
    hide IdsOf;
    var c := all[id].contractId;
    var counted := counts[c := (if c in counts then counts[c] else 0) + 1];
    forall x
      ensures CountMatches(counted, x, IdsOf(all, x) - (todo - {id}))
    {
      var ids := IdsOf(all, x) - todo;
      assert CountMatches(counts, x, ids) && id !in ids;
      CountStep(all, todo, id, x);
      if x == c {
        CountChangedKey(counts, c, ids, id);
      }
    }
  }

  class AuditProofOfScan {
    var admin: Address
    var scanner: Address
    var counter: nat
    var certificates: map<nat, Certificate>
    var contractCertificates: map<Address, nat>
    var crl: map<nat, RevocationRecord>
    var cleanupTimestamp: nat

    ghost function View(): Registry
      reads this
    {
      Registry(admin, scanner, counter, certificates, contractCertificates, crl, cleanupTimestamp)
    }

    constructor (admin: Address, scanner: Address, now: nat)
      ensures View() == Initialized(admin, scanner, now) && RegistryOk(View(), now)
    {
      this.admin, this.scanner, counter, cleanupTimestamp := admin, scanner, 0, now;
      certificates, contractCertificates, crl := map[], map[], map[];
    }

    method MintCertificate(contractId: Address, report: SecurityReport, validityDays: Option<nat>,
                           authorizers: set<Address>, now: nat)
      returns (r: Result<nat, AuditError>)
      requires RegistryOk(View(), now)
      modifies this
      ensures RegistryOk(View(), now)
      ensures match Apply(old(View()), Call(Operation.MintCertificate(contractId, report, validityDays), authorizers, now))
              case Ok(v) => View() == v && r == Ok(counter) && counter !in old(certificates)
              case Err(e) => View() == old(View()) && r == Err(e)
    {
      hide IssueOk, WindowsOk, MappingOk, UnmappedOk, ValidIpfsCid, AcceptableRisk;
      ghost var before := View();
      if scanner !in authorizers { return Err(NotAuthorized); }
      if contractId == DEFAULT_ADDRESS { return Err(InvalidContract); }
      if !ValidIpfsCid(report.ipfsCid) { return Err(InvalidIPFSCID); }
      if !AcceptableRisk(report.riskScore) { return Err(InvalidRiskScore); }
      if contractId in contractCertificates {
        var existingId := contractCertificates[contractId];
        if existingId !in certificates { return Err(CertificateNotFound); }
        var existing := certificates[existingId];
        if existing.status == Active && !IsExpired(existing, now) { return Err(AlreadyCertified); }
      }
      var validityPeriod := validityDays.GetOr(30) * SECONDS_PER_DAY;
      if validityPeriod > U64_MAX { return Err(Overflow); }
      if validityPeriod == 0 || validityPeriod > 365 * SECONDS_PER_DAY { return Err(InvalidValidityPeriod); }
      if counter + 1 > U64_MAX || now + validityPeriod > U64_MAX { return Err(Overflow); }
      MintKeepsOk(before, contractId, report, validityDays, authorizers, now);
      IdsBelowCounter(before, now);
      var id := counter + 1;
      certificates := certificates[id := Certificate(id, contractId, report, Active, now, now + validityPeriod, scanner, None, None)];
      contractCertificates := contractCertificates[contractId := id];
      counter := id;
      r := Ok(id);
    }

    method RevokeCertificate(certificateId: nat, reason: RevocationReason, authorizers: set<Address>, now: nat)
      returns (r: Result<(), AuditError>)
      requires RegistryOk(View(), now)
      modifies this
      ensures RegistryOk(View(), now)
      ensures match Apply(old(View()), Call(Operation.RevokeCertificate(certificateId, reason), authorizers, now))
              case Ok(v) => View() == v && r == Ok(())
              case Err(e) => View() == old(View()) && r == Err(e)
    {
      ghost var before := View();
      var authorized := if admin in authorizers then true else scanner in authorizers;
      if !authorized { return Err(NotAuthorized); }
      if certificateId !in certificates { return Err(CertificateNotFound); }
      var certificate := certificates[certificateId];
      if certificate.status == Revoked { return Err(CertificateRevoked); }
      RevokeKeepsOk(before, certificateId, reason, authorizers, now);
      var revokedBy := if admin in authorizers then admin else scanner;
      certificate := certificate.(status := Revoked, revokedAt := Some(now), revokeReason := Some(reason));
      certificates := certificates[certificateId := certificate];
      crl := crl[certificateId := RevocationRecord(certificateId, now, revokedBy, reason, certificate.contractId)];
      r := Ok(());
    }

    method VerifyCertificateNotRevoked(certificateId: nat) returns (r: Result<bool, AuditError>)
      ensures r == NotRevoked(View(), certificateId)
    {
      if certificateId !in certificates { return Err(CertificateNotFound); }
      if certificates[certificateId].status == Revoked { return Ok(false); }
      if certificateId in crl { return Ok(false); }
      r := Ok(true);
    }

    method IsContractCleared(contractId: Address, now: nat) returns (r: Result<bool, AuditError>)
      ensures r == ContractCleared(View(), contractId, now)
    {
      if contractId !in contractCertificates { return Ok(false); }
      var certId := contractCertificates[contractId];
      if certId !in certificates { return Err(CertificateNotFound); }
      var certificate := certificates[certId];
      r := Ok(certificate.status == Active && !IsExpired(certificate, now));
    }

    /** `expire_certificate`. */
    method ExpireCertificate(certificateId: nat, ghost now: nat)
      requires RegistryOk(View(), now) && certificateId in certificates
      modifies this`certificates
      ensures RegistryOk(View(), now) && View() == Expire(old(View()), certificateId)
    {
      ExpireKeepsOk(View(), certificateId, now);
      certificates := certificates[certificateId := certificates[certificateId].(status := Expired)];
    }

    /** The body of `get_contract_certificate`: an expired certificate is written before the call aborts. */
    method ReadOrExpire(contractId: Address, now: nat) returns (r: Result<Certificate, AuditError>)
      requires RegistryOk(View(), now)
      modifies this`certificates
      ensures RegistryOk(View(), now)
      ensures (View(), r) == ReadCurrent(old(View()), contractId, now)
    {
      if contractId in contractCertificates {
        var certId := contractCertificates[contractId];
        if certId !in certificates { return Err(CertificateNotFound); }
        var certificate := certificates[certId];
        if certificate.status == Active && !IsExpired(certificate, now) {
          return Ok(certificate);
        } else if IsExpired(certificate, now) {
          ExpireCertificate(certId, now);
        }
      }
      r := Err(NotCertified);
    }

    /** The call as the ledger commits it: an abort restores what was written. */
    method GetContractCertificate(contractId: Address, now: nat) returns (r: Result<Certificate, AuditError>)
      requires RegistryOk(View(), now)
      modifies this`certificates
      ensures View() == old(View())
      ensures r.Ok? <==> ContractCleared(View(), contractId, now) == Ok(true)
      ensures r.Ok? ==> r.value == certificates[contractCertificates[contractId]] && InForce(r.value, now)
      ensures r.Err? ==> r.error == NotCertified
    {
      ExpiryIsUndone(View(), contractId, now);
      AnswersIffCleared(View(), contractId, now);
      var stored := certificates;
      r := ReadOrExpire(contractId, now);
      if r.Err? {
        certificates := stored;
      }
    }

    method RemoveFromCrl(certificateId: nat, authorizers: set<Address>, now: nat) returns (r: Result<(), AuditError>)
      requires RegistryOk(View(), now)
      modifies this`crl
      ensures RegistryOk(View(), now)
      ensures match Apply(old(View()), Call(Operation.RemoveFromCrl(certificateId), authorizers, now))
              case Ok(v) => View() == v && r == Ok(())
              case Err(e) => View() == old(View()) && r == Err(e)
    {
      if admin !in authorizers { return Err(NotAuthorized); }
      if certificateId in crl {
        crl := crl - {certificateId};
      }
      assert certificateId !in old(crl) ==> old(crl) - {certificateId} == old(crl);
      r := Ok(());
    }

    /** Both phases; the answer is the number of certificates removed. */
    method CleanupCertificates(now: nat) returns (cleanedCount: nat)
      requires RegistryOk(View(), now)
      modifies this
      ensures RegistryOk(View(), now)
      ensures View() == CleanedUp(old(View()), now)
      ensures cleanedCount == |old(certificates)| - |certificates|
    {
      ghost var before := View();
      FreshInOrder(before, now);
      CleanupKeepsOk(before, now);
      hide RegistryOk, FreshCertificates, NewestPerContract, KeptMapping;
      var certs, mapping, removed := RemoveStale(CutoffTime(now), now);
      var trimmed, excess := RemoveExcess(certs);
      assert trimmed == KeptCertificates(before.certificates, now);
      certificates := trimmed;
      contractCertificates := mapping;
      cleanupTimestamp := now;
      cleanedCount := removed + excess;
    }

    /** The first phase, on copies of the two maps. */
    method RemoveStale(cutoff: nat, ghost now: nat)
      returns (certs: map<nat, Certificate>, mapping: map<Address, nat>, removed: nat)
      requires RegistryOk(View(), now) && cutoff == CutoffTime(now)
      ensures certs == FreshCertificates(certificates, cutoff)
      ensures mapping == KeptMapping(View(), now)
      ensures removed == |certificates| - |certs|
    {
      var expired := Ascending(StaleIds(certificates, cutoff));
      StaleRemoved(View(), now);
      hide *;
      certs, mapping, removed := RemoveEach(View(), certificates, contractCertificates, expired);
    }

    /** Takes the listed certificates out one by one, each with the mapping that points to it. */
    static method RemoveEach(ghost r: Registry, all: map<nat, Certificate>, current: map<Address, nat>, expired: seq<nat>)
      returns (certs: map<nat, Certificate>, mapping: map<Address, nat>, removed: nat)
      requires all == r.certificates && current == r.contractCertificates && MappingOk(r)
      requires StrictlyAscending(expired) && forall id :: id in expired ==> id in all
      ensures certs == CertificatesAfter(r, expired) && mapping == MappingAfter(r, expired)
      ensures removed == |all| - |certs|
    {
      hide *;
      NothingRemoved(r);
      certs, mapping, removed := all, current, 0;
      for i := 0 to |expired|
        invariant certs == CertificatesAfter(r, expired[..i])
        invariant mapping == MappingAfter(r, expired[..i])
        invariant removed == |all| - |certs|
      {
        var certId := expired[i];
        StaleStep(r, expired, i);
        var certificate := certs[certId];
        certs := certs - {certId};
        if certificate.contractId in mapping && mapping[certificate.contractId] == certId {
          mapping := mapping - {certificate.contractId};
        }
        removed := removed + 1;
      }
      assert expired[..|expired|] == expired;
    }

    /** The second phase: contracts over the limit lose their oldest certificates. */
    method RemoveExcess(all: map<nat, Certificate>) returns (certs: map<nat, Certificate>, removed: nat)
      requires forall i, j :: i in all && j in all && i < j ==> all[i].issuedAt <= all[j].issuedAt
      ensures certs == NewestPerContract(all)
      ensures removed == |all| - |certs|
    {
      hide Ascending, AmongNewest, TrimmedExcept;
      var counts := CountPerContract(all);
      certs, removed := all, 0;
      var todo := counts.Keys;
      TrimStarts(all, todo);
      while todo != {}
        invariant todo <= counts.Keys
        invariant TrimmedExcept(certs, all, todo)
        invariant removed == |all| - |certs|
        decreases todo
      {
        var contractId :| contractId in todo;
        var count := counts[contractId];
        var excess;
        certs, excess := TrimContract(certs, all, todo, contractId, count);
        removed := removed + excess;
        todo := todo - {contractId};
      }
      TrimEnds(certs, all);
    }

    /** Removes one contract's certificates beyond the limit, oldest first. */
    static method TrimContract(certs: map<nat, Certificate>, ghost all: map<nat, Certificate>, ghost todo: set<Address>,
                               contractId: Address, count: nat)
      returns (rest: map<nat, Certificate>, removed: nat)
      requires TrimmedExcept(certs, all, todo) && contractId in todo && count == |IdsOf(all, contractId)|
      requires forall i, j :: i in all && j in all && i < j ==> all[i].issuedAt <= all[j].issuedAt
      ensures TrimmedExcept(rest, all, todo - {contractId})
      ensures removed == |certs| - |rest|
    {
      hide Ascending, AmongNewest, TrimmedExcept, SortBy, IssueTime, IdsOf, Elements;
      TrimContext(certs, all, todo, contractId);
      TrimOne(certs, all, todo, contractId, SaturatingSub(count, MAX_CERTIFICATES_PER_CONTRACT));
      rest, removed := certs, 0;
      if count > MAX_CERTIFICATES_PER_CONTRACT {
        var sorted := SortBy(Ascending(IdsOf(certs, contractId)), IssueTime(certs));
        removed := count - MAX_CERTIFICATES_PER_CONTRACT;
        rest := RemoveFirst(certs, sorted, removed);
      } else {
        RemovingNone(certs, Ascending(IdsOf(all, contractId)));
      }
    }

    /** How many certificates each contract has. */
    static method CountPerContract(all: map<nat, Certificate>) returns (counts: map<Address, nat>)
      ensures forall c :: c in counts <==> IdsOf(all, c) != {}
      ensures forall c :: c in counts ==> counts[c] == |IdsOf(all, c)|
    {
      hide CountsMatch, IdsOf;
      counts := map[];
      var todo := all.Keys;
      NothingCounted(all);
      while todo != {}
        invariant todo <= all.Keys
        invariant CountsMatch(counts, all, todo)
        decreases todo
      {
        var id :| id in todo;
        var contractId := all[id].contractId;
        var count := (if contractId in counts then counts[contractId] else 0) + 1;
        CountOne(counts, all, todo, id);
        counts := counts[contractId := count];
        todo := todo - {id};
      }
      AllCounted(counts, all);
    }

    /** Removes the first `n` of the listed certificates, one by one. */
    static method RemoveFirst(certs: map<nat, Certificate>, ids: seq<nat>, n: nat) returns (rest: map<nat, Certificate>)
      requires n <= |ids| && NoDuplicates(ids) && forall id :: id in ids ==> id in certs
      ensures rest == certs - Elements(ids[..n])
      ensures |rest| == |certs| - n
    {
      rest := certs;
      for i := 0 to n
        invariant rest == certs - Elements(ids[..i])
        invariant |rest| == |certs| - i
      {
        assert ids[i] in ids;
        PrefixRemoval(certs, ids, i);
        rest := rest - {ids[i]};
      }
    }
  }
}
