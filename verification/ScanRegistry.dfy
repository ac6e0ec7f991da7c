/**
 * The proof-of-scan certificate registry as a state machine. A failing call aborts and changes nothing; the
 * ledger clock never runs backwards.
 */
module ScanRegistry {
  import opened Foundations
  import opened StableSort

  type Address = string

  const DEFAULT_ADDRESS: Address := ""
  const SECONDS_PER_DAY: nat := 24 * 60 * 60
  const MAX_CERTIFICATES_PER_CONTRACT: nat := 10
  const CERTIFICATE_RETENTION_DAYS: nat := 90

  datatype CertificateStatus = Active | Revoked | Expired

  datatype RevocationReason =
    | Unspecified | KeyCompromise | CertificateAuthorityCompromise | AffiliationChanged | Superseded | CessationOfOperation

  datatype RiskScore = Low | Medium | High | Critical

  datatype SecurityReport = SecurityReport(contractId: Address, timestamp: nat, riskScore: RiskScore, ipfsCid: string)

  datatype Certificate = Certificate(
    certificateId: nat,
    contractId: Address,
    report: SecurityReport,
    status: CertificateStatus,
    issuedAt: nat,
    expiresAt: nat,
    issuedBy: Address,
    revokedAt: Option<nat>,
    revokeReason: Option<RevocationReason>)

  datatype RevocationRecord = RevocationRecord(
    certificateId: nat,
    revokedAt: nat,
    revokedBy: Address,
    reason: RevocationReason,
    contractId: Address)

  datatype Registry = Registry(
    admin: Address,
    scanner: Address,
    counter: nat,
    certificates: map<nat, Certificate>,
    contractCertificates: map<Address, nat>,
    crl: map<nat, RevocationRecord>,
    cleanupTimestamp: nat)

  datatype AuditError =
    | NotAuthorized | CertificateNotFound | CertificateRevoked | InvalidRiskScore | InvalidIPFSCID | AlreadyCertified
    | NotCertified | InvalidContract | InvalidValidityPeriod | Overflow

  datatype Operation =
    | MintCertificate(contractId: Address, report: SecurityReport, validityDays: Option<nat>)
    | RevokeCertificate(certificateId: nat, reason: RevocationReason)
    | GetContractCertificate(contractId: Address)
    | RemoveFromCrl(certificateId: nat)
    | CleanupCertificates
    | UpdateScannerPublicKey(scanner: Address)
    | TransferAdmin(admin: Address)

  /** One invocation: the accounts that authorised it and the ledger clock. */
  datatype Call = Call(op: Operation, authorizers: set<Address>, now: nat)

  // ---------------------------------------------------------------- reading

  predicate AcceptableRisk(r: RiskScore) {
    r.Low? || r.Medium?
  }

  predicate ValidIpfsCid(cid: string) {
    |cid| >= 10 && ((cid[0] == 'Q' && cid[1] == 'm') || cid[0] == 'b')
  }

  predicate IsExpired(c: Certificate, now: nat) {
    now > c.expiresAt
  }

  /** Active and inside its validity window, which includes the expiry instant. */
  predicate InForce(c: Certificate, now: nat) {
    c.status == Active && !IsExpired(c, now)
  }

  /** `is_contract_cleared`; a mapping that dangles aborts the call. */
  function ContractCleared(r: Registry, contractId: Address, now: nat): Result<bool, AuditError> {
    if contractId !in r.contractCertificates then Ok(false)
    else if r.contractCertificates[contractId] !in r.certificates then Err(CertificateNotFound)
    else Ok(InForce(r.certificates[r.contractCertificates[contractId]], now))
  }

  /** `verify_certificate_not_revoked`. */
  function NotRevoked(r: Registry, certificateId: nat): Result<bool, AuditError> {
    if certificateId !in r.certificates then Err(CertificateNotFound)
    else Ok(r.certificates[certificateId].status != Revoked && certificateId !in r.crl)
  }

  // ---------------------------------------------------------------- the operations

  function Mint(r: Registry, contractId: Address, report: SecurityReport, validityDays: Option<nat>,
                authorizers: set<Address>, now: nat): Result<Registry, AuditError>
  {
    var validity := validityDays.GetOr(30) * SECONDS_PER_DAY;
    var id := r.counter + 1;
    if r.scanner !in authorizers then Err(NotAuthorized)
    else if contractId == DEFAULT_ADDRESS then Err(InvalidContract)
    else if !ValidIpfsCid(report.ipfsCid) then Err(InvalidIPFSCID)
    else if !AcceptableRisk(report.riskScore) then Err(InvalidRiskScore)
    else if contractId in r.contractCertificates && r.contractCertificates[contractId] !in r.certificates then
      Err(CertificateNotFound)
    else if contractId in r.contractCertificates && InForce(r.certificates[r.contractCertificates[contractId]], now) then
      Err(AlreadyCertified)
    else if validity > U64_MAX then Err(Overflow)
    else if validity == 0 || validity > 365 * SECONDS_PER_DAY then Err(InvalidValidityPeriod)
    else if id > U64_MAX || now + validity > U64_MAX then Err(Overflow)
    else
      var c := Certificate(id, contractId, report, Active, now, now + validity, r.scanner, None, None);
      Ok(r.(counter := id,
            certificates := r.certificates[id := c],
            contractCertificates := r.contractCertificates[contractId := id]))
  }

  function Revoke(r: Registry, certificateId: nat, reason: RevocationReason, authorizers: set<Address>, now: nat)
    : Result<Registry, AuditError>
  {
    if r.admin !in authorizers && r.scanner !in authorizers then Err(NotAuthorized)
    else if certificateId !in r.certificates then Err(CertificateNotFound)
    else if r.certificates[certificateId].status == Revoked then Err(CertificateRevoked)
    else
      var c := r.certificates[certificateId].(status := Revoked, revokedAt := Some(now), revokeReason := Some(reason));
      var revokedBy := if r.admin in authorizers then r.admin else r.scanner;
      Ok(r.(certificates := r.certificates[certificateId := c],
            crl := r.crl[certificateId := RevocationRecord(certificateId, now, revokedBy, reason, c.contractId)]))
  }

  /** The private `expire_certificate`. */
  function Expire(r: Registry, id: nat): Registry
    requires id in r.certificates
  {
    r.(certificates := r.certificates[id := r.certificates[id].(status := Expired)])
  }

  /**
   * `get_contract_certificate`: what it has written when it ends, and its answer. An expired certificate is set to
   * Expired, and then the call aborts.
   */
  function ReadCurrent(r: Registry, contractId: Address, now: nat): (Registry, Result<Certificate, AuditError>) {
    if contractId !in r.contractCertificates then (r, Err(NotCertified))
    else if r.contractCertificates[contractId] !in r.certificates then (r, Err(CertificateNotFound))
    else
      var id := r.contractCertificates[contractId];
      if InForce(r.certificates[id], now) then (r, Ok(r.certificates[id]))
      else if IsExpired(r.certificates[id], now) then (Expire(r, id), Err(NotCertified))
      else (r, Err(NotCertified))
  }

  /** Exactly when the call writes: for a mapped certificate past its expiry and not yet Expired. It then always aborts. */
  lemma ExpiryIsUndone(r: Registry, contractId: Address, now: nat)
    ensures ReadCurrent(r, contractId, now).0 != r <==>
            && contractId in r.contractCertificates && r.contractCertificates[contractId] in r.certificates
            && var c := r.certificates[r.contractCertificates[contractId]];
               IsExpired(c, now) && c.status != Expired
    ensures ReadCurrent(r, contractId, now).0 != r ==> ReadCurrent(r, contractId, now).1 == Err(NotCertified)
  {
    if contractId in r.contractCertificates && r.contractCertificates[contractId] in r.certificates {
      var id := r.contractCertificates[contractId];
      assert Expire(r, id).certificates[id].status == Expired;
      if r.certificates[id].status == Expired {
        assert Expire(r, id).certificates == r.certificates;
      }
    }
  }

  /** The call answers exactly the mapped certificate of a cleared contract. */
  lemma AnswersIffCleared(r: Registry, contractId: Address, now: nat)
    ensures ReadCurrent(r, contractId, now).1.Ok? <==> ContractCleared(r, contractId, now) == Ok(true)
    ensures ReadCurrent(r, contractId, now).1.Ok? ==>
              && ReadCurrent(r, contractId, now).1.value == r.certificates[r.contractCertificates[contractId]]
              && InForce(ReadCurrent(r, contractId, now).1.value, now)
  {
  }

  // ---------------------------------------------------------------- cleanup

  /** Expired, revoked, or with a report from before the cutoff. */
  predicate Stale(c: Certificate, cutoff: nat) {
    c.status == Expired || c.status == Revoked || c.report.timestamp < cutoff
  }

  function CutoffTime(now: nat): nat {
    SaturatingSub(now, CERTIFICATE_RETENTION_DAYS * SECONDS_PER_DAY)
  }

  ghost function FreshCertificates(certificates: map<nat, Certificate>, cutoff: nat): map<nat, Certificate> {
    map id | id in certificates && !Stale(certificates[id], cutoff) :: certificates[id]
  }

  function IdsOf(certificates: map<nat, Certificate>, contractId: Address): set<nat> {
    set id | id in certificates && certificates[id].contractId == contractId
  }

  /** The same contract's certificates with a higher id. */
  ghost function NewerIds(certificates: map<nat, Certificate>, id: nat): set<nat>
    requires id in certificates
  {
    set j | j in IdsOf(certificates, certificates[id].contractId) && j > id
  }

  /** Fewer than ten newer certificates of the same contract. */
  ghost predicate AmongNewest(certificates: map<nat, Certificate>, id: nat)
    requires id in certificates
  {
    |NewerIds(certificates, id)| < MAX_CERTIFICATES_PER_CONTRACT
  }

  ghost function NewestPerContract(certificates: map<nat, Certificate>): map<nat, Certificate> {
    map id | id in certificates && AmongNewest(certificates, id) :: certificates[id]
  }

  ghost function KeptCertificates(certificates: map<nat, Certificate>, now: nat): map<nat, Certificate> {
    NewestPerContract(FreshCertificates(certificates, CutoffTime(now)))
  }

  /** The contracts whose current certificate is not stale stay mapped. */
  ghost function KeptMapping(r: Registry, now: nat): map<Address, nat> {
    map c | c in r.contractCertificates && r.contractCertificates[c] in FreshCertificates(r.certificates, CutoffTime(now))
      :: r.contractCertificates[c]
  }

  ghost function CleanedUp(r: Registry, now: nat): Registry {
    r.(certificates := KeptCertificates(r.certificates, now),
       contractCertificates := KeptMapping(r, now),
       cleanupTimestamp := now)
  }

  ghost function Apply(r: Registry, call: Call): Result<Registry, AuditError> {
    match call.op
    case MintCertificate(contractId, report, validityDays) => Mint(r, contractId, report, validityDays, call.authorizers, call.now)
    case RevokeCertificate(id, reason) => Revoke(r, id, reason, call.authorizers, call.now)
    case GetContractCertificate(contractId) =>
      (match ReadCurrent(r, contractId, call.now)
       case (after, Ok(_)) => Ok(after)
       case (_, Err(e)) => Err(e))
    case RemoveFromCrl(id) => if r.admin in call.authorizers then Ok(r.(crl := r.crl - {id})) else Err(NotAuthorized)
    case CleanupCertificates => Ok(CleanedUp(r, call.now))
    case UpdateScannerPublicKey(scanner) =>
      if r.admin !in call.authorizers then Err(NotAuthorized)
      else if scanner == DEFAULT_ADDRESS then Err(InvalidContract)
      else Ok(r.(scanner := scanner))
    case TransferAdmin(admin) =>
      if r.admin !in call.authorizers then Err(NotAuthorized)
      else if admin == DEFAULT_ADDRESS then Err(InvalidContract)
      else Ok(r.(admin := admin))
  }

  // ---------------------------------------------------------------- the invariant

  ghost predicate IssueOk(r: Registry, clock: nat) {
    && (forall id :: id in r.certificates ==>
          && r.certificates[id].certificateId == id && 1 <= id <= r.counter
          && r.certificates[id].issuedAt <= clock && r.certificates[id].issuedAt < r.certificates[id].expiresAt)
    && forall i, j :: i in r.certificates && j in r.certificates && i < j ==>
         r.certificates[i].issuedAt <= r.certificates[j].issuedAt
  }

  /** An Active certificate's window has closed before any later certificate of its contract was issued. */
  ghost predicate WindowsOk(r: Registry) {
    forall i, j :: i in r.certificates && j in r.certificates && i < j
                   && r.certificates[i].contractId == r.certificates[j].contractId
                   && r.certificates[i].status == Active ==>
      r.certificates[i].expiresAt < r.certificates[j].issuedAt
  }

  /** A mapped id is stored, belongs to the contract, and is the contract's highest. */
  ghost predicate MappingOk(r: Registry) {
    forall c :: c in r.contractCertificates ==>
      && r.contractCertificates[c] in r.certificates
      && r.certificates[r.contractCertificates[c]].contractId == c
      && forall i :: i in IdsOf(r.certificates, c) ==> i <= r.contractCertificates[c]
  }

  /** The Active certificates of an unmapped contract have all run out. */
  ghost predicate UnmappedOk(r: Registry, clock: nat) {
    forall i :: i in r.certificates && r.certificates[i].status == Active
                && r.certificates[i].contractId !in r.contractCertificates ==>
      r.certificates[i].expiresAt < clock
  }

  ghost predicate RegistryOk(r: Registry, clock: nat) {
    IssueOk(r, clock) && WindowsOk(r) && MappingOk(r) && UnmappedOk(r, clock)
  }

  lemma ClockAdvances(r: Registry, clock: nat, now: nat)
    requires RegistryOk(r, clock) && clock <= now
    ensures RegistryOk(r, now)
  {
  }

  /** Storing a new certificate under the next id and mapping its contract to it. */
  ghost function WithNew(r: Registry, c: Certificate): Registry {
    r.(counter := c.certificateId,
       certificates := r.certificates[c.certificateId := c],
       contractCertificates := r.contractCertificates[c.contractId := c.certificateId])
  }

  lemma NewKeepsIssueOk(r: Registry, c: Certificate, now: nat)
    requires IssueOk(r, now) && c.certificateId == r.counter + 1 && c.issuedAt == now < c.expiresAt
    ensures IssueOk(WithNew(r, c), now)
  {
  }

  lemma NewKeepsWindowsOk(r: Registry, c: Certificate, now: nat)
    requires IssueOk(r, now) && WindowsOk(r) && c.certificateId == r.counter + 1 && c.issuedAt == now
    requires forall i :: i in IdsOf(r.certificates, c.contractId) && r.certificates[i].status == Active ==>
               r.certificates[i].expiresAt < now
    ensures WindowsOk(WithNew(r, c))
  {
    hide IssueOk;
    assert forall i :: i in r.certificates ==> i < c.certificateId by {
      IdsBelowCounter(r, now);
    }
    var r' := WithNew(r, c);
    forall i, j | i in r'.certificates && j in r'.certificates && i < j
                  && r'.certificates[i].contractId == r'.certificates[j].contractId
                  && r'.certificates[i].status == Active
      ensures r'.certificates[i].expiresAt < r'.certificates[j].issuedAt
    {
      if j == c.certificateId {
        assert i in IdsOf(r.certificates, c.contractId);
      }
    }
  }

  lemma IdsBelowCounter(r: Registry, clock: nat)
    requires IssueOk(r, clock)
    ensures forall i :: i in r.certificates ==> i <= r.counter
  {
  }

  lemma NewKeepsMappingOk(r: Registry, c: Certificate, now: nat)
    requires IssueOk(r, now) && MappingOk(r) && c.certificateId == r.counter + 1
    ensures MappingOk(WithNew(r, c))
  {
    hide IssueOk;
    IdsBelowCounter(r, now);
    forall x, i | i in IdsOf(WithNew(r, c).certificates, x)
      ensures i == c.certificateId || i in IdsOf(r.certificates, x)
    {
    }
  }

  lemma NewKeepsUnmappedOk(r: Registry, c: Certificate, now: nat)
    requires UnmappedOk(r, now)
    ensures UnmappedOk(WithNew(r, c), now)
  {
  }

  /** When a contract may be certified anew, all its Active certificates have run out. */
  lemma MintableHasRunOut(r: Registry, contractId: Address, now: nat)
    requires RegistryOk(r, now)
    requires contractId in r.contractCertificates ==> !InForce(r.certificates[r.contractCertificates[contractId]], now)
    ensures forall i :: i in IdsOf(r.certificates, contractId) && r.certificates[i].status == Active ==>
              r.certificates[i].expiresAt < now
  {
    forall i | i in IdsOf(r.certificates, contractId) && r.certificates[i].status == Active
      ensures r.certificates[i].expiresAt < now
    {
      if contractId in r.contractCertificates {
        assert i <= r.contractCertificates[contractId];
      }
    }
  }

  lemma MintKeepsOk(r: Registry, contractId: Address, report: SecurityReport, validityDays: Option<nat>,
                    authorizers: set<Address>, now: nat)
    requires RegistryOk(r, now) && Mint(r, contractId, report, validityDays, authorizers, now).Ok?
    ensures RegistryOk(Mint(r, contractId, report, validityDays, authorizers, now).value, now)
  {
    hide IssueOk, WindowsOk, MappingOk, UnmappedOk;
    var r' := Mint(r, contractId, report, validityDays, authorizers, now).value;
    var c := r'.certificates[r'.counter];
    assert r' == WithNew(r, c);
    MintableHasRunOut(r, contractId, now);
    NewKeepsIssueOk(r, c, now);
    NewKeepsWindowsOk(r, c, now);
    NewKeepsMappingOk(r, c, now);
    NewKeepsUnmappedOk(r, c, now);
  }

  /** One certificate goes out of force; nothing else the invariant speaks of changes. */
  ghost predicate Deactivates(r: Registry, r': Registry, id: nat) {
    && id in r.certificates && r'.certificates.Keys == r.certificates.Keys
    && r'.counter == r.counter && r'.contractCertificates == r.contractCertificates
    && (forall i :: i in r.certificates && i != id ==> r'.certificates[i] == r.certificates[i])
    && var c, c' := r.certificates[id], r'.certificates[id];
       && c'.status != Active && c'.contractId == c.contractId && c'.certificateId == c.certificateId
       && c'.issuedAt == c.issuedAt && c'.expiresAt == c.expiresAt
  }

  /** What each certificate keeps when one is deactivated. */
  lemma DeactivationKeepsFields(r: Registry, r': Registry, id: nat, i: nat)
    requires Deactivates(r, r', id) && i in r.certificates
    ensures i in r'.certificates
    ensures var c, c' := r.certificates[i], r'.certificates[i];
            && c'.certificateId == c.certificateId && c'.contractId == c.contractId
            && c'.issuedAt == c.issuedAt && c'.expiresAt == c.expiresAt
            && (c'.status == Active ==> c.status == Active)
  {
  }

  lemma DeactivationKeepsIssueOk(r: Registry, r': Registry, id: nat, clock: nat)
    requires Deactivates(r, r', id) && IssueOk(r, clock)
    ensures IssueOk(r', clock)
  {
  }

  lemma DeactivationKeepsWindowsOk(r: Registry, r': Registry, id: nat)
    requires Deactivates(r, r', id) && WindowsOk(r)
    ensures WindowsOk(r')
  {
    forall i, j | i in r'.certificates && j in r'.certificates && i < j
                  && r'.certificates[i].contractId == r'.certificates[j].contractId
                  && r'.certificates[i].status == Active
      ensures r'.certificates[i].expiresAt < r'.certificates[j].issuedAt
    {
      DeactivationKeepsFields(r, r', id, i);
      DeactivationKeepsFields(r, r', id, j);
    }
  }

  lemma DeactivationKeepsMappingOk(r: Registry, r': Registry, id: nat)
    requires Deactivates(r, r', id) && MappingOk(r)
    ensures MappingOk(r')
  {
    forall x
      ensures IdsOf(r'.certificates, x) == IdsOf(r.certificates, x)
    {
    }
  }

  lemma DeactivationKeepsUnmappedOk(r: Registry, r': Registry, id: nat, clock: nat)
    requires Deactivates(r, r', id) && UnmappedOk(r, clock)
    ensures UnmappedOk(r', clock)
  {
  }

  lemma DeactivationKeepsOk(r: Registry, r': Registry, id: nat, clock: nat)
    requires RegistryOk(r, clock) && Deactivates(r, r', id)
    ensures RegistryOk(r', clock)
  {
    hide Deactivates, IssueOk, WindowsOk, MappingOk, UnmappedOk;
    DeactivationKeepsIssueOk(r, r', id, clock);
    DeactivationKeepsWindowsOk(r, r', id);
    DeactivationKeepsMappingOk(r, r', id);
    DeactivationKeepsUnmappedOk(r, r', id, clock);
  }

  lemma RevokeKeepsOk(r: Registry, id: nat, reason: RevocationReason, authorizers: set<Address>, now: nat)
    requires RegistryOk(r, now) && Revoke(r, id, reason, authorizers, now).Ok?
    ensures RegistryOk(Revoke(r, id, reason, authorizers, now).value, now)
  {
    hide RegistryOk;
    DeactivationKeepsOk(r, Revoke(r, id, reason, authorizers, now).value, id, now);
  }

  /** So would an expiry, were it to persist. */
  lemma ExpireKeepsOk(r: Registry, id: nat, now: nat)
    requires RegistryOk(r, now) && id in r.certificates
    ensures RegistryOk(Expire(r, id), now)
  {
    hide RegistryOk;
    DeactivationKeepsOk(r, Expire(r, id), id, now);
  }

  /** A contract's current certificate has no newer one beside it, so the limit per contract never removes it. */
  lemma MappedSurvives(r: Registry, now: nat, c: Address)
    requires MappingOk(r) && c in KeptMapping(r, now)
    ensures r.contractCertificates[c] in KeptCertificates(r.certificates, now)
  {
    hide Stale, CutoffTime;
    var unstale := FreshCertificates(r.certificates, CutoffTime(now));
    var m := r.contractCertificates[c];
    assert m in unstale && unstale[m].contractId == c;
    forall j | j in IdsOf(unstale, c)
      ensures j <= m
    {
      assert j in IdsOf(r.certificates, c);
    }
    assert NewerIds(unstale, m) == {};
  }

  lemma CleanupKeepsOk(r: Registry, now: nat)
    requires RegistryOk(r, now)
    ensures RegistryOk(CleanedUp(r, now), now)
  {
    var r' := CleanedUp(r, now);
    forall id | id in r'.certificates
      ensures id in r.certificates && r'.certificates[id] == r.certificates[id]
    {
    }
    forall c | c in r'.contractCertificates
      ensures r'.contractCertificates[c] in r'.certificates
    {
      MappedSurvives(r, now, c);
    }
    assert forall c, i :: i in IdsOf(r'.certificates, c) ==> i in IdsOf(r.certificates, c);
    forall i | i in r'.certificates && r'.certificates[i].status == Active
               && r'.certificates[i].contractId !in r'.contractCertificates
      ensures r'.certificates[i].expiresAt < now
    {
      var c := r.certificates[i].contractId;
      if c in r.contractCertificates {
        assert i in IdsOf(r.certificates, c);
        assert r.contractCertificates[c] != i;
      }
    }
  }

  // ---------------------------------------------------------------- what cleanup leaves

  /** The kept ids of a contract are the last ten of its ids in ascending order. */
  lemma KeptIdsOfContract(certificates: map<nat, Certificate>, contractId: Address)
    ensures var ids := Ascending(IdsOf(certificates, contractId));
            var excess := SaturatingSub(|ids|, MAX_CERTIFICATES_PER_CONTRACT);
            IdsOf(NewestPerContract(certificates), contractId) == Elements(ids[excess..])
  {
    hide Ascending;
    var s := IdsOf(certificates, contractId);
    forall j
      ensures j in IdsOf(NewestPerContract(certificates), contractId) <==>
              j in Ascending(s)[SaturatingSub(|s|, MAX_CERTIFICATES_PER_CONTRACT)..]
    {
      LargestAreLast(s, MAX_CERTIFICATES_PER_CONTRACT, j);
      if j in s {
        assert NewerIds(certificates, j) == Above(s, j);
      }
    }
  }

  lemma AtMostTenKept(certificates: map<nat, Certificate>, contractId: Address)
    ensures |IdsOf(NewestPerContract(certificates), contractId)| <= MAX_CERTIFICATES_PER_CONTRACT
  {
    hide Ascending;
    var ids := Ascending(IdsOf(certificates, contractId));
    KeptIdsOfContract(certificates, contractId);
    DistinctLength(ids[SaturatingSub(|ids|, MAX_CERTIFICATES_PER_CONTRACT)..]);
  }

  /** Cleanup leaves at most ten certificates a contract, none Revoked or Expired, and a mapping that does not dangle. */
  lemma CleanupLeaves(r: Registry, clock: nat, now: nat, contractId: Address)
    requires RegistryOk(r, clock)
    ensures var r' := CleanedUp(r, now);
            && |IdsOf(r'.certificates, contractId)| <= MAX_CERTIFICATES_PER_CONTRACT
            && (forall id :: id in r'.certificates ==>
                  r'.certificates[id].status == Active && r'.certificates[id].report.timestamp >= CutoffTime(now))
            && (contractId in r'.contractCertificates ==>
                  && r'.contractCertificates[contractId] == r.contractCertificates[contractId]
                  && r'.contractCertificates[contractId] in r'.certificates)
            && (contractId in r.contractCertificates && contractId !in r'.contractCertificates ==>
                  r.contractCertificates[contractId] !in r'.certificates)
  {
    hide WindowsOk, UnmappedOk, IssueOk;
    AtMostTenKept(FreshCertificates(r.certificates, CutoffTime(now)), contractId);
    if contractId in KeptMapping(r, now) {
      MappedSurvives(r, now, contractId);
    }
  }

  /** Cleanup takes the clearance from a contract exactly if the report of its certificate in force is from before the cutoff. */
  lemma CleanupKeepsClearanceIff(r: Registry, clock: nat, now: nat, contractId: Address)
    requires RegistryOk(r, clock)
    ensures ContractCleared(CleanedUp(r, now), contractId, now) == Ok(true) <==>
            && ContractCleared(r, contractId, now) == Ok(true)
            && r.certificates[r.contractCertificates[contractId]].report.timestamp >= CutoffTime(now)
  {
    hide CutoffTime, KeptCertificates, IssueOk, WindowsOk, UnmappedOk;
    if contractId in KeptMapping(r, now) {
      MappedSurvives(r, now, contractId);
      KeptAreUnchanged(r, now, r.contractCertificates[contractId]);
    }
  }

  lemma KeptAreUnchanged(r: Registry, now: nat, id: nat)
    requires id in KeptCertificates(r.certificates, now)
    ensures id in r.certificates && KeptCertificates(r.certificates, now)[id] == r.certificates[id]
  {
  }

  lemma RunOfOne(start: Registry, call: Call)
    ensures Apply(start, call).Ok? ==> Run(start, [call]) == Apply(start, call).value
  {
    assert [call][..0] == [];
  }

  /** A certificate in force is removed: minted on day 100 for a year, with a report dated 0. */
  lemma CleanupRemovesCertificateInForce() returns (calls: seq<Call>)
    ensures |calls| == 1 && ClockRuns(0, calls)
    ensures var r, now := Run(Initialized("admin", "scanner", 0), calls), calls[0].now;
            ContractCleared(r, "c", now) == Ok(true) && ContractCleared(CleanedUp(r, now), "c", now) == Ok(false)
  {
    var now := 100 * SECONDS_PER_DAY;
    calls := [Call(MintCertificate("c", SecurityReport("c", 0, Low, "Qm12345678"), Some(365)), {"scanner"}, now)];
    var start := Initialized("admin", "scanner", 0);
    assert ValidIpfsCid("Qm12345678");
    assert Mint(start, "c", calls[0].op.report, Some(365), {"scanner"}, now).Ok?;
    RunOfOne(start, calls[0]);
    var r := Run(start, calls);
    CleanupKeepsClearanceIff(r, now, now, "c") by {
      RunKeepsOk("admin", "scanner", 0, calls);
    }
    assert "c" !in KeptMapping(r, now);
  }

  lemma ApplyKeepsOk(r: Registry, call: Call)
    requires RegistryOk(r, call.now) && Apply(r, call).Ok?
    ensures RegistryOk(Apply(r, call).value, call.now)
  {
    match call.op
    case MintCertificate(contractId, report, validityDays) =>
      MintKeepsOk(r, contractId, report, validityDays, call.authorizers, call.now);
    case RevokeCertificate(id, reason) => RevokeKeepsOk(r, id, reason, call.authorizers, call.now);
    case CleanupCertificates => CleanupKeepsOk(r, call.now);
    case _ =>
  }

  // ---------------------------------------------------------------- whole runs

  function Initialized(admin: Address, scanner: Address, now: nat): Registry {
    Registry(admin, scanner, 0, map[], map[], map[], now)
  }

  ghost function Run(start: Registry, calls: seq<Call>): Registry {
    if calls == [] then start
    else
      var n := |calls| - 1;
      match Apply(Run(start, calls[..n]), calls[n])
      case Ok(r) => r
      case Err(_) => Run(start, calls[..n])
  }

  function Clock(start: nat, calls: seq<Call>): nat {
    if calls == [] then start else calls[|calls| - 1].now
  }

  ghost predicate ClockRuns(start: nat, calls: seq<Call>) {
    forall i :: 0 <= i < |calls| ==> Clock(start, calls[..i]) <= calls[i].now
  }

  lemma {:induction false} RunKeepsOk(admin: Address, scanner: Address, t0: nat, calls: seq<Call>)
    requires ClockRuns(t0, calls)
    ensures RegistryOk(Run(Initialized(admin, scanner, t0), calls), Clock(t0, calls))
  {
    if calls != [] {
      var n := |calls| - 1;
      var start := Initialized(admin, scanner, t0);
      forall i | 0 <= i < n
        ensures Clock(t0, calls[..n][..i]) <= calls[..n][i].now
      {
        assert calls[..n][..i] == calls[..i];
      }
      RunKeepsOk(admin, scanner, t0, calls[..n]);
      ClockAdvances(Run(start, calls[..n]), Clock(t0, calls[..n]), calls[n].now);
      if Apply(Run(start, calls[..n]), calls[n]).Ok? {
        ApplyKeepsOk(Run(start, calls[..n]), calls[n]);
      }
    }
  }

  /** Two Active certificates of one contract: the windows are disjoint and in the order of the ids. */
  ghost predicate WindowsDisjoint(r: Registry) {
    forall i, j :: i in r.certificates && j in r.certificates && i < j
                   && r.certificates[i].contractId == r.certificates[j].contractId
                   && r.certificates[i].status == Active && r.certificates[j].status == Active ==>
      r.certificates[i].issuedAt < r.certificates[i].expiresAt < r.certificates[j].issuedAt < r.certificates[j].expiresAt
  }

  /**
   * In every reachable registry, at its present or any later time: validity windows of one contract do not
   * overlap, at most one certificate is in force, it is the mapped one, and clearance says precisely that.
   */
  lemma AtMostOneInForce(admin: Address, scanner: Address, t0: nat, calls: seq<Call>, contractId: Address, now: nat)
    requires ClockRuns(t0, calls) && Clock(t0, calls) <= now
    ensures var r := Run(Initialized(admin, scanner, t0), calls);
            && WindowsDisjoint(r)
            && (forall i :: i in IdsOf(r.certificates, contractId) && InForce(r.certificates[i], now) ==>
                  contractId in r.contractCertificates && r.contractCertificates[contractId] == i)
            && ContractCleared(r, contractId, now) ==
               Ok(exists i :: i in IdsOf(r.certificates, contractId) && InForce(r.certificates[i], now))
  {
    var r := Run(Initialized(admin, scanner, t0), calls);
    RunKeepsOk(admin, scanner, t0, calls);
    OkMeansOneInForce(r, Clock(t0, calls), contractId, now);
  }

  lemma OkMeansOneInForce(r: Registry, clock: nat, contractId: Address, now: nat)
    requires RegistryOk(r, clock) && clock <= now
    ensures WindowsDisjoint(r)
    ensures forall i :: i in IdsOf(r.certificates, contractId) && InForce(r.certificates[i], now) ==>
              contractId in r.contractCertificates && r.contractCertificates[contractId] == i
    ensures ContractCleared(r, contractId, now) ==
            Ok(exists i :: i in IdsOf(r.certificates, contractId) && InForce(r.certificates[i], now))
  {
    if contractId in r.contractCertificates {
      assert r.contractCertificates[contractId] in IdsOf(r.certificates, contractId);
    }
  }

  // ---------------------------------------------------------------- revocation is permanent

  /** Issued once, and if still stored, then as Revoked. */
  ghost predicate RevokedForGood(r: Registry, id: nat) {
    id <= r.counter && (id in r.certificates ==> r.certificates[id].status == Revoked)
  }

  lemma ApplyKeepsRevoked(r: Registry, call: Call, id: nat)
    requires RevokedForGood(r, id) && Apply(r, call).Ok?
    ensures RevokedForGood(Apply(r, call).value, id)
  {
  }

  lemma RevokeMakesRevoked(r: Registry, call: Call, clock: nat)
    requires RegistryOk(r, clock) && call.op.RevokeCertificate? && Apply(r, call).Ok?
    ensures RevokedForGood(Apply(r, call).value, call.op.certificateId)
  {
    hide WindowsOk, MappingOk, UnmappedOk;
  }

  lemma {:induction false} RevokedStays(start: Registry, calls: seq<Call>, k: nat, id: nat)
    requires k <= |calls| && RevokedForGood(Run(start, calls[..k]), id)
    ensures RevokedForGood(Run(start, calls), id)
  {
    var n := |calls| - 1;
    if k == |calls| {
      assert calls[..k] == calls;
    } else {
      assert calls[..n][..k] == calls[..k];
      RevokedStays(start, calls[..n], k, id);
      if Apply(Run(start, calls[..n]), calls[n]).Ok? {
        ApplyKeepsRevoked(Run(start, calls[..n]), calls[n], id);
      }
    }
  }

  /**
   * After a successful revocation (call `k`) no later call makes the certificate verify again, removal from the
   * revocation list included: it verifies as revoked, or is no longer stored.
   */
  lemma RevocationIsPermanent(admin: Address, scanner: Address, t0: nat, calls: seq<Call>, k: nat)
    requires ClockRuns(t0, calls) && k < |calls| && calls[k].op.RevokeCertificate?
    requires Apply(Run(Initialized(admin, scanner, t0), calls[..k]), calls[k]).Ok?
    ensures NotRevoked(Run(Initialized(admin, scanner, t0), calls), calls[k].op.certificateId)
            in {Ok(false), Err(CertificateNotFound)}
  {
    hide RegistryOk, Apply, RevokedForGood;
    var start, id := Initialized(admin, scanner, t0), calls[k].op.certificateId;
    var before := Run(start, calls[..k]);
    assert RegistryOk(before, Clock(t0, calls[..k])) by {
      assert forall i :: 0 <= i <= k ==> calls[..k][..i] == calls[..i];
      RunKeepsOk(admin, scanner, t0, calls[..k]);
    }
    RevokeMakesRevoked(before, calls[k], Clock(t0, calls[..k]));
    assert calls[..k + 1][..k] == calls[..k];
    assert Run(start, calls[..k + 1]) == Apply(before, calls[k]).value;
    RevokedStays(start, calls, k + 1, id);
    RevokedVerifiesFalse(Run(start, calls), id);
  }

  lemma RevokedVerifiesFalse(r: Registry, id: nat)
    requires RevokedForGood(r, id)
    ensures NotRevoked(r, id) in {Ok(false), Err(CertificateNotFound)}
  {
  }

  /** Lazy expiry never takes hold: the only call that writes Expired aborts, so no run stores it. */
  lemma {:induction false} NothingIsEverExpired(admin: Address, scanner: Address, t0: nat, calls: seq<Call>)
    ensures forall id :: id in Run(Initialized(admin, scanner, t0), calls).certificates ==>
              Run(Initialized(admin, scanner, t0), calls).certificates[id].status != Expired
  {
    if calls != [] {
      var n := |calls| - 1;
      NothingIsEverExpired(admin, scanner, t0, calls[..n]);
      if calls[n].op.GetContractCertificate? {
        ExpiryIsUndone(Run(Initialized(admin, scanner, t0), calls[..n]), calls[n].op.contractId, calls[n].now);
      }
    }
  }

  // ---------------------------------------------------------------- what verifying a certificate means

  /** The revocation list names revoked certificates only. */
  ghost predicate ListedAreRevoked(r: Registry) {
    forall id :: id in r.crl ==> RevokedForGood(r, id)
  }

  lemma ApplyKeepsListed(r: Registry, call: Call, clock: nat)
    requires ListedAreRevoked(r) && RegistryOk(r, clock) && Apply(r, call).Ok?
    ensures ListedAreRevoked(Apply(r, call).value)
  {
    hide RevokedForGood, RegistryOk;
    var r' := Apply(r, call).value;
    forall id | id in r'.crl
      ensures RevokedForGood(r', id)
    {
      if call.op.RevokeCertificate? && call.op.certificateId == id {
        RevokeMakesRevoked(r, call, clock);
      } else {
        ApplyKeepsRevoked(r, call, id);
      }
    }
  }

  lemma {:induction false} RunKeepsListed(admin: Address, scanner: Address, t0: nat, calls: seq<Call>)
    requires ClockRuns(t0, calls)
    ensures ListedAreRevoked(Run(Initialized(admin, scanner, t0), calls))
  {
    hide Apply, RegistryOk, RevokedForGood;
    if calls != [] {
      var n := |calls| - 1;
      assert forall i :: 0 <= i < n ==> calls[..n][..i] == calls[..i];
      RunKeepsListed(admin, scanner, t0, calls[..n]);
      RunKeepsOk(admin, scanner, t0, calls[..n]);
      if Apply(Run(Initialized(admin, scanner, t0), calls[..n]), calls[n]).Ok? {
        ApplyKeepsListed(Run(Initialized(admin, scanner, t0), calls[..n]), calls[n], Clock(t0, calls[..n]));
      }
    }
  }

  /**
   * In every reachable registry a stored certificate verifies exactly if it is Active, expired or not. So it verifies
   * without being in force exactly if it is Active and past its expiry.
   */
  lemma VerifiesIffActive(admin: Address, scanner: Address, t0: nat, calls: seq<Call>, id: nat, now: nat)
    requires ClockRuns(t0, calls)
    ensures var r := Run(Initialized(admin, scanner, t0), calls);
            && (NotRevoked(r, id) == Ok(true) <==> id in r.certificates && r.certificates[id].status == Active)
            && (id in r.certificates ==>
                  ((NotRevoked(r, id) == Ok(true) <==> InForce(r.certificates[id], now)) <==>
                   !(r.certificates[id].status == Active && now > r.certificates[id].expiresAt)))
  {
    hide Run;
    NothingIsEverExpired(admin, scanner, t0, calls);
    RunKeepsListed(admin, scanner, t0, calls);
  }

  /** A certificate minted for one day still verifies a second after it ran out. */
  lemma ExpiredCertificateVerifies() returns (calls: seq<Call>)
    ensures |calls| == 1 && ClockRuns(0, calls)
    ensures var r := Run(Initialized("admin", "scanner", 0), calls);
            NotRevoked(r, 1) == Ok(true) && !InForce(r.certificates[1], SECONDS_PER_DAY + 1)
  {
    calls := [Call(MintCertificate("c", SecurityReport("c", 0, Low, "Qm12345678"), Some(1)), {"scanner"}, 0)];
    assert ValidIpfsCid("Qm12345678");
    RunOfOne(Initialized("admin", "scanner", 0), calls[0]);
  }
}
