/** When each call on the certificate registry succeeds, all that it then changes, and where stored certificates come from. */
module RegistryCalls {
  import opened Foundations
  import opened ScanRegistry

  // ---------------------------------------------------------------- minting

  function DaysOf(validityDays: Option<nat>): nat {
    match validityDays
    case None => 30
    case Some(days) => days
  }

  /** At least ten characters, beginning with "Qm" or "b". */
  lemma AcceptedCids(cid: string)
    ensures ValidIpfsCid(cid) <==> |cid| >= 10 && (cid[..2] == "Qm" || cid[..1] == "b")
  {
    if |cid| >= 10 {
      assert cid[..2] == [cid[0], cid[1]] && cid[..1] == [cid[0]];
    }
  }

  /**
   * Minting succeeds exactly for the scanner, a contract address that is not the default, an accepted content id, a Low
   * or Medium risk, a contract whose current certificate is stored and no longer in force, and 1 to 365 days.
   */
  lemma MintSucceedsIff(r: Registry, contractId: Address, report: SecurityReport, validityDays: Option<nat>,
                        authorizers: set<Address>, now: nat)
    ensures Mint(r, contractId, report, validityDays, authorizers, now).Ok? <==>
            && r.scanner in authorizers && contractId != ""
            && |report.ipfsCid| >= 10 && (report.ipfsCid[..2] == "Qm" || report.ipfsCid[..1] == "b")
            && report.riskScore in {Low, Medium}
            && (contractId in r.contractCertificates ==>
                  && r.contractCertificates[contractId] in r.certificates
                  && var c := r.certificates[r.contractCertificates[contractId]];
                     c.status != Active || c.expiresAt < now)
            && 1 <= DaysOf(validityDays) <= 365
            && r.counter < U64_MAX && now + DaysOf(validityDays) * 86_400 <= U64_MAX
  {
    hide ValidIpfsCid;
    AcceptedCids(report.ipfsCid);
  }

  /** One certificate under the next id, valid from now for the named days, becomes the contract's; nothing else changes. */
  lemma MintEffect(r: Registry, contractId: Address, report: SecurityReport, validityDays: Option<nat>,
                   authorizers: set<Address>, now: nat)
    requires Mint(r, contractId, report, validityDays, authorizers, now).Ok?
    ensures var r' := Mint(r, contractId, report, validityDays, authorizers, now).value;
            var id := r.counter + 1;
            && r'.certificates == r.certificates[id := Certificate(id, contractId, report, Active, now,
                                                                   now + DaysOf(validityDays) * 86_400, r.scanner, None, None)]
            && r'.contractCertificates == r.contractCertificates[contractId := id]
            && r' == r.(counter := id, certificates := r'.certificates, contractCertificates := r'.contractCertificates)
  {
  }

  /** A contract is cleared from its minting through the last second of the named days, and no longer. */
  lemma ClearedForNamedDays(r: Registry, contractId: Address, report: SecurityReport, validityDays: Option<nat>,
                            authorizers: set<Address>, now: nat, t: nat)
    requires Mint(r, contractId, report, validityDays, authorizers, now).Ok? && now <= t
    ensures ContractCleared(Mint(r, contractId, report, validityDays, authorizers, now).value, contractId, t) ==
            Ok(t <= now + DaysOf(validityDays) * 86_400)
  {
    hide Mint;
    MintEffect(r, contractId, report, validityDays, authorizers, now);
  }

  // ---------------------------------------------------------------- revoking and administration

  /** Admin or scanner revoke any stored certificate that is not yet Revoked, the admin before the scanner as revoker. */
  lemma RevokeSucceedsIff(r: Registry, id: nat, reason: RevocationReason, authorizers: set<Address>, now: nat)
    ensures Revoke(r, id, reason, authorizers, now).Ok? <==>
            && (r.admin in authorizers || r.scanner in authorizers)
            && id in r.certificates && r.certificates[id].status in {Active, Expired}
    ensures Revoke(r, id, reason, authorizers, now).Ok? ==>
              var r' := Revoke(r, id, reason, authorizers, now).value;
              && r'.certificates.Keys == r.certificates.Keys
              && (forall i :: i in r.certificates && i != id ==> r'.certificates[i] == r.certificates[i])
              && r'.certificates[id] ==
                 r.certificates[id].(status := Revoked, revokedAt := Some(now), revokeReason := Some(reason))
              && r'.crl == r.crl[id := RevocationRecord(id, now, if r.admin in authorizers then r.admin else r.scanner, reason,
                                                        r.certificates[id].contractId)]
              && r' == r.(certificates := r'.certificates, crl := r'.crl)
  {
  }

  /** Only the admin removes revocation records, and names a new scanner or admin, none of them the default address. */
  lemma AdministrationSucceedsIff(r: Registry, authorizers: set<Address>, now: nat, id: nat, account: Address)
    ensures var call := Call(RemoveFromCrl(id), authorizers, now);
            && (Apply(r, call).Ok? <==> r.admin in authorizers)
            && (Apply(r, call).Ok? ==> Apply(r, call).value == r.(crl := r.crl - {id}))
    ensures var call := Call(UpdateScannerPublicKey(account), authorizers, now);
            && (Apply(r, call).Ok? <==> r.admin in authorizers && account != "")
            && (Apply(r, call).Ok? ==> Apply(r, call).value == r.(scanner := account))
    ensures var call := Call(TransferAdmin(account), authorizers, now);
            && (Apply(r, call).Ok? <==> r.admin in authorizers && account != "")
            && (Apply(r, call).Ok? ==> Apply(r, call).value == r.(admin := account))
  {
  }

  // ---------------------------------------------------------------- cleanup

  /** Active, with a report of the last ninety days. */
  predicate Recent(c: Certificate, now: nat) {
    c.status == Active && c.report.timestamp + 7_776_000 >= now
  }

  lemma FreshMeansRecent(r: Registry, now: nat, id: nat)
    ensures id in FreshCertificates(r.certificates, CutoffTime(now)) <==> id in r.certificates && Recent(r.certificates[id], now)
  {
  }

  /** Cleanup keeps a certificate exactly if it is recent and fewer than ten recent ones of its contract are newer. */
  lemma CleanupKeepsIff(r: Registry, now: nat, id: nat)
    ensures id in CleanedUp(r, now).certificates <==>
            && id in r.certificates && Recent(r.certificates[id], now)
            && |set j | j in r.certificates && j > id && Recent(r.certificates[j], now)
                        && r.certificates[j].contractId == r.certificates[id].contractId| < 10
    ensures id in CleanedUp(r, now).certificates ==> CleanedUp(r, now).certificates[id] == r.certificates[id]
  {
    var unstale := FreshCertificates(r.certificates, CutoffTime(now));
    FreshMeansRecent(r, now, id);
    if id in unstale {
      forall j: nat
        ensures j in NewerIds(unstale, id) <==>
                j in r.certificates && j > id && Recent(r.certificates[j], now) && r.certificates[j].contractId == r.certificates[id].contractId
      {
        FreshMeansRecent(r, now, j);
      }
      assert NewerIds(unstale, id) ==
             set j | j in r.certificates && j > id && Recent(r.certificates[j], now)
                     && r.certificates[j].contractId == r.certificates[id].contractId;
    }
  }

  // ---------------------------------------------------------------- where certificates come from

  /** Call `i` of the run minted the certificate, for the contract, report and days it named, at its time. */
  ghost predicate MintedBy(start: Registry, calls: seq<Call>, i: nat, c: Certificate)
    requires i < |calls|
  {
    && calls[i].op.MintCertificate? && Apply(Run(start, calls[..i]), calls[i]).Ok?
    && c.contractId == calls[i].op.contractId && c.report == calls[i].op.report
    && c.report.riskScore in {Low, Medium}
    && c.issuedBy == Run(start, calls[..i]).scanner && c.issuedBy in calls[i].authorizers
    && c.issuedAt == calls[i].now && c.expiresAt == calls[i].now + DaysOf(calls[i].op.validityDays) * 86_400
  }

  ghost predicate WasMinted(start: Registry, calls: seq<Call>, c: Certificate) {
    exists i :: 0 <= i < |calls| && MintedBy(start, calls, i, c)
  }

  /** What no call ever changes of a certificate. */
  ghost predicate SameIssue(a: Certificate, b: Certificate) {
    && a.contractId == b.contractId && a.report == b.report && a.issuedAt == b.issuedAt && a.expiresAt == b.expiresAt
    && a.issuedBy == b.issuedBy
  }

  lemma MintingCall(r: Registry, call: Call, id: nat)
    requires Apply(r, call).Ok? && id in Apply(r, call).value.certificates && id !in r.certificates
    ensures call.op.MintCertificate?
    ensures var c := Apply(r, call).value.certificates[id];
            && c.contractId == call.op.contractId && c.report == call.op.report && c.report.riskScore in {Low, Medium}
            && c.issuedBy == r.scanner && c.issuedBy in call.authorizers
            && c.issuedAt == call.now && c.expiresAt == call.now + DaysOf(call.op.validityDays) * 86_400
  {
    hide ValidIpfsCid;
  }

  lemma OtherCallsKeepIssue(r: Registry, call: Call, clock: nat, id: nat)
    requires RegistryOk(r, clock) && Apply(r, call).Ok? && id in Apply(r, call).value.certificates && id in r.certificates
    ensures SameIssue(Apply(r, call).value.certificates[id], r.certificates[id])
  {
    hide ValidIpfsCid, WindowsOk, MappingOk, UnmappedOk;
  }

  lemma MintedExtends(start: Registry, calls: seq<Call>, a: Certificate, b: Certificate)
    requires calls != [] && SameIssue(a, b) && WasMinted(start, calls[..|calls| - 1], b)
    ensures WasMinted(start, calls, a)
  {
    hide Apply, Run;
    var front := calls[..|calls| - 1];
    var i :| 0 <= i < |front| && MintedBy(start, front, i, b);
    assert front[..i] == calls[..i] && front[i] == calls[i];
    assert MintedBy(start, calls, i, a);
  }

  /**
   * In every run each stored certificate was minted by the scanner of the time, for a report of Low or Medium risk, is
   * issued at its call's time and expires the named days later, thirty if none were named.
   */
  lemma {:induction false} EveryCertificateWasMinted(admin: Address, scanner: Address, t0: nat, calls: seq<Call>, id: nat)
    requires ClockRuns(t0, calls)
    ensures var r := Run(Initialized(admin, scanner, t0), calls);
            id in r.certificates ==> WasMinted(Initialized(admin, scanner, t0), calls, r.certificates[id])
  {
    hide Apply, RegistryOk, WasMinted;
    if calls != [] {
      var n := |calls| - 1;
      var start := Initialized(admin, scanner, t0);
      var before := Run(start, calls[..n]);
      assert forall i :: 0 <= i < n ==> calls[..n][..i] == calls[..i];
      EveryCertificateWasMinted(admin, scanner, t0, calls[..n], id);
      RunKeepsOk(admin, scanner, t0, calls[..n]);
      if id in Run(start, calls).certificates {
        var c := Run(start, calls).certificates[id];
        if id in before.certificates {
          if Apply(before, calls[n]).Ok? {
            OtherCallsKeepIssue(before, calls[n], Clock(t0, calls[..n]), id);
          }
          MintedExtends(start, calls, c, before.certificates[id]);
        } else {
          MintingCall(before, calls[n], id);
          assert MintedBy(start, calls, n, c);
          LastCallMinted(start, calls, c);
        }
      }
    }
  }

  lemma LastCallMinted(start: Registry, calls: seq<Call>, c: Certificate)
    requires calls != [] && MintedBy(start, calls, |calls| - 1, c)
    ensures WasMinted(start, calls, c)
  {
  }
}
