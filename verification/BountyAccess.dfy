/**
 * Whom the bounty marketplace lets act: when an assignment and an approval succeed, and what follows for payouts from
 * an assignment being checked against the contract's own address.
 */
module BountyAccess {
  import opened Foundations
  import opened BountyLedger
  import opened BountyRuns

  // ---------------------------------------------------------------- assignment

  /** The contract itself created the bounty, or is the admin. The account that makes the call plays no part. */
  predicate ContractMayAssign(p: Parties, b: Bounty) {
    p.contract == b.creator || p.contract == p.admin
  }

  lemma AssignSucceedsIff(p: Parties, m: Market, id: nat, researcher: Address)
    ensures Assign(p, m, id, researcher).Ok? <==> Exists(m, id) && ContractMayAssign(p, m.ledger[id - 1])
  {
  }

  /** In every run, only bounties of the contract itself have a researcher, unless the contract is the admin. */
  lemma {:induction false} AssignedOnlyByContract(p: Parties, calls: seq<Call>, id: nat)
    ensures var m := Run(p, calls);
            Exists(m, id) && m.ledger[id - 1].assignedResearcher.Some? ==> ContractMayAssign(p, m.ledger[id - 1])
  {
    hide Apply, MarketOk;
    if calls != [] {
      var n := |calls| - 1;
      var m := Run(p, calls[..n]);
      AssignedOnlyByContract(p, calls[..n], id);
      RunKeepsMarketOk(p, calls[..n]);
      if Apply(p, m, calls[n]).Ok? && Exists(Run(p, calls), id) {
        if Exists(m, id) {
          StepKeepsBounties(p, m, calls[n], id);
          if calls[n].op.AssignResearcher? && calls[n].op.id == id {
            AssignCallSucceeds(p, m, calls[n]);
          }
        } else {
          NewBountyIsUnassigned(p, m, calls[n], id);
        }
      }
    }
  }

  lemma AssignCallSucceeds(p: Parties, m: Market, call: Call)
    requires call.op.AssignResearcher? && Apply(p, m, call).Ok?
    ensures Exists(m, call.op.id) && ContractMayAssign(p, m.ledger[call.op.id - 1])
  {
    AssignSucceedsIff(p, m, call.op.id, call.op.researcher);
  }

  /** Only a creation adds a bounty, and it names the creator and no researcher. */
  lemma NewBountyIsUnassigned(p: Parties, m: Market, call: Call, id: nat)
    requires Apply(p, m, call).Ok? && !Exists(m, id) && Exists(Apply(p, m, call).value, id)
    ensures call.op.CreateBounty?
    ensures var b := Apply(p, m, call).value.ledger[id - 1]; b.creator == call.op.creator && b.assignedResearcher == None
  {
    hide Available, RewardOf;
  }

  /** Every bounty a claim pays in any run was created by the contract, unless the contract is the admin. */
  lemma ClaimNeedsOwnContract(p: Parties, calls: seq<Call>, id: nat, researcher: Address, authorized: bool)
    requires Claim(Run(p, calls), id, researcher, authorized).Ok?
    ensures ContractMayAssign(p, Run(p, calls).ledger[id - 1])
  {
    hide Run;
    AssignedOnlyByContract(p, calls, id);
  }

  // ---------------------------------------------------------------- contracts that create nothing themselves

  /** Neither is the contract the admin nor does any creation name it as creator. */
  ghost predicate ContractStaysOut(p: Parties, calls: seq<Call>) {
    && p.contract != p.admin
    && forall i :: 0 <= i < |calls| && calls[i].op.CreateBounty? ==> calls[i].op.creator != p.contract
  }

  lemma {:induction false} CreatorsAreNamed(p: Parties, calls: seq<Call>, id: nat)
    requires ContractStaysOut(p, calls) && Exists(Run(p, calls), id)
    ensures Run(p, calls).ledger[id - 1].creator != p.contract
  {
    hide Apply, MarketOk;
    var n := |calls| - 1;
    if calls != [] {
      var m := Run(p, calls[..n]);
      RunKeepsMarketOk(p, calls[..n]);
      if Exists(m, id) {
        CreatorsAreNamed(p, calls[..n], id);
        if Apply(p, m, calls[n]).Ok? {
          StepKeepsBounties(p, m, calls[n], id);
        }
      } else {
        NewBountyIsUnassigned(p, m, calls[n], id);
      }
    }
  }

  /** Then no bounty ever has a researcher, and no assignment can succeed. */
  lemma NobodyIsAssigned(p: Parties, calls: seq<Call>, id: nat, researcher: Address)
    requires ContractStaysOut(p, calls)
    ensures Exists(Run(p, calls), id) ==> Run(p, calls).ledger[id - 1].assignedResearcher == None
    ensures Assign(p, Run(p, calls), id, researcher) in {Err(BountyNotFound), Err(NotAuthorized)}
  {
    hide Run;
    AssignedOnlyByContract(p, calls, id);
    if Exists(Run(p, calls), id) {
      CreatorsAreNamed(p, calls, id);
    }
  }

  lemma {:induction false} NothingAvailable(ledger: seq<Bounty>, ids: seq<nat>, researcher: Address)
    requires forall k :: 0 <= k < |ledger| ==> ledger[k].assignedResearcher == None
    ensures Available(ledger, ids, researcher).Ok? ==> Available(ledger, ids, researcher).value == 0
  {
    if ids != [] {
      NothingAvailable(ledger, ids[..|ids| - 1], researcher);
    }
  }

  /** A call on a market without researchers pays nothing. */
  lemma NoPayout(p: Parties, m: Market, call: Call)
    requires forall k :: 0 <= k < |m.ledger| ==> m.ledger[k].assignedResearcher == None
    requires call.op.ClaimReward? || call.op.Withdraw?
    ensures Apply(p, m, call).Err?
  {
    if call.op.Withdraw? {
      NothingAvailable(m.ledger, AssignmentsOf(m.assignments, call.op.researcher), call.op.researcher);
    }
  }

  lemma NoCallPays(p: Parties, calls: seq<Call>, i: nat)
    requires ContractStaysOut(p, calls) && i < |calls| && (calls[i].op.ClaimReward? || calls[i].op.Withdraw?)
    ensures !Succeeds(p, calls, i)
  {
    hide Apply, Run;
    var m := Run(p, calls[..i]);
    forall k | 0 <= k < |m.ledger|
      ensures m.ledger[k].assignedResearcher == None
    {
      NobodyIsAssigned(p, calls[..i], k + 1, "");
    }
    NoPayout(p, m, calls[i]);
  }

  lemma OnlyPayoutsFlowOut(p: Parties, m: Market, call: Call)
    requires call.op.ClaimReward? || call.op.Withdraw? ==> Apply(p, m, call).Err?
    ensures FlowOf(p, m, call).claimed == 0 && FlowOf(p, m, call).withdrawn == 0
  {
    hide Apply;
  }

  /**
   * Unless the contract is the admin or creates bounties itself, no run pays anything: no claim and no withdrawal
   * succeeds, and all money stays in the contract.
   */
  lemma {:induction false} NothingIsEverPaid(p: Parties, calls: seq<Call>)
    requires ContractStaysOut(p, calls)
    ensures forall i :: 0 <= i < |calls| && (calls[i].op.ClaimReward? || calls[i].op.Withdraw?) ==> !Succeeds(p, calls, i)
    ensures TotalFlows(p, calls).claimed == 0 && TotalFlows(p, calls).withdrawn == 0
  {
    hide Apply, Run, FlowOf;
    if calls != [] {
      var n := |calls| - 1;
      NothingIsEverPaid(p, calls[..n]);
      if calls[n].op.ClaimReward? || calls[n].op.Withdraw? {
        NoCallPays(p, calls, n);
      }
      OnlyPayoutsFlowOut(p, Run(p, calls[..n]), calls[n]);
    }
    forall i | 0 <= i < |calls| && (calls[i].op.ClaimReward? || calls[i].op.Withdraw?)
      ensures !Succeeds(p, calls, i)
    {
      NoCallPays(p, calls, i);
    }
  }

  /** A creator who wants a researcher assigned to the own bounty is refused, and so is the admin. */
  lemma CreatorIsRefused()
    ensures var p := Parties("market", "admin", "owner");
            var calls := [Call(CreateBounty("alice", 100, "t", "d", Critical), true, 0)];
            && Succeeds(p, calls, 0) && Exists(Run(p, calls), 1) && Run(p, calls).ledger[0].creator == "alice"
            && Assign(p, Run(p, calls), 1, "r") == Err(NotAuthorized)
  {
    var p := Parties("market", "admin", "owner");
    var calls := [Call(CreateBounty("alice", 100, "t", "d", Critical), true, 0)];
    assert calls[..0] == [];
    RunUnfolds(p, calls);
    assert Run(p, calls).ledger == [NewBounty(1, "alice", 100, "t", "d", Critical, 0)];
  }

  // ---------------------------------------------------------------- approval and the timelock

  /** An approval succeeds for its one approver on every bounty not Completed that still lacks it, timelocked or not. */
  lemma ApprovalSucceedsIff(p: Parties, m: Market, caller: Address, id: nat, authorized: bool, now: nat)
    requires MarketOk(m)
    ensures ApproveAsAdmin(p, m, caller, id, authorized, now).Ok? <==>
            && authorized && caller == p.admin && Exists(m, id)
            && m.ledger[id - 1].status != Completed && !m.pending[id].adminApproved
    ensures ApproveAsOwner(p, m, caller, id, authorized, now).Ok? <==>
            && authorized && caller == p.owner && Exists(m, id)
            && m.ledger[id - 1].status != Completed && !m.pending[id].ownerApproved
  {
    if Exists(m, id) {
      assert LifecycleOk(m, id);
    }
  }

  /** The timelock does not delay a payout: a bounty is created, approved and claimed at one and the same time. */
  lemma ClaimedWithinTimelock() returns (p: Parties, calls: seq<Call>)
    ensures forall i :: 0 <= i < |calls| ==> calls[i].now == 0
    ensures Exists(Run(p, calls), 1) && Run(p, calls).ledger[0].timelockUntil == TIMELOCK_PERIOD
    ensures Claim(Run(p, calls), 1, "r", true).Ok?
  {
    p := Parties("market", "admin", "owner");
    calls := [Call(CreateBounty("market", 100, "t", "d", Critical), true, 0),
              Call(AssignResearcher(1, "r"), true, 0),
              Call(AdminApprove("admin", 1), true, 0),
              Call(OwnerApprove("owner", 1), true, 0)];
    WithdrawalRun(p, calls);
  }
}
