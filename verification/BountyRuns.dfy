/** Whole runs of the bounty marketplace from its initialisation: solvency, conservation, single payment, due approval. */
module BountyRuns {
  import opened Foundations
  import opened BountyLedger

  /** A call that fails is rolled back. */
  function Step(p: Parties, m: Market, call: Call): Market {
    match Apply(p, m, call)
    case Ok(m') => m'
    case Err(_) => m
  }

  function Run(p: Parties, calls: seq<Call>): Market {
    if calls == [] then EMPTY_MARKET
    else Step(p, Run(p, calls[..|calls| - 1]), calls[|calls| - 1])
  }

  /** Call `i` of the run succeeded. */
  predicate Succeeds(p: Parties, calls: seq<Call>, i: nat)
    requires i < |calls|
  {
    Apply(p, Run(p, calls[..i]), calls[i]).Ok?
  }

  lemma {:induction false} RunKeepsMarketOk(p: Parties, calls: seq<Call>)
    ensures MarketOk(Run(p, calls))
  {
    if calls != [] {
      var n := |calls| - 1;
      RunKeepsMarketOk(p, calls[..n]);
      if Apply(p, Run(p, calls[..n]), calls[n]).Ok? {
        ApplyKeepsMarketOk(p, Run(p, calls[..n]), calls[n]);
      }
    }
  }

  // ---------------------------------------------------------------- money

  /** The amounts of all bounties not yet Completed. */
  ghost function Outstanding(ledger: seq<Bounty>): int {
    if ledger == [] then 0
    else
      var b := ledger[|ledger| - 1];
      Outstanding(ledger[..|ledger| - 1]) + (if b.status == Completed then 0 else b.amount)
  }

  /** What has gone in and out; `retained` is the part of claimed bounties that was not paid. */
  datatype Flows = Flows(deposited: int, replenished: int, claimed: int, withdrawn: int, retained: int)

  ghost function FlowOf(p: Parties, m: Market, call: Call): Flows {
    if Apply(p, m, call).Err? then Flows(0, 0, 0, 0, 0)
    else
      match call.op
      case CreateBounty(_, amount, _, _, _) => Flows(amount, 0, 0, 0, 0)
      case ReplenishEscrow(_, amount) => Flows(0, amount, 0, 0, 0)
      case ClaimReward(id, _) => var b := m.ledger[id - 1];
        Flows(0, 0, RewardOf(b).value, 0, b.amount - RewardOf(b).value)
      case Withdraw(_, amount) => Flows(0, 0, 0, amount, 0)
      case _ => Flows(0, 0, 0, 0, 0)
  }

  ghost function AddFlows(a: Flows, b: Flows): Flows {
    Flows(a.deposited + b.deposited, a.replenished + b.replenished, a.claimed + b.claimed,
          a.withdrawn + b.withdrawn, a.retained + b.retained)
  }

  ghost function TotalFlows(p: Parties, calls: seq<Call>): Flows {
    if calls == [] then Flows(0, 0, 0, 0, 0)
    else
      var n := |calls| - 1;
      AddFlows(TotalFlows(p, calls[..n]), FlowOf(p, Run(p, calls[..n]), calls[n]))
  }

  lemma {:induction false} OutstandingChange(ledger: seq<Bounty>, id: nat, c: Change)
    requires 1 <= id <= |ledger|
    ensures var b, b' := ledger[id - 1], Changed(ledger[id - 1], c);
            Outstanding(WithChange(ledger, id, c)) ==
            Outstanding(ledger) - (if b.status == Completed then 0 else b.amount)
                                + (if b'.status == Completed then 0 else b'.amount)
  {
    var n := |ledger| - 1;
    var changed := WithChange(ledger, id, c);
    if id - 1 == n {
      assert changed[..n] == ledger[..n];
    } else {
      OutstandingChange(ledger[..n], id, c);
      assert changed[..n] == WithChange(ledger[..n], id, c);
    }
  }

  /** The reward never exceeds the bounty's amount. */
  lemma RewardAtMostAmount(b: Bounty)
    requires b.amount > 0 && RewardOf(b).Ok?
    ensures 0 <= RewardOf(b).value <= b.amount
    ensures RewardOf(b).value == b.amount * RewardPercentage(b.severity) / 100
  {
  }

  /** Balance and outstanding amounts move by exactly the flow of the call. */
  ghost predicate Conserves(m: Market, m': Market, f: Flows) {
    && m'.balance == m.balance + f.deposited + f.replenished - f.claimed - f.withdrawn
    && Outstanding(m'.ledger) == Outstanding(m.ledger) + f.deposited - f.claimed - f.retained
    && f.retained >= 0
  }

  lemma ApprovalConserves(p: Parties, m: Market, call: Call)
    requires MarketOk(m) && (call.op.AdminApprove? || call.op.OwnerApprove?) && Apply(p, m, call).Ok?
    ensures Conserves(m, Apply(p, m, call).value, FlowOf(p, m, call))
  {
    hide Outstanding;
    assert Exists(m, call.op.id) && LifecycleOk(m, call.op.id);
    OutstandingChange(m.ledger, call.op.id, SetStatus(Approved));
  }

  lemma ClaimConserves(p: Parties, m: Market, call: Call)
    requires MarketOk(m) && call.op.ClaimReward? && Apply(p, m, call).Ok?
    ensures Conserves(m, Apply(p, m, call).value, FlowOf(p, m, call))
  {
    hide Outstanding, MarketOk, RewardOf;
    assert m.ledger[call.op.id - 1].amount > 0 by {
      AmountPositive(m, call.op.id);
    }
    RewardAtMostAmount(m.ledger[call.op.id - 1]);
    OutstandingChange(m.ledger, call.op.id, SetStatus(Completed));
  }

  lemma AmountPositive(m: Market, id: nat)
    requires MarketOk(m) && Exists(m, id)
    ensures m.ledger[id - 1].amount > 0
  {
  }

  lemma OtherCallsConserve(p: Parties, m: Market, call: Call)
    requires MarketOk(m) && Apply(p, m, call).Ok?
    requires call.op.CreateBounty? || call.op.AssignResearcher? || call.op.CheckTimelock? || call.op.Withdraw? || call.op.ReplenishEscrow?
    ensures Conserves(m, Apply(p, m, call).value, FlowOf(p, m, call))
  {
    hide MarketOk, Available;
    match call.op {
      case CreateBounty(_, _, _, _, _) =>
        assert Apply(p, m, call).value.ledger[..|m.ledger|] == m.ledger;
      case AssignResearcher(id, researcher) =>
        OutstandingChange(m.ledger, id, SetResearcher(researcher));
      case CheckTimelock(id) =>
        OutstandingChange(m.ledger, id, SetStatus(Active));
      case _ =>
    }
  }

  lemma StepConserves(p: Parties, m: Market, call: Call)
    requires MarketOk(m) && Apply(p, m, call).Ok?
    ensures Conserves(m, Apply(p, m, call).value, FlowOf(p, m, call))
  {
    hide Conserves, MarketOk, Apply, FlowOf;
    match call.op {
      case AdminApprove(_, _) => ApprovalConserves(p, m, call);
      case OwnerApprove(_, _) => ApprovalConserves(p, m, call);
      case ClaimReward(_, _) => ClaimConserves(p, m, call);
      case _ => OtherCallsConserve(p, m, call);
    }
  }

  /** In every run the balance is what came in minus what was paid, and is never negative. */
  lemma {:induction false} RunConserves(p: Parties, calls: seq<Call>)
    ensures var m, f := Run(p, calls), TotalFlows(p, calls);
            && m.balance == f.deposited + f.replenished - f.claimed - f.withdrawn
            && m.balance >= 0
            && m.balance - Outstanding(m.ledger) == f.replenished + f.retained - f.withdrawn
            && f.retained >= 0
  {
    RunKeepsMarketOk(p, calls);
    if calls != [] {
      var n := |calls| - 1;
      RunConserves(p, calls[..n]);
      RunKeepsMarketOk(p, calls[..n]);
      if Apply(p, Run(p, calls[..n]), calls[n]).Ok? {
        StepConserves(p, Run(p, calls[..n]), calls[n]);
        assert Conserves(Run(p, calls[..n]), Run(p, calls), FlowOf(p, Run(p, calls[..n]), calls[n]));
      }
    }
  }

  ghost predicate Solvent(m: Market) {
    m.balance >= Outstanding(m.ledger)
  }

  /** Exactly the withdrawals can break solvency: it holds while they are covered by replenishments and retained parts. */
  lemma SolventIff(p: Parties, calls: seq<Call>)
    ensures Solvent(Run(p, calls)) <==>
            TotalFlows(p, calls).withdrawn <= TotalFlows(p, calls).replenished + TotalFlows(p, calls).retained
  {
    RunConserves(p, calls);
  }

  ghost predicate NoWithdrawals(calls: seq<Call>) {
    forall i :: 0 <= i < |calls| ==> !calls[i].op.Withdraw?
  }

  lemma {:induction false} NoWithdrawalFlow(p: Parties, calls: seq<Call>)
    requires NoWithdrawals(calls)
    ensures TotalFlows(p, calls).withdrawn == 0 && TotalFlows(p, calls).replenished >= 0
  {
    if calls != [] {
      NoWithdrawalFlow(p, calls[..|calls| - 1]);
    }
  }

  lemma {:induction false} OutstandingCoversEach(ledger: seq<Bounty>, id: nat)
    requires 1 <= id <= |ledger| && ledger[id - 1].status != Completed
    requires forall k :: 0 <= k < |ledger| ==> ledger[k].amount > 0
    ensures ledger[id - 1].amount <= Outstanding(ledger)
  {
    var n := |ledger| - 1;
    if id - 1 < n {
      OutstandingCoversEach(ledger[..n], id);
    } else {
      OutstandingNonNegative(ledger[..n]);
    }
  }

  lemma {:induction false} OutstandingNonNegative(ledger: seq<Bounty>)
    requires forall k :: 0 <= k < |ledger| ==> ledger[k].amount > 0
    ensures Outstanding(ledger) >= 0
  {
    if ledger != [] {
      OutstandingNonNegative(ledger[..|ledger| - 1]);
    }
  }

  /** Amounts for which the percentage neither overflows nor rounds to nothing. */
  predicate Payable(b: Bounty) {
    match b.severity
    case Medium => 2 <= b.amount <= I128_MAX / 60
    case Low => 4 <= b.amount <= I128_MAX / 30
    case _ => b.amount >= 1
  }

  lemma PayableIff(b: Bounty)
    requires b.amount > 0
    ensures Payable(b) <==> RewardOf(b).Ok? && RewardOf(b).value > 0
  {
  }

  /**
   * In a solvent market a claim never lacks funds: it succeeds exactly when the assigned researcher claims an
   * approved bounty whose amount is payable. A Low bounty under 4 or a Medium bounty of 1 can never be claimed.
   */
  lemma ClaimSucceedsIff(m: Market, id: nat, researcher: Address, authorized: bool)
    requires MarketOk(m) && Solvent(m)
    ensures Claim(m, id, researcher, authorized) != Err(InsufficientEscrow)
    ensures Claim(m, id, researcher, authorized).Ok? <==>
            && authorized && Exists(m, id)
            && m.ledger[id - 1].status == Approved
            && m.ledger[id - 1].assignedResearcher == Some(researcher)
            && Payable(m.ledger[id - 1])
  {
    if Exists(m, id) && m.ledger[id - 1].status == Approved {
      var b := m.ledger[id - 1];
      assert LifecycleOk(m, id) && b.amount > 0;
      PayableIff(b);
      forall k | 0 <= k < |m.ledger|
        ensures m.ledger[k].amount > 0
      {
        AmountPositive(m, k + 1);
      }
      OutstandingCoversEach(m.ledger, id);
      if RewardOf(b).Ok? {
        RewardAtMostAmount(b);
      }
    }
  }

  /** Without withdrawals every reachable market is solvent, and no claim in it fails for lack of funds. */
  lemma ReachableMarketIsSolvent(p: Parties, calls: seq<Call>, id: nat, researcher: Address, authorized: bool)
    requires NoWithdrawals(calls)
    ensures Solvent(Run(p, calls))
    ensures Claim(Run(p, calls), id, researcher, authorized) != Err(InsufficientEscrow)
  {
    NoWithdrawalFlow(p, calls);
    RunConserves(p, calls);
    SolventIff(p, calls);
    RunKeepsMarketOk(p, calls);
    ClaimSucceedsIff(Run(p, calls), id, researcher, authorized);
  }

  // ---------------------------------------------------------------- bounties are permanent, Completed is terminal

  /** What no call ever changes of a bounty. */
  ghost predicate SameTerms(a: Bounty, b: Bounty) {
    && a.id == b.id && a.creator == b.creator && a.amount == b.amount && a.title == b.title
    && a.description == b.description && a.severity == b.severity
    && a.createdAt == b.createdAt && a.timelockUntil == b.timelockUntil
  }

  /** What one call may do to an existing bounty: terms stay, the status moves only forward, Completed is final. */
  ghost predicate BountyStep(m: Market, m': Market, call: Call, id: nat)
    requires Exists(m, id)
  {
    && Exists(m', id)
    && var b, b' := m.ledger[id - 1], m'.ledger[id - 1];
       && SameTerms(b, b')
       && (b.status == Completed ==> b'.status == Completed)
       && (b'.status == Completed && b.status != Completed <==> call.op.ClaimReward? && call.op.id == id)
       && (b'.status == Approved && b.status != Approved ==>
             BothApproved(m', id) && (call.op.AdminApprove? || call.op.OwnerApprove?))
       && (b'.status == Active && b.status != Active ==>
             call.op == CheckTimelock(id) && b.status == Timelocked && call.now >= b.timelockUntil)
       && (b'.assignedResearcher != b.assignedResearcher ==> call.op.AssignResearcher? && call.op.id == id)
  }

  lemma ApprovalBountyStep(p: Parties, m: Market, call: Call, id: nat)
    requires MarketOk(m) && Exists(m, id) && Apply(p, m, call).Ok?
    requires call.op.AdminApprove? || call.op.OwnerApprove?
    ensures BountyStep(m, Apply(p, m, call).value, call, id)
  {
    assert LifecycleOk(m, id);
  }

  lemma OtherBountyStep(p: Parties, m: Market, call: Call, id: nat)
    requires Exists(m, id) && Apply(p, m, call).Ok?
    requires !call.op.AdminApprove? && !call.op.OwnerApprove?
    ensures BountyStep(m, Apply(p, m, call).value, call, id)
  {
    hide Available, RewardOf;
  }

  lemma StepKeepsBounties(p: Parties, m: Market, call: Call, id: nat)
    requires MarketOk(m) && Exists(m, id) && Apply(p, m, call).Ok?
    ensures BountyStep(m, Apply(p, m, call).value, call, id)
  {
    hide BountyStep, Apply, MarketOk;
    if call.op.AdminApprove? || call.op.OwnerApprove? {
      ApprovalBountyStep(p, m, call, id);
    } else {
      OtherBountyStep(p, m, call, id);
    }
  }

  lemma {:induction false} TimelockIsSevenDays(p: Parties, calls: seq<Call>, id: nat)
    ensures Exists(Run(p, calls), id) ==>
              var b := Run(p, calls).ledger[id - 1];
              b.timelockUntil == b.createdAt + TIMELOCK_PERIOD
  {
    if calls != [] {
      var n := |calls| - 1;
      var m := Run(p, calls[..n]);
      TimelockIsSevenDays(p, calls[..n], id);
      RunKeepsMarketOk(p, calls[..n]);
      if Apply(p, m, calls[n]).Ok? && Exists(m, id) {
        StepKeepsBounties(p, m, calls[n], id);
      }
    }
  }

  /** In a run, no call makes a bounty Active before seven days have passed since its creation. */
  lemma ActiveOnlyAfterTimelock(p: Parties, calls: seq<Call>, id: nat)
    requires calls != [] && Exists(Run(p, calls[..|calls| - 1]), id)
    requires Run(p, calls[..|calls| - 1]).ledger[id - 1].status != Active
    ensures Exists(Run(p, calls), id)
    ensures var b := Run(p, calls).ledger[id - 1];
            b.status == Active ==>
              calls[|calls| - 1].op == CheckTimelock(id) && calls[|calls| - 1].now >= b.createdAt + TIMELOCK_PERIOD
  {
    hide Apply, MarketOk;
    var n := |calls| - 1;
    var m := Run(p, calls[..n]);
    TimelockIsSevenDays(p, calls[..n], id);
    RunKeepsMarketOk(p, calls[..n]);
    if Apply(p, m, calls[n]).Ok? {
      StepKeepsBounties(p, m, calls[n], id);
    }
  }

  /** The number of successful claims of one bounty in a run. */
  ghost function ClaimsOf(p: Parties, calls: seq<Call>, id: nat): nat {
    if calls == [] then 0
    else
      var n := |calls| - 1;
      ClaimsOf(p, calls[..n], id)
      + (if Succeeds(p, calls, n) && calls[n].op.ClaimReward? && calls[n].op.id == id then 1 else 0)
  }

  /** A bounty is paid by a claim at most once: as often as it is Completed. */
  lemma {:induction false} PaidAtMostOnce(p: Parties, calls: seq<Call>, id: nat)
    ensures var m := Run(p, calls);
            ClaimsOf(p, calls, id) == if Exists(m, id) && m.ledger[id - 1].status == Completed then 1 else 0
  {
    if calls != [] {
      var n := |calls| - 1;
      var m := Run(p, calls[..n]);
      PaidAtMostOnce(p, calls[..n], id);
      RunKeepsMarketOk(p, calls[..n]);
      if Apply(p, m, calls[n]).Ok? && Exists(m, id) {
        StepKeepsBounties(p, m, calls[n], id);
      }
    }
  }

  // ---------------------------------------------------------------- every payment was duly approved

  ghost predicate AdminApprovedIn(p: Parties, calls: seq<Call>, id: nat) {
    exists i :: 0 <= i < |calls| && Succeeds(p, calls, i) && calls[i].op == AdminApprove(p.admin, id) && calls[i].authorized
  }

  ghost predicate OwnerApprovedIn(p: Parties, calls: seq<Call>, id: nat) {
    exists i :: 0 <= i < |calls| && Succeeds(p, calls, i) && calls[i].op == OwnerApprove(p.owner, id) && calls[i].authorized
  }

  /** The last successful assignment of the bounty in the run named this researcher. */
  ghost predicate LastAssigned(p: Parties, calls: seq<Call>, id: nat, researcher: Address) {
    exists i :: 0 <= i < |calls| && Succeeds(p, calls, i) && calls[i].op == AssignResearcher(id, researcher)
                && forall j :: i < j < |calls| && calls[j].op.AssignResearcher? && calls[j].op.id == id ==> !Succeeds(p, calls, j)
  }

  lemma PrefixSucceeds(p: Parties, calls: seq<Call>, i: nat)
    requires i < |calls| - 1
    ensures Succeeds(p, calls[..|calls| - 1], i) <==> Succeeds(p, calls, i)
  {
    assert calls[..|calls| - 1][..i] == calls[..i];
  }

  lemma ApprovalsPersist(p: Parties, calls: seq<Call>, id: nat)
    requires calls != []
    ensures AdminApprovedIn(p, calls[..|calls| - 1], id) ==> AdminApprovedIn(p, calls, id)
    ensures OwnerApprovedIn(p, calls[..|calls| - 1], id) ==> OwnerApprovedIn(p, calls, id)
  {
    hide Succeeds;
    var n := |calls| - 1;
    var front := calls[..n];
    if AdminApprovedIn(p, front, id) {
      var i :| 0 <= i < n && Succeeds(p, front, i) && front[i].op == AdminApprove(p.admin, id) && front[i].authorized;
      PrefixSucceeds(p, calls, i);
      assert Succeeds(p, calls, i) && calls[i] == front[i];
    }
    if OwnerApprovedIn(p, front, id) {
      var i :| 0 <= i < n && Succeeds(p, front, i) && front[i].op == OwnerApprove(p.owner, id) && front[i].authorized;
      PrefixSucceeds(p, calls, i);
      assert Succeeds(p, calls, i) && calls[i] == front[i];
    }
  }

  /** A flag newly set by one call was set by the approver's authorised call. */
  lemma FlagsChangeByApproval(p: Parties, m: Market, call: Call, id: nat)
    requires Apply(p, m, call).Ok?
    ensures var m' := Apply(p, m, call).value;
            && (id in m'.pending && m'.pending[id].adminApproved && !(id in m.pending && m.pending[id].adminApproved) ==>
                  call.op == AdminApprove(p.admin, id) && call.authorized)
            && (id in m'.pending && m'.pending[id].ownerApproved && !(id in m.pending && m.pending[id].ownerApproved) ==>
                  call.op == OwnerApprove(p.owner, id) && call.authorized)
  {
    hide Available, RewardOf;
  }

  lemma {:induction false} ApprovalFlagsHaveCauses(p: Parties, calls: seq<Call>, id: nat)
    ensures var m := Run(p, calls);
            id in m.pending ==>
              && (m.pending[id].adminApproved ==> AdminApprovedIn(p, calls, id))
              && (m.pending[id].ownerApproved ==> OwnerApprovedIn(p, calls, id))
  {
    hide Apply;
    if calls != [] {
      var n := |calls| - 1;
      ApprovalFlagsHaveCauses(p, calls[..n], id);
      ApprovalsPersist(p, calls, id);
      if Succeeds(p, calls, n) {
        FlagsChangeByApproval(p, Run(p, calls[..n]), calls[n], id);
      }
    }
  }

  lemma {:induction false} AssignmentHasCause(p: Parties, calls: seq<Call>, id: nat)
    ensures var m := Run(p, calls);
            Exists(m, id) && m.ledger[id - 1].assignedResearcher.Some? ==>
              LastAssigned(p, calls, id, m.ledger[id - 1].assignedResearcher.value)
  {
    if calls != [] {
      var n := |calls| - 1;
      AssignmentHasCause(p, calls[..n], id);
      var before, after := Run(p, calls[..n]), Run(p, calls);
      if Exists(after, id) && after.ledger[id - 1].assignedResearcher.Some? {
        var r := after.ledger[id - 1].assignedResearcher.value;
        if Succeeds(p, calls, n) && calls[n].op.AssignResearcher? && calls[n].op.id == id {
          assert calls[n].op == AssignResearcher(id, r);
        } else {
          assert before.ledger[id - 1].assignedResearcher == Some(r);
          LastAssignedExtends(p, calls, id, r);
        }
      }
    }
  }

  lemma LastAssignedExtends(p: Parties, calls: seq<Call>, id: nat, r: Address)
    requires calls != [] && LastAssigned(p, calls[..|calls| - 1], id, r)
    requires !(Succeeds(p, calls, |calls| - 1) && calls[|calls| - 1].op.AssignResearcher? && calls[|calls| - 1].op.id == id)
    ensures LastAssigned(p, calls, id, r)
  {
    hide Succeeds;
    var n := |calls| - 1;
    var front := calls[..n];
    var i :| 0 <= i < n && Succeeds(p, front, i) && front[i].op == AssignResearcher(id, r)
             && forall j :: i < j < n && front[j].op.AssignResearcher? && front[j].op.id == id ==> !Succeeds(p, front, j);
    PrefixSucceeds(p, calls, i);
    forall j | i < j < |calls| && calls[j].op.AssignResearcher? && calls[j].op.id == id
      ensures !Succeeds(p, calls, j)
    {
      if j < n {
        PrefixSucceeds(p, calls, j);
        assert front[j] == calls[j];
      }
    }
    assert calls[i].op == AssignResearcher(id, r);
  }

  /**
   * Safety of payouts over every run: a claim that succeeds was approved before by the admin and by the owner,
   * is made by the researcher of the bounty's last successful assignment, and pays the severity's share.
   */
  lemma EveryClaimWasApproved(p: Parties, calls: seq<Call>, id: nat, researcher: Address, authorized: bool)
    requires Claim(Run(p, calls), id, researcher, authorized).Ok?
    ensures authorized
    ensures AdminApprovedIn(p, calls, id) && OwnerApprovedIn(p, calls, id)
    ensures LastAssigned(p, calls, id, researcher)
    ensures var b := Run(p, calls).ledger[id - 1];
            Run(p, calls).balance - Claim(Run(p, calls), id, researcher, authorized).value.balance
            == b.amount * RewardPercentage(b.severity) / 100
  {
    hide AdminApprovedIn, OwnerApprovedIn, LastAssigned, Run;
    RunKeepsMarketOk(p, calls);
    ApprovalFlagsHaveCauses(p, calls, id);
    AssignmentHasCause(p, calls, id);
    RewardAtMostAmount(Run(p, calls).ledger[id - 1]);
  }

  // ---------------------------------------------------------------- what withdrawing does

  /** The market after a bounty of 100 was created, assigned and approved by both, and 100 was withdrawn. */
  function WithdrawnMarket(): Market {
    var b := NewBounty(1, "market", 100, "t", "d", Critical, 0).(status := Approved, assignedResearcher := Some("r"));
    Market([b], 0, map[1 := Approval(1, "market", true, true, Some(0), Some(0))], map["r" := [1]])
  }

  lemma WithdrawalRun(p: Parties, calls: seq<Call>)
    requires p == Parties("market", "admin", "owner")
    requires calls == [Call(CreateBounty("market", 100, "t", "d", Critical), true, 0),
                       Call(AssignResearcher(1, "r"), true, 0),
                       Call(AdminApprove("admin", 1), true, 0),
                       Call(OwnerApprove("owner", 1), true, 0)]
    ensures Run(p, calls) == WithdrawnMarket().(balance := 100)
  {
    hide Run;
    var m1 := Step(p, EMPTY_MARKET, calls[0]);
    assert m1.ledger == [NewBounty(1, "market", 100, "t", "d", Critical, 0)];
    var m2 := Step(p, m1, calls[1]);
    assert AssignmentsOf(m1.assignments, "r") + [1] == [1];
    assert m2.assignments == map["r" := [1]];
    var m3 := Step(p, m2, calls[2]);
    var m4 := Step(p, m3, calls[3]);
    assert m4 == WithdrawnMarket().(balance := 100);
    RunUnfolds(p, calls);
    RunUnfolds(p, calls[..3]);
    RunUnfolds(p, calls[..2]);
    RunUnfolds(p, calls[..1]);
    RunUnfolds(p, []);
    assert calls[..3][..2] == calls[..2] && calls[..2][..1] == calls[..1] && calls[..1][..0] == [];
  }

  lemma RunUnfolds(p: Parties, calls: seq<Call>)
    ensures calls == [] ==> Run(p, calls) == EMPTY_MARKET
    ensures calls != [] ==> Run(p, calls) == Step(p, Run(p, calls[..|calls| - 1]), calls[|calls| - 1])
  {
  }

  /** A withdrawal leaves the bounty Approved: paid out once, it stays due, and the claim that follows finds no funds. */
  lemma WithdrawalBreaksSolvency() returns (p: Parties, calls: seq<Call>)
    ensures calls != [] && calls[|calls| - 1].op == Withdraw("r", 100) && Succeeds(p, calls, |calls| - 1)
    ensures Solvent(Run(p, calls[..|calls| - 1])) && !Solvent(Run(p, calls))
    ensures Claim(Run(p, calls), 1, "r", true) == Err(InsufficientEscrow)
  {
    p := Parties("market", "admin", "owner");
    var approved := [Call(CreateBounty("market", 100, "t", "d", Critical), true, 0),
                     Call(AssignResearcher(1, "r"), true, 0),
                     Call(AdminApprove("admin", 1), true, 0),
                     Call(OwnerApprove("owner", 1), true, 0)];
    WithdrawalRun(p, approved);
    calls := approved + [Call(Withdraw("r", 100), true, 0)];
    assert calls[..4] == approved;
    var m := WithdrawnMarket();
    assert [1][..0] == [] && m.ledger[..0] == [];
    assert Available(m.ledger, [], "r") == Ok(0);
    assert Available(m.ledger, [1], "r") == Ok(100);
    assert Outstanding(m.ledger) == 100;
  }
}
