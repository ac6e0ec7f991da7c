/** When each call on the bounty marketplace succeeds, and all that it then changes. */
module BountyCalls {
  import opened Foundations
  import opened BountyLedger
  import opened BountyRuns
  import opened BountyWithdrawals

  // ---------------------------------------------------------------- creation

  /** A deposit by an authorised creator is held for seven days, and the bounty says what the call said. */
  lemma CreateSucceedsIff(m: Market, creator: Address, amount: int, title: string, description: string, severity: Severity,
                          authorized: bool, now: nat)
    requires m.balance >= 0
    ensures var r := Create(m, CreateBounty(creator, amount, title, description, severity), authorized, now);
            && (r.Ok? <==> && authorized && title != "" && description != ""
                           && 1 <= amount <= I128_MAX - m.balance
                           && now + 604_800 <= U64_MAX && |m.ledger| < U64_MAX)
            && (r.Ok? ==>
                  var id := |m.ledger| + 1;
                  && r.value.balance == m.balance + amount
                  && |r.value.ledger| == id && r.value.ledger[..id - 1] == m.ledger
                  && r.value.ledger[id - 1].id == id
                  && IsNewBounty(r.value.ledger[id - 1], creator, amount, title, description, severity, now)
                  && r.value.pending == m.pending[id := Approval(id, creator, false, false, None, None)]
                  && r.value.assignments == m.assignments)
  {
  }

  /** As the call described it, locked, and with nobody assigned. */
  predicate IsNewBounty(b: Bounty, creator: Address, amount: int, title: string, description: string, severity: Severity, now: nat) {
    && b.creator == creator && b.amount == amount && b.title == title && b.description == description && b.severity == severity
    && b.status == Timelocked && b.createdAt == now && b.timelockUntil == now + 604_800
    && b.assignedResearcher == None && !b.approvedByAdmin && !b.approvedByOwner
  }

  // ---------------------------------------------------------------- approval, timelock, replenishment

  /** What an approval leaves behind: one flag with its time, and the status once both flags are set. */
  lemma ApprovalEffect(p: Parties, m: Market, caller: Address, id: nat, authorized: bool, now: nat)
    requires MarketOk(m) && Exists(m, id) && id in m.pending
    ensures var r, a := ApproveAsAdmin(p, m, caller, id, authorized, now), m.pending[id];
            r.Ok? ==> ApprovalStored(m, r.value, id, Approval(a.bountyId, a.researcher, true, a.ownerApproved, Some(now), a.ownerApprovalTime))
    ensures var r, a := ApproveAsOwner(p, m, caller, id, authorized, now), m.pending[id];
            r.Ok? ==> ApprovalStored(m, r.value, id, Approval(a.bountyId, a.researcher, a.adminApproved, true, a.adminApprovalTime, Some(now)))
  {
  }

  ghost predicate ApprovalStored(m: Market, m': Market, id: nat, a: Approval)
    requires Exists(m, id)
  {
    && m'.balance == m.balance && m'.assignments == m.assignments && m'.pending == m.pending[id := a]
    && OnlyBountyChanges(m.ledger, m'.ledger, id)
    && m'.ledger[id - 1] == (if a.adminApproved && a.ownerApproved then m.ledger[id - 1].(status := Approved) else m.ledger[id - 1])
  }

  ghost predicate OnlyBountyChanges(ledger: seq<Bounty>, ledger': seq<Bounty>, id: nat) {
    |ledger'| == |ledger| && forall k :: 0 <= k < |ledger| && k != id - 1 ==> ledger'[k] == ledger[k]
  }

  /** Exactly a due timelock opens, and a check that opens nothing changes nothing. */
  lemma TimelockOpensIff(m: Market, id: nat, now: nat)
    ensures Unlock(m, id, now).Ok? <==> Exists(m, id)
    ensures Exists(m, id) && m.ledger[id - 1].status == Timelocked && m.ledger[id - 1].timelockUntil <= now ==>
              && Unlock(m, id, now).value == m.(ledger := Unlock(m, id, now).value.ledger)
              && OnlyBountyChanges(m.ledger, Unlock(m, id, now).value.ledger, id)
              && Unlock(m, id, now).value.ledger[id - 1] == m.ledger[id - 1].(status := Active)
    ensures Exists(m, id) && !(m.ledger[id - 1].status == Timelocked && m.ledger[id - 1].timelockUntil <= now) ==>
              Unlock(m, id, now).value == m
  {
  }

  /** In every run a bounty that is still locked seven days after its creation opens at the next check. */
  lemma TimelockOpensAfterSevenDays(p: Parties, calls: seq<Call>, id: nat, now: nat)
    requires Exists(Run(p, calls), id) && Run(p, calls).ledger[id - 1].status == Timelocked
    ensures Unlock(Run(p, calls), id, now).Ok?
    ensures Unlock(Run(p, calls), id, now).value.ledger[id - 1].status ==
            if now >= Run(p, calls).ledger[id - 1].createdAt + 604_800 then Active else Timelocked
  {
    hide Run;
    TimelockIsSevenDays(p, calls, id);
    TimelockOpensIff(Run(p, calls), id, now);
  }

  /** Only the admin replenishes, with a positive amount, and only the balance changes. */
  lemma ReplenishSucceedsIff(p: Parties, m: Market, caller: Address, amount: int, authorized: bool)
    requires m.balance >= 0
    ensures Replenish(p, m, caller, amount, authorized).Ok? <==>
            authorized && caller == p.admin && 1 <= amount <= I128_MAX - m.balance
    ensures Replenish(p, m, caller, amount, authorized).Ok? ==>
              Replenish(p, m, caller, amount, authorized).value == m.(balance := m.balance + amount)
  {
  }

  /** An assignment sets the researcher of the one bounty and lists it last with the researcher. */
  lemma AssignEffect(p: Parties, m: Market, id: nat, researcher: Address)
    requires Assign(p, m, id, researcher).Ok?
    ensures var m' := Assign(p, m, id, researcher).value;
            && m'.balance == m.balance && m'.pending == m.pending
            && OnlyBountyChanges(m.ledger, m'.ledger, id)
            && m'.ledger[id - 1] == m.ledger[id - 1].(assignedResearcher := Some(researcher))
            && (forall r :: AssignmentsOf(m'.assignments, r) ==
                            AssignmentsOf(m.assignments, r) + (if r == researcher then [id] else []))
  {
  }

  // ---------------------------------------------------------------- payouts

  /** The whole amount of a Critical or High bounty, sixty percent of a Medium, thirty of a Low one, cut down. */
  lemma RewardShares(b: Bounty)
    requires 0 < b.amount && RewardOf(b).Ok?
    ensures RewardOf(b).value == match b.severity
                                 case Critical => b.amount
                                 case High => b.amount
                                 case Medium => b.amount * 60 / 100
                                 case Low => b.amount * 30 / 100
  {
  }

  /** A claim pays the reward, completes the one bounty and removes its approvals. */
  lemma ClaimEffect(m: Market, id: nat, researcher: Address, authorized: bool)
    requires Claim(m, id, researcher, authorized).Ok?
    ensures var m' := Claim(m, id, researcher, authorized).value;
            && m'.assignments == m.assignments && m'.pending == m.pending - {id}
            && RewardOf(m.ledger[id - 1]).Ok? && m'.balance == m.balance - RewardOf(m.ledger[id - 1]).value
            && OnlyBountyChanges(m.ledger, m'.ledger, id)
            && m'.ledger[id - 1] == m.ledger[id - 1].(status := Completed)
  {
    hide RewardOf;
  }

  /** Every listed bounty approved for the researcher has a reward in range, and so have all of them together. */
  ghost predicate ListedFits(ledger: seq<Bounty>, ids: seq<nat>, researcher: Address) {
    && (forall i :: 0 <= i < |ids| ==> RewardFits(ledger, ids[i], researcher))
    && ListedDue(ledger, ids, researcher) <= I128_MAX
  }

  predicate RewardFits(ledger: seq<Bounty>, id: nat, researcher: Address) {
    && 1 <= id <= |ledger|
    && (ledger[id - 1].status == Approved && ledger[id - 1].assignedResearcher == Some(researcher) ==>
          match ledger[id - 1].severity
          case Medium => ledger[id - 1].amount <= I128_MAX / 60
          case Low => ledger[id - 1].amount <= I128_MAX / 30
          case _ => true)
  }

  lemma RewardFitsMeans(ledger: seq<Bounty>, id: nat, researcher: Address)
    requires 1 <= id <= |ledger| && ledger[id - 1].amount > 0
    ensures RewardFits(ledger, id, researcher) <==>
            (ledger[id - 1].status == Approved && ledger[id - 1].assignedResearcher == Some(researcher) ==> RewardOf(ledger[id - 1]).Ok?)
    ensures Due(ledger[id - 1], researcher) >= 0
  {
  }

  ghost predicate AmountsPositive(ledger: seq<Bounty>) {
    forall k :: 0 <= k < |ledger| ==> ledger[k].amount > 0
  }

  /** The last step of the sum, for an existing bounty. */
  lemma AvailableStep(ledger: seq<Bounty>, ids: seq<nat>, researcher: Address)
    requires ids != [] && AmountsPositive(ledger)
    requires var n := |ids| - 1; 1 <= ids[n] <= |ledger| && Available(ledger, ids[..n], researcher).Ok?
    requires 0 <= Available(ledger, ids[..|ids| - 1], researcher).value <= I128_MAX
    ensures var n := |ids| - 1;
            var sum := Available(ledger, ids[..n], researcher).value + Due(ledger[ids[n] - 1], researcher);
            Available(ledger, ids, researcher).Ok? <==> RewardFits(ledger, ids[n], researcher) && sum <= I128_MAX
  {
    hide RewardOf, RewardFits, AddAvailable;
    var n := |ids| - 1;
    AddAvailableFitsIff(Available(ledger, ids[..n], researcher).value, ledger, ids[n], researcher);
  }

  lemma AddAvailableFitsIff(total: int, ledger: seq<Bounty>, id: nat, researcher: Address)
    requires 1 <= id <= |ledger| && ledger[id - 1].amount > 0 && 0 <= total <= I128_MAX
    ensures AddAvailable(total, ledger, id, researcher).Ok? <==>
            RewardFits(ledger, id, researcher) && total + Due(ledger[id - 1], researcher) <= I128_MAX
  {
    hide RewardOf, RewardFits;
    RewardFitsMeans(ledger, id, researcher);
  }

  lemma ListedFitsStep(ledger: seq<Bounty>, ids: seq<nat>, researcher: Address)
    requires ids != []
    ensures var n := |ids| - 1;
            (forall i :: 0 <= i < |ids| ==> RewardFits(ledger, ids[i], researcher)) <==>
            (forall i :: 0 <= i < n ==> RewardFits(ledger, ids[..n][i], researcher)) && RewardFits(ledger, ids[n], researcher)
  {
    hide RewardFits;
    var n := |ids| - 1;
    assert forall i :: 0 <= i < n ==> ids[..n][i] == ids[i];
    if forall i :: 0 <= i < n ==> RewardFits(ledger, ids[..n][i], researcher) {
      forall i | 0 <= i < n
        ensures RewardFits(ledger, ids[i], researcher)
      {
        assert RewardFits(ledger, ids[..n][i], researcher);
      }
    }
  }

  /** The sum stays in range exactly if every single reward and the whole sum do. */
  lemma {:induction false} AvailableFitsIff(ledger: seq<Bounty>, ids: seq<nat>, researcher: Address)
    requires AmountsPositive(ledger)
    ensures Available(ledger, ids, researcher).Ok? <==> ListedFits(ledger, ids, researcher)
    ensures ListedDue(ledger, ids, researcher) >= 0
  {
    hide RewardFits, Available, Due, AmountsPositive, ListedDue;
    if ids == [] {
      NothingListed(ledger, researcher);
      EmptyListIsAvailable(ledger, researcher);
    } else {
      var n := |ids| - 1;
      var front, id := ids[..n], ids[n];
      AvailableFitsIff(ledger, front, researcher);
      ListedDueStep(ledger, front, id, researcher);
      assert ids == front + [id];
      ListedFitsStep(ledger, ids, researcher);
      if 1 <= id <= |ledger| {
        assert Due(ledger[id - 1], researcher) >= 0 by {
          DueNonNegative(ledger, id, researcher);
        }
        if Available(ledger, front, researcher).Ok? {
          AvailableIsListedDue(ledger, front, researcher);
          AvailableStep(ledger, ids, researcher);
        } else {
          FailedStaysFailed(ledger, ids, researcher);
        }
      } else {
        MissingBountyFails(ledger, ids, researcher);
      }
    }
  }

  lemma EmptyListIsAvailable(ledger: seq<Bounty>, researcher: Address)
    ensures Available(ledger, [], researcher) == Ok(0)
  {
  }

  lemma DueNonNegative(ledger: seq<Bounty>, id: nat, researcher: Address)
    requires AmountsPositive(ledger) && 1 <= id <= |ledger|
    ensures Due(ledger[id - 1], researcher) >= 0
  {
    RewardFitsMeans(ledger, id, researcher);
  }

  lemma FailedStaysFailed(ledger: seq<Bounty>, ids: seq<nat>, researcher: Address)
    requires ids != [] && Available(ledger, ids[..|ids| - 1], researcher).Err?
    ensures Available(ledger, ids, researcher).Err?
  {
  }

  lemma MissingBountyFails(ledger: seq<Bounty>, ids: seq<nat>, researcher: Address)
    requires ids != [] && !(1 <= ids[|ids| - 1] <= |ledger|)
    ensures Available(ledger, ids, researcher).Err? && !RewardFits(ledger, ids[|ids| - 1], researcher)
  {
  }

  /**
   * In a market in order a withdrawal succeeds exactly for an authorised researcher, with a positive amount that
   * neither the balance nor what is listed as due falls short of. It lowers the balance by just that amount.
   */
  lemma WithdrawSucceedsIff(m: Market, researcher: Address, amount: int, authorized: bool)
    requires MarketOk(m)
    ensures var ids := AssignmentsOf(m.assignments, researcher);
            WithdrawRewards(m, researcher, amount, authorized).Ok? <==>
            && authorized && 1 <= amount <= m.balance
            && ListedFits(m.ledger, ids, researcher) && amount <= ListedDue(m.ledger, ids, researcher)
    ensures WithdrawRewards(m, researcher, amount, authorized).Ok? ==>
              WithdrawRewards(m, researcher, amount, authorized).value == m.(balance := m.balance - amount)
  {
    hide ListedFits, ListedDue;
    var ids := AssignmentsOf(m.assignments, researcher);
    assert AmountsPositive(m.ledger) by {
      forall k | 0 <= k < |m.ledger|
        ensures m.ledger[k].amount > 0
      {
        AmountPositive(m, k + 1);
      }
    }
    hide MarketOk, Available;
    AvailableFitsIff(m.ledger, ids, researcher);
    if Available(m.ledger, ids, researcher).Ok? {
      AvailableIsListedDue(m.ledger, ids, researcher);
    }
  }

  /** In every run, each successful withdrawal takes no more than what was listed as due at that point, and just that amount. */
  lemma WithdrawalsAreCovered(p: Parties, calls: seq<Call>, i: nat)
    requires i < |calls| && calls[i].op.Withdraw? && Succeeds(p, calls, i)
    ensures var m, researcher, amount := Run(p, calls[..i]), calls[i].op.researcher, calls[i].op.amount;
            && calls[i].authorized && 1 <= amount <= m.balance
            && amount <= ListedDue(m.ledger, AssignmentsOf(m.assignments, researcher), researcher)
            && Run(p, calls[..i + 1]) == m.(balance := m.balance - amount)
  {
    hide ListedDue, ListedFits, MarketOk, WithdrawRewards;
    RunKeepsMarketOk(p, calls[..i]);
    WithdrawSucceedsIff(Run(p, calls[..i]), calls[i].op.researcher, calls[i].op.amount, calls[i].authorized);
    assert calls[..i + 1][..i] == calls[..i];
  }
}
