/**
 * What a researcher may withdraw: the rewards of the listed bounties, each as often as it is listed. Exactly when this
 * is what the approved bounties are due.
 */
module BountyWithdrawals {
  import opened Foundations
  import opened BountyLedger
  import opened BountyRuns

  /** What one bounty contributes when it is listed once. */
  function Due(b: Bounty, researcher: Address): int {
    if b.status == Approved && b.assignedResearcher == Some(researcher) && RewardOf(b).Ok? then RewardOf(b).value else 0
  }

  /** The rewards of all bounties approved for the researcher, each counted once. */
  ghost function TotalDue(ledger: seq<Bounty>, researcher: Address): int {
    if ledger == [] then 0
    else TotalDue(ledger[..|ledger| - 1], researcher) + Due(ledger[|ledger| - 1], researcher)
  }

  /** How often an id is listed. */
  ghost function Times(ids: seq<nat>, id: nat): nat {
    multiset(ids)[id]
  }

  /** The rewards of all bounties approved for the researcher, each counted as often as it is listed. */
  ghost function ListedDue(ledger: seq<Bounty>, ids: seq<nat>, researcher: Address): int {
    if ledger == [] then 0
    else
      var n := |ledger|;
      ListedDue(ledger[..n - 1], ids, researcher) + Due(ledger[n - 1], researcher) * Times(ids, n)
  }

  lemma {:induction false} NothingListed(ledger: seq<Bounty>, researcher: Address)
    ensures ListedDue(ledger, [], researcher) == 0
  {
    if ledger != [] {
      NothingListed(ledger[..|ledger| - 1], researcher);
    }
  }

  lemma TimesStep(ids: seq<nat>, id: nat, k: nat)
    ensures Times(ids + [id], k) == Times(ids, k) + (if k == id then 1 else 0)
  {
  }

  lemma Distribute(a: int, m: nat)
    ensures a * (m + 1) == a * m + a
  {
  }

  /** Listing one more id adds its bounty's contribution, if there is such a bounty. */
  lemma {:induction false} ListedDueStep(ledger: seq<Bounty>, ids: seq<nat>, id: nat, researcher: Address)
    ensures ListedDue(ledger, ids + [id], researcher) ==
            ListedDue(ledger, ids, researcher)
            + (if 1 <= id <= |ledger| then Due(ledger[id - 1], researcher) else 0)
  {
    if ledger != [] {
      var n := |ledger|;
      ListedDueStep(ledger[..n - 1], ids, id, researcher);
      TimesStep(ids, id, n);
      Distribute(Due(ledger[n - 1], researcher), Times(ids, n));
      hide Due, Times;
    }
  }

  /** What the loop over the list adds up. */
  lemma {:induction false} AvailableIsListedDue(ledger: seq<Bounty>, ids: seq<nat>, researcher: Address)
    requires Available(ledger, ids, researcher).Ok?
    ensures Available(ledger, ids, researcher).value == ListedDue(ledger, ids, researcher)
  {
    hide RewardOf, FitsI128;
    if ids == [] {
      NothingListed(ledger, researcher);
    } else {
      var n := |ids| - 1;
      AvailableIsListedDue(ledger, ids[..n], researcher);
      ListedDueStep(ledger, ids[..n], ids[n], researcher);
      assert ids == ids[..n] + [ids[n]];
    }
  }

  /** What the bounties are due is listed at least once, and nothing due is negative. */
  ghost predicate DueIsListed(ledger: seq<Bounty>, ids: seq<nat>, researcher: Address) {
    forall k :: 0 <= k < |ledger| ==> Due(ledger[k], researcher) >= 0 && (Due(ledger[k], researcher) > 0 ==> Times(ids, k + 1) >= 1)
  }

  /** No bounty with something due is listed twice. */
  ghost predicate DueIsListedOnce(ledger: seq<Bounty>, ids: seq<nat>, researcher: Address) {
    forall k :: 0 <= k < |ledger| && Due(ledger[k], researcher) > 0 ==> Times(ids, k + 1) == 1
  }

  lemma TermBound(due: int, times: nat)
    requires due >= 0 && (due > 0 ==> times >= 1)
    ensures due * times >= due
    ensures due * times == due <==> (due > 0 ==> times == 1)
  {
    if due > 0 && times >= 2 {
      assert due * times == due + due * (times - 1);
      assert due * (times - 1) >= due;
    }
  }

  lemma {:induction false} ListedDueAtLeast(ledger: seq<Bounty>, ids: seq<nat>, researcher: Address)
    requires DueIsListed(ledger, ids, researcher)
    ensures ListedDue(ledger, ids, researcher) >= TotalDue(ledger, researcher)
    ensures ListedDue(ledger, ids, researcher) == TotalDue(ledger, researcher) <==> DueIsListedOnce(ledger, ids, researcher)
  {
    if ledger != [] {
      var n := |ledger|;
      assert DueIsListed(ledger[..n - 1], ids, researcher);
      ListedDueAtLeast(ledger[..n - 1], ids, researcher);
      TermBound(Due(ledger[n - 1], researcher), Times(ids, n));
      hide Due, Times;
      assert DueIsListedOnce(ledger, ids, researcher) <==>
             DueIsListedOnce(ledger[..n - 1], ids, researcher)
             && (Due(ledger[n - 1], researcher) > 0 ==> Times(ids, n) == 1) by {
        assert forall k :: 0 <= k < n - 1 ==> ledger[..n - 1][k] == ledger[k];
      }
    }
  }

  /** In a market in order every bounty with something due is on its researcher's list. */
  lemma MarketListsDue(m: Market, researcher: Address)
    requires MarketOk(m)
    ensures DueIsListed(m.ledger, AssignmentsOf(m.assignments, researcher), researcher)
  {
    var ids := AssignmentsOf(m.assignments, researcher);
    forall k | 0 <= k < |m.ledger|
      ensures Due(m.ledger[k], researcher) >= 0
      ensures Due(m.ledger[k], researcher) > 0 ==> Times(ids, k + 1) >= 1
    {
      assert Exists(m, k + 1) && IndexOk(m, k + 1) && m.ledger[k].amount > 0;
      if Due(m.ledger[k], researcher) > 0 {
        assert k + 1 in ids;
        assert k + 1 in multiset(ids);
      }
    }
  }

  /**
   * In every run, what a researcher may withdraw is at least what the approved bounties are due, and exactly that if
   * and only if no bounty with something due was assigned to the researcher twice.
   */
  lemma AvailableIsDueIff(p: Parties, calls: seq<Call>, researcher: Address)
    requires var m := Run(p, calls); Available(m.ledger, AssignmentsOf(m.assignments, researcher), researcher).Ok?
    ensures var m := Run(p, calls);
            var ids := AssignmentsOf(m.assignments, researcher);
            var available := Available(m.ledger, ids, researcher).value;
            && available >= TotalDue(m.ledger, researcher)
            && (available == TotalDue(m.ledger, researcher) <==> DueIsListedOnce(m.ledger, ids, researcher))
  {
    hide Run, MarketOk, Available, DueIsListed;
    var m := Run(p, calls);
    RunKeepsMarketOk(p, calls);
    MarketListsDue(m, researcher);
    AvailableIsListedDue(m.ledger, AssignmentsOf(m.assignments, researcher), researcher);
    ListedDueAtLeast(m.ledger, AssignmentsOf(m.assignments, researcher), researcher);
  }

  lemma AvailableTwice(ledger: seq<Bounty>)
    requires ledger == WithdrawnMarket().ledger
    ensures Available(ledger, [1, 1], "r") == Ok(200) && TotalDue(ledger, "r") == 100
  {
    assert RewardOf(ledger[0]) == Ok(100);
    assert [1, 1][..1] == [1] && [1][..0] == [] && ledger[..0] == [];
    hide RewardOf;
    assert Available(ledger, [], "r") == Ok(0);
    assert Available(ledger, [1], "r") == Ok(100);
  }

  lemma TwiceAssignedRun(p: Parties, calls: seq<Call>)
    requires p == Parties("market", "admin", "owner") && calls == TwiceAssigned()
    ensures Run(p, calls) == WithdrawnMarket().(balance := 300, assignments := map["r" := [1, 1]])
  {
    hide Run;
    var m1 := Step(p, EMPTY_MARKET, calls[0]);
    assert m1.ledger == [NewBounty(1, "market", 100, "t", "d", Critical, 0)];
    var m2 := Step(p, m1, calls[1]);
    assert AssignmentsOf(m1.assignments, "r") + [1] == [1];
    assert m2.assignments == map["r" := [1]];
    var m3 := Step(p, m2, calls[2]);
    assert AssignmentsOf(m2.assignments, "r") + [1] == [1, 1];
    assert m3.assignments == map["r" := [1, 1]];
    var m4 := Step(p, m3, calls[3]);
    var m5 := Step(p, m4, calls[4]);
    var m6 := Step(p, m5, calls[5]);
    RunOfSix(p, calls);
    assert m6 == WithdrawnMarket().(balance := 300, assignments := map["r" := [1, 1]]);
  }

  /** Assigned twice, a researcher takes 200 in one call for one approved bounty of 100. */
  lemma TwiceAssignedTakesTwice()
    ensures var p := Parties("market", "admin", "owner");
            var calls := TwiceAssigned();
            && TotalDue(Run(p, calls).ledger, "r") == 100
            && WithdrawRewards(Run(p, calls), "r", 200, true).Ok?
  {
    hide Run, Available, TotalDue;
    TwiceAssignedRun(Parties("market", "admin", "owner"), TwiceAssigned());
    AvailableTwice(WithdrawnMarket().ledger);
  }

  function TwiceAssigned(): seq<Call> {
    [Call(CreateBounty("market", 100, "t", "d", Critical), true, 0),
     Call(AssignResearcher(1, "r"), true, 0),
     Call(AssignResearcher(1, "r"), true, 0),
     Call(AdminApprove("admin", 1), true, 0),
     Call(OwnerApprove("owner", 1), true, 0),
     Call(ReplenishEscrow("admin", 200), true, 0)]
  }

  lemma RunOfSix(p: Parties, calls: seq<Call>)
    requires |calls| == 6
    ensures Run(p, calls) ==
            Step(p, Step(p, Step(p, Step(p, Step(p, Step(p, EMPTY_MARKET, calls[0]), calls[1]), calls[2]), calls[3]), calls[4]), calls[5])
  {
    hide Run, Step;
    RunUnfolds(p, calls);
    RunUnfolds(p, calls[..5]);
    RunUnfolds(p, calls[..4]);
    RunUnfolds(p, calls[..3]);
    RunUnfolds(p, calls[..2]);
    RunUnfolds(p, calls[..1]);
    RunUnfolds(p, []);
    assert calls[..5][..4] == calls[..4] && calls[..4][..3] == calls[..3] && calls[..3][..2] == calls[..2];
    assert calls[..2][..1] == calls[..1] && calls[..1][..0] == [];
  }
}
