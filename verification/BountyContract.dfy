/**
 * The bounty contract as it stores things: a map from creator to that creator's list of bounties, searched and
 * rebuilt by nested loops. It refines the flat ledger.
 */
module BountyContract {
  import opened Foundations
  import opened BountyLedger

  // ---------------------------------------------------------------- the grouped storage

  /** One creator's bounties, in order of creation. */
  ghost function ByCreator(ledger: seq<Bounty>, creator: Address): seq<Bounty> {
    if ledger == [] then []
    else
      var n := |ledger| - 1;
      ByCreator(ledger[..n], creator) + (if ledger[n].creator == creator then [ledger[n]] else [])
  }

  ghost predicate IdsAreIndices(ledger: seq<Bounty>) {
    forall k :: 0 <= k < |ledger| ==> ledger[k].id == k + 1
  }

  ghost predicate IsCreator(ledger: seq<Bounty>, a: Address) {
    exists k :: 0 <= k < |ledger| && ledger[k].creator == a
  }

  /** The map from creators to lists holds exactly the ledger, grouped. */
  ghost predicate Grouped(bounties: map<Address, seq<Bounty>>, ledger: seq<Bounty>) {
    && IdsAreIndices(ledger)
    && (forall a :: a in bounties <==> IsCreator(ledger, a))
    && forall a :: a in bounties ==> bounties[a] == ByCreator(ledger, a)
  }

  lemma {:induction false} ByCreatorMembers(ledger: seq<Bounty>, a: Address, b: Bounty)
    ensures b in ByCreator(ledger, a) <==> b in ledger && b.creator == a
  {
    if ledger != [] {
      var n := |ledger| - 1;
      ByCreatorMembers(ledger[..n], a, b);
      assert ledger == ledger[..n] + [ledger[n]];
    }
  }

  /** A list with the change made to every bounty of the given id. */
  function ListWithChange(list: seq<Bounty>, id: nat, c: Change): seq<Bounty> {
    seq(|list|, j requires 0 <= j < |list| => if list[j].id == id then Changed(list[j], c) else list[j])
  }

  lemma {:induction false} GroupingCommutesWithChange(ledger: seq<Bounty>, a: Address, id: nat, c: Change)
    ensures ByCreator(ListWithChange(ledger, id, c), a) == ListWithChange(ByCreator(ledger, a), id, c)
  {
    if ledger != [] {
      var n := |ledger| - 1;
      GroupingCommutesWithChange(ledger[..n], a, id, c);
      assert ListWithChange(ledger, id, c)[..n] == ListWithChange(ledger[..n], id, c);
    }
  }

  lemma LedgerChangeIsListChange(ledger: seq<Bounty>, id: nat, c: Change)
    requires IdsAreIndices(ledger) && 1 <= id <= |ledger|
    ensures ListWithChange(ledger, id, c) == WithChange(ledger, id, c)
  {
  }

  /** Only the creator's list holds the bounty. */
  lemma ListHoldsIdIff(ledger: seq<Bounty>, a: Address, id: nat)
    requires IdsAreIndices(ledger)
    ensures (exists b :: b in ByCreator(ledger, a) && b.id == id) <==>
            1 <= id <= |ledger| && ledger[id - 1].creator == a
  {
    if 1 <= id <= |ledger| {
      ByCreatorMembers(ledger, a, ledger[id - 1]);
    }
    forall b | b in ByCreator(ledger, a) && b.id == id
      ensures 1 <= id <= |ledger| && ledger[id - 1] == b && b.creator == a
    {
      ByCreatorMembers(ledger, a, b);
    }
  }

  lemma ChangeKeepsCreators(ledger: seq<Bounty>, id: nat, c: Change, x: Address)
    requires 1 <= id <= |ledger|
    ensures IsCreator(WithChange(ledger, id, c), x) <==> IsCreator(ledger, x)
  {
    var ledger' := WithChange(ledger, id, c);
    assert forall k :: 0 <= k < |ledger| ==> ledger'[k].creator == ledger[k].creator;
  }

  lemma ListAfterChange(ledger: seq<Bounty>, x: Address, id: nat, c: Change)
    requires IdsAreIndices(ledger) && 1 <= id <= |ledger|
    ensures ByCreator(WithChange(ledger, id, c), x) ==
            if x == ledger[id - 1].creator then ListWithChange(ByCreator(ledger, x), id, c) else ByCreator(ledger, x)
  {
    LedgerChangeIsListChange(ledger, id, c);
    GroupingCommutesWithChange(ledger, x, id, c);
    if x != ledger[id - 1].creator {
      ListHoldsIdIff(ledger, x, id);
      assert ListWithChange(ByCreator(ledger, x), id, c) == ByCreator(ledger, x);
    }
  }

  lemma OwnerIsListed(bounties: map<Address, seq<Bounty>>, ledger: seq<Bounty>, id: nat)
    requires Grouped(bounties, ledger)
    ensures 1 <= id <= |ledger| ==> ledger[id - 1].creator in bounties
  {
  }

  lemma ListedIsLookup(ledger: seq<Bounty>, a: Address, id: nat)
    requires IdsAreIndices(ledger)
    ensures forall b :: b in ByCreator(ledger, a) && b.id == id ==> Lookup(ledger, id) == Some(b)
  {
    forall b | b in ByCreator(ledger, a) && b.id == id
      ensures Lookup(ledger, id) == Some(b)
    {
      ByCreatorMembers(ledger, a, b);
    }
  }

  /** Replacing the one list that holds the bounty changes exactly that bounty of the ledger. */
  lemma ChangeKeepsGrouping(bounties: map<Address, seq<Bounty>>, ledger: seq<Bounty>, a: Address, id: nat, c: Change)
    requires Grouped(bounties, ledger) && a in bounties
    requires exists b :: b in bounties[a] && b.id == id
    ensures 1 <= id <= |ledger|
    ensures Grouped(bounties[a := ListWithChange(bounties[a], id, c)], WithChange(ledger, id, c))
  {
    hide ByCreator, IsCreator, ListWithChange;
    ListHoldsIdIff(ledger, a, id);
    var ledger' := WithChange(ledger, id, c);
    forall x
      ensures IsCreator(ledger', x) <==> IsCreator(ledger, x)
      ensures ByCreator(ledger', x) ==
              if x == ledger[id - 1].creator then ListWithChange(ByCreator(ledger, x), id, c) else ByCreator(ledger, x)
    {
      ChangeKeepsCreators(ledger, id, c, x);
      ListAfterChange(ledger, x, id, c);
    }
  }

  lemma AppendKeepsGrouping(bounties: map<Address, seq<Bounty>>, ledger: seq<Bounty>, b: Bounty)
    requires Grouped(bounties, ledger) && b.id == |ledger| + 1
    ensures var list := if b.creator in bounties then bounties[b.creator] else [];
            Grouped(bounties[b.creator := list + [b]], ledger + [b])
  {
    var longer := ledger + [b];
    assert longer[..|ledger|] == ledger;
    assert longer[|ledger|].creator == b.creator;
    if b.creator !in bounties {
      NoBountiesUnlessCreator(ledger, b.creator);
    }
    forall x | IsCreator(ledger, x)
      ensures IsCreator(longer, x)
    {
      var k :| 0 <= k < |ledger| && ledger[k].creator == x;
      assert longer[k].creator == x;
    }
    forall x | IsCreator(longer, x) && x != b.creator
      ensures IsCreator(ledger, x)
    {
      var k :| 0 <= k < |longer| && longer[k].creator == x;
      assert ledger[k].creator == x;
    }
  }

  lemma NoBountiesUnlessCreator(ledger: seq<Bounty>, a: Address)
    requires !IsCreator(ledger, a)
    ensures ByCreator(ledger, a) == []
  {
    if ByCreator(ledger, a) != [] {
      ByCreatorMembers(ledger, a, ByCreator(ledger, a)[0]);
    }
  }

  lemma NextIdIsFresh(m: Market)
    requires MarketOk(m)
    ensures |m.ledger| + 1 !in m.pending
  {
  }

  // ---------------------------------------------------------------- the contract

  /** The call's outcome is the state machine's: the same failure and no change, or the same new state. */
  ghost predicate Follows<T>(expected: Result<Market, Failure>, r: Result<T, Failure>, before: Market, after: Market) {
    match expected
    case Ok(m) => r.Ok? && after == m
    case Err(e) => r == Err(e) && after == before
  }

  class BountyMarketplace {
    const parties: Parties
    var bountyCounter: nat
    var contractBalance: int
    var bounties: map<Address, seq<Bounty>>
    var researcherAssignments: map<Address, seq<nat>>
    var pendingApprovals: map<nat, Approval>
    /** All bounties in order of creation. */
    ghost var ledger: seq<Bounty>

    ghost function View(): Market
      reads this
    {
      Market(ledger, contractBalance, pendingApprovals, researcherAssignments)
    }

    ghost predicate Valid()
      reads this
    {
      && bountyCounter == |ledger|
      && Grouped(bounties, ledger)
      && MarketOk(View())
    }

    /** Deployment followed by `initialize`. */
    constructor (parties: Parties)
      ensures Valid() && View() == EMPTY_MARKET && this.parties == parties
    {
      this.parties := parties;
      bountyCounter, contractBalance := 0, 0;
      bounties, researcherAssignments, pendingApprovals := map[], map[], map[];
      ledger := [];
    }

    /** Searches every creator's list. */
    method GetBountyInternal(id: nat) returns (r: Option<Bounty>)
      requires Grouped(bounties, ledger)
      ensures r == Lookup(ledger, id)
    {
      hide ByCreator;
      var todo := bounties.Keys;
      OwnerIsListed(bounties, ledger, id);
      while todo != {}
        invariant todo <= bounties.Keys
        invariant 1 <= id <= |ledger| ==> ledger[id - 1].creator in todo
        decreases todo
      {
        var creator :| creator in todo;
        ListHoldsIdIff(ledger, creator, id);
        ListedIsLookup(ledger, creator, id);
        r := FindInList(bounties[creator], id);
        if r.Some? {
          return r;
        }
        todo := todo - {creator};
      }
      r := None;
    }

    static method FindInList(list: seq<Bounty>, id: nat) returns (r: Option<Bounty>)
      ensures r.Some? ==> r.value in list && r.value.id == id
      ensures r.None? ==> forall b :: b in list ==> b.id != id
    {
      for i := 0 to |list|
        invariant forall j :: 0 <= j < i ==> list[j].id != id
      {
        if list[i].id == id {
          return Some(list[i]);
        }
      }
      r := None;
    }

    /** Rebuilds one list, changing the bounty of the given id. */
    static method RebuildList(list: seq<Bounty>, id: nat, c: Change) returns (updated: seq<Bounty>, found: bool)
      ensures updated == ListWithChange(list, id, c)
      ensures found <==> exists b :: b in list && b.id == id
    {
      updated, found := [], false;
      for i := 0 to |list|
        invariant |updated| == i
        invariant forall j :: 0 <= j < i ==> updated[j] == ListWithChange(list, id, c)[j]
        invariant found <==> exists j :: 0 <= j < i && list[j].id == id
      {
        if list[i].id == id {
          updated := updated + [Changed(list[i], c)];
          found := true;
        } else {
          updated := updated + [list[i]];
        }
      }
      assert forall b :: b in list <==> exists j :: 0 <= j < |list| && list[j] == b;
    }

    /** The loop of `update_bounty_status` and `update_bounty_assignment`. */
    method UpdateBounty(id: nat, c: Change) returns (found: bool)
      requires Grouped(bounties, ledger)
      modifies this`bounties, this`ledger
      ensures Grouped(bounties, ledger)
      ensures found <==> 1 <= id <= old(|ledger|)
      ensures ledger == if found then WithChange(old(ledger), id, c) else old(ledger)
    {
      found := false;
      var todo := bounties.Keys;
      while todo != {}
        invariant todo <= bounties.Keys
        invariant bounties == old(bounties) && ledger == old(ledger)
        invariant 1 <= id <= |ledger| ==> ledger[id - 1].creator in todo
        decreases todo
      {
        var creator :| creator in todo;
        var updated, hit := RebuildList(bounties[creator], id, c);
        ListHoldsIdIff(ledger, creator, id);
        if hit {
          ChangeKeepsGrouping(bounties, ledger, creator, id, c);
          bounties := bounties[creator := updated];
          ledger := WithChange(ledger, id, c);
          return true;
        }
        todo := todo - {creator};
      }
    }

    method CreateBounty(creator: Address, amount: int, title: string, description: string, severity: Severity,
                        authorized: bool, now: nat)
      returns (r: Result<nat, Failure>)
      requires Valid()
      modifies this
      ensures Valid()
      ensures Follows(Apply(parties, old(View()),
                            Call(Operation.CreateBounty(creator, amount, title, description, severity), authorized, now)),
                      r, old(View()), View())
      ensures r.Ok? ==> r.value == |ledger| && r.value !in old(pendingApprovals)
    {
      hide Grouped, MarketOk;
      ghost var call := Call(Operation.CreateBounty(creator, amount, title, description, severity), authorized, now);
      ghost var before := View();
      if amount <= 0 { return Err(AmountNotPositive); }
      if title == "" { return Err(InvalidTitle); }
      if description == "" { return Err(InvalidDescription); }
      if !authorized { return Err(AuthMissing); }
      if now + TIMELOCK_PERIOD > U64_MAX { return Err(Overflow); }
      if bountyCounter + 1 > U64_MAX { return Err(Overflow); }
      if !FitsI128(contractBalance + amount) { return Err(Overflow); }
      CreateKeepsMarketOk(before, call);
      NextIdIsFresh(before);
      bountyCounter := bountyCounter + 1;
      var bounty := NewBounty(bountyCounter, creator, amount, title, description, severity, now);
      AppendKeepsGrouping(bounties, ledger, bounty);
      var userBounties := if creator in bounties then bounties[creator] else [];
      bounties := bounties[creator := userBounties + [bounty]];
      ledger := ledger + [bounty];
      pendingApprovals := pendingApprovals[bountyCounter := NewApproval(bountyCounter, creator)];
      contractBalance := contractBalance + amount;
      r := Ok(bountyCounter);
    }

    /** Records the approval and, once both are there, approves the bounty. */
    method StoreApproval(id: nat, approval: Approval) returns (ghost result: Result<Market, Failure>)
      requires Grouped(bounties, ledger) && 1 <= id <= |ledger|
      modifies this`bounties, this`ledger, this`pendingApprovals
      ensures Grouped(bounties, ledger) && |ledger| == old(|ledger|)
      ensures AfterApproval(old(View()), id, approval) == Ok(View())
    {
      pendingApprovals := pendingApprovals[id := approval];
      if id in pendingApprovals && pendingApprovals[id].adminApproved && pendingApprovals[id].ownerApproved {
        var found := UpdateBounty(id, SetStatus(Approved));
      }
      result := Ok(View());
    }

    method AdminApprove(caller: Address, id: nat, authorized: bool, now: nat) returns (r: Result<(), Failure>)
      requires Valid()
      modifies this
      ensures Valid()
      ensures Follows(Apply(parties, old(View()), Call(Operation.AdminApprove(caller, id), authorized, now)), r, old(View()), View())
    {
      ghost var before := View();
      if !authorized { return Err(AuthMissing); }
      if caller != parties.admin { return Err(NotAuthorized); }
      if id !in pendingApprovals { return Err(BountyNotFound); }
      if pendingApprovals[id].adminApproved { return Err(AlreadyApproved); }
      var _ := StoreApproval(id, pendingApprovals[id].(adminApproved := true, adminApprovalTime := Some(now)));
      ApprovalKeepsMarketOk(parties, before, Call(Operation.AdminApprove(caller, id), authorized, now));
      r := Ok(());
    }

    method OwnerApprove(caller: Address, id: nat, authorized: bool, now: nat) returns (r: Result<(), Failure>)
      requires Valid()
      modifies this
      ensures Valid()
      ensures Follows(Apply(parties, old(View()), Call(Operation.OwnerApprove(caller, id), authorized, now)), r, old(View()), View())
    {
      ghost var before := View();
      if !authorized { return Err(AuthMissing); }
      if caller != parties.owner { return Err(NotAuthorized); }
      if id !in pendingApprovals { return Err(BountyNotFound); }
      if pendingApprovals[id].ownerApproved { return Err(AlreadyApproved); }
      var _ := StoreApproval(id, pendingApprovals[id].(ownerApproved := true, ownerApprovalTime := Some(now)));
      ApprovalKeepsMarketOk(parties, before, Call(Operation.OwnerApprove(caller, id), authorized, now));
      r := Ok(());
    }

    method AssignResearcher(id: nat, researcher: Address, now: nat) returns (r: Result<(), Failure>)
      requires Valid()
      modifies this
      ensures Valid()
      ensures Follows(Apply(parties, old(View()), Call(Operation.AssignResearcher(id, researcher), true, now)), r, old(View()), View())
    {
      ghost var before := View();
      var bounty := GetBountyInternal(id);
      if bounty.None? { return Err(BountyNotFound); }
      if parties.contract != bounty.value.creator && parties.contract != parties.admin { return Err(NotAuthorized); }
      var found := UpdateBounty(id, SetResearcher(researcher));
      var researcherBounties := if researcher in researcherAssignments then researcherAssignments[researcher] else [];
      researcherAssignments := researcherAssignments[researcher := researcherBounties + [id]];
      AssignKeepsMarketOk(parties, before, id, researcher);
      r := Ok(());
    }

    method CheckTimelock(id: nat, now: nat) returns (r: Result<bool, Failure>)
      requires Valid()
      modifies this
      ensures Valid()
      ensures Follows(Apply(parties, old(View()), Call(Operation.CheckTimelock(id), true, now)), r, old(View()), View())
      ensures r.Ok? ==> (r.value <==> View() != old(View()))
    {
      ghost var before := View();
      var bounty := GetBountyInternal(id);
      if bounty.None? { return Err(BountyNotFound); }
      if bounty.value.status == Timelocked && now >= bounty.value.timelockUntil {
        UnlockKeepsMarketOk(before, id, now);
        var found := UpdateBounty(id, SetStatus(Active));
        assert ledger[id - 1].status != before.ledger[id - 1].status;
        return Ok(true);
      }
      r := Ok(false);
    }

    /** The single point through which money leaves. */
    method EmitPayoutReady(amount: int) returns (r: Result<(), Failure>)
      modifies this`contractBalance
      ensures match PaidOut(old(contractBalance), amount)
              case Ok(rest) => r == Ok(()) && contractBalance == rest
              case Err(e) => r == Err(e) && contractBalance == old(contractBalance)
    {
      if amount <= 0 { return Err(InvalidPayout); }
      var balance := contractBalance;
      if balance < amount { return Err(InsufficientEscrow); }
      contractBalance := balance - amount;
      r := Ok(());
    }

    method ClaimReward(id: nat, researcher: Address, authorized: bool, now: nat) returns (r: Result<(), Failure>)
      requires Valid()
      modifies this
      ensures Valid()
      ensures Follows(Apply(parties, old(View()), Call(Operation.ClaimReward(id, researcher), authorized, now)), r, old(View()), View())
    {
      ghost var before := View();
      if !authorized { return Err(AuthMissing); }
      var bounty := GetBountyInternal(id);
      if bounty.None? { return Err(BountyNotFound); }
      if bounty.value.status != Approved { return Err(NotApproved); }
      if bounty.value.assignedResearcher != Some(researcher) { return Err(NotAssigned); }
      if id !in pendingApprovals { return Err(ApprovalNotFound); }
      var approval := pendingApprovals[id];
      if !(approval.adminApproved && approval.ownerApproved) { return Err(MultiSigRequired); }
      var reward := RewardOf(bounty.value);
      if reward.Err? { return Err(reward.error); }
      var paid := EmitPayoutReady(reward.value);
      if paid.Err? { return paid; }
      var found := UpdateBounty(id, SetStatus(Completed));
      pendingApprovals := pendingApprovals - {id};
      ClaimKeepsMarketOk(before, id, researcher, authorized);
      r := Ok(());
    }

    /** Adds up the rewards of the listed bounties that are approved for the researcher. */
    method TotalAvailable(ids: seq<nat>, researcher: Address) returns (r: Result<int, Failure>)
      requires Grouped(bounties, ledger)
      ensures r == Available(ledger, ids, researcher)
    {
      var total := 0;
      for i := 0 to |ids|
        invariant Available(ledger, ids[..i], researcher) == Ok(total)
      {
        assert ids[..i + 1][..i] == ids[..i];
        var bounty := GetBountyInternal(ids[i]);
        if bounty.None? {
          ErrorStays(ledger, ids, i + 1, researcher);
          return Err(BountyNotFound);
        }
        if bounty.value.status == Approved && bounty.value.assignedResearcher == Some(researcher) {
          var reward := RewardOf(bounty.value);
          if reward.Err? {
            ErrorStays(ledger, ids, i + 1, researcher);
            return Err(reward.error);
          }
          if !FitsI128(total + reward.value) {
            ErrorStays(ledger, ids, i + 1, researcher);
            return Err(Overflow);
          }
          total := total + reward.value;
        }
      }
      assert ids[..|ids|] == ids;
      r := Ok(total);
    }

    method Withdraw(researcher: Address, amount: int, authorized: bool, now: nat) returns (r: Result<(), Failure>)
      requires Valid()
      modifies this
      ensures Valid()
      ensures Follows(Apply(parties, old(View()), Call(Operation.Withdraw(researcher, amount), authorized, now)), r, old(View()), View())
    {
      ghost var before := View();
      if !authorized { return Err(AuthMissing); }
      if amount <= 0 { return Err(AmountNotPositive); }
      var ids := AssignmentsOf(researcherAssignments, researcher);
      var total := TotalAvailable(ids, researcher);
      if total.Err? { return Err(total.error); }
      if total.value < amount { return Err(InsufficientRewards); }
      r := EmitPayoutReady(amount);
      if r.Ok? {
        OnlyBalanceChanges(parties, before, Call(Operation.Withdraw(researcher, amount), authorized, now));
      }
    }

    method ReplenishEscrow(caller: Address, amount: int, authorized: bool, now: nat) returns (r: Result<(), Failure>)
      requires Valid()
      modifies this
      ensures Valid()
      ensures Follows(Apply(parties, old(View()), Call(Operation.ReplenishEscrow(caller, amount), authorized, now)), r, old(View()), View())
    {
      ghost var before := View();
      if !authorized { return Err(AuthMissing); }
      if amount <= 0 { return Err(AmountNotPositive); }
      if caller != parties.admin { return Err(NotAuthorized); }
      if !FitsI128(contractBalance + amount) { return Err(Overflow); }
      contractBalance := contractBalance + amount;
      OnlyBalanceChanges(parties, before, Call(Operation.ReplenishEscrow(caller, amount), authorized, now));
      r := Ok(());
    }
  }

  /** Once the sum has failed on a prefix it has failed on the whole list, with the same error. */
  lemma {:induction false} ErrorStays(ledger: seq<Bounty>, ids: seq<nat>, n: nat, researcher: Address)
    requires n <= |ids| && Available(ledger, ids[..n], researcher).Err?
    ensures Available(ledger, ids, researcher) == Available(ledger, ids[..n], researcher)
  {
    if n < |ids| {
      var front := ids[..|ids| - 1];
      assert front[..n] == ids[..n];
      ErrorStays(ledger, front, n, researcher);
    } else {
      assert ids[..n] == ids;
    }
  }
}
