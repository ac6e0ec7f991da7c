/**
 * The bounty marketplace as a state machine over one flat ledger: what each contract call does, and when it fails.
 * A failing call aborts and leaves the state as it was.
 */
module BountyLedger {
  import opened Foundations

  type Address = string

  const TIMELOCK_PERIOD: nat := 7 * 24 * 60 * 60

  datatype BountyStatus = Active | InReview | Approved | Rejected | Completed | Timelocked

  datatype Severity = Critical | High | Medium | Low

  datatype Bounty = Bounty(
    id: nat,
    creator: Address,
    amount: int,
    title: string,
    description: string,
    status: BountyStatus,
    severity: Severity,
    createdAt: nat,
    timelockUntil: nat,
    assignedResearcher: Option<Address>,
    approvedByAdmin: bool,
    approvedByOwner: bool)

  datatype Approval = Approval(
    bountyId: nat,
    researcher: Address,
    adminApproved: bool,
    ownerApproved: bool,
    adminApprovalTime: Option<nat>,
    ownerApprovalTime: Option<nat>)

  /** The contract's storage; the bounty counter is the length of the ledger. */
  datatype Market = Market(
    ledger: seq<Bounty>,
    balance: int,
    pending: map<nat, Approval>,
    assignments: map<Address, seq<nat>>)

  /** The contract's own address and the two approvers set at initialisation. */
  datatype Parties = Parties(contract: Address, admin: Address, owner: Address)

  const EMPTY_MARKET := Market([], 0, map[], map[])

  datatype Failure =
    | AmountNotPositive | InvalidTitle | InvalidDescription | AuthMissing | NotAuthorized | Overflow | BountyNotFound
    | NotApproved | NotAssigned | ApprovalNotFound | MultiSigRequired | AlreadyApproved | InvalidPayout
    | InsufficientEscrow | InsufficientRewards

  datatype Operation =
    | CreateBounty(creator: Address, amount: int, title: string, description: string, severity: Severity)
    | AdminApprove(caller: Address, id: nat)
    | OwnerApprove(caller: Address, id: nat)
    | AssignResearcher(id: nat, researcher: Address)
    | CheckTimelock(id: nat)
    | ClaimReward(id: nat, researcher: Address)
    | Withdraw(researcher: Address, amount: int)
    | ReplenishEscrow(caller: Address, amount: int)

  /** One invocation: whether the named account authorised it, and the ledger clock. */
  datatype Call = Call(op: Operation, authorized: bool, now: nat)

  // ---------------------------------------------------------------- rewards

  function RewardPercentage(s: Severity): int {
    match s
    case Critical => 100
    case High => 100
    case Medium => 60
    case Low => 30
  }

  /** `i128` division, which truncates toward zero. */
  function TruncatedDiv(a: int, b: int): int
    requires b > 0
  {
    if a >= 0 then a / b else -((-a) / b)
  }

  predicate FitsI128(x: int) {
    -I128_MAX - 1 <= x <= I128_MAX
  }

  function RewardOf(b: Bounty): Result<int, Failure> {
    match b.severity
    case Critical => Ok(b.amount)
    case High => Ok(b.amount)
    case _ =>
      var product := b.amount * RewardPercentage(b.severity);
      if FitsI128(product) then Ok(TruncatedDiv(product, 100)) else Err(Overflow)
  }

  /** The balance after a payout, the only way money leaves the contract. */
  function PaidOut(balance: int, amount: int): Result<int, Failure> {
    if amount <= 0 then Err(InvalidPayout)
    else if balance < amount then Err(InsufficientEscrow)
    else Ok(balance - amount)
  }

  // ---------------------------------------------------------------- the operations

  predicate Exists(m: Market, id: int) {
    1 <= id <= |m.ledger|
  }

  function Lookup(ledger: seq<Bounty>, id: nat): Option<Bounty> {
    if 1 <= id <= |ledger| then Some(ledger[id - 1]) else None
  }

  datatype Change = SetStatus(status: BountyStatus) | SetResearcher(researcher: Address)

  function Changed(b: Bounty, c: Change): Bounty {
    match c
    case SetStatus(s) => b.(status := s)
    case SetResearcher(r) => b.(assignedResearcher := Some(r))
  }

  /** The ledger with one bounty changed. */
  function WithChange(ledger: seq<Bounty>, id: nat, c: Change): seq<Bounty>
    requires 1 <= id <= |ledger|
  {
    ledger[id - 1 := Changed(ledger[id - 1], c)]
  }

  function NewBounty(id: nat, creator: Address, amount: int, title: string, description: string, severity: Severity, now: nat): Bounty {
    Bounty(id, creator, amount, title, description, Timelocked, severity, now, now + TIMELOCK_PERIOD, None, false, false)
  }

  function NewApproval(id: nat, creator: Address): Approval {
    Approval(id, creator, false, false, None, None)
  }

  function Create(m: Market, op: Operation, authorized: bool, now: nat): Result<Market, Failure>
    requires op.CreateBounty?
  {
    var id := |m.ledger| + 1;
    if op.amount <= 0 then Err(AmountNotPositive)
    else if op.title == "" then Err(InvalidTitle)
    else if op.description == "" then Err(InvalidDescription)
    else if !authorized then Err(AuthMissing)
    else if now + TIMELOCK_PERIOD > U64_MAX || id > U64_MAX || !FitsI128(m.balance + op.amount) then Err(Overflow)
    else Ok(m.(ledger := m.ledger + [NewBounty(id, op.creator, op.amount, op.title, op.description, op.severity, now)],
               balance := m.balance + op.amount,
               pending := m.pending[id := NewApproval(id, op.creator)]))
  }

  /** Both approvals present: the bounty becomes Approved. */
  function AfterApproval(m: Market, id: nat, a: Approval): Result<Market, Failure> {
    var m' := m.(pending := m.pending[id := a]);
    if a.adminApproved && a.ownerApproved then
      if Exists(m, id) then Ok(m'.(ledger := WithChange(m.ledger, id, SetStatus(Approved)))) else Err(BountyNotFound)
    else Ok(m')
  }

  function ApproveAsAdmin(p: Parties, m: Market, caller: Address, id: nat, authorized: bool, now: nat): Result<Market, Failure> {
    if !authorized then Err(AuthMissing)
    else if caller != p.admin then Err(NotAuthorized)
    else if id !in m.pending then Err(BountyNotFound)
    else if m.pending[id].adminApproved then Err(AlreadyApproved)
    else AfterApproval(m, id, m.pending[id].(adminApproved := true, adminApprovalTime := Some(now)))
  }

  function ApproveAsOwner(p: Parties, m: Market, caller: Address, id: nat, authorized: bool, now: nat): Result<Market, Failure> {
    if !authorized then Err(AuthMissing)
    else if caller != p.owner then Err(NotAuthorized)
    else if id !in m.pending then Err(BountyNotFound)
    else if m.pending[id].ownerApproved then Err(AlreadyApproved)
    else AfterApproval(m, id, m.pending[id].(ownerApproved := true, ownerApprovalTime := Some(now)))
  }

  function AssignmentsOf(assignments: map<Address, seq<nat>>, researcher: Address): seq<nat> {
    if researcher in assignments then assignments[researcher] else []
  }

  /** The caller compared with creator and admin is the contract's own address. */
  function Assign(p: Parties, m: Market, id: nat, researcher: Address): Result<Market, Failure> {
    if !Exists(m, id) then Err(BountyNotFound)
    else if p.contract != m.ledger[id - 1].creator && p.contract != p.admin then Err(NotAuthorized)
    else Ok(m.(ledger := WithChange(m.ledger, id, SetResearcher(researcher)),
               assignments := m.assignments[researcher := AssignmentsOf(m.assignments, researcher) + [id]]))
  }

  predicate TimelockOver(b: Bounty, now: nat) {
    b.status == Timelocked && now >= b.timelockUntil
  }

  function Unlock(m: Market, id: nat, now: nat): Result<Market, Failure> {
    if !Exists(m, id) then Err(BountyNotFound)
    else if TimelockOver(m.ledger[id - 1], now) then Ok(m.(ledger := WithChange(m.ledger, id, SetStatus(Active))))
    else Ok(m)
  }

  function Claim(m: Market, id: nat, researcher: Address, authorized: bool): Result<Market, Failure> {
    if !authorized then Err(AuthMissing)
    else if !Exists(m, id) then Err(BountyNotFound)
    else
      var b := m.ledger[id - 1];
      if b.status != Approved then Err(NotApproved)
      else if b.assignedResearcher != Some(researcher) then Err(NotAssigned)
      else if id !in m.pending then Err(ApprovalNotFound)
      else if !(m.pending[id].adminApproved && m.pending[id].ownerApproved) then Err(MultiSigRequired)
      else match RewardOf(b)
        case Err(e) => Err(e)
        case Ok(reward) =>
          match PaidOut(m.balance, reward)
          case Err(e) => Err(e)
          case Ok(rest) =>
            Ok(m.(ledger := WithChange(m.ledger, id, SetStatus(Completed)), balance := rest, pending := m.pending - {id}))
  }

  /** The sum so far and one listed bounty's reward, if it is approved for the researcher. */
  function AddAvailable(total: int, ledger: seq<Bounty>, id: nat, researcher: Address): Result<int, Failure> {
    match Lookup(ledger, id)
    case None => Err(BountyNotFound)
    case Some(b) =>
      if b.status != Approved || b.assignedResearcher != Some(researcher) then Ok(total)
      else
        match RewardOf(b)
        case Err(e) => Err(e)
        case Ok(reward) => if FitsI128(total + reward) then Ok(total + reward) else Err(Overflow)
  }

  /** The rewards of the listed bounties that are approved for the researcher; an id listed twice counts twice. */
  function Available(ledger: seq<Bounty>, ids: seq<nat>, researcher: Address): Result<int, Failure> {
    if ids == [] then Ok(0)
    else
      var n := |ids| - 1;
      match Available(ledger, ids[..n], researcher)
      case Err(e) => Err(e)
      case Ok(total) => AddAvailable(total, ledger, ids[n], researcher)
  }

  function WithdrawRewards(m: Market, researcher: Address, amount: int, authorized: bool): Result<Market, Failure> {
    if !authorized then Err(AuthMissing)
    else if amount <= 0 then Err(AmountNotPositive)
    else
      match Available(m.ledger, AssignmentsOf(m.assignments, researcher), researcher)
      case Err(e) => Err(e)
      case Ok(total) =>
        if total < amount then Err(InsufficientRewards)
        else
          match PaidOut(m.balance, amount)
          case Err(e) => Err(e)
          case Ok(rest) => Ok(m.(balance := rest))
  }

  function Replenish(p: Parties, m: Market, caller: Address, amount: int, authorized: bool): Result<Market, Failure> {
    if !authorized then Err(AuthMissing)
    else if amount <= 0 then Err(AmountNotPositive)
    else if caller != p.admin then Err(NotAuthorized)
    else if !FitsI128(m.balance + amount) then Err(Overflow)
    else Ok(m.(balance := m.balance + amount))
  }

  function Apply(p: Parties, m: Market, call: Call): Result<Market, Failure> {
    match call.op
    case CreateBounty(_, _, _, _, _) => Create(m, call.op, call.authorized, call.now)
    case AdminApprove(caller, id) => ApproveAsAdmin(p, m, caller, id, call.authorized, call.now)
    case OwnerApprove(caller, id) => ApproveAsOwner(p, m, caller, id, call.authorized, call.now)
    case AssignResearcher(id, researcher) => Assign(p, m, id, researcher)
    case CheckTimelock(id) => Unlock(m, id, call.now)
    case ClaimReward(id, researcher) => Claim(m, id, researcher, call.authorized)
    case Withdraw(researcher, amount) => WithdrawRewards(m, researcher, amount, call.authorized)
    case ReplenishEscrow(caller, amount) => Replenish(p, m, caller, amount, call.authorized)
  }

  // ---------------------------------------------------------------- the lifecycle invariant

  predicate BothApproved(m: Market, id: int) {
    id in m.pending && m.pending[id].adminApproved && m.pending[id].ownerApproved
  }

  /** How a bounty's status and its pending approval entry go together. */
  ghost predicate LifecycleOk(m: Market, id: int)
    requires Exists(m, id)
  {
    match m.ledger[id - 1].status
    case Timelocked => id in m.pending && !BothApproved(m, id)
    case Active => id in m.pending && !BothApproved(m, id)
    case Approved => BothApproved(m, id)
    case Completed => id !in m.pending
    case InReview => false
    case Rejected => false
  }

  ghost predicate IndexOk(m: Market, id: int)
    requires Exists(m, id)
  {
    var r := m.ledger[id - 1].assignedResearcher;
    r.Some? ==> id in AssignmentsOf(m.assignments, r.value)
  }

  ghost predicate MarketOk(m: Market) {
    && (forall id :: Exists(m, id) ==> m.ledger[id - 1].id == id && m.ledger[id - 1].amount > 0)
    && (forall id :: Exists(m, id) ==> LifecycleOk(m, id))
    && (forall id :: Exists(m, id) ==> IndexOk(m, id))
    && (forall id :: id in m.pending ==> Exists(m, id) && m.pending[id].bountyId == id)
    && (forall r, i :: r in m.assignments && 0 <= i < |m.assignments[r]| ==> Exists(m, m.assignments[r][i]))
    && m.balance >= 0
  }

  lemma ApplyKeepsMarketOk(p: Parties, m: Market, call: Call)
    requires MarketOk(m) && Apply(p, m, call).Ok?
    ensures MarketOk(Apply(p, m, call).value)
  {
    match call.op
    case CreateBounty(_, _, _, _, _) => CreateKeepsMarketOk(m, call);
    case AdminApprove(_, _) => ApprovalKeepsMarketOk(p, m, call);
    case OwnerApprove(_, _) => ApprovalKeepsMarketOk(p, m, call);
    case AssignResearcher(id, researcher) => AssignKeepsMarketOk(p, m, id, researcher);
    case CheckTimelock(id) => UnlockKeepsMarketOk(m, id, call.now);
    case ClaimReward(id, researcher) => ClaimKeepsMarketOk(m, id, researcher, call.authorized);
    case Withdraw(_, _) => OnlyBalanceChanges(p, m, call);
    case ReplenishEscrow(_, _) => OnlyBalanceChanges(p, m, call);
  }

  lemma CreateKeepsMarketOk(m: Market, call: Call)
    requires MarketOk(m) && call.op.CreateBounty? && Create(m, call.op, call.authorized, call.now).Ok?
    ensures MarketOk(Create(m, call.op, call.authorized, call.now).value)
  {
    var m' := Create(m, call.op, call.authorized, call.now).value;
    forall id | Exists(m', id)
      ensures m'.ledger[id - 1].id == id && m'.ledger[id - 1].amount > 0 && LifecycleOk(m', id) && IndexOk(m', id)
    {
      if id <= |m.ledger| {
        assert m'.ledger[id - 1] == m.ledger[id - 1];
        assert Exists(m, id) && LifecycleOk(m, id) && IndexOk(m, id);
      }
    }
  }

  /** Storing an approval entry that takes back no earlier approval keeps the lifecycle. */
  lemma StoredApprovalKeepsMarketOk(m: Market, id: nat, a: Approval)
    requires MarketOk(m) && id in m.pending && a.bountyId == id
    requires (m.pending[id].adminApproved ==> a.adminApproved) && (m.pending[id].ownerApproved ==> a.ownerApproved)
    ensures AfterApproval(m, id, a).Ok? ==> MarketOk(AfterApproval(m, id, a).value)
  {
    if AfterApproval(m, id, a).Ok? {
      var m' := AfterApproval(m, id, a).value;
      forall j | Exists(m', j)
        ensures m'.ledger[j - 1].id == j && m'.ledger[j - 1].amount > 0 && LifecycleOk(m', j) && IndexOk(m', j)
      {
        assert Exists(m, j) && LifecycleOk(m, j) && IndexOk(m, j);
      }
    }
  }

  lemma ApprovalKeepsMarketOk(p: Parties, m: Market, call: Call)
    requires MarketOk(m) && (call.op.AdminApprove? || call.op.OwnerApprove?) && Apply(p, m, call).Ok?
    ensures MarketOk(Apply(p, m, call).value)
  {
    var id := call.op.id;
    assert id in m.pending && m.pending[id].bountyId == id;
    hide MarketOk, AfterApproval;
    if call.op.AdminApprove? {
      StoredApprovalKeepsMarketOk(m, id, m.pending[id].(adminApproved := true, adminApprovalTime := Some(call.now)));
    } else {
      StoredApprovalKeepsMarketOk(m, id, m.pending[id].(ownerApproved := true, ownerApprovalTime := Some(call.now)));
    }
  }

  lemma AssignKeepsMarketOk(p: Parties, m: Market, id: nat, researcher: Address)
    requires MarketOk(m) && Assign(p, m, id, researcher).Ok?
    ensures MarketOk(Assign(p, m, id, researcher).value)
  {
    var m' := Assign(p, m, id, researcher).value;
    forall j | Exists(m', j)
      ensures m'.ledger[j - 1].id == j && m'.ledger[j - 1].amount > 0 && LifecycleOk(m', j) && IndexOk(m', j)
    {
      assert Exists(m, j) && LifecycleOk(m, j) && IndexOk(m, j);
      assert id in AssignmentsOf(m'.assignments, researcher);
    }
  }

  lemma UnlockKeepsMarketOk(m: Market, id: nat, now: nat)
    requires MarketOk(m) && Unlock(m, id, now).Ok?
    ensures MarketOk(Unlock(m, id, now).value)
  {
    var m' := Unlock(m, id, now).value;
    forall j | Exists(m', j)
      ensures m'.ledger[j - 1].id == j && m'.ledger[j - 1].amount > 0 && LifecycleOk(m', j) && IndexOk(m', j)
    {
      assert Exists(m, j) && LifecycleOk(m, j) && IndexOk(m, j);
    }
  }

  lemma ClaimKeepsMarketOk(m: Market, id: nat, researcher: Address, authorized: bool)
    requires MarketOk(m) && Claim(m, id, researcher, authorized).Ok?
    ensures MarketOk(Claim(m, id, researcher, authorized).value)
  {
    var m' := Claim(m, id, researcher, authorized).value;
    forall j | Exists(m', j)
      ensures m'.ledger[j - 1].id == j && m'.ledger[j - 1].amount > 0 && LifecycleOk(m', j) && IndexOk(m', j)
    {
      assert Exists(m, j) && LifecycleOk(m, j) && IndexOk(m, j);
    }
  }

  lemma OnlyBalanceChanges(p: Parties, m: Market, call: Call)
    requires MarketOk(m) && (call.op.Withdraw? || call.op.ReplenishEscrow?) && Apply(p, m, call).Ok?
    ensures MarketOk(Apply(p, m, call).value)
    ensures Apply(p, m, call).value == m.(balance := Apply(p, m, call).value.balance)
  {
    var m' := Apply(p, m, call).value;
    forall j | Exists(m', j)
      ensures m'.ledger[j - 1].id == j && m'.ledger[j - 1].amount > 0 && LifecycleOk(m', j) && IndexOk(m', j)
    {
      assert Exists(m, j) && LifecycleOk(m, j) && IndexOk(m, j);
    }
  }
}
