/** What the hashed text of a critical event covers: twelve fields, each changed alone noticed unless its text is the same. */
module EventCoverage {
  import opened Foundations
  import opened Digests
  import AuditEvents
  import AuditCoverage
  import opened EventLogging
  import opened EventTampering

  // ---------------------------------------------------------------- one field at a time

  lemma {:induction false} FrontCancels(x: CriticalEvent, y: CriticalEvent, k: nat)
    requires k <= HASHED_FIELDS && forall j: nat :: j < k ==> HashedField(x, j) == HashedField(y, j)
    ensures EventText(x) == EventText(y) <==> FieldsFrom(x, k) == FieldsFrom(y, k)
  {
    hide HashedField, FieldsFrom;
    if k > 0 {
      FrontCancels(x, y, k - 1);
      FieldsStep(x, k - 1);
      FieldsStep(y, k - 1);
      AuditCoverage.CancelFront(HashedField(x, k - 1), FieldsFrom(x, k), FieldsFrom(y, k));
    }
  }

  lemma FieldsStep(e: CriticalEvent, k: nat)
    requires k < HASHED_FIELDS
    ensures FieldsFrom(e, k) == HashedField(e, k) + FieldsFrom(e, k + 1)
  {
  }

  /** Events that agree in all hashed fields but one have one text exactly if they agree in that one. */
  lemma OneFieldDecides(x: CriticalEvent, y: CriticalEvent, k: nat)
    requires k < HASHED_FIELDS
    requires forall j: nat :: j != k && j < HASHED_FIELDS ==> HashedField(x, j) == HashedField(y, j)
    ensures EventText(x) == EventText(y) <==> HashedField(x, k) == HashedField(y, k)
  {
    hide HashedField, FieldsFrom, EventText;
    FieldsAgree(x, y, k + 1);
    FieldsStep(x, k);
    FieldsStep(y, k);
    AuditCoverage.CancelRest(HashedField(x, k), HashedField(y, k), FieldsFrom(x, k + 1));
    FrontCancels(x, y, k);
  }

  // ---------------------------------------------------------------- texts on the wire

  lemma OperationTextsDiffer(a: CriticalOperation, b: CriticalOperation)
    ensures OperationText(a) == OperationText(b) <==> a == b
  {
  }

  lemma SeverityTextsDiffer(a: AuditEvents.AuditSeverity, b: AuditEvents.AuditSeverity)
    ensures SeverityText(a) == SeverityText(b) <==> a == b
  {
  }

  lemma StatusTextsDiffer(a: EventStatus, b: EventStatus)
    ensures StatusText(a) == StatusText(b) <==> a == b
  {
  }

  // ---------------------------------------------------------------- changes of one field

  datatype FieldChange =
    | SetEventId(id: string)
    | SetTimestamp(time: nat)
    | SetOperation(operation: CriticalOperation)
    | SetSeverity(severity: AuditEvents.AuditSeverity)
    | SetStatus(status: EventStatus)
    | SetDescription(description: string)
    | SetActor(actor: string)
    | SetTarget(target: Option<string>)
    | SetPreviousState(before: Option<string>)
    | SetNewState(after: Option<string>)
    | SetErrorMessage(error: Option<string>)
    | SetTransactionHash(transaction: Option<string>)

  function Altered(e: CriticalEvent, c: FieldChange): CriticalEvent {
    match c
    case SetEventId(v) => e.(eventId := v)
    case SetTimestamp(v) => e.(timestamp := v)
    case SetOperation(v) => e.(operation := v)
    case SetSeverity(v) => e.(severity := v)
    case SetStatus(v) => e.(status := v)
    case SetDescription(v) => e.(description := v)
    case SetActor(v) => e.(actor := v)
    case SetTarget(v) => e.(target := v)
    case SetPreviousState(v) => e.(previousState := v)
    case SetNewState(v) => e.(newState := v)
    case SetErrorMessage(v) => e.(errorMessage := v)
    case SetTransactionHash(v) => e.(transactionHash := v)
  }

  /** The change leaves the field as it was, an absent text counting as an empty one. */
  predicate NoChange(e: CriticalEvent, c: FieldChange) {
    match c
    case SetEventId(v) => e.eventId == v
    case SetTimestamp(v) => e.timestamp == v
    case SetOperation(v) => e.operation == v
    case SetSeverity(v) => e.severity == v
    case SetStatus(v) => e.status == v
    case SetDescription(v) => e.description == v
    case SetActor(v) => e.actor == v
    case SetTarget(v) => AuditCoverage.SameText(e.target, v)
    case SetPreviousState(v) => AuditCoverage.SameText(e.previousState, v)
    case SetNewState(v) => AuditCoverage.SameText(e.newState, v)
    case SetErrorMessage(v) => AuditCoverage.SameText(e.errorMessage, v)
    case SetTransactionHash(v) => AuditCoverage.SameText(e.transactionHash, v)
  }

  /** Times are `u64`. */
  predicate InRange(e: CriticalEvent, c: FieldChange) {
    c.SetTimestamp? ==> e.timestamp <= U64_MAX && c.time <= U64_MAX
  }

  /** The one hashed field a change can touch. */
  function FieldOf(c: FieldChange): (k: nat)
    ensures k < HASHED_FIELDS
  {
    match c
    case SetEventId(_) => 0
    case SetTimestamp(_) => 1
    case SetOperation(_) => 2
    case SetSeverity(_) => 3
    case SetStatus(_) => 4
    case SetDescription(_) => 5
    case SetActor(_) => 6
    case SetTarget(_) => 7
    case SetPreviousState(_) => 8
    case SetNewState(_) => 9
    case SetErrorMessage(_) => 10
    case SetTransactionHash(_) => 11
  }

  lemma OtherFieldsStay(e: CriticalEvent, c: FieldChange, j: nat)
    requires j != FieldOf(c) && j < HASHED_FIELDS
    ensures HashedField(Altered(e, c), j) == HashedField(e, j)
  {
    hide AuditEvents.LittleEndian, OperationText, SeverityText, StatusText;
  }

  lemma FieldStaysIff(e: CriticalEvent, c: FieldChange)
    requires InRange(e, c)
    ensures HashedField(Altered(e, c), FieldOf(c)) == HashedField(e, FieldOf(c)) <==> NoChange(e, c)
  {
    hide AuditEvents.LittleEndian, OperationText, SeverityText, StatusText;
    match c {
      case SetTimestamp(v) => AuditCoverage.TimestampTextsDiffer(e.timestamp, v);
      case SetOperation(v) => OperationTextsDiffer(e.operation, v);
      case SetSeverity(v) => SeverityTextsDiffer(e.severity, v);
      case SetStatus(v) => StatusTextsDiffer(e.status, v);
      case _ =>
    }
  }

  /** Every one of the twelve fields is covered: changing it alone keeps the hashed text exactly if it is no change. */
  lemma ChangeKeepsTextIff(e: CriticalEvent, c: FieldChange)
    requires InRange(e, c)
    ensures EventText(Altered(e, c)) == EventText(e) <==> NoChange(e, c)
  {
    hide HashedField, EventText, Altered, NoChange;
    forall j: nat | j != FieldOf(c) && j < HASHED_FIELDS
      ensures HashedField(Altered(e, c), j) == HashedField(e, j)
    {
      OtherFieldsStay(e, c, j);
    }
    FieldStaysIff(e, c);
    OneFieldDecides(Altered(e, c), e, FieldOf(c));
  }

  /** In every verifying store, changing one covered field goes unnoticed exactly if it is no change or the texts collide. */
  lemma ChangeIsNoticedIff(sha: HashFunction, events: seq<CriticalEvent>, i: nat, c: FieldChange)
    requires StoreIntact(sha, events) && i < |events| && InRange(events[i], c)
    ensures StoreIntact(sha, events[i := Altered(events[i], c)]) <==>
            NoChange(events[i], c) || TextsCollide(sha, events[i], Altered(events[i], c))
  {
    hide StoreIntact, EventText, NoChange, TextsCollide;
    ChangeKeepsTextIff(events[i], c);
    assert Altered(events[i], c).eventHash == events[i].eventHash;
    assert Altered(events[i], c).previousEventHash == events[i].previousEventHash;
    OneAlterationUnnoticedIff(sha, events, i, Altered(events[i], c));
  }
}
