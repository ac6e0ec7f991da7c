/** What the hashed text of an audit entry covers: changing one field alone is noticed unless its text on the wire is the same. */
module AuditCoverage {
  import opened Foundations
  import opened Digests
  import opened AuditEvents
  import opened AuditChain
  import opened AuditTampering

  // ---------------------------------------------------------------- one field at a time

  lemma CancelFront(front: string, s: string, t: string)
    ensures front + s == front + t <==> s == t
  {
    assert (front + s)[|front|..] == s && (front + t)[|front|..] == t;
  }

  lemma CancelRest(s: string, t: string, rest: string)
    ensures s + rest == t + rest <==> s == t
  {
    if s + rest == t + rest {
      assert |s| == |t|;
      assert (s + rest)[..|s|] == s && (t + rest)[..|t|] == t;
    }
  }

  lemma {:induction false} FrontCancels(x: AuditEvent, y: AuditEvent, k: nat)
    requires k <= HASHED_FIELDS && forall j: nat :: j < k ==> HashedField(x, j) == HashedField(y, j)
    ensures Body(x) == Body(y) <==> FieldsFrom(x, k) == FieldsFrom(y, k)
  {
    hide HashedField, FieldsFrom;
    if k > 0 {
      FrontCancels(x, y, k - 1);
      FieldsStep(x, k - 1);
      FieldsStep(y, k - 1);
      CancelFront(HashedField(x, k - 1), FieldsFrom(x, k), FieldsFrom(y, k));
    }
  }

  lemma FieldsStep(e: AuditEvent, k: nat)
    requires k < HASHED_FIELDS
    ensures FieldsFrom(e, k) == HashedField(e, k) + FieldsFrom(e, k + 1)
  {
  }

  /** Events that agree in all hashed fields but one have one body exactly if they agree in that one. */
  lemma OneFieldDecides(x: AuditEvent, y: AuditEvent, k: nat)
    requires k < HASHED_FIELDS
    requires forall j: nat :: j != k && j < HASHED_FIELDS ==> HashedField(x, j) == HashedField(y, j)
    ensures Body(x) == Body(y) <==> HashedField(x, k) == HashedField(y, k)
  {
    hide HashedField, FieldsFrom, Body;
    LaterFieldsAgree(x, y, k + 1);
    FieldsStep(x, k);
    FieldsStep(y, k);
    CancelRest(HashedField(x, k), HashedField(y, k), FieldsFrom(x, k + 1));
    FrontCancels(x, y, k);
  }

  // ---------------------------------------------------------------- texts on the wire

  lemma ActionNamesDiffer(a: AuditAction, b: AuditAction)
    ensures ActionName(a) == ActionName(b) <==> a == b
  {
  }

  lemma CategoryNamesDiffer(a: AuditCategory, b: AuditCategory)
    ensures CategoryName(a) == CategoryName(b) <==> a == b
  {
  }

  lemma SeverityNamesDiffer(a: AuditSeverity, b: AuditSeverity)
    ensures SeverityName(a) == SeverityName(b) <==> a == b
  {
  }

  lemma OutcomeNamesDiffer(a: AuditOutcome, b: AuditOutcome)
    ensures OutcomeName(a) == OutcomeName(b) <==> a == b
  {
  }

  lemma RoleNamesDiffer(a: UserRole, b: UserRole)
    ensures RoleName(a) == RoleName(b) <==> a == b
  {
  }

  function Power256(width: nat): nat {
    if width == 0 then 1 else 256 * Power256(width - 1)
  }

  /** Numbers that fit into the width have different byte sequences, all of that width. */
  lemma {:induction false} LittleEndianDiffers(m: nat, n: nat, width: nat)
    requires m < Power256(width) && n < Power256(width)
    ensures |LittleEndian(m, width)| == |LittleEndian(n, width)| == width
    ensures LittleEndian(m, width) == LittleEndian(n, width) <==> m == n
  {
    if width > 0 {
      LittleEndianDiffers(m / 256, n / 256, width - 1);
      var a, b := LittleEndian(m, width), LittleEndian(n, width);
      assert a[1..] == LittleEndian(m / 256, width - 1) && b[1..] == LittleEndian(n / 256, width - 1);
      assert a[0] == (m % 256) as char && b[0] == (n % 256) as char;
      assert m == 256 * (m / 256) + m % 256 && n == 256 * (n / 256) + n % 256;
    }
  }

  lemma TimestampTextsDiffer(m: nat, n: nat)
    requires m <= U64_MAX && n <= U64_MAX
    ensures LittleEndian(m, 8) == LittleEndian(n, 8) <==> m == n
  {
    assert Power256(8) == U64_MAX + 1;
    LittleEndianDiffers(m, n, 8);
  }

  /** Keys are compared byte by byte: the first difference decides, and a beginning comes before its continuations. */
  lemma {:induction false} TextOrder(p: string, x: char, s: string, y: char, t: string)
    requires x != y
    ensures TextLe(p + [x] + s, p + [y] + t) <==> x < y
    ensures TextLe(p, p + [x] + s) && !TextLe(p + [x] + s, p)
  {
    if p == "" {
      assert p + [x] + s == [x] + s && p + [y] + t == [y] + t;
    } else {
      assert (p + [x] + s)[1..] == p[1..] + [x] + s && (p + [y] + t)[1..] == p[1..] + [y] + t;
      TextOrder(p[1..], x, s, y, t);
    }
  }

  /** Metadata is written as `key=value;` pairs, the first key first. */
  lemma MetadataInOrder(metadata: map<string, string>, k: string)
    requires k in metadata && forall j :: j in metadata ==> TextLe(k, j)
    ensures MetadataText(metadata) == k + "=" + metadata[k] + ";" + MetadataText(metadata - {k})
    ensures MetadataText(map[]) == ""
  {
    assert IsFirstKey(k, metadata.Keys);
    TextLeTotal(k, FirstKey(metadata.Keys));
  }

  // ---------------------------------------------------------------- changes of one field

  datatype FieldChange =
    | SetAuditId(id: string)
    | SetEventTimestamp(time: nat)
    | SetAction(action: AuditAction)
    | SetCategory(category: AuditCategory)
    | SetSeverity(severity: AuditSeverity)
    | SetOutcome(outcome: AuditOutcome)
    | SetDescription(description: string)
    | SetUserId(user: string)
    | SetUserRole(role: UserRole)
    | SetIpAddress(ip: Option<string>)
    | SetUserAgent(agent: Option<string>)
    | SetRequestId(request: Option<string>)
    | SetSessionId(session: Option<string>)
    | SetResourceType(resourceKind: Option<string>)
    | SetResourceId(resource: Option<string>)
    | SetPreviousState(before: Option<string>)
    | SetNewState(after: Option<string>)
    | SetMetadata(pairs: map<string, string>)

  function Altered(e: AuditEvent, c: FieldChange): AuditEvent {
    match c
    case SetAuditId(v) => e.(auditId := v)
    case SetEventTimestamp(v) => e.(eventTimestamp := v)
    case SetAction(v) => e.(action := v)
    case SetCategory(v) => e.(category := v)
    case SetSeverity(v) => e.(severity := v)
    case SetOutcome(v) => e.(outcome := v)
    case SetDescription(v) => e.(description := v)
    case SetUserId(v) => e.(userId := v)
    case SetUserRole(v) => e.(userRole := v)
    case SetIpAddress(v) => e.(ipAddress := v)
    case SetUserAgent(v) => e.(userAgent := v)
    case SetRequestId(v) => e.(requestId := v)
    case SetSessionId(v) => e.(sessionId := v)
    case SetResourceType(v) => e.(resourceType := v)
    case SetResourceId(v) => e.(resourceId := v)
    case SetPreviousState(v) => e.(previousState := v)
    case SetNewState(v) => e.(newState := v)
    case SetMetadata(v) => e.(metadata := v)
  }

  /** An absent text and an empty one look alike. */
  predicate SameText(a: Option<string>, b: Option<string>) {
    a == b || (a in {None, Some("")} && b in {None, Some("")})
  }

  /** The change leaves the field as it was, an absent text counting as an empty one and metadata by its text. */
  predicate NoChange(e: AuditEvent, c: FieldChange) {
    match c
    case SetAuditId(v) => e.auditId == v
    case SetEventTimestamp(v) => e.eventTimestamp == v
    case SetAction(v) => e.action == v
    case SetCategory(v) => e.category == v
    case SetSeverity(v) => e.severity == v
    case SetOutcome(v) => e.outcome == v
    case SetDescription(v) => e.description == v
    case SetUserId(v) => e.userId == v
    case SetUserRole(v) => e.userRole == v
    case SetIpAddress(v) => SameText(e.ipAddress, v)
    case SetUserAgent(v) => SameText(e.userAgent, v)
    case SetRequestId(v) => SameText(e.requestId, v)
    case SetSessionId(v) => SameText(e.sessionId, v)
    case SetResourceType(v) => SameText(e.resourceType, v)
    case SetResourceId(v) => SameText(e.resourceId, v)
    case SetPreviousState(v) => SameText(e.previousState, v)
    case SetNewState(v) => SameText(e.newState, v)
    case SetMetadata(v) => MetadataText(e.metadata) == MetadataText(v)
  }

  /** Times are `u64`. */
  predicate InRange(e: AuditEvent, c: FieldChange) {
    c.SetEventTimestamp? ==> e.eventTimestamp <= U64_MAX && c.time <= U64_MAX
  }

  /** The one hashed field a change can touch. */
  function FieldOf(c: FieldChange): (k: nat)
    ensures k < HASHED_FIELDS
  {
    match c
    case SetAuditId(_) => 0
    case SetEventTimestamp(_) => 1
    case SetAction(_) => 2
    case SetCategory(_) => 3
    case SetSeverity(_) => 4
    case SetOutcome(_) => 5
    case SetDescription(_) => 6
    case SetUserId(_) => 7
    case SetUserRole(_) => 8
    case SetIpAddress(_) => 9
    case SetUserAgent(_) => 10
    case SetRequestId(_) => 11
    case SetSessionId(_) => 12
    case SetResourceType(_) => 13
    case SetResourceId(_) => 14
    case SetPreviousState(_) => 15
    case SetNewState(_) => 16
    case SetMetadata(_) => 17
  }

  lemma OtherFieldsStay(e: AuditEvent, c: FieldChange, j: nat)
    requires j != FieldOf(c) && j < HASHED_FIELDS
    ensures HashedField(Altered(e, c), j) == HashedField(e, j)
  {
    hide LittleEndian, MetadataText, ActionName, CategoryName, SeverityName, OutcomeName, RoleName;
  }

  lemma FieldStaysIff(e: AuditEvent, c: FieldChange)
    requires InRange(e, c)
    ensures HashedField(Altered(e, c), FieldOf(c)) == HashedField(e, FieldOf(c)) <==> NoChange(e, c)
  {
    hide LittleEndian, MetadataText, ActionName, CategoryName, SeverityName, OutcomeName, RoleName;
    match c {
      case SetEventTimestamp(v) => TimestampTextsDiffer(e.eventTimestamp, v);
      case SetAction(v) => ActionNamesDiffer(e.action, v);
      case SetCategory(v) => CategoryNamesDiffer(e.category, v);
      case SetSeverity(v) => SeverityNamesDiffer(e.severity, v);
      case SetOutcome(v) => OutcomeNamesDiffer(e.outcome, v);
      case SetUserRole(v) => RoleNamesDiffer(e.userRole, v);
      case _ =>
    }
  }

  /** Every one of the eighteen fields is covered: changing it alone keeps the hashed body exactly if it is no change. */
  lemma ChangeKeepsBodyIff(e: AuditEvent, c: FieldChange)
    requires InRange(e, c)
    ensures Body(Altered(e, c)) == Body(e) <==> NoChange(e, c)
  {
    hide HashedField, Body, Altered, NoChange;
    forall j: nat | j != FieldOf(c) && j < HASHED_FIELDS
      ensures HashedField(Altered(e, c), j) == HashedField(e, j)
    {
      OtherFieldsStay(e, c, j);
    }
    FieldStaysIff(e, c);
    OneFieldDecides(Altered(e, c), e, FieldOf(c));
  }

  /**
   * In every intact trail, changing one field of one entry goes unnoticed exactly if it is no change on the wire or
   * the two texts collide.
   */
  lemma ChangeIsNoticedIff(sha: HashFunction, entries: seq<AuditEvent>, i: nat, c: FieldChange)
    requires Intact(sha, entries) && i < |entries| && InRange(entries[i], c)
    ensures Intact(sha, entries[i := Altered(entries[i], c)]) <==>
            NoChange(entries[i], c) || Collide(sha, entries[i], Altered(entries[i], c))
  {
    hide Intact, Body, NoChange, Collide;
    ChangeKeepsBodyIff(entries[i], c);
    assert Altered(entries[i], c).entryHash == entries[i].entryHash;
    assert Altered(entries[i], c).previousEntryHash == entries[i].previousEntryHash;
    OneAlterationUnnoticedIff(sha, entries, i, Altered(entries[i], c));
  }
}
