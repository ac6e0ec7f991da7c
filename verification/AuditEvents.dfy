/** Audit events, their wire names and the text that is hashed for one entry. Strings are byte strings, one character a byte. */
module AuditEvents {
  import opened Foundations

  datatype AuditCategory = Vulnerability | Verification | Bounty | Admin | Auth | General

  datatype AuditAction =
    | VulnerabilityCreate | VulnerabilityUpdate | VulnerabilityDelete | VulnerabilityVerify | VulnerabilityReject
    | BountyCreate | BountyUpdate | BountyPayment | BountyCancel | EscrowRelease
    | AdminRoleChange | AdminUserSuspend | AdminConfigChange | AdminAccessGrant | AdminAccessRevoke
    | AuthLogin | AuthLogout | AuthFailed

  datatype AuditSeverity = Low | Medium | High | Critical

  datatype AuditOutcome = Success | Failure | Denied | Error

  datatype UserRole = AdminRole | SecurityAdmin | Auditor | Researcher | User | Unknown

  datatype AuditEvent = AuditEvent(
    auditId: string,
    eventTimestamp: nat,
    recordedAt: nat,
    action: AuditAction,
    category: AuditCategory,
    severity: AuditSeverity,
    outcome: AuditOutcome,
    description: string,
    userId: string,
    userRole: UserRole,
    ipAddress: Option<string>,
    userAgent: Option<string>,
    requestId: Option<string>,
    sessionId: Option<string>,
    resourceType: Option<string>,
    resourceId: Option<string>,
    previousState: Option<string>,
    newState: Option<string>,
    metadata: map<string, string>,
    entryHash: string,
    previousEntryHash: string)

  function CategoryName(c: AuditCategory): string {
    match c
    case Vulnerability => "vulnerability"
    case Verification => "verification"
    case Bounty => "bounty"
    case Admin => "admin"
    case Auth => "auth"
    case General => "general"
  }

  function ActionName(a: AuditAction): string {
    match a
    case VulnerabilityCreate => "vulnerability.create"
    case VulnerabilityUpdate => "vulnerability.update"
    case VulnerabilityDelete => "vulnerability.delete"
    case VulnerabilityVerify => "vulnerability.verify"
    case VulnerabilityReject => "vulnerability.reject"
    case BountyCreate => "bounty.create"
    case BountyUpdate => "bounty.update"
    case BountyPayment => "bounty.payment"
    case BountyCancel => "bounty.cancel"
    case EscrowRelease => "escrow.release"
    case AdminRoleChange => "admin.role_change"
    case AdminUserSuspend => "admin.user_suspend"
    case AdminConfigChange => "admin.config_change"
    case AdminAccessGrant => "admin.access_grant"
    case AdminAccessRevoke => "admin.access_revoke"
    case AuthLogin => "auth.login"
    case AuthLogout => "auth.logout"
    case AuthFailed => "auth.failed"
  }

  function SeverityName(s: AuditSeverity): string {
    match s
    case Low => "low"
    case Medium => "medium"
    case High => "high"
    case Critical => "critical"
  }

  function OutcomeName(o: AuditOutcome): string {
    match o
    case Success => "success"
    case Failure => "failure"
    case Denied => "denied"
    case Error => "error"
  }

  function RoleName(r: UserRole): string {
    match r
    case AdminRole => "admin"
    case SecurityAdmin => "security_admin"
    case Auditor => "auditor"
    case Researcher => "researcher"
    case User => "user"
    case Unknown => "unknown"
  }

  predicate CanReadAudit(r: UserRole) {
    r.AdminRole? || r.SecurityAdmin? || r.Auditor?
  }

  // ---------------------------------------------------------------- encoding

  /** `u64::to_le_bytes`. */
  function LittleEndian(n: nat, width: nat): string {
    if width == 0 then "" else [(n % 256) as char] + LittleEndian(n / 256, width - 1)
  }

  function Digits(n: nat): string {
    var last := [('0' as int + n % 10) as char];
    if n < 10 then last else Digits(n / 10) + last
  }

  /** Decimal: one digit is itself, and a digit appended multiplies by ten. */
  lemma DigitsMean(n: nat, d: nat)
    requires d < 10
    ensures Digits(d) == [['0', '1', '2', '3', '4', '5', '6', '7', '8', '9'][d]]
    ensures n > 0 ==> Digits(10 * n + d) == Digits(n) + Digits(d)
  {
    assert (10 * n + d) / 10 == n && (10 * n + d) % 10 == d;
  }

  /** Different numbers have different digits. */
  lemma {:induction false} DigitsDiffer(m: nat, n: nat)
    requires m != n
    ensures Digits(m) != Digits(n)
  {
    var a, b := Digits(m), Digits(n);
    assert m == 10 * (m / 10) + m % 10 && n == 10 * (n / 10) + n % 10;
    if a == b {
      assert a[|a| - 1] == b[|b| - 1];
      assert m % 10 == n % 10;
      if m >= 10 && n >= 10 {
        assert a[..|a| - 1] == Digits(m / 10) && b[..|b| - 1] == Digits(n / 10);
        DigitsDiffer(m / 10, n / 10);
      } else {
        DigitsNonEmpty(m / 10);
        DigitsNonEmpty(n / 10);
      }
      assert false;
    }
  }

  lemma DigitsNonEmpty(n: nat)
    ensures Digits(n) != ""
  {
  }

  /** Byte-wise lexicographic order, as `Vec<&String>::sort` compares. */
  predicate TextLe(a: string, b: string) {
    if a == "" then true
    else if b == "" then false
    else a[0] < b[0] || (a[0] == b[0] && TextLe(a[1..], b[1..]))
  }

  lemma {:induction false} TextLeTotal(a: string, b: string)
    ensures TextLe(a, b) || TextLe(b, a)
    ensures TextLe(a, b) && TextLe(b, a) ==> a == b
  {
    if a != "" && b != "" && a[0] == b[0] {
      TextLeTotal(a[1..], b[1..]);
      assert a == [a[0]] + a[1..];
      assert b == [b[0]] + b[1..];
    }
  }

  lemma {:induction false} TextLeTransitive(a: string, b: string, c: string)
    requires TextLe(a, b) && TextLe(b, c)
    ensures TextLe(a, c)
  {
    if a != "" && a[0] == b[0] == c[0] {
      TextLeTransitive(a[1..], b[1..], c[1..]);
    }
  }

  predicate IsFirstKey(k: string, keys: set<string>) {
    k in keys && forall j :: j in keys ==> TextLe(k, j)
  }

  lemma {:induction false} FirstKeyExists(keys: set<string>)
    requires keys != {}
    ensures exists k :: IsFirstKey(k, keys)
  {
    var x :| x in keys;
    var rest := keys - {x};
    assert forall j :: j in keys ==> j == x || j in rest;
    TextLeTotal(x, x);
    if rest == {} {
      assert IsFirstKey(x, keys);
    } else {
      FirstKeyExists(rest);
      var k :| IsFirstKey(k, rest);
      TextLeTotal(x, k);
      if TextLe(x, k) {
        forall j | j in rest {
          TextLeTransitive(x, k, j);
        }
        assert IsFirstKey(x, keys);
      } else {
        assert IsFirstKey(k, keys);
      }
    }
  }

  function FirstKey(keys: set<string>): (k: string)
    requires keys != {}
    ensures IsFirstKey(k, keys)
  {
    FirstKeyExists(keys);
    assert forall a, b :: IsFirstKey(a, keys) && IsFirstKey(b, keys) ==> a == b by {
      forall a, b | IsFirstKey(a, keys) && IsFirstKey(b, keys)
        ensures a == b
      {
        TextLeTotal(a, b);
      }
    }
    var k :| IsFirstKey(k, keys);
    k
  }

  /** The metadata in sorted key order, as `key=value;` pairs. */
  function MetadataText(metadata: map<string, string>): string
    decreases |metadata|
  {
    if metadata == map[] then ""
    else
      assert metadata.Keys != {} by {
        var k :| k in metadata;
        assert k in metadata.Keys;
      }
      var k := FirstKey(metadata.Keys);
      assert (metadata - {k}).Keys == metadata.Keys - {k};
      k + "=" + metadata[k] + ";" + MetadataText(metadata - {k})
  }

  const HASHED_FIELDS: nat := 18

  /** The fields in the order in which they are hashed; an absent one contributes nothing. `recordedAt` is not among them. */
  function HashedField(e: AuditEvent, k: nat): string {
    match k
    case 0 => e.auditId
    case 1 => LittleEndian(e.eventTimestamp, 8)
    case 2 => ActionName(e.action)
    case 3 => CategoryName(e.category)
    case 4 => SeverityName(e.severity)
    case 5 => OutcomeName(e.outcome)
    case 6 => e.description
    case 7 => e.userId
    case 8 => RoleName(e.userRole)
    case 9 => e.ipAddress.GetOr("")
    case 10 => e.userAgent.GetOr("")
    case 11 => e.requestId.GetOr("")
    case 12 => e.sessionId.GetOr("")
    case 13 => e.resourceType.GetOr("")
    case 14 => e.resourceId.GetOr("")
    case 15 => e.previousState.GetOr("")
    case 16 => e.newState.GetOr("")
    case _ => MetadataText(e.metadata)
  }

  /** The fields from the `k`-th on, joined without separators. */
  function FieldsFrom(e: AuditEvent, k: nat): string
    decreases e, HASHED_FIELDS - k
  {
    if k >= HASHED_FIELDS then "" else HashedField(e, k) + FieldsFrom(e, k + 1)
  }

  /** Everything the entry hash covers except the previous entry's hash. */
  function Body(e: AuditEvent): string {
    FieldsFrom(e, 0)
  }

  /** The hashed text is the same for events that differ in their hash fields and time of recording only. */
  lemma {:induction false} FieldsIgnoreHashes(e: AuditEvent, recordedAt: nat, entryHash: string, previousEntryHash: string, k: nat)
    ensures FieldsFrom(e.(recordedAt := recordedAt, entryHash := entryHash, previousEntryHash := previousEntryHash), k) == FieldsFrom(e, k)
    decreases e, HASHED_FIELDS - k
  {
    if k < HASHED_FIELDS {
      FieldsIgnoreHashes(e, recordedAt, entryHash, previousEntryHash, k + 1);
    }
  }
}
