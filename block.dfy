/**
  Blocks and the records that travel inside them: the block itself, its
  hash, and the contract, validation-step and audit-entry types of the
  procurement workflow.

  SHA-256 over the JSON encoding of the hashed fields is abstracted as the
  constant `Sha256`, an arbitrary function from the hashed tuple to a
  non-empty string (a hex digest is never empty). No property of the hash
  is assumed beyond that; lemmas that need two records not to collide say
  so with `NoCollision`.
 */
module Blocks {

  /** Instants are integer nanoseconds since the Unix epoch. */
  type Time = int

  const NanosPerSecond: int := 1_000_000_000

  /** Go's zero `time.Time{}` (January 1 of year 1, UTC). */
  const ZeroTime: Time := -62_135_596_800 * NanosPerSecond

  /** `Time.Unix()`: whole seconds, rounded down. */
  function Unix(t: Time): int {
    t / NanosPerSecond
  }

  /** The dynamically typed values of a block's `map[string]interface{}` payload. */
  datatype Value =
    | Str(s: string)
    | Int(i: int)
    | Bool(b: bool)
    | Instant(t: Time)
    | Object(fields: map<string, Value>)

  type Payload = map<string, Value>

  /** Block types written by the ledger. */
  const ContractCreation: string := "CONTRACT_CREATION"
  const ValidationType: string := "VALIDATION"
  const AuditObservationType: string := "AUDIT_OBSERVATION"

  datatype Block = Block(
    index: int,
    timestamp: Time,
    data: Payload,
    previousHash: string,
    hash: string,
    nonce: int,
    blockType: string)

  /** The tuple that is serialised and hashed: every field but `hash`, the timestamp at second resolution. */
  datatype HashRecord = HashRecord(
    index: int,
    unixSeconds: int,
    data: Payload,
    previousHash: string,
    nonce: int,
    blockType: string)

  type HashFn = f: HashRecord -> string | forall r :: f(r) != "" witness (r: HashRecord) => "0"

  /** SHA-256 of the JSON encoding, hex encoded; left abstract. */
  const Sha256: HashFn

  /** Two records that differ get different digests. */
  ghost predicate NoCollision(r1: HashRecord, r2: HashRecord) {
    r1 != r2 ==> Sha256(r1) != Sha256(r2)
  }

  function Record(b: Block): HashRecord {
    HashRecord(b.index, Unix(b.timestamp), b.data, b.previousHash, b.nonce, b.blockType)
  }

  /** calculateHash: the digest of the block's hashed fields; never empty. */
  function CalculateHash(b: Block): (h: string)
    ensures h != ""
  {
    Sha256(Record(b))
  }

  /** IsValid: the stored hash is the recomputed one; a valid block never carries an empty hash. */
  predicate IsValid(b: Block)
    ensures IsValid(b) ==> b.hash != ""
  {
    b.hash == CalculateHash(b)
  }

  /** `b.Hash = b.calculateHash()`. */
  function Rehashed(b: Block): (r: Block)
    ensures IsValid(r)
    ensures r.(hash := b.hash) == b
  {
    b.(hash := CalculateHash(b))
  }

  /** NewBlock: index 0, nonce 0, no type, stamped `now`, hash filled in. */
  function NewBlock(data: Payload, previousHash: string, now: Time): (b: Block)
    ensures b.index == 0 && b.nonce == 0 && b.blockType == ""
    ensures b.data == data && b.previousHash == previousHash && b.timestamp == now
    ensures IsValid(b)
  {
    Rehashed(Block(0, now, data, previousHash, "", 0, ""))
  }

  /** The hash never reads the stored hash, so overwriting it changes nothing, and re-hashing is idempotent. */
  lemma HashIgnoresStoredHash(b: Block, h: string)
    ensures CalculateHash(b.(hash := h)) == CalculateHash(b)
    ensures Rehashed(b.(hash := h)) == Rehashed(b)
    ensures Rehashed(Rehashed(b)) == Rehashed(b)
  {
  }

  /** Shifting the timestamp within its second leaves the hash unchanged: only `Timestamp.Unix()` is hashed. */
  lemma SubSecondShiftKeepsHash(b: Block, d: int)
    requires 0 <= d < NanosPerSecond - b.timestamp % NanosPerSecond
    ensures CalculateHash(b.(timestamp := b.timestamp + d)) == CalculateHash(b)
    ensures IsValid(b) ==> IsValid(b.(timestamp := b.timestamp + d))
  {
    var t := b.timestamp;
    var q, m := t / NanosPerSecond, t % NanosPerSecond;
    assert t == q * NanosPerSecond + m;
    assert t + d == q * NanosPerSecond + (m + d);
    assert 0 <= m + d < NanosPerSecond;
    DivUnique(t + d, q, m + d);
  }

  lemma DivUnique(n: int, q: int, m: int)
    requires 0 <= m < NanosPerSecond && n == q * NanosPerSecond + m
    ensures n / NanosPerSecond == q
  {
  }

  /** Re-indexing a valid block without re-hashing it makes it invalid, unless the two records collide. */
  lemma ReindexInvalidates(b: Block, i: int)
    requires IsValid(b) && i != b.index
    requires NoCollision(Record(b), Record(b.(index := i)))
    ensures !IsValid(b.(index := i))
    ensures IsValid(Rehashed(b.(index := i)))
  {
    assert Record(b) != Record(b.(index := i));
  }

  /** The same for changing the block type. */
  lemma RetypeInvalidates(b: Block, t: string)
    requires IsValid(b) && t != b.blockType
    requires NoCollision(Record(b), Record(b.(blockType := t)))
    ensures !IsValid(b.(blockType := t))
    ensures IsValid(Rehashed(b.(blockType := t)))
  {
    assert Record(b) != Record(b.(blockType := t));
  }

  // ---------------------------------------------------------------------------
  // Contracts, validation steps and audit entries

  datatype ContractStatus =
    | Draft
    | TechnicalReview
    | TechnicalApproved
    | LegalReview
    | LegalApproved
    | ContractsReview
    | ContractsApproved
    | AdminReview
    | AdminApproved
    | BudgetReview
    | AuthorizedForPublication
    | Published
    | ProposalsReceived
    | Evaluated
    | Awarded
    | Executed
    | Completed
    | UnderAudit
    | AuditObservations
    | Rejected

  datatype AdminRole =
    | ProjectDeveloper
    | TechnicalCommission
    | LegalCommission
    | ContractsChief
    | AdminChief
    | BudgetAuthority
    // external control roles, audit only
    | Comptroller
    | Prosecutor
    | Citizen

  /** The role's string form, as written into block payloads. */
  function RoleName(r: AdminRole): string {
    match r
    case ProjectDeveloper => "PROJECT_DEVELOPER"
    case TechnicalCommission => "TECHNICAL_COMMISSION"
    case LegalCommission => "LEGAL_COMMISSION"
    case ContractsChief => "CONTRACTS_CHIEF"
    case AdminChief => "ADMIN_CHIEF"
    case BudgetAuthority => "BUDGET_AUTHORITY"
    case Comptroller => "COMPTROLLER"
    case Prosecutor => "PROSECUTOR"
    case Citizen => "CITIZEN"
  }

  datatype ValidationStatus = StepPending | StepApproved | StepRejected | StepInReview

  datatype ValidationStep = ValidationStep(
    stepNumber: int,
    role: AdminRole,
    validatorId: string,
    validatorName: string,
    status: ValidationStatus,
    timestamp: Time,
    comments: string,
    required: bool,
    digitalSign: string,
    documents: seq<string>)

  datatype AuditEntry = AuditEntry(
    id: string,
    action: string,
    userId: string,
    userRole: AdminRole,
    timestamp: Time,
    description: string,
    ipAddress: string,
    blockHash: string)

  /** A contract; `amount` is a float64 in the Go code but only ever compared with zero. */
  datatype Contract = Contract(
    id: string,
    entityCode: string,
    entityName: string,
    contractType: string,
    description: string,
    amount: int,
    status: ContractStatus,
    createdBy: string,
    createdAt: Time,
    updatedAt: Time,
    validationSteps: seq<ValidationStep>,
    currentStep: int,
    requiredRoles: seq<string>,
    auditTrail: seq<AuditEntry>)
}
