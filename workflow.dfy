/**
  The contract-side half of the approval workflow: the fixed six-step
  pipeline, the status that belongs to each step, workflow initialisation,
  the effect of one approval or rejection on a contract, and the audit
  trail. Everything here works on contract values; the half that also
  writes blocks to the ledger is `WorkflowEngine.WorkflowManager`.
 */
module Workflow {
  import opened Blocks
  import opened Errors

  datatype WorkflowStep = WorkflowStep(stepNumber: int, role: AdminRole, name: string, required: bool)

  const StepCount: int := 6

  /** The roles of the pipeline, in order. */
  const PipelineRoles: seq<AdminRole> :=
    [ProjectDeveloper, TechnicalCommission, LegalCommission, ContractsChief, AdminChief, BudgetAuthority]

  /** GetWorkflowSteps: six steps numbered 1..6, each bound to its pipeline role, all required. */
  function GetWorkflowSteps(): (steps: seq<WorkflowStep>)
    ensures |steps| == StepCount
    ensures forall i :: 0 <= i < |steps| ==>
      steps[i].stepNumber == i + 1 && steps[i].role == PipelineRoles[i] && steps[i].required
  {
    [ WorkflowStep(1, ProjectDeveloper, "Creación del Proyecto", true),
      WorkflowStep(2, TechnicalCommission, "Revisión Técnica", true),
      WorkflowStep(3, LegalCommission, "Revisión Jurídica", true),
      WorkflowStep(4, ContractsChief, "Aprobación Jefe de Contratos", true),
      WorkflowStep(5, AdminChief, "Aprobación Jefe Administrativo", true),
      WorkflowStep(6, BudgetAuthority, "Autorización Ordenador del Gasto", true) ]
  }

  /** The external control roles, the only ones allowed to file audit observations. */
  predicate IsControlRole(r: AdminRole) {
    r == Comptroller || r == Prosecutor || r == Citizen
  }

  /** Every pipeline role appears once, and none of them is a control role. */
  lemma PipelineRolesDistinct()
    ensures forall i, j :: 0 <= i < j < |PipelineRoles| ==> PipelineRoles[i] != PipelineRoles[j]
    ensures forall i :: 0 <= i < |PipelineRoles| ==> !IsControlRole(PipelineRoles[i])
  {
  }

  /** getStatusForStep: steps 1..6 map to Draft..BudgetReview, anything else to AuthorizedForPublication. */
  function StatusForStep(stepNumber: int): (s: ContractStatus)
    ensures s != Rejected && s != Completed
    ensures 1 <= stepNumber <= StepCount <==> s != AuthorizedForPublication
  {
    match stepNumber
    case 1 => Draft
    case 2 => TechnicalReview
    case 3 => LegalReview
    case 4 => ContractsReview
    case 5 => AdminReview
    case 6 => BudgetReview
    case _ => AuthorizedForPublication
  }

  /** Distinct steps of the pipeline have distinct statuses. */
  lemma StatusForStepInjective(m: int, n: int)
    requires 1 <= m <= StepCount + 1 && 1 <= n <= StepCount + 1 && m != n
    ensures StatusForStep(m) != StatusForStep(n)
  {
  }

  /** The ValidationStep created for one pipeline step: pending, no validator, zero timestamp. */
  function PendingStep(w: WorkflowStep): ValidationStep {
    ValidationStep(w.stepNumber, w.role, "", "", StepPending, ZeroTime, "", w.required, "", [])
  }

  function InitialSteps(): (steps: seq<ValidationStep>)
    ensures |steps| == StepCount
  {
    var ws := GetWorkflowSteps();
    seq(|ws|, i requires 0 <= i < |ws| => PendingStep(ws[i]))
  }

  /** addAuditEntry: append one entry; its block hash is filled in later. */
  function AddAuditEntry(c: Contract, entryId: string, action: string, userId: string, role: AdminRole,
                         description: string, now: Time): (r: Contract)
    ensures r == c.(auditTrail := r.auditTrail)
    ensures |r.auditTrail| == |c.auditTrail| + 1 && r.auditTrail[..|c.auditTrail|] == c.auditTrail
    ensures r.auditTrail[|c.auditTrail|] == AuditEntry(entryId, action, userId, role, now, description, "", "")
  {
    c.(auditTrail := c.auditTrail + [AuditEntry(entryId, action, userId, role, now, description, "", "")])
  }

  /** Back-fill the newest audit entry's block hash (no-op on an empty trail). */
  function WithLastBlockHash(c: Contract, hash: string): (r: Contract)
    ensures r == c.(auditTrail := r.auditTrail)
    ensures |r.auditTrail| == |c.auditTrail|
    ensures forall i :: 0 <= i < |c.auditTrail| - 1 ==> r.auditTrail[i] == c.auditTrail[i]
    ensures |c.auditTrail| > 0 ==> r.auditTrail[|c.auditTrail| - 1] == c.auditTrail[|c.auditTrail| - 1].(blockHash := hash)
  {
    if |c.auditTrail| == 0 then c
    else
      var k := |c.auditTrail| - 1;
      c.(auditTrail := c.auditTrail[k := c.auditTrail[k].(blockHash := hash)])
  }

  /** The contract after InitializeContractWorkflow. */
  function Initialized(c: Contract, entryId: string, now: Time): Contract {
    var c1 := c.(validationSteps := InitialSteps(), currentStep := 1, status := Draft, updatedAt := now);
    AddAuditEntry(c1, entryId, "WORKFLOW_INITIALIZED", c.createdBy, ProjectDeveloper, "Flujo de trabajo inicializado", now)
  }

  /** InitializeContractWorkflow: fills one pending step per pipeline step, then resets the cursor and status. */
  method InitializeContractWorkflow(c: Contract, entryId: string, now: Time) returns (r: Contract)
    ensures r == Initialized(c, entryId, now)
  {
    var steps := GetWorkflowSteps();
    var vs := new ValidationStep[|steps|];
    for i := 0 to |steps|
      invariant forall j :: 0 <= j < i ==> vs[j] == PendingStep(steps[j])
    {
      vs[i] := ValidationStep(steps[i].stepNumber, steps[i].role, "", "", StepPending, ZeroTime, "", steps[i].required, "", []);
    }
    assert vs[..] == InitialSteps();
    r := c.(validationSteps := vs[..], currentStep := 1, status := Draft, updatedAt := now);
    r := AddAuditEntry(r, entryId, "WORKFLOW_INITIALIZED", c.createdBy, ProjectDeveloper, "Flujo de trabajo inicializado", now);
  }

  // ---------------------------------------------------------------------------
  // The workflow invariant

  /** Shape fixed at initialisation: number, role and the required flag of step i. */
  predicate StepShape(s: ValidationStep, i: int) {
    0 <= i < |PipelineRoles| && s.stepNumber == i + 1 && s.role == PipelineRoles[i] && s.required
  }

  /** The status a contract in the workflow has: Rejected while its current step stands rejected. */
  function ExpectedStatus(c: Contract): ContractStatus
    requires 1 <= c.currentStep <= |c.validationSteps| + 1
  {
    if c.currentStep <= |c.validationSteps| && c.validationSteps[c.currentStep - 1].status == StepRejected
    then Rejected
    else StatusForStep(c.currentStep)
  }

  /**
    Steps before the cursor are approved, the step at the cursor is pending or
    rejected, later steps are pending, and the status follows the cursor.
   */
  ghost predicate WorkflowInvariant(c: Contract) {
    && |c.validationSteps| == StepCount
    && 1 <= c.currentStep <= StepCount + 1
    && (forall i :: 0 <= i < StepCount ==> StepShape(c.validationSteps[i], i))
    && (forall i :: 0 <= i < c.currentStep - 1 ==> c.validationSteps[i].status == StepApproved)
    && (forall i :: c.currentStep <= i < StepCount ==> c.validationSteps[i].status == StepPending)
    && (c.currentStep <= StepCount ==>
          c.validationSteps[c.currentStep - 1].status == StepPending
          || c.validationSteps[c.currentStep - 1].status == StepRejected)
    && c.status == ExpectedStatus(c)
  }

  /** InitializeContractWorkflow establishes the invariant and appends exactly one WORKFLOW_INITIALIZED entry. */
  lemma InitializedSatisfiesInvariant(c: Contract, entryId: string, now: Time)
    ensures WorkflowInvariant(Initialized(c, entryId, now))
    ensures var r := Initialized(c, entryId, now);
      && r.currentStep == 1 && r.status == Draft
      && (forall i :: 0 <= i < StepCount ==> r.validationSteps[i].status == StepPending)
      && |r.auditTrail| == |c.auditTrail| + 1 && r.auditTrail[..|c.auditTrail|] == c.auditTrail
      && r.auditTrail[|c.auditTrail|].action == "WORKFLOW_INITIALIZED"
  {
    var r := Initialized(c, entryId, now);
    var ws := GetWorkflowSteps();
    forall i | 0 <= i < StepCount
      ensures StepShape(r.validationSteps[i], i) && r.validationSteps[i].status == StepPending
    {
      assert r.validationSteps[i] == PendingStep(ws[i]);
    }
  }

  // ---------------------------------------------------------------------------
  // One step decision

  /** The three guards of ValidateStep that follow the contract lookup, in their order. */
  function StepGuard(c: Contract, stepNumber: int): (e: Option<Error>)
    ensures e.None? <==> stepNumber == c.currentStep && 1 <= stepNumber <= |c.validationSteps|
    ensures stepNumber != c.currentStep ==> e == Some(StepMismatch(c.currentStep, stepNumber))
  {
    if stepNumber != c.currentStep then Some(StepMismatch(c.currentStep, stepNumber))
    else if stepNumber > |c.validationSteps| then Some(StepOutOfRange)
    else if stepNumber < 1 then Some(IndexOutOfRange)
    else None
  }

  function ApprovedDescription(stepNumber: int, comments: string): string {
    "Paso " + IntToString(stepNumber) + " aprobado: " + comments
  }

  function RejectedDescription(stepNumber: int, comments: string): string {
    "Paso " + IntToString(stepNumber) + " rechazado: " + comments
  }

  /** The effect of ValidateStep on the contract once the guards pass (see DecisionEffect). */
  function RecordDecision(c: Contract, stepNumber: int, validatorId: string, validatorName: string,
                          role: AdminRole, approved: bool, comments: string, now: Time, entryId: string): (r: Contract)
    requires 1 <= stepNumber <= |c.validationSteps|
    ensures r.id == c.id && |r.validationSteps| == |c.validationSteps| && |r.auditTrail| == |c.auditTrail| + 1
  {
    var k := stepNumber - 1;
    var s := c.validationSteps[k].(validatorId := validatorId, validatorName := validatorName,
                                   timestamp := now, comments := comments);
    if approved then
      var c1 := c.(validationSteps := c.validationSteps[k := s.(status := StepApproved)]);
      var c2 := c1.(currentStep := c1.currentStep + 1);
      var c3 := c2.(status := StatusForStep(c2.currentStep));
      AddAuditEntry(c3, entryId, "STEP_APPROVED", validatorId, role, ApprovedDescription(stepNumber, comments), now).(updatedAt := now)
    else
      var c1 := c.(validationSteps := c.validationSteps[k := s.(status := StepRejected)], status := Rejected);
      AddAuditEntry(c1, entryId, "STEP_REJECTED", validatorId, role, RejectedDescription(stepNumber, comments), now).(updatedAt := now)
  }

  /**
    One decision: the step records the validator and the decision; approval
    advances the cursor, rejection marks the contract rejected; one audit
    entry is appended; nothing else changes. The caller's role is recorded
    but never compared with the step's role.
   */
  lemma DecisionEffect(c: Contract, stepNumber: int, validatorId: string, validatorName: string,
                       role: AdminRole, approved: bool, comments: string, now: Time, entryId: string)
    requires 1 <= stepNumber <= |c.validationSteps|
    ensures var r := RecordDecision(c, stepNumber, validatorId, validatorName, role, approved, comments, now, entryId);
      && |r.validationSteps| == |c.validationSteps|
      && (forall i :: 0 <= i < |c.validationSteps| && i != stepNumber - 1 ==> r.validationSteps[i] == c.validationSteps[i])
      && r.validationSteps[stepNumber - 1] == c.validationSteps[stepNumber - 1].(
           validatorId := validatorId, validatorName := validatorName, timestamp := now, comments := comments,
           status := if approved then StepApproved else StepRejected)
      && (approved ==> r.currentStep == c.currentStep + 1 && r.status == StatusForStep(c.currentStep + 1))
      && (!approved ==> r.currentStep == c.currentStep && r.status == Rejected)
      && |r.auditTrail| == |c.auditTrail| + 1 && r.auditTrail[..|c.auditTrail|] == c.auditTrail
      && r.auditTrail[|c.auditTrail|].action == (if approved then "STEP_APPROVED" else "STEP_REJECTED")
      && r.auditTrail[|c.auditTrail|].userId == validatorId
      && r.auditTrail[|c.auditTrail|].userRole == role
      && r.auditTrail[|c.auditTrail|].blockHash == ""
      && r == c.(validationSteps := r.validationSteps, currentStep := r.currentStep, status := r.status,
                 updatedAt := now, auditTrail := r.auditTrail)
  {
  }

  /** An approval accepted by the guards moves the cursor onto a pending step (or past the last one). */
  lemma ApprovalPreservesInvariant(c: Contract, stepNumber: int, validatorId: string, validatorName: string,
                                   role: AdminRole, comments: string, now: Time, entryId: string)
    requires WorkflowInvariant(c) && StepGuard(c, stepNumber).None?
    ensures WorkflowInvariant(RecordDecision(c, stepNumber, validatorId, validatorName, role, true, comments, now, entryId))
  {
    var k := stepNumber - 1;
    var r := RecordDecision(c, stepNumber, validatorId, validatorName, role, true, comments, now, entryId);
    var s := c.validationSteps[k].(validatorId := validatorId, validatorName := validatorName,
                                   timestamp := now, comments := comments, status := StepApproved);
    assert r.validationSteps == c.validationSteps[k := s];
    assert r.currentStep == stepNumber + 1 && r.status == StatusForStep(stepNumber + 1);
    forall i | 0 <= i < StepCount
      ensures StepShape(r.validationSteps[i], i)
    {
      assert StepShape(c.validationSteps[i], i);
    }
    forall i | 0 <= i < r.currentStep - 1
      ensures r.validationSteps[i].status == StepApproved
    {
    }
    if r.currentStep <= StepCount {
      assert r.validationSteps[r.currentStep - 1].status == StepPending;
    }
  }

  /** A rejection accepted by the guards leaves the cursor on the rejected step. */
  lemma RejectionPreservesInvariant(c: Contract, stepNumber: int, validatorId: string, validatorName: string,
                                    role: AdminRole, comments: string, now: Time, entryId: string)
    requires WorkflowInvariant(c) && StepGuard(c, stepNumber).None?
    ensures WorkflowInvariant(RecordDecision(c, stepNumber, validatorId, validatorName, role, false, comments, now, entryId))
  {
    var k := stepNumber - 1;
    var r := RecordDecision(c, stepNumber, validatorId, validatorName, role, false, comments, now, entryId);
    var s := c.validationSteps[k].(validatorId := validatorId, validatorName := validatorName,
                                   timestamp := now, comments := comments, status := StepRejected);
    assert r.validationSteps == c.validationSteps[k := s];
    assert r.currentStep == stepNumber && r.status == Rejected;
    forall i | 0 <= i < StepCount
      ensures StepShape(r.validationSteps[i], i)
    {
      assert StepShape(c.validationSteps[i], i);
    }
  }

  /** A decision accepted by the guards keeps the workflow invariant, whatever the caller's role. */
  lemma DecisionPreservesInvariant(c: Contract, stepNumber: int, validatorId: string, validatorName: string,
                                   role: AdminRole, approved: bool, comments: string, now: Time, entryId: string)
    requires WorkflowInvariant(c) && StepGuard(c, stepNumber).None?
    ensures WorkflowInvariant(RecordDecision(c, stepNumber, validatorId, validatorName, role, approved, comments, now, entryId))
  {
    if approved {
      ApprovalPreservesInvariant(c, stepNumber, validatorId, validatorName, role, comments, now, entryId);
    } else {
      RejectionPreservesInvariant(c, stepNumber, validatorId, validatorName, role, comments, now, entryId);
    }
  }

  /** Back-filling a block hash touches only the audit trail, so it keeps the invariant. */
  lemma BackfillPreservesInvariant(c: Contract, hash: string)
    requires WorkflowInvariant(c)
    ensures WorkflowInvariant(WithLastBlockHash(c, hash))
  {
    var r := WithLastBlockHash(c, hash);
    assert r.validationSteps == c.validationSteps && r.currentStep == c.currentStep && r.status == c.status;
  }

  /**
    A rejection does not close the contract: after rejecting step n every
    other step number fails the cursor check, yet step n itself passes the
    guards again, and approving it then advances the workflow.
   */
  lemma RejectedStepCanBeResubmitted(c: Contract, validatorId: string, validatorName: string, role: AdminRole,
                                     comments: string, now: Time, entryId: string, m: int,
                                     validatorId': string, validatorName': string, role': AdminRole,
                                     comments': string, now': Time, entryId': string)
    requires WorkflowInvariant(c) && c.currentStep <= StepCount
    ensures var n := c.currentStep;
      var rej := RecordDecision(c, n, validatorId, validatorName, role, false, comments, now, entryId);
      && rej.status == Rejected && rej.currentStep == n
      && (m != n ==> StepGuard(rej, m) == Some(StepMismatch(n, m)))
      && StepGuard(rej, n).None?
      && var again := RecordDecision(rej, n, validatorId', validatorName', role', true, comments', now', entryId');
         again.currentStep == n + 1 && again.status == StatusForStep(n + 1)
         && again.validationSteps[n - 1].status == StepApproved
         && WorkflowInvariant(again)
  {
    var n := c.currentStep;
    assert StepGuard(c, n).None?;
    DecisionPreservesInvariant(c, n, validatorId, validatorName, role, false, comments, now, entryId);
    DecisionEffect(c, n, validatorId, validatorName, role, false, comments, now, entryId);
    var rej := RecordDecision(c, n, validatorId, validatorName, role, false, comments, now, entryId);
    assert StepGuard(rej, n).None?;
    DecisionEffect(rej, n, validatorId', validatorName', role', true, comments', now', entryId');
    DecisionPreservesInvariant(rej, n, validatorId', validatorName', role', true, comments', now', entryId');
  }

  // ---------------------------------------------------------------------------
  // Status queries

  /** Number of approved steps, counted from the front. */
  function ApprovedCount(steps: seq<ValidationStep>): (n: nat)
    ensures n <= |steps|
  {
    if steps == [] then 0
    else ApprovedCount(steps[..|steps| - 1]) + (if steps[|steps| - 1].status == StepApproved then 1 else 0)
  }

  lemma {:induction false} ApprovedCountPrefix(steps: seq<ValidationStep>, k: nat)
    requires k <= |steps|
    requires forall i :: 0 <= i < k ==> steps[i].status == StepApproved
    requires forall i :: k <= i < |steps| ==> steps[i].status != StepApproved
    ensures ApprovedCount(steps) == k
  {
    if steps != [] {
      var init := steps[..|steps| - 1];
      if k == |steps| {
        ApprovedCountPrefix(init, k - 1);
      } else {
        ApprovedCountPrefix(init, k);
      }
    }
  }

  /** Under the invariant the number of completed steps is the cursor minus one. */
  lemma CompletedStepsFollowCursor(c: Contract)
    requires WorkflowInvariant(c)
    ensures ApprovedCount(c.validationSteps) == c.currentStep - 1
  {
    ApprovedCountPrefix(c.validationSteps, c.currentStep - 1);
  }

  /**
    getNextRole: the role at the cursor, or none past the last step. (A
    cursor below 1 would make the Go code index position -1 and panic; the
    model reports no role for it.)
   */
  function NextRole(c: Contract): (r: Option<AdminRole>)
    ensures r.Some? <==> 1 <= c.currentStep <= |c.validationSteps|
    ensures r.Some? ==> r.value == c.validationSteps[c.currentStep - 1].role
  {
    if 1 <= c.currentStep <= |c.validationSteps| then Some(c.validationSteps[c.currentStep - 1].role) else None
  }

  /** The filter of GetContractsByRole: the step at the cursor belongs to `role` and is still pending. */
  predicate AwaitsRole(c: Contract, role: AdminRole)
    ensures AwaitsRole(c, role) ==> NextRole(c) == Some(role)
  {
    1 <= c.currentStep <= |c.validationSteps|
    && c.validationSteps[c.currentStep - 1].role == role
    && c.validationSteps[c.currentStep - 1].status == StepPending
  }

  /** A contract in the workflow awaits exactly the pipeline role of its cursor, unless it stands rejected. */
  lemma AwaitsRoleUnderInvariant(c: Contract, role: AdminRole)
    requires WorkflowInvariant(c)
    ensures AwaitsRole(c, role) <==>
      c.currentStep <= StepCount && role == PipelineRoles[c.currentStep - 1] && c.status != Rejected
  {
    if c.currentStep <= StepCount {
      assert StepShape(c.validationSteps[c.currentStep - 1], c.currentStep - 1);
    }
  }

  datatype WorkflowStatus = WorkflowStatus(
    contractId: string,
    currentStep: int,
    totalSteps: int,
    completedSteps: int,
    status: ContractStatus,
    canAdvance: bool,
    nextRole: Option<AdminRole>)

  /** CanAdvance as reported by GetContractWorkflowStatus. */
  predicate CanAdvance(s: ContractStatus) {
    s != Rejected && s != Completed
  }

  /**
    The report of a contract in the workflow: completed steps are the cursor
    minus one, the next role is the cursor's pipeline role, and a rejected
    contract reports that it cannot advance although ValidateStep still
    accepts its current step.
   */
  lemma ReportUnderInvariant(c: Contract)
    requires WorkflowInvariant(c)
    ensures ApprovedCount(c.validationSteps) == c.currentStep - 1
    ensures NextRole(c) == if c.currentStep <= StepCount then Some(PipelineRoles[c.currentStep - 1]) else None
    ensures !CanAdvance(c.status) <==> c.status == Rejected
    ensures c.status == Rejected ==> StepGuard(c, c.currentStep).None?
  {
    CompletedStepsFollowCursor(c);
    if c.currentStep <= StepCount {
      assert StepShape(c.validationSteps[c.currentStep - 1], c.currentStep - 1);
    }
  }

  // ---------------------------------------------------------------------------
  // %d formatting

  function DigitChar(d: int): (ch: char)
    requires 0 <= d < 10
    ensures '0' <= ch <= '9'
  {
    "0123456789"[d]
  }

  /** The decimal digits of `n`, most significant first, with no leading zero. */
  function NatToString(n: nat): (s: string)
    ensures |s| > 0 && forall i :: 0 <= i < |s| ==> '0' <= s[i] <= '9'
    ensures n > 0 ==> s[0] != '0'
    decreases n
  {
    if n < 10 then [DigitChar(n)] else NatToString(n / 10) + [DigitChar(n % 10)]
  }

  /** `%d`: a minus sign exactly for a negative number, then its digits. */
  function IntToString(n: int): (s: string)
    ensures |s| > 0 && (s[0] == '-' <==> n < 0)
    ensures forall i :: (if n < 0 then 1 else 0) <= i < |s| ==> '0' <= s[i] <= '9'
  {
    if n < 0 then "-" + NatToString(-n) else NatToString(n)
  }
}
