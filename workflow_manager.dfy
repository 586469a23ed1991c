/**
  The half of the approval workflow that writes to the ledger: every
  accepted step decision and every audit observation appends one block and
  back-fills that block's hash into the contract's newest audit entry.
 */
module WorkflowEngine {
  import opened Blocks
  import opened Errors
  import opened Workflow
  import opened Ledger

  /** The payload of a step-level VALIDATION block. */
  function StepPayload(contractId: string, stepNumber: int, validatorId: string, role: AdminRole,
                       approved: bool, comments: string, now: Time): Payload {
    map[
      "type" := Str(ValidationType),
      "contract_id" := Str(contractId),
      "step" := Int(stepNumber),
      "validator" := Str(validatorId),
      "role" := Str(RoleName(role)),
      "approved" := Bool(approved),
      "comments" := Str(comments),
      "timestamp" := Instant(now)]
  }

  /** The payload of an AUDIT_OBSERVATION block. */
  function ObservationPayload(contractId: string, auditorId: string, role: AdminRole,
                              observation: string, now: Time): Payload {
    map[
      "type" := Str(AuditObservationType),
      "contract_id" := Str(contractId),
      "auditor" := Str(auditorId),
      "role" := Str(RoleName(role)),
      "observation" := Str(observation),
      "timestamp" := Instant(now)]
  }

  /** The contract after an audit observation is appended (block hash not yet filled). */
  function Observed(c: Contract, entryId: string, auditorId: string, role: AdminRole,
                    observation: string, now: Time): Contract {
    AddAuditEntry(c, entryId, "AUDIT_OBSERVATION", auditorId, role, observation, now)
  }

  /** The report GetContractWorkflowStatus builds for a stored contract. */
  function Report(contractId: string, c: Contract): WorkflowStatus {
    WorkflowStatus(contractId, c.currentStep, |c.validationSteps|, ApprovedCount(c.validationSteps),
                   c.status, CanAdvance(c.status), NextRole(c))
  }

  /**
    An accepted step decision, followed by the back-fill of whatever block
    hash was written for it, keeps the workflow invariant, whatever the
    caller's role.
   */
  lemma ValidateStepKeepsInvariant(c: Contract, stepNumber: int, validatorId: string, validatorName: string,
                                   role: AdminRole, approved: bool, comments: string, now: Time, entryId: string,
                                   hash: string)
    requires WorkflowInvariant(c) && StepGuard(c, stepNumber).None?
    ensures WorkflowInvariant(WithLastBlockHash(
              RecordDecision(c, stepNumber, validatorId, validatorName, role, approved, comments, now, entryId), hash))
  {
    DecisionPreservesInvariant(c, stepNumber, validatorId, validatorName, role, approved, comments, now, entryId);
    BackfillPreservesInvariant(
      RecordDecision(c, stepNumber, validatorId, validatorName, role, approved, comments, now, entryId), hash);
  }

  /**
    The audit side of an accepted step decision: exactly one entry is
    appended, earlier entries are untouched, and the new entry carries the
    hash of the VALIDATION block written for it.
   */
  lemma ValidateStepRecordsBlock(chain: seq<Block>, c: Contract, contractId: string, stepNumber: int,
                                 validatorId: string, validatorName: string, role: AdminRole,
                                 approved: bool, comments: string, now: Time, entryId: string)
    requires |chain| > 0 && StepGuard(c, stepNumber).None?
    ensures var d := RecordDecision(c, stepNumber, validatorId, validatorName, role, approved, comments, now, entryId);
      var b := NextBlock(chain, StepPayload(contractId, stepNumber, validatorId, role, approved, comments, now), now);
      var kept := WithLastBlockHash(d, b.hash);
      && |kept.auditTrail| == |c.auditTrail| + 1
      && kept.auditTrail[..|c.auditTrail|] == c.auditTrail
      && kept.auditTrail[|c.auditTrail|].blockHash == b.hash
      && kept.auditTrail[|c.auditTrail|].action == (if approved then "STEP_APPROVED" else "STEP_REJECTED")
  {
    DecisionEffect(c, stepNumber, validatorId, validatorName, role, approved, comments, now, entryId);
    var d := RecordDecision(c, stepNumber, validatorId, validatorName, role, approved, comments, now, entryId);
    var b := NextBlock(chain, StepPayload(contractId, stepNumber, validatorId, role, approved, comments, now), now);
    var kept := WithLastBlockHash(d, b.hash);
    assert kept.auditTrail[..|c.auditTrail|] == d.auditTrail[..|c.auditTrail|];
  }

  /**
    An audit observation leaves the workflow itself alone: steps, cursor and
    status are unchanged, so the invariant is kept; one AUDIT_OBSERVATION
    entry carrying the new block's hash is appended.
   */
  lemma ObservationEffect(c: Contract, entryId: string, auditorId: string, role: AdminRole,
                          observation: string, now: Time, hash: string)
    ensures var kept := WithLastBlockHash(Observed(c, entryId, auditorId, role, observation, now), hash);
      && kept.validationSteps == c.validationSteps
      && kept.currentStep == c.currentStep
      && kept.status == c.status
      && |kept.auditTrail| == |c.auditTrail| + 1
      && kept.auditTrail[..|c.auditTrail|] == c.auditTrail
      && kept.auditTrail[|c.auditTrail|] == AuditEntry(entryId, "AUDIT_OBSERVATION", auditorId, role, now, observation, "", hash)
      && (WorkflowInvariant(c) ==> WorkflowInvariant(kept))
  {
    var o := Observed(c, entryId, auditorId, role, observation, now);
    var kept := WithLastBlockHash(o, hash);
    assert kept.auditTrail[..|c.auditTrail|] == o.auditTrail[..|c.auditTrail|];
    if WorkflowInvariant(c) {
      assert kept.validationSteps == c.validationSteps;
    }
  }

  class WorkflowManager {
    const blockchain: Blockchain

    constructor (bc: Blockchain)
      ensures blockchain == bc
    {
      blockchain := bc;
    }

    /**
      ValidateStep: after the lookup and the three step guards, record the
      decision, append a VALIDATION block and back-fill its hash. A failed
      guard changes nothing. Neither the contract being Rejected nor the
      caller's role is examined.
     */
    method ValidateStep(contractId: string, stepNumber: int, validatorId: string, validatorName: string,
                        role: AdminRole, approved: bool, comments: string, now: Time, entryId: string)
      returns (r: Outcome)
      requires blockchain.Valid()
      modifies blockchain
      ensures blockchain.Valid()
      ensures contractId !in old(blockchain.contracts) ==>
        r == Fail(ContractNotFound) && unchanged(blockchain)
      ensures contractId in old(blockchain.contracts) && StepGuard(old(blockchain.contracts[contractId]), stepNumber).Some? ==>
        r == Fail(StepGuard(old(blockchain.contracts[contractId]), stepNumber).value) && unchanged(blockchain)
      ensures contractId in old(blockchain.contracts) && StepGuard(old(blockchain.contracts[contractId]), stepNumber).None? ==>
        var d := RecordDecision(old(blockchain.contracts[contractId]), stepNumber, validatorId, validatorName,
                                role, approved, comments, now, entryId);
        var b := NextBlock(old(blockchain.chain), StepPayload(contractId, stepNumber, validatorId, role, approved, comments, now), now);
        && r == Pass
        && blockchain.chain == old(blockchain.chain) + [b]
        && blockchain.contracts == old(blockchain.contracts)[contractId := WithLastBlockHash(d, b.hash)]
    {
      if contractId !in blockchain.contracts {
        return Fail(ContractNotFound);
      }
      var contract := blockchain.contracts[contractId];
      // the cursor check, the upper bound, then the index the Go code would panic on
      var guard := StepGuard(contract, stepNumber);
      if guard.Some? {
        return Fail(guard.value);
      }
      var decided := RecordDecision(contract, stepNumber, validatorId, validatorName, role, approved, comments, now, entryId);
      blockchain.contracts := blockchain.contracts[contractId := decided];
      var block := blockchain.AddBlock(StepPayload(contractId, stepNumber, validatorId, role, approved, comments, now), now);
      var kept := WithLastBlockHash(decided, block.hash);
      assert blockchain.contracts[contractId := kept] == old(blockchain.contracts)[contractId := kept];
      blockchain.contracts := blockchain.contracts[contractId := kept];
      r := Pass;
    }

    /**
      AddAuditObservation: only the control roles may file one; a missing
      contract or another role changes nothing. Otherwise one
      AUDIT_OBSERVATION entry and one block are added and the entry gets the
      block's hash.
     */
    method AddAuditObservation(contractId: string, auditorId: string, role: AdminRole, observation: string,
                               now: Time, entryId: string)
      returns (r: Outcome)
      requires blockchain.Valid()
      modifies blockchain
      ensures blockchain.Valid()
      ensures contractId !in old(blockchain.contracts) ==>
        r == Fail(ContractNotFound) && unchanged(blockchain)
      ensures contractId in old(blockchain.contracts) && !IsControlRole(role) ==>
        r == Fail(RoleNotAuthorized) && unchanged(blockchain)
      ensures contractId in old(blockchain.contracts) && IsControlRole(role) ==>
        var o := Observed(old(blockchain.contracts[contractId]), entryId, auditorId, role, observation, now);
        var b := NextBlock(old(blockchain.chain), ObservationPayload(contractId, auditorId, role, observation, now), now);
        && r == Pass
        && blockchain.chain == old(blockchain.chain) + [b]
        && blockchain.contracts == old(blockchain.contracts)[contractId := WithLastBlockHash(o, b.hash)]
    {
      if contractId !in blockchain.contracts {
        return Fail(ContractNotFound);
      }
      if role != Comptroller && role != Prosecutor && role != Citizen {
        return Fail(RoleNotAuthorized);
      }
      var contract := blockchain.contracts[contractId];
      contract := Observed(contract, entryId, auditorId, role, observation, now);
      blockchain.contracts := blockchain.contracts[contractId := contract];
      var block := blockchain.AddBlock(ObservationPayload(contractId, auditorId, role, observation, now), now);
      contract := WithLastBlockHash(contract, block.hash);
      blockchain.contracts := blockchain.contracts[contractId := contract];
      r := Pass;
    }

    /** GetContractWorkflowStatus: counts the approved steps in one pass. */
    method GetContractWorkflowStatus(contractId: string) returns (r: Result<WorkflowStatus>)
      ensures contractId !in blockchain.contracts ==> r == Err(ContractNotFound)
      ensures contractId in blockchain.contracts ==> r == Ok(Report(contractId, blockchain.contracts[contractId]))
    {
      if contractId !in blockchain.contracts {
        return Err(ContractNotFound);
      }
      var contract := blockchain.contracts[contractId];
      var steps := contract.validationSteps;
      var completed := 0;
      for i := 0 to |steps|
        invariant completed == ApprovedCount(steps[..i])
      {
        assert steps[..i + 1][..i] == steps[..i];
        if steps[i].status == StepApproved {
          completed := completed + 1;
        }
      }
      assert steps[..|steps|] == steps;
      var nextRole := None;
      if 1 <= contract.currentStep <= |steps| {
        nextRole := Some(steps[contract.currentStep - 1].role);
      }
      r := Ok(WorkflowStatus(contractId, contract.currentStep, |steps|, completed, contract.status,
                             contract.status != Rejected && contract.status != Completed, nextRole));
    }
  }
}
