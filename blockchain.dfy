/**
  The ledger: an ordered chain of hash-linked blocks and the contract map
  derived from it. Three validity checks of different strength coexist:
  `AcceptsBlock` (one block against the current tip, hash recomputed),
  `ChainIntact` (every block after the first re-hashed and linked) and
  `Linked` (hashes non-empty and linked, never recomputed).
 */
module Ledger {
  import opened Blocks
  import opened Errors
  import opened Workflow
  import Collections

  const GenesisMessage: string := "SECOP Blockchain Genesis Block"

  /** The genesis block of NewBlockchain: index 0, no predecessor, a valid hash. */
  function GenesisBlock(now: Time): (b: Block)
    ensures b.index == 0 && b.previousHash == "" && b.nonce == 0 && b.timestamp == now
    ensures IsValid(b) && b.hash != ""
  {
    Rehashed(Block(0, now, map["message" := Str(GenesisMessage)], "", "", 0, ""))
  }

  /** GetLastBlockHash: the tip's hash, or "" for an empty chain. */
  function LastHash(chain: seq<Block>): (h: string)
    ensures |chain| == 0 ==> h == ""
    ensures |chain| > 0 ==> h == chain[|chain| - 1].hash
  {
    if |chain| == 0 then "" else chain[|chain| - 1].hash
  }

  /** The block type AddBlock takes from a payload: its "type" entry when that is a string. */
  function PayloadType(data: Payload): (t: string)
    ensures "type" !in data ==> t == ""
    ensures t != "" ==> "type" in data && data["type"] == Str(t)
  {
    if "type" in data && data["type"].Str? then data["type"].s else ""
  }

  /**
    The block AddBlock builds: a NewBlock on the tip's hash, re-indexed to
    the chain length, re-typed from the payload and re-hashed.
   */
  function NextBlock(chain: seq<Block>, data: Payload, now: Time): (b: Block)
    requires |chain| > 0
    ensures b.index == |chain| && b.previousHash == LastHash(chain)
    ensures b.data == data && b.blockType == PayloadType(data) && b.timestamp == now && b.nonce == 0
    ensures IsValid(b)
  {
    var b := NewBlock(data, LastHash(chain), now).(index := |chain|);
    var b := if "type" in data && data["type"].Str? then b.(blockType := data["type"].s) else b;
    Rehashed(b)
  }

  /** IsValidBlock against `chain`: non-empty hash, equal to the recomputed one, and linked to the tip unless index 0. */
  predicate AcceptsBlock(chain: seq<Block>, b: Block) {
    && b.hash != ""
    && b.hash == CalculateHash(b)
    && (b.index > 0 ==> |chain| > 0 && chain[|chain| - 1].hash == b.previousHash)
  }

  /** HasBlock: some block of the chain carries this hash. */
  predicate Contains(chain: seq<Block>, hash: string) {
    exists i :: 0 <= i < |chain| && chain[i].hash == hash
  }

  /** IsChainValid: every block after the first is valid and linked to its predecessor (the first is not checked). */
  predicate ChainIntact(chain: seq<Block>) {
    forall i :: 1 <= i < |chain| ==> IsValid(chain[i]) && chain[i].previousHash == chain[i - 1].hash
  }

  /** IsValidChain: non-empty, every hash non-empty, every block linked to its predecessor; hashes not recomputed. */
  predicate Linked(chain: seq<Block>) {
    && |chain| > 0
    && (forall i :: 0 <= i < |chain| ==> chain[i].hash != "")
    && (forall i :: 1 <= i < |chain| ==> chain[i].previousHash == chain[i - 1].hash)
  }

  /** Each block's index is its position. */
  predicate Indexed(chain: seq<Block>) {
    forall i :: 0 <= i < |chain| ==> chain[i].index == i
  }

  // ---------------------------------------------------------------------------
  // Chain lemmas

  /** The genesis chain satisfies every chain invariant. */
  lemma GenesisChainValid(now: Time)
    ensures var c := [GenesisBlock(now)];
      ChainIntact(c) && Linked(c) && Indexed(c) && c[0].previousHash == "" && IsValid(c[0])
  {
  }

  /** The block AddBlock builds always passes IsValidBlock, so its "bloque inválido" branch is dead. */
  lemma NextBlockAccepted(chain: seq<Block>, data: Payload, now: Time)
    requires |chain| > 0
    ensures AcceptsBlock(chain, NextBlock(chain, data, now))
  {
  }

  /** Appending the AddBlock block keeps every chain invariant and makes it the new tip. */
  lemma AppendPreservesChain(chain: seq<Block>, data: Payload, now: Time)
    requires |chain| > 0
    ensures var c := chain + [NextBlock(chain, data, now)];
      && |c| == |chain| + 1 && c[..|chain|] == chain
      && LastHash(c) == NextBlock(chain, data, now).hash
      && (ChainIntact(chain) ==> ChainIntact(c))
      && (Linked(chain) ==> Linked(c))
      && (Indexed(chain) ==> Indexed(c))
  {
    var b := NextBlock(chain, data, now);
    var c := chain + [b];
    assert c[..|chain|] == chain;
    if ChainIntact(chain) {
      forall i | 1 <= i < |c| ensures IsValid(c[i]) && c[i].previousHash == c[i - 1].hash {
        if i < |chain| {
          assert c[i] == chain[i] && c[i - 1] == chain[i - 1];
        }
      }
    }
  }

  /** For an intact chain, IsValidBlock accepts a non-genesis block exactly when appending it keeps the chain intact. */
  lemma AcceptsIffExtendsIntact(chain: seq<Block>, b: Block)
    requires |chain| > 0 && ChainIntact(chain) && b.index > 0
    ensures AcceptsBlock(chain, b) <==> ChainIntact(chain + [b])
  {
    var c := chain + [b];
    if AcceptsBlock(chain, b) {
      forall i | 1 <= i < |c| ensures IsValid(c[i]) && c[i].previousHash == c[i - 1].hash {
        if i < |chain| {
          assert c[i] == chain[i] && c[i - 1] == chain[i - 1];
        }
      }
    }
    if ChainIntact(c) {
      assert c[|chain|] == b && c[|chain| - 1] == chain[|chain| - 1];
    }
  }

  /** IsChainValid implies IsValidChain once the genesis hash is non-empty. */
  lemma IntactImpliesLinked(chain: seq<Block>)
    requires |chain| > 0 && ChainIntact(chain) && chain[0].hash != ""
    ensures Linked(chain)
  {
    forall i | 0 <= i < |chain| ensures chain[i].hash != "" {
      if i > 0 {
        assert IsValid(chain[i]);
      }
    }
  }

  /**
    IsValidChain never recomputes a hash: a block with a made-up hash that
    names the tip is accepted on top of a linked chain, though the chain is
    then no longer intact.
   */
  lemma LinkedAcceptsForgedHash(chain: seq<Block>, b: Block)
    requires Linked(chain) && b.previousHash == LastHash(chain) && b.hash != ""
    ensures Linked(chain + [b])
    ensures !IsValid(b) ==> !ChainIntact(chain + [b])
  {
    var c := chain + [b];
    assert forall i :: 0 <= i < |chain| ==> c[i] == chain[i];
    assert c[|chain|] == b;
  }

  /** Corrupting the link of any block after the first breaks both whole-chain checks. */
  lemma CorruptedLinkDetected(chain: seq<Block>, i: int, h: string)
    requires ChainIntact(chain) && 1 <= i < |chain| && h != chain[i - 1].hash
    ensures !ChainIntact(chain[i := chain[i].(previousHash := h)])
    ensures !Linked(chain[i := chain[i].(previousHash := h)])
  {
    var c := chain[i := chain[i].(previousHash := h)];
    assert c[i].previousHash == h && c[i - 1] == chain[i - 1];
  }

  /** IsChainValid never inspects the genesis block: rewriting its previous hash goes unnoticed. */
  lemma GenesisLinkUnchecked(chain: seq<Block>, h: string)
    requires |chain| > 0 && ChainIntact(chain)
    ensures ChainIntact(chain[0 := chain[0].(previousHash := h)])
  {
    var c := chain[0 := chain[0].(previousHash := h)];
    forall i | 1 <= i < |c| ensures IsValid(c[i]) && c[i].previousHash == c[i - 1].hash {
      assert c[i] == chain[i] && c[i - 1].hash == chain[i - 1].hash;
    }
  }

  // ---------------------------------------------------------------------------
  // Contracts

  /** The fields validateContract insists on. */
  predicate HasRequiredFields(c: Contract) {
    c.entityCode != "" && c.entityName != "" && c.description != "" && c.amount > 0 && c.createdBy != ""
  }

  /** validateContract: passes exactly for contracts with all required fields; a failure names a field that is missing. */
  function CheckContract(c: Contract): (r: Outcome)
    ensures r == Pass <==> HasRequiredFields(c)
    ensures r.Fail? ==>
      || (r.error == MissingEntityCode && c.entityCode == "")
      || (r.error == MissingEntityName && c.entityName == "")
      || (r.error == MissingDescription && c.description == "")
      || (r.error == NonPositiveAmount && c.amount <= 0)
      || (r.error == MissingCreator && c.createdBy == "")
    ensures c.entityCode == "" ==> r == Fail(MissingEntityCode)
  {
    if c.entityCode == "" then Fail(MissingEntityCode)
    else if c.entityName == "" then Fail(MissingEntityName)
    else if c.description == "" then Fail(MissingDescription)
    else if c.amount <= 0 then Fail(NonPositiveAmount)
    else if c.createdBy == "" then Fail(MissingCreator)
    else Pass
  }

  /** The contract AddContract stores before the block hash is back-filled. */
  function Registered(c: Contract, freshId: string, entryId: string, now: Time): Contract {
    var id := if c.id == "" then freshId else c.id;
    Initialized(c.(id := id, createdAt := now, updatedAt := now, status := Draft), entryId, now)
  }

  /** The payload of a CONTRACT_CREATION block. */
  function CreationPayload(c: Contract): Payload {
    map[
      "type" := Str(ContractCreation),
      "contract_id" := Str(c.id),
      "entity_code" := Str(c.entityCode),
      "entity_name" := Str(c.entityName),
      "amount" := Int(c.amount),
      "created_by" := Str(c.createdBy),
      "timestamp" := Instant(c.createdAt)]
  }

  /** The payload of a node-level VALIDATION block written by ValidateContract. */
  function NodeValidationPayload(contractId: string, nodeId: string, approved: bool, reason: string, now: Time): Payload {
    map[
      "type" := Str(ValidationType),
      "contract_id" := Str(contractId),
      "node_id" := Str(nodeId),
      "approved" := Bool(approved),
      "reason" := Str(reason),
      "timestamp" := Instant(now)]
  }

  /** Registration followed by the back-fill of whatever block hash was written for it. */
  lemma RegisteredKeepsInvariant(c: Contract, freshId: string, entryId: string, now: Time, hash: string)
    ensures var kept := WithLastBlockHash(Registered(c, freshId, entryId, now), hash);
      && kept.id == (if c.id == "" then freshId else c.id)
      && kept.status == Draft && kept.currentStep == 1
      && WorkflowInvariant(kept)
      && (forall i :: 0 <= i < StepCount ==> kept.validationSteps[i].status == StepPending)
      && |kept.auditTrail| == |c.auditTrail| + 1
      && kept.auditTrail[|c.auditTrail|].action == "WORKFLOW_INITIALIZED"
      && kept.auditTrail[|c.auditTrail|].blockHash == hash
  {
    var c1 := c.(id := if c.id == "" then freshId else c.id, createdAt := now, updatedAt := now, status := Draft);
    InitializedSatisfiesInvariant(c1, entryId, now);
    BackfillPreservesInvariant(Registered(c, freshId, entryId, now), hash);
  }

  /**
    What a successful AddContract leaves behind: a Draft contract at step 1
    under its (possibly fresh) ID, in the workflow invariant with six pending
    steps, one CONTRACT_CREATION block on the tip, and the newest audit entry
    pointing at that block.
   */
  lemma AddContractEffect(chain: seq<Block>, c: Contract, freshId: string, entryId: string, now: Time)
    requires |chain| > 0 && HasRequiredFields(c)
    ensures var stored := Registered(c, freshId, entryId, now);
      var b := NextBlock(chain, CreationPayload(stored), now);
      var kept := WithLastBlockHash(stored, b.hash);
      && kept.id == (if c.id == "" then freshId else c.id)
      && kept.status == Draft && kept.currentStep == 1
      && WorkflowInvariant(kept)
      && (forall i :: 0 <= i < StepCount ==> kept.validationSteps[i].status == StepPending)
      && b.blockType == ContractCreation && b.index == |chain| && IsValid(b)
      && |kept.auditTrail| == |c.auditTrail| + 1
      && kept.auditTrail[|c.auditTrail|].action == "WORKFLOW_INITIALIZED"
      && kept.auditTrail[|c.auditTrail|].blockHash == b.hash
  {
    var stored := Registered(c, freshId, entryId, now);
    var b := NextBlock(chain, CreationPayload(stored), now);
    RegisteredKeepsInvariant(c, freshId, entryId, now, b.hash);
  }

  // ---------------------------------------------------------------------------
  // The ledger object

  class Blockchain {
    var chain: seq<Block>
    var contracts: map<string, Contract>

    /** The chain is never empty: it starts with genesis and is only extended or replaced by a longer one. */
    ghost predicate Valid()
      reads this
    {
      |chain| > 0
    }

    /** NewBlockchain: the genesis chain and no contracts. */
    constructor (now: Time)
      ensures Valid() && chain == [GenesisBlock(now)] && contracts == map[]
    {
      var genesis := Block(0, now, map["message" := Str(GenesisMessage)], "", "", 0, "");
      genesis := genesis.(hash := CalculateHash(genesis));
      chain := [genesis];
      contracts := map[];
    }

    /** IsValidBlock. */
    method IsValidBlock(block: Block) returns (ok: bool)
      ensures ok == AcceptsBlock(chain, block)
    {
      if block.hash == "" {
        return false;
      }
      var expected := CalculateHash(block);
      if block.hash != expected {
        return false;
      }
      if block.index > 0 {
        if |chain| == 0 || chain[|chain| - 1].hash != block.previousHash {
          return false;
        }
      }
      return true;
    }

    /** HasBlock. */
    method HasBlock(hash: string) returns (found: bool)
      ensures found == Contains(chain, hash)
    {
      for i := 0 to |chain|
        invariant forall j :: 0 <= j < i ==> chain[j].hash != hash
      {
        if chain[i].hash == hash {
          return true;
        }
      }
      return false;
    }

    /** AddBlock: append the block built from `data`; the chain grows by exactly that block. */
    method AddBlock(data: Payload, now: Time) returns (b: Block)
      requires Valid()
      modifies this
      ensures Valid()
      ensures b == NextBlock(old(chain), data, now)
      ensures chain == old(chain) + [b]
      ensures contracts == old(contracts)
    {
      var block := NewBlock(data, chain[|chain| - 1].hash, now);
      block := block.(index := |chain|);
      if "type" in data && data["type"].Str? {
        block := block.(blockType := data["type"].s);
      }
      block := block.(hash := CalculateHash(block));
      var valid := IsValidBlock(block);
      // the Go code returns "bloque inválido" here when the validity test fails; it cannot fail
      assert valid;
      chain := chain + [block];
      b := block;
    }

    /** IsChainValid. */
    method IsChainValid() returns (ok: bool)
      ensures ok == ChainIntact(chain)
    {
      var i := 1;
      while i < |chain|
        invariant 1 <= i && (i <= |chain| || i == 1)
        invariant forall j :: 1 <= j < i ==> IsValid(chain[j]) && chain[j].previousHash == chain[j - 1].hash
      {
        if !IsValid(chain[i]) {
          return false;
        }
        if chain[i].previousHash != chain[i - 1].hash {
          return false;
        }
        i := i + 1;
      }
      return true;
    }

    /** IsValidChain (a method of the ledger in the Go code, though it reads only its argument). */
    method IsValidChain(candidate: seq<Block>) returns (ok: bool)
      ensures ok == Linked(candidate)
    {
      if |candidate| == 0 {
        return false;
      }
      for i := 0 to |candidate|
        invariant forall j :: 0 <= j < i ==> candidate[j].hash != ""
        invariant forall j :: 1 <= j < i ==> candidate[j].previousHash == candidate[j - 1].hash
      {
        if candidate[i].hash == "" {
          return false;
        }
        if i > 0 {
          if candidate[i].previousHash != candidate[i - 1].hash {
            return false;
          }
        }
      }
      return true;
    }

    /** ReplaceChain: longest valid chain wins; a candidate that is not strictly longer, or not linked, changes nothing. */
    method ReplaceChain(newChain: seq<Block>) returns (r: Outcome)
      requires Valid()
      modifies this
      ensures Valid() && contracts == old(contracts)
      ensures |newChain| <= |old(chain)| ==> r == Fail(ChainTooShort) && chain == old(chain)
      ensures |newChain| > |old(chain)| && !Linked(newChain) ==> r == Fail(ChainInvalid) && chain == old(chain)
      ensures |newChain| > |old(chain)| && Linked(newChain) ==> r == Pass && chain == newChain
      ensures r == Pass <==> chain != old(chain)
    {
      if |newChain| <= |chain| {
        return Fail(ChainTooShort);
      }
      var valid := IsValidChain(newChain);
      if !valid {
        return Fail(ChainInvalid);
      }
      chain := newChain;
      r := Pass;
    }

    /** GetChain: a snapshot of the chain; as a value it cannot alias the ledger's own. */
    method GetChain() returns (snapshot: seq<Block>)
      ensures snapshot == chain
    {
      snapshot := chain[..];
    }

    /**
      AddContract: a contract failing validateContract changes nothing;
      otherwise the initialised contract is stored under its ID (an existing
      entry with that ID is overwritten), one CONTRACT_CREATION block is
      appended, and the newest audit entry records that block's hash.
     */
    method AddContract(c: Contract, freshId: string, entryId: string, now: Time) returns (r: Result<string>)
      requires Valid()
      modifies this
      ensures Valid()
      ensures CheckContract(c).Fail? ==>
        r == Err(CheckContract(c).error) && chain == old(chain) && contracts == old(contracts)
      ensures CheckContract(c) == Pass ==>
        var stored := Registered(c, freshId, entryId, now);
        var b := NextBlock(old(chain), CreationPayload(stored), now);
        && r == Ok(stored.id)
        && chain == old(chain) + [b]
        && contracts == old(contracts)[stored.id := WithLastBlockHash(stored, b.hash)]
    {
      var check := CheckContract(c);
      if check.Fail? {
        return Err(check.error);
      }
      var contract := c;
      if contract.id == "" {
        contract := contract.(id := freshId);
      }
      contract := contract.(createdAt := now, updatedAt := now, status := Draft);
      contract := InitializeContractWorkflow(contract, entryId, now);
      contracts := contracts[contract.id := contract];
      var block := AddBlock(CreationPayload(contract), now);
      contract := WithLastBlockHash(contract, chain[|chain| - 1].hash);
      contracts := contracts[contract.id := contract];
      r := Ok(contract.id);
    }

    /** ValidateContract: a node-level vote; a rejection marks the contract Rejected; one VALIDATION block either way. */
    method ValidateContract(contractId: string, nodeId: string, approved: bool, reason: string, now: Time)
      returns (r: Outcome)
      requires Valid()
      modifies this
      ensures Valid()
      ensures contractId !in old(contracts) ==>
        r == Fail(ContractNotFound) && chain == old(chain) && contracts == old(contracts)
      ensures contractId in old(contracts) ==>
        && r == Pass
        && chain == old(chain) + [NextBlock(old(chain), NodeValidationPayload(contractId, nodeId, approved, reason, now), now)]
        && contracts == if approved then old(contracts)
                        else old(contracts)[contractId := old(contracts)[contractId].(status := Rejected)]
    {
      if contractId !in contracts {
        return Fail(ContractNotFound);
      }
      var data := NodeValidationPayload(contractId, nodeId, approved, reason, now);
      if !approved {
        contracts := contracts[contractId := contracts[contractId].(status := Rejected)];
      }
      var block := AddBlock(data, now);
      r := Pass;
    }

    /**
      GetContractsByStatus: exactly the contracts with that status, one per
      ID, in no fixed order; `ids[i]` is the ID `r[i]` is stored under.
     */
    method GetContractsByStatus(status: ContractStatus) returns (r: seq<Contract>, ghost ids: seq<string>)
      ensures |ids| == |r| && forall i, j :: 0 <= i < j < |ids| ==> ids[i] != ids[j]
      ensures forall i :: 0 <= i < |r| ==> ids[i] in contracts && r[i] == contracts[ids[i]] && r[i].status == status
      ensures forall id :: id in contracts && contracts[id].status == status ==> id in ids
      ensures forall c :: c in r ==> c in contracts.Values && c.status == status
      ensures forall id :: id in contracts && contracts[id].status == status ==> contracts[id] in r
      ensures |r| == |set id | id in contracts && contracts[id].status == status|
    {
      var keep := (c: Contract) => c.status == status;
      r, ids := Collections.Select(contracts, keep);
      assert Collections.KeysWhere(contracts, keep) == set id | id in contracts && contracts[id].status == status;
    }

    /**
      GetContractsByRole: exactly the contracts whose current step belongs to
      `role` and is pending, one per ID; `ids[i]` is the ID of `r[i]`.
     */
    method GetContractsByRole(role: AdminRole) returns (r: seq<Contract>, ghost ids: seq<string>)
      ensures |ids| == |r| && forall i, j :: 0 <= i < j < |ids| ==> ids[i] != ids[j]
      ensures forall i :: 0 <= i < |r| ==> ids[i] in contracts && r[i] == contracts[ids[i]] && AwaitsRole(r[i], role)
      ensures forall id :: id in contracts && AwaitsRole(contracts[id], role) ==> id in ids
      ensures forall c :: c in r ==> c in contracts.Values && AwaitsRole(c, role)
      ensures forall id :: id in contracts && AwaitsRole(contracts[id], role) ==> contracts[id] in r
      ensures |r| == |set id | id in contracts && AwaitsRole(contracts[id], role)|
    {
      var keep := (c: Contract) => AwaitsRole(c, role);
      r, ids := Collections.Select(contracts, keep);
      assert Collections.KeysWhere(contracts, keep) == set id | id in contracts && AwaitsRole(contracts[id], role);
    }
  }

  /**
    A node-level rejection (ValidateContract with `approved` false) sets only
    the status. A contract in the workflow whose cursor's step is pending
    then breaks the workflow invariant. GetContractsByRole still lists it
    for the cursor's role, the step guards still pass, and approving the
    step yields exactly the contract that approving it without the
    rejection would: the rejection leaves no trace on the contract.
   */
  lemma NodeRejectionOverridden(c: Contract, validatorId: string, validatorName: string,
                                role: AdminRole, comments: string, now: Time, entryId: string)
    requires WorkflowInvariant(c) && c.currentStep <= StepCount
    requires c.validationSteps[c.currentStep - 1].status == StepPending
    ensures var rj := c.(status := Rejected);
      && !WorkflowInvariant(rj)
      && AwaitsRole(rj, PipelineRoles[c.currentStep - 1])
      && StepGuard(rj, c.currentStep).None?
      && RecordDecision(rj, c.currentStep, validatorId, validatorName, role, true, comments, now, entryId)
         == RecordDecision(c, c.currentStep, validatorId, validatorName, role, true, comments, now, entryId)
      && RecordDecision(rj, c.currentStep, validatorId, validatorName, role, true, comments, now, entryId).status
         == StatusForStep(c.currentStep + 1) != Rejected
  {
    var rj := c.(status := Rejected);
    assert StepShape(c.validationSteps[c.currentStep - 1], c.currentStep - 1);
    assert ExpectedStatus(rj) == StatusForStep(c.currentStep) != Rejected;
    AwaitsRoleUnderInvariant(c, PipelineRoles[c.currentStep - 1]);
    DecisionEffect(rj, c.currentStep, validatorId, validatorName, role, true, comments, now, entryId);
  }
}
