# SECOP blockchain node — a Dafny model of its ledger, workflow and peer bookkeeping

This project models a node of a permissioned blockchain for Colombian public
procurement (SECOP). The node keeps a hash-linked chain of blocks and a map of
procurement contracts. Each contract passes through a fixed six-step approval
pipeline: project developer, technical commission, legal commission, contracts
chief, administrative chief and budget authority. Every accepted decision
appends one block to the chain, and that block's hash is written back into
the contract's append-only audit trail. External control roles (comptroller,
prosecutor, citizen) may file audit observations. Each observation is also
recorded on the chain.

The node also keeps two peer maps:

- a discovery directory, refreshed from a registry listing, that excludes the
  node itself and evicts peers not seen for five minutes;
- a peer table, reconciled against the directory.

Blocks received from peers are re-wrapped and appended. A strictly longer,
linked chain offered by an active peer is adopted, and the contract map is
then replaced by the contracts decoded from its creation blocks; in the Go
code that decode never succeeds, so adoption empties the map. A configuration helper parses the comma-separated
bootstrap-peer setting.

Modules and the Go files they follow:

| module | file | source |
|---|---|---|
| `Errors` | errors.dfy | the error messages of all files, as one datatype; `Outcome`, `Option`, `Result` |
| `Blocks` | block.dfy | `internal/blockchain/block.go` |
| `Ledger` | blockchain.dfy | `internal/blockchain/blockchain.go` (class `Blockchain`) |
| `Workflow` | workflow.dfy | the contract-value half of `internal/blockchain/workflow.go` |
| `WorkflowEngine` | workflow_manager.dfy | the ledger-writing half of `internal/blockchain/workflow.go` (class `WorkflowManager`) |
| `Discovery` | peer_discovery.dfy | `internal/blockchain/peer_discovery.go` (class `PeerDiscovery`) |
| `P2P` | p2p.dfy | `internal/blockchain/p2p.go` (class `P2PNetwork`) |
| `Config` | config.dfy | `parseBootstrapPeers` of `internal/config/config.go` |
| `Collections` | collections.dfy | the filter-and-collect loops that several files run over maps |

Modelling choices:

- **Hash.** SHA-256 of the JSON encoding is the abstract constant
  `Blocks.Sha256`. It is an arbitrary function of the hashed tuple: index,
  Unix seconds, data, previous hash, nonce and type. Its only known property
  is that a hex digest is never empty. No global injectivity is assumed. A
  lemma that needs two records not to collide takes `NoCollision` on those two
  records as a hypothesis.
- **Time.** Time is integer nanoseconds. `Unix` is division by 10^9 rounding
  down, as Go's `Time.Unix` does. Each operation receives one `now`, where the
  Go code may read the clock several times.
- **Fresh IDs.** UUIDs are parameters (`freshId`, `entryId`).
- **Network input.** The registry listing and the chain each peer returned
  are inputs: `Option<seq<PeerInfo>>` and `map<string, seq<Block>>`.
- **Value state.** Contracts, peers and directory entries are datatype values
  held in maps. Mutating one through a Go pointer becomes storing the updated
  value back under its key.
- **Go map iteration** becomes a loop that picks an arbitrary remaining key.
- **Changing state.** Operations that change state are methods of the classes
  `Ledger.Blockchain`, `WorkflowEngine.WorkflowManager`,
  `Discovery.PeerDiscovery` and `P2P.P2PNetwork`. Each method's `ensures`
  ties the new state to a specification function. The properties of those
  functions are proved as lemmas.

Where the code does less than its own comments and reports suggest, the
model follows the code:

- **Rejection is not terminal.** The status report says a rejected contract
  cannot advance (`CanAdvance` is false for a rejected contract,
  internal/blockchain/workflow.go:236). Yet `ValidateStep` checks neither the
  contract's status nor the caller's role. After a rejection, the same step
  number still passes every guard, and approving it advances the workflow
  (`Workflow.RejectedStepCanBeResubmitted`). Other step numbers fail with the
  cursor mismatch, not with a not-found error.
- **A node-level rejection does not stick.** `ValidateContract` with
  `approved` false sets only the contract's status
  (internal/blockchain/blockchain.go:155). A contract whose cursor's step is
  pending then no longer satisfies the workflow invariant. It is still listed
  by `GetContractsByRole` for its cursor's role and still passes the step
  guards. The next approval of that step sets the status from the step number,
  giving exactly the contract an approval without the rejection would give
  (`Ledger.NodeRejectionOverridden`). So `AddContract` establishes the
  workflow invariant, `ValidateStep` and `AddAuditObservation` keep it, a
  node-level approval leaves the contract untouched, and a node-level
  rejection breaks it. The lemmas that assume the invariant, such as
  `Workflow.AwaitsRoleUnderInvariant` and `Workflow.ReportUnderInvariant`,
  say nothing about a contract rejected that way.
- **ReceiveBlock ignores only blocks held under their own hash.** The comment
  at internal/blockchain/p2p.go:208 says the test checks whether the block is
  already held. It compares the incoming hash with the stored hashes. Those
  include the genesis block, every block the node built itself and every
  block of an adopted chain, so a peer that sends one of them back is ignored
  (`P2P.HeldBlockIgnored`). A block that arrives from a peer is stored only as
  a re-wrapped, re-indexed and re-hashed copy, so its own hash is not stored
  and a second delivery of it is not recognised as a duplicate:
  - Take a block with index above 0 that is linked to the tip. Assume the
    chain is indexed by position, its tip's stored hash is the recomputed
    one, and the block is not yet held. The first delivery appends it; the
    second is refused as invalid instead of being ignored
    (`P2P.LinkedReplayRefused`).
  - Take a valid block with index 0 that is not yet held. Every delivery of
    it appends one more block (`P2P.IndexZeroReplayAppendsAgain`).
- **Adopted chains are not re-hashed.** The comment at
  internal/blockchain/p2p.go:250 says a longer and valid chain is adopted.
  The validity test is `IsValidChain`, which checks links and non-empty
  hashes but never recomputes a hash, so a chain with forged hashes passes
  (`Ledger.LinkedAcceptsForgedHash`).
- **Adopting a chain empties the contract map.** The comment at
  internal/blockchain/p2p.go:297 says the contract map is rebuilt from the
  chain. The rebuild decodes the `%v` text of each creation block's payload
  (internal/blockchain/p2p.go:304). For a Go map that text starts with
  `map[`, which `json.Unmarshal` rejects, so no contract is ever kept and
  every adoption by `SyncWithPeers` (internal/blockchain/p2p.go:259) leaves
  no contracts. A decode that did succeed would still find no `id`: the
  creation payload files the ID under "contract_id"
  (internal/blockchain/blockchain.go:68). The decode stays abstract here,
  as `P2P.DecodePrinted`; `P2P.UndecodableChainRebuildsEmpty` proves that a
  chain none of whose creation blocks decodes rebuilds to the empty map.

## Model

| member | source | states |
|---|---|---|
| Blocks.CalculateHash | internal/blockchain/block.go:134-147 | the digest of the hashed fields (the stored hash excluded, the timestamp in seconds) is never the empty string |
| Blocks.IsValid | internal/blockchain/block.go:150-152 | a block is valid when its stored hash is the recomputed one, so a valid block never carries an empty hash |
| Blocks.Rehashed | internal/blockchain/block.go:129 | filling in the hash makes the block valid and changes no other field |
| Blocks.NewBlock | internal/blockchain/block.go:120-131 | index 0, nonce 0, no type, the given data, previous hash and time, and `IsValid` holds straight after construction |
| Blocks.HashIgnoresStoredHash | internal/blockchain/block.go:134-147 | overwriting the stored hash leaves the computed hash unchanged; re-hashing is idempotent |
| Blocks.SubSecondShiftKeepsHash | internal/blockchain/block.go:137 | timestamps within the same second give the same hash, so validity survives such a shift |
| Blocks.ReindexInvalidates | internal/blockchain/block.go:134-152 | when the two records do not collide, changing the index of a valid block makes it invalid until it is re-hashed |
| Blocks.RetypeInvalidates | internal/blockchain/block.go:134-152 | the same for changing the block type |
| Ledger.GenesisBlock | internal/blockchain/blockchain.go:20-27 | the genesis block has index 0, no predecessor, nonce 0 and a valid, non-empty hash |
| Ledger.GenesisChainValid | internal/blockchain/blockchain.go:19-38 | the one-block genesis chain is intact, linked and indexed |
| Ledger.LastHash | internal/blockchain/blockchain.go:313-318 | the tip's hash, or "" for an empty chain |
| Ledger.PayloadType | internal/blockchain/blockchain.go:265-267 | the block type AddBlock takes from the payload: "" when there is no "type" entry; a non-empty type is the payload's string "type" entry |
| Ledger.NextBlock | internal/blockchain/blockchain.go:259-281 | the block AddBlock builds has index = chain length, previous hash = tip hash, the given data and time, nonce 0, type = the payload's string "type" entry (otherwise ""), and is valid |
| Ledger.NextBlockAccepted | internal/blockchain/blockchain.go:269-275 | that block always passes IsValidBlock, so AddBlock's "bloque inválido" branch is unreachable |
| Ledger.AppendPreservesChain | internal/blockchain/blockchain.go:259-281 | appending it grows the chain by one, keeps the earlier blocks, makes it the tip, and preserves the IsChainValid, IsValidChain and index invariants |
| Ledger.AcceptsIffExtendsIntact | internal/blockchain/blockchain.go:226-246 | on an intact chain, IsValidBlock accepts a non-genesis block exactly when appending it keeps the chain intact (both directions) |
| Ledger.IntactImpliesLinked | internal/blockchain/blockchain.go:182-198 | an intact chain whose genesis hash is non-empty also passes IsValidChain |
| Ledger.LinkedAcceptsForgedHash | internal/blockchain/blockchain.go:284-305 | IsValidChain accepts a block with any non-empty hash that names the tip, though an invalid such block breaks IsChainValid |
| Ledger.CorruptedLinkDetected | internal/blockchain/blockchain.go:182-198 | a wrong previous hash on any block after the first fails both IsChainValid and IsValidChain |
| Ledger.GenesisLinkUnchecked | internal/blockchain/blockchain.go:183-196 | IsChainValid never looks at the genesis link: rewriting it is not noticed |
| Ledger.CheckContract | internal/blockchain/blockchain.go:206-223 | passes exactly when entity code, entity name, description and creator are non-empty and amount > 0; a failure names a field that is missing; an empty entity code, checked first, is the error reported |
| Ledger.RegisteredKeepsInvariant | internal/blockchain/blockchain.go:47-88 | the stored contract keeps its ID (or takes the fresh one), is Draft at step 1 with six pending steps, satisfies the workflow invariant and has one new WORKFLOW_INITIALIZED entry carrying the back-filled hash |
| Ledger.AddContractEffect | internal/blockchain/blockchain.go:41-91 | a successful AddContract stores that contract and appends one valid CONTRACT_CREATION block at the next index, whose hash the new audit entry carries |
| Ledger.Blockchain.constructor | internal/blockchain/blockchain.go:19-38 | NewBlockchain: exactly the genesis block and no contracts |
| Ledger.Blockchain.IsValidBlock | internal/blockchain/blockchain.go:226-246 | false for an empty hash, a hash that is not the recomputed one, or (index > 0) a previous hash that is not the tip's; true otherwise |
| Ledger.Blockchain.HasBlock | internal/blockchain/blockchain.go:249-256 | true exactly when some block carries the hash |
| Ledger.Blockchain.AddBlock | internal/blockchain/blockchain.go:259-281 | the chain becomes the old chain plus `NextBlock`, which is returned; contracts are untouched |
| Ledger.Blockchain.IsChainValid | internal/blockchain/blockchain.go:182-198 | true exactly when every block after the first is valid and linked to its predecessor |
| Ledger.Blockchain.IsValidChain | internal/blockchain/blockchain.go:284-305 | false on the empty sequence; otherwise true exactly when every hash is non-empty and every block links to its predecessor |
| Ledger.Blockchain.ReplaceChain | internal/blockchain/blockchain.go:363-381 | a candidate not strictly longer fails with ChainTooShort and an unlinked one with ChainInvalid, both leaving the chain unchanged; otherwise the chain becomes the candidate; success exactly when the chain changed |
| Ledger.Blockchain.GetChain | internal/blockchain/blockchain.go:356-360 | returns the chain's blocks, as a copy |
| Ledger.Blockchain.AddContract | internal/blockchain/blockchain.go:41-91 | a failed validation returns its error and changes neither chain nor contracts; otherwise the initialised contract is stored under its ID, one creation block is appended and its hash back-filled |
| Ledger.Blockchain.ValidateContract | internal/blockchain/blockchain.go:134-161 | a missing contract fails with nothing changed; otherwise one VALIDATION block is appended and a rejection, but not an approval, marks the contract Rejected |
| Ledger.NodeRejectionOverridden | internal/blockchain/blockchain.go:151-157 | a node-level rejection of a contract whose cursor's step is pending breaks the workflow invariant, leaves it listed for its cursor's role and accepted by the guards, and the next approval gives the same contract as without the rejection, status not Rejected |
| Ledger.Blockchain.GetContractsByStatus | internal/blockchain/blockchain.go:109-117 | exactly the contracts with that status; each is read under a distinct ID and every matching ID is read |
| Ledger.Blockchain.GetContractsByRole | internal/blockchain/blockchain.go:120-131 | exactly the contracts whose current step belongs to the role and is pending; each is read under a distinct ID and every matching ID is read |
| Workflow.GetWorkflowSteps | internal/blockchain/workflow.go:25-34 | six steps numbered 1..6, bound to the six pipeline roles in order, all required |
| Workflow.PipelineRolesDistinct | internal/blockchain/workflow.go:25-34 | the pipeline roles are pairwise distinct and none is a control role |
| Workflow.StatusForStep | internal/blockchain/workflow.go:135-152 | never Rejected or Completed; AuthorizedForPublication exactly for numbers outside 1..6 |
| Workflow.StatusForStepInjective | internal/blockchain/workflow.go:135-152 | distinct numbers in 1..7 get distinct statuses |
| Workflow.AddAuditEntry | internal/blockchain/workflow.go:202-214 | appends exactly one entry with the given fields and no block hash; nothing else changes |
| Workflow.WithLastBlockHash | internal/blockchain/workflow.go:124-129 | only the newest entry's block hash changes |
| Workflow.InitializeContractWorkflow | internal/blockchain/workflow.go:45-67 | the array-filling loop yields the contract of `Initialized` |
| Workflow.InitializedSatisfiesInvariant | internal/blockchain/workflow.go:45-67 | after initialisation: step 1, Draft, six pending steps of the pipeline's shape, one WORKFLOW_INITIALIZED entry appended, workflow invariant established |
| Workflow.StepGuard | internal/blockchain/workflow.go:77-87 | passes exactly when the step number is the cursor and a valid index; a mismatch is reported with both numbers |
| Workflow.RecordDecision | internal/blockchain/workflow.go:86-106 | one decision keeps the contract's ID and its number of steps and adds exactly one audit entry |
| Workflow.IntToString | internal/blockchain/workflow.go:99 | the `%d` of the step number in the audit descriptions: non-empty, a minus sign exactly for a negative number, decimal digits otherwise |
| Workflow.DecisionEffect | internal/blockchain/workflow.go:86-104 | the step records validator, name, time, comments and decision; approval advances the cursor by one and sets the status of the new step; rejection keeps the cursor and sets Rejected; other steps untouched; one STEP_APPROVED/STEP_REJECTED entry appended |
| Workflow.ApprovalPreservesInvariant | internal/blockchain/workflow.go:95-99 | an accepted approval keeps the workflow invariant |
| Workflow.RejectionPreservesInvariant | internal/blockchain/workflow.go:100-104 | an accepted rejection keeps the workflow invariant |
| Workflow.DecisionPreservesInvariant | internal/blockchain/workflow.go:86-104 | any accepted decision keeps the invariant (steps before the cursor approved, the cursor's step pending or rejected, later steps pending, status following the cursor), whatever the caller's role |
| Workflow.BackfillPreservesInvariant | internal/blockchain/workflow.go:124-129 | back-filling a block hash keeps the invariant |
| Workflow.RejectedStepCanBeResubmitted | internal/blockchain/workflow.go:77-104 | after a rejection of step n the contract is Rejected, every other number fails the mismatch check, n passes the guards again, and approving it advances to n+1 in the invariant |
| Workflow.ApprovedCount | internal/blockchain/workflow.go:223-228 | the count of approved steps never exceeds the number of steps |
| Workflow.CompletedStepsFollowCursor | internal/blockchain/workflow.go:223-228 | under the invariant the number of approved steps is the cursor minus one |
| Workflow.NextRole | internal/blockchain/workflow.go:253-258 | the role of the cursor's step while the cursor is within the steps, none otherwise |
| Workflow.AwaitsRole | internal/blockchain/blockchain.go:123-125 | the filter of GetContractsByRole; a contract that awaits a role has it as its next role |
| Workflow.AwaitsRoleUnderInvariant | internal/blockchain/blockchain.go:120-131 | under the invariant, a contract awaits a role exactly when the cursor is on that role's pipeline step and the contract is not Rejected |
| Workflow.ReportUnderInvariant | internal/blockchain/workflow.go:217-239 | completed = cursor − 1, next role = the cursor's pipeline role, cannot-advance exactly when Rejected, and a Rejected contract still passes the step guards |
| WorkflowEngine.ValidateStepKeepsInvariant | internal/blockchain/workflow.go:70-132 | a successful ValidateStep, back-fill included, keeps the workflow invariant |
| WorkflowEngine.ValidateStepRecordsBlock | internal/blockchain/workflow.go:106-129 | one audit entry appended, earlier entries untouched, the new one carrying the hash of the VALIDATION block and the decision's action |
| WorkflowEngine.ObservationEffect | internal/blockchain/workflow.go:155-199 | an observation leaves steps, cursor and status unchanged (so the invariant holds) and appends one AUDIT_OBSERVATION entry carrying the block hash |
| WorkflowEngine.WorkflowManager.constructor | internal/blockchain/workflow.go:18-22 | the manager works on the given ledger |
| WorkflowEngine.WorkflowManager.ValidateStep | internal/blockchain/workflow.go:70-132 | a missing contract or a failed guard returns the error with nothing changed; otherwise the decision is stored, one VALIDATION block is appended and its hash back-filled |
| WorkflowEngine.WorkflowManager.AddAuditObservation | internal/blockchain/workflow.go:155-199 | a missing contract or a non-control role fails with nothing changed; otherwise one entry and one AUDIT_OBSERVATION block are added and the entry gets the block's hash |
| WorkflowEngine.WorkflowManager.GetContractWorkflowStatus | internal/blockchain/workflow.go:217-239 | a missing contract fails; otherwise the report with the counted approved steps, the total, the status, can-advance and the next role |
| Discovery.Evicted | internal/blockchain/peer_discovery.go:182-186 | keeps exactly the entries seen within five minutes, unchanged |
| Discovery.Merged | internal/blockchain/peer_discovery.go:175-179 | the update loop never drops a known entry |
| Discovery.MergedKeys | internal/blockchain/peer_discovery.go:175-179 | after the update loop an ID is present exactly when it was known or listed (and is not the node's own); an unlisted known entry is unchanged |
| Discovery.SelfNeverAdded | internal/blockchain/peer_discovery.go:175-179 | the node's own ID never enters the directory through a listing |
| Discovery.LastListingWins | internal/blockchain/peer_discovery.go:175-179 | a listed peer other than the node holds its last listed record |
| Discovery.MergedWellKeyed | internal/blockchain/peer_discovery.go:175-179 | every entry stays filed under its own ID |
| Discovery.RefreshEffect | internal/blockchain/peer_discovery.go:155-190 | after a refresh nothing stale remains, the node is not added, and every fresh listed peer holds its last listed record |
| Discovery.PeerDiscovery.constructor | internal/blockchain/peer_discovery.go:49-57 | an empty directory with the given registry, node ID, address and entity type |
| Discovery.PeerDiscovery.DiscoverPeers | internal/blockchain/peer_discovery.go:155-190 | no registry: success, nothing changes; failed fetch: error, nothing changes; otherwise the directory becomes the eviction of the merge of the listing |
| Discovery.PeerDiscovery.GetActivePeers | internal/blockchain/peer_discovery.go:193-205 | exactly the active entries; each is read under a distinct ID and every active ID is read |
| Discovery.PeerDiscovery.GetPeersByType | internal/blockchain/peer_discovery.go:208-220 | exactly the active entries of that entity type; each is read under a distinct ID and every matching ID is read |
| Discovery.PeerDiscovery.AddBootstrapPeer | internal/blockchain/peer_discovery.go:223-237 | inserts or overwrites that ID with an active entry with no port; nothing else changes |
| Discovery.PeerDiscovery.GetPeerCount | internal/blockchain/peer_discovery.go:240-251 | the number of active entries |
| P2P.StalenessBoundaryDiffers | internal/blockchain/p2p.go:375-378 | the health report's "seen after now − 5 min" test and discovery's "more than 5 min ago" eviction disagree exactly at a peer seen exactly five minutes ago |
| P2P.AfterReceive | internal/blockchain/p2p.go:200-230 | the chain after a delivery keeps every earlier block and has at most one block more |
| P2P.ReceiveKeepsChain | internal/blockchain/p2p.go:200-230 | receiving keeps the history and every chain invariant and adds at most one block |
| P2P.StoredCopyDiffers | internal/blockchain/p2p.go:215-223 | the block stored is a re-wrapped copy at the local height, with the received payload nested under "data", the received type and a fresh valid hash |
| P2P.HeldBlockIgnored | internal/blockchain/p2p.go:208-212 | a block the ledger holds under its own hash (genesis, built locally or adopted) delivered back leaves the chain unchanged |
| P2P.IndexZeroReplayAppendsAgain | internal/blockchain/p2p.go:204-223 | a valid, unseen block with index 0 is appended again on a second delivery when the records do not collide |
| P2P.LinkedReplayRefused | internal/blockchain/p2p.go:204-212 | a linked block delivered twice is refused the second time and the chain stays the same, when the records do not collide |
| P2P.Rebuilt | internal/blockchain/p2p.go:298-312 | every contract of the rebuilt map is filed under its own ID |
| P2P.UndecodableChainRebuildsEmpty | internal/blockchain/p2p.go:298-309 | when no creation block decodes, as with the Go code's decode of `%v` text, the rebuilt map is empty |
| P2P.RebuiltFromCreations | internal/blockchain/p2p.go:298-312 | every rebuilt contract was decoded from a CONTRACT_CREATION block of the chain and is filed under its own ID |
| P2P.P2PNetwork.constructor | internal/blockchain/p2p.go:35-48 | no peers, the given ledger, and a fresh empty discovery directory for this node |
| P2P.P2PNetwork.AddPeer | internal/blockchain/p2p.go:133-151 | a known ID fails with nothing changed; otherwise exactly one active peer with the given address and port is inserted |
| P2P.P2PNetwork.RemovePeer | internal/blockchain/p2p.go:440-451 | an unknown ID fails; otherwise exactly that key is deleted |
| P2P.P2PNetwork.MarkPeerInactive | internal/blockchain/p2p.go:315-323 | only the named peer's active flag changes, to false; an unknown ID is a no-op |
| P2P.P2PNetwork.AddBootstrapPeer | internal/blockchain/p2p.go:117-130 | the peer goes into the directory and into the table as active with no port |
| P2P.P2PNetwork.GetActivePeers | internal/blockchain/p2p.go:326-338 | exactly the active peers of the table; each is read under a distinct ID and every active ID is read |
| P2P.P2PNetwork.AddMissing | internal/blockchain/p2p.go:88-100 | every listed ID not yet in the table is added with the listed fields; existing peers keep their record |
| P2P.P2PNetwork.RetainOnly | internal/blockchain/p2p.go:103-113 | exactly the peers whose ID is listed remain, unchanged |
| P2P.P2PNetwork.SyncWithDiscoveredPeers | internal/blockchain/p2p.go:81-114 | the table's keys become exactly the active directory IDs; peers already present keep their record, new ones copy the directory entry |
| P2P.ReconcileEffect | internal/blockchain/p2p.go:81-114 | the same on values: insertion then removal yields exactly the active directory IDs |
| P2P.P2PNetwork.ReceiveBlock | internal/blockchain/p2p.go:200-230 | an invalid block fails with the chain unchanged; a held hash succeeds with the chain unchanged; otherwise the chain grows by the re-wrapped copy |
| P2P.P2PNetwork.RebuildContractsFromChain | internal/blockchain/p2p.go:298-312 | the contract map becomes `Rebuilt` of the chain: only creation blocks that decode contribute, so the map is empty when none decodes (as in the Go code); the chain is unchanged |
| P2P.P2PNetwork.SyncWithPeers | internal/blockchain/p2p.go:233-264 | the chain never shrinks and ends no shorter than any linked chain offered by an active peer; it is either unchanged or a strictly longer linked chain of an active peer, adopted block for block, with the contract map replaced by `Rebuilt` of it (empty in the Go code, see `P2P.UndecodableChainRebuildsEmpty`) |
| P2P.P2PNetwork.SyncBlockchain | internal/blockchain/p2p.go:458-460 | fails with NoPeersAvailable exactly when the table is empty |
| Config.TrimSpace | internal/config/config.go:107 | the trim is no longer than its input and has no white space at either end |
| Config.TrimSpaceIsSlice | internal/config/config.go:107 | the trim is a contiguous slice of the input |
| Config.TrimSpaceBlank | internal/config/config.go:107-108 | the trim is empty exactly when the input is all white space |
| Config.Split | internal/config/config.go:103 | one segment more than there are commas, and no segment contains a comma |
| Config.JoinSplit | internal/config/config.go:103 | joining the segments with commas gives back the input |
| Config.ParseBootstrapPeers | internal/config/config.go:98-114 | the empty string gives the empty list; otherwise the loop yields the trimmed, non-empty segments in order |
| Config.CleanedElements | internal/config/config.go:106-111 | every result is non-empty, has no white space at either end and is the trim of some segment |
| Config.CleanedKeepsNonBlank | internal/config/config.go:106-111 | the trim of every segment that is not blank appears in the result |
| Config.CleanedLength | internal/config/config.go:103-113 | no more results than segments |
| Config.CleanedAppend | internal/config/config.go:106-111 | cleaning distributes over concatenation, so surviving segments keep their input order |
| Config.ParseResult | internal/config/config.go:98-114 | the empty string gives []; at most one result more than there are commas; every result is non-empty, trimmed, comma-free and the trim of a segment |
| Collections.Select | internal/blockchain/blockchain.go:109-117 | the collect loop: each result is read under a distinct key that passes the filter, and every passing key is read, so every passing entry appears exactly once |
| Collections.CountWhere | internal/blockchain/peer_discovery.go:240-251 | the count loop: the number of entries that pass the filter |

## Left out

- HTTP and JSON I/O: registering with and leaving the registry, the registry
  fetch, `requestChainFromPeer`, `sendBlockToPeer`, `BroadcastBlock` and
  `HealthCheck`. The fetched listing and the fetched chains are parameters.
- Concurrency: goroutines, mutexes, tickers, the periodic loops and
  `Start`/`Stop`. Every operation runs alone.
- SHA-256 and JSON serialisation, and JSON decoding of the `%v` text in
  `rebuildContractsFromChain`. The first two are abstract functions; the
  decoding is the abstract partial function `P2P.DecodePrinted`.
- The clock and UUIDs: they become parameters, with one instant per
  operation. Consequently the model's `updatedAt`, step timestamps and block
  timestamps of one call coincide, while Go's may differ by nanoseconds.
- Pointer aliasing. Contracts and peers are stored as values. An update made
  through a pointer the caller still holds, such as one returned by
  `GetContractsByStatus` or `GetActivePeers`, is not modelled. The directory
  update in `discoverPeers` copies each listed record, which is Go 1.22 and
  later loop-variable semantics; the `&peer` there aliased one variable in
  older Go versions.
- Logging: `fmt.Printf` and `log.Printf`.
- `GetContract`, `GetAllContracts`, `GetBlockchainHeight`, `IsSynced`,
  `GetPeers`, both `GetNetworkHealth` functions and `GetWorkflowStatus`: plain
  map lookups, counts and report maps. `GetWorkflowStatus` also computes a
  floating-point progress percentage.
- The wrappers `ValidateContractStep`, `AddAuditObservation` and
  `GetContractWorkflowStatus` of the ledger
  (internal/blockchain/blockchain.go:94-106). They only create a fresh
  `WorkflowManager` and call the method of the same name.
- The loop of `SyncBlockchain` that follows the peer-count check. It only
  logs.
- `Contract.amount`: a float64 in the Go code. It is only ever compared with
  zero, so it is an integer here.
- Roles are an enumeration of the nine named roles. Go's `AdminRole` is a
  string and could hold any other value, for example one decoded from JSON.
- A cursor below 1. Go would index position −1 and panic; such a contract
  can only come from a decoded chain.
  - `Workflow.StepGuard` reports `IndexOutOfRange` instead.
  - `Workflow.NextRole` and `Workflow.AwaitsRole` report no role and do not
    match.
- Int64 overflow of indices, step numbers and nanosecond instants: all
  integers are unbounded.
- `time.Duration` saturation in the five-minute window is not modelled.
- The unreachable error branches: "bloque inválido" in AddBlock (proved dead
  by `Ledger.NextBlockAccepted`) and "error agregando bloque" in ReceiveBlock.
  The latter is also shown dead by `Ledger.Blockchain.AddBlock` having no
  failure outcome.
- Config.TrimSpace: only the white-space characters that Go's
  `unicode.IsSpace` accepts are trimmed, on `char` values. Invalid UTF-8 byte
  sequences are not modelled.
