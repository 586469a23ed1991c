/**
  The peer-to-peer layer of a node: its own peer table, reconciled against
  the discovery directory; inbound blocks, which are re-wrapped and appended
  through the ledger's AddBlock; and chain adoption, which takes a strictly
  longer linked chain offered by an active peer and rebuilds the contract
  map from it. The HTTP exchanges are inputs: a fetched chain per peer.
 */
module P2P {
  import opened Blocks
  import opened Errors
  import opened Ledger
  import opened Discovery
  import Collections

  datatype Peer = Peer(id: string, address: string, port: string, lastSeen: Time, active: bool)

  /** The peer record syncWithDiscoveredPeers creates from a directory entry. */
  function PeerOf(info: PeerInfo): Peer {
    Peer(info.id, info.address, info.port, info.lastSeen, info.isActive)
  }

  /** The activity test of the health report: seen after `now` minus five minutes. */
  predicate SeenRecently(lastSeen: Time, now: Time) {
    lastSeen > now - StalenessWindow
  }

  /**
    The two five-minute tests agree everywhere except on the boundary: a
    peer last seen exactly five minutes ago is kept by discovery but counted
    inactive by the health report.
   */
  lemma StalenessBoundaryDiffers(lastSeen: Time, now: Time)
    ensures SeenRecently(lastSeen, now) ==> !Stale(lastSeen, now)
    ensures Stale(lastSeen, now) ==> !SeenRecently(lastSeen, now)
    ensures !SeenRecently(lastSeen, now) && !Stale(lastSeen, now) <==> lastSeen == now - StalenessWindow
  {
  }

  // ---------------------------------------------------------------------------
  // Inbound blocks

  /** The payload ReceiveBlock hands to AddBlock: the received fields wrapped in a fresh map. */
  function Rewrapped(b: Block): Payload {
    map[
      "type" := Str(b.blockType),
      "data" := Object(b.data),
      "timestamp" := Instant(b.timestamp),
      "previous_hash" := Str(b.previousHash),
      "nonce" := Int(b.nonce)]
  }

  /** The chain after ReceiveBlock: unchanged for a refused or already-held block, else extended by the re-wrapped copy. */
  function AfterReceive(chain: seq<Block>, b: Block, now: Time): (r: seq<Block>)
    requires |chain| > 0
    ensures |chain| <= |r| <= |chain| + 1 && r[..|chain|] == chain
  {
    if !AcceptsBlock(chain, b) || Contains(chain, b.hash) then chain
    else chain + [NextBlock(chain, Rewrapped(b), now)]
  }

  /** Receiving keeps the chain's history and invariants and grows it by at most one block. */
  lemma ReceiveKeepsChain(chain: seq<Block>, b: Block, now: Time)
    requires |chain| > 0
    ensures var c := AfterReceive(chain, b, now);
      && (|c| == |chain| || |c| == |chain| + 1)
      && c[..|chain|] == chain
      && (ChainIntact(chain) ==> ChainIntact(c))
      && (Indexed(chain) ==> Indexed(c))
      && (Linked(chain) ==> Linked(c))
  {
    AppendPreservesChain(chain, Rewrapped(b), now);
  }

  /**
    The block stored is not the block received: it is re-indexed to the
    local height, carries the received payload one level down under "data",
    and is hashed afresh; only its type and, for a linked block, its
    predecessor hash are the received ones.
   */
  lemma StoredCopyDiffers(chain: seq<Block>, b: Block, now: Time)
    requires |chain| > 0 && AcceptsBlock(chain, b) && !Contains(chain, b.hash)
    ensures var c := AfterReceive(chain, b, now);
      && |c| == |chain| + 1
      && c[|chain|].index == |chain|
      && c[|chain|].blockType == b.blockType
      && c[|chain|].data["data"] == Object(b.data)
      && c[|chain|].data["previous_hash"] == Str(b.previousHash)
      && c[|chain|].timestamp == now
      && (b.index > 0 ==> c[|chain|].previousHash == b.previousHash)
      && IsValid(c[|chain|])
  {
  }

  /**
    A block the ledger already holds under its own hash is ignored: the
    node's genesis block, one it built itself, or one of an adopted chain,
    delivered back by a peer, leaves the chain as it is.
   */
  lemma HeldBlockIgnored(chain: seq<Block>, i: int, now: Time)
    requires 0 <= i < |chain|
    ensures AfterReceive(chain, chain[i], now) == chain
  {
    assert Contains(chain, chain[i].hash);
  }

  /**
    A genesis-indexed block skips the link check, so a replay of one that
    is valid and not yet held is appended again after the first delivery:
    the stored copy hashes differently (its index is the local height), so
    the duplicate test never fires.
   */
  lemma IndexZeroReplayAppendsAgain(chain: seq<Block>, b: Block, now: Time)
    requires |chain| > 0 && b.index == 0 && IsValid(b) && !Contains(chain, b.hash)
    requires NoCollision(Record(NextBlock(chain, Rewrapped(b), now)), Record(b))
    ensures var once := AfterReceive(chain, b, now);
      && |once| == |chain| + 1
      && AcceptsBlock(once, b) && !Contains(once, b.hash)
      && |AfterReceive(once, b, now)| == |chain| + 2
  {
    var s := NextBlock(chain, Rewrapped(b), now);
    var once := chain + [s];
    assert Record(s) != Record(b);
    forall i | 0 <= i < |once| ensures once[i].hash != b.hash {
      if i < |chain| {
        assert once[i] == chain[i];
      }
    }
  }

  /**
    A linked block delivered a second time is refused as invalid rather than
    ignored as a duplicate: the new tip is the re-hashed copy, so the
    block's predecessor hash no longer names the tip.
   */
  lemma LinkedReplayRefused(chain: seq<Block>, b: Block, now: Time)
    requires |chain| > 0 && Indexed(chain) && IsValid(chain[|chain| - 1])
    requires AcceptsBlock(chain, b) && b.index > 0 && !Contains(chain, b.hash)
    requires NoCollision(Record(NextBlock(chain, Rewrapped(b), now)), Record(chain[|chain| - 1]))
    ensures !AcceptsBlock(AfterReceive(chain, b, now), b)
    ensures AfterReceive(AfterReceive(chain, b, now), b, now) == AfterReceive(chain, b, now)
  {
    var s := NextBlock(chain, Rewrapped(b), now);
    assert Record(s).index != Record(chain[|chain| - 1]).index;
  }

  // ---------------------------------------------------------------------------
  // Contract rebuild

  /**
    `json.Unmarshal` of the `%v` text of a payload, left abstract: it may
    fail (None) on any input. In the Go code it fails on every block: `%v`
    of a Go map prints text that starts with `map[`, which is not JSON.
    `UndecodableChainRebuildsEmpty` is that case. (Even a decode that
    succeeded would find no `id` field, since the creation payload files
    the ID under "contract_id".)
   */
  const DecodePrinted: Payload -> Option<Contract>

  /** rebuildContractsFromChain: start empty; each CONTRACT_CREATION block whose payload decodes files the contract under its ID. */
  function Rebuilt(chain: seq<Block>): (r: map<string, Contract>)
    ensures forall id :: id in r ==> r[id].id == id
    decreases |chain|
  {
    if chain == [] then map[]
    else
      var m := Rebuilt(chain[..|chain| - 1]);
      var b := chain[|chain| - 1];
      if b.blockType == ContractCreation && DecodePrinted(b.data).Some?
      then m[DecodePrinted(b.data).value.id := DecodePrinted(b.data).value]
      else m
  }

  /**
    When no CONTRACT_CREATION block of the chain decodes, the rebuild
    leaves no contract at all. This is what adopting a chain does in the
    Go code: it empties the contract map.
   */
  lemma {:induction false} UndecodableChainRebuildsEmpty(chain: seq<Block>)
    requires forall i :: 0 <= i < |chain| && chain[i].blockType == ContractCreation ==> DecodePrinted(chain[i].data).None?
    ensures Rebuilt(chain) == map[]
    decreases |chain|
  {
    if chain != [] {
      var init := chain[..|chain| - 1];
      assert forall i :: 0 <= i < |init| ==> init[i] == chain[i];
      UndecodableChainRebuildsEmpty(init);
    }
  }

  /** Every rebuilt contract was decoded from a CONTRACT_CREATION block of the chain and is filed under its own ID. */
  lemma {:induction false} RebuiltFromCreations(chain: seq<Block>)
    ensures forall id :: id in Rebuilt(chain) ==>
      && Rebuilt(chain)[id].id == id
      && exists i :: 0 <= i < |chain| && chain[i].blockType == ContractCreation
                     && DecodePrinted(chain[i].data) == Some(Rebuilt(chain)[id])
    decreases |chain|
  {
    if chain != [] {
      var init := chain[..|chain| - 1];
      RebuiltFromCreations(init);
      var m := Rebuilt(init);
      var b := chain[|chain| - 1];
      forall id | id in Rebuilt(chain)
        ensures Rebuilt(chain)[id].id == id
        ensures exists i :: 0 <= i < |chain| && chain[i].blockType == ContractCreation
                            && DecodePrinted(chain[i].data) == Some(Rebuilt(chain)[id])
      {
        if b.blockType == ContractCreation && DecodePrinted(b.data).Some? && id == DecodePrinted(b.data).value.id {
          assert chain[|chain| - 1] == b;
        } else {
          assert Rebuilt(chain)[id] == m[id];
          var i :| 0 <= i < |init| && init[i].blockType == ContractCreation && DecodePrinted(init[i].data) == Some(m[id]);
          assert chain[i] == init[i];
        }
      }
    }
  }

  // ---------------------------------------------------------------------------
  // The network object

  class P2PNetwork {
    const nodeId: string
    const address: string
    const port: string
    const blockchain: Blockchain
    const peerDiscovery: PeerDiscovery
    var peers: map<string, Peer>

    /** NewP2PNetwork: no peers, and a fresh, empty discovery directory for this node. */
    constructor (nodeId: string, address: string, port: string, bc: Blockchain, registryUrl: string, entityType: string)
      ensures this.nodeId == nodeId && this.address == address && this.port == port
      ensures blockchain == bc && peers == map[]
      ensures fresh(peerDiscovery) && peerDiscovery.Valid() && peerDiscovery.knownPeers == map[]
      ensures peerDiscovery.registryUrl == registryUrl && peerDiscovery.nodeId == nodeId
      ensures peerDiscovery.nodeAddress == address && peerDiscovery.entityType == entityType
    {
      this.nodeId := nodeId;
      this.address := address;
      this.port := port;
      blockchain := bc;
      peers := map[];
      peerDiscovery := new PeerDiscovery(registryUrl, nodeId, address, entityType);
    }

    /** AddPeer: a known ID is refused and nothing changes; otherwise exactly one active peer is inserted. */
    method AddPeer(peerId: string, address: string, port: string, now: Time) returns (r: Outcome)
      modifies this
      ensures peerId in old(peers) ==> r == Fail(PeerAlreadyExists(peerId)) && peers == old(peers)
      ensures peerId !in old(peers) ==> r == Pass && peers == old(peers)[peerId := Peer(peerId, address, port, now, true)]
    {
      if peerId in peers {
        return Fail(PeerAlreadyExists(peerId));
      }
      peers := peers[peerId := Peer(peerId, address, port, now, true)];
      r := Pass;
    }

    /** RemovePeer: an unknown ID is refused; otherwise exactly that key is deleted. */
    method RemovePeer(id: string) returns (r: Outcome)
      modifies this
      ensures id !in old(peers) ==> r == Fail(PeerNotFound(id)) && peers == old(peers)
      ensures id in old(peers) ==> r == Pass && peers == old(peers) - {id}
    {
      if id !in peers {
        return Fail(PeerNotFound(id));
      }
      peers := peers - {id};
      r := Pass;
    }

    /** markPeerInactive: only the named peer's active flag changes, to false; an unknown ID is a no-op. */
    method MarkPeerInactive(peerId: string)
      modifies this
      ensures peerId !in old(peers) ==> peers == old(peers)
      ensures peerId in old(peers) ==> peers == old(peers)[peerId := old(peers)[peerId].(active := false)]
    {
      if peerId in peers {
        peers := peers[peerId := peers[peerId].(active := false)];
      }
    }

    /** AddBootstrapPeer: the peer goes into the discovery directory and, as active with no port, into the peer table. */
    method AddBootstrapPeer(id: string, address: string, entityType: string, now: Time)
      requires peerDiscovery.Valid()
      modifies this, peerDiscovery
      ensures peerDiscovery.Valid()
      ensures peerDiscovery.knownPeers == old(peerDiscovery.knownPeers)[id := PeerInfo(id, address, "", entityType, now, true, "")]
      ensures peers == old(peers)[id := Peer(id, address, "", now, true)]
    {
      peerDiscovery.AddBootstrapPeer(id, address, entityType, now);
      peers := peers[id := Peer(id, address, "", now, true)];
    }

    /** GetActivePeers: exactly the active peers of the table, one per ID, in no fixed order. */
    method GetActivePeers() returns (r: seq<Peer>, ghost ids: seq<string>)
      ensures |ids| == |r| && forall i, j :: 0 <= i < j < |ids| ==> ids[i] != ids[j]
      ensures forall i :: 0 <= i < |r| ==> ids[i] in peers && r[i] == peers[ids[i]] && r[i].active
      ensures forall id :: id in peers && peers[id].active ==> id in ids
      ensures forall p :: p in r ==> p in peers.Values && p.active
      ensures forall id :: id in peers && peers[id].active ==> peers[id] in r
      ensures |r| == |set id | id in peers && peers[id].active|
    {
      var keep := (p: Peer) => p.active;
      r, ids := Collections.Select(peers, keep);
      assert Collections.KeysWhere(peers, keep) == set id | id in peers && peers[id].active;
    }

    /**
      syncWithDiscoveredPeers: afterwards the table holds exactly the IDs the
      directory lists as active; peers already in the table keep their
      record, new ones copy the directory entry.
     */
    method SyncWithDiscoveredPeers()
      requires peerDiscovery.Valid()
      modifies this
      ensures peers.Keys == set id | id in peerDiscovery.knownPeers && peerDiscovery.knownPeers[id].isActive
      ensures forall id :: id in peers && id in old(peers) ==> peers[id] == old(peers)[id]
      ensures forall id :: id in peers && id !in old(peers) ==> peers[id] == PeerOf(peerDiscovery.knownPeers[id])
    {
      var discovered, _ := peerDiscovery.GetActivePeers();
      ghost var known := peerDiscovery.knownPeers;
      AddMissing(discovered);
      ghost var added := peers;
      var ids: set<string> := {};
      for i := 0 to |discovered|
        invariant ids == set j | 0 <= j < i :: discovered[j].id
      {
        ids := ids + {discovered[i].id};
      }
      RetainOnly(ids);
      ReconcileEffect(old(peers), added, peers, known, discovered, ids);
    }

    /** The insertion loop of syncWithDiscoveredPeers: add each listed peer not yet in the table. */
    method AddMissing(discovered: seq<PeerInfo>)
      modifies this
      ensures peers.Keys == old(peers).Keys + (set j | 0 <= j < |discovered| :: discovered[j].id)
      ensures forall id :: id in old(peers) ==> peers[id] == old(peers)[id]
      ensures forall id :: id in peers && id !in old(peers) ==>
        exists j :: 0 <= j < |discovered| && discovered[j].id == id && peers[id] == PeerOf(discovered[j])
    {
      for i := 0 to |discovered|
        invariant peers.Keys == old(peers).Keys + (set j | 0 <= j < i :: discovered[j].id)
        invariant forall id :: id in old(peers) ==> peers[id] == old(peers)[id]
        invariant forall id :: id in peers && id !in old(peers) ==>
          exists j :: 0 <= j < i && discovered[j].id == id && peers[id] == PeerOf(discovered[j])
      {
        var info := discovered[i];
        if info.id !in peers {
          peers := peers[info.id := PeerOf(info)];
        }
      }
    }

    /** The removal loop of syncWithDiscoveredPeers: delete every peer whose ID is not listed. */
    method RetainOnly(ids: set<string>)
      modifies this
      ensures peers == map id | id in old(peers) && id in ids :: old(peers)[id]
    {
      var todo := peers.Keys;
      while todo != {}
        invariant todo <= old(peers).Keys
        invariant peers == map id | id in old(peers) && (id in todo || id in ids) :: old(peers)[id]
        decreases todo
      {
        var id :| id in todo;
        todo := todo - {id};
        if id !in ids {
          peers := peers - {id};
        }
      }
    }

    /**
      ReceiveBlock: a block failing IsValidBlock is refused and a block
      whose hash is already held is ignored, both without change; any other
      block is re-wrapped and appended through AddBlock.
     */
    method ReceiveBlock(block: Block, now: Time) returns (r: Outcome)
      requires blockchain.Valid()
      modifies blockchain
      ensures blockchain.Valid() && blockchain.contracts == old(blockchain.contracts)
      ensures blockchain.chain == AfterReceive(old(blockchain.chain), block, now)
      ensures !AcceptsBlock(old(blockchain.chain), block) ==> r == Fail(InvalidBlock) && blockchain.chain == old(blockchain.chain)
      ensures AcceptsBlock(old(blockchain.chain), block) && Contains(old(blockchain.chain), block.hash) ==>
        r == Pass && blockchain.chain == old(blockchain.chain)
      ensures AcceptsBlock(old(blockchain.chain), block) && !Contains(old(blockchain.chain), block.hash) ==>
        r == Pass && blockchain.chain == old(blockchain.chain) + [NextBlock(old(blockchain.chain), Rewrapped(block), now)]
    {
      var valid := blockchain.IsValidBlock(block);
      if !valid {
        return Fail(InvalidBlock);
      }
      var held := blockchain.HasBlock(block.hash);
      if held {
        return Pass;
      }
      var stored := blockchain.AddBlock(Rewrapped(block), now);
      r := Pass;
    }

    /** rebuildContractsFromChain. */
    method RebuildContractsFromChain()
      requires blockchain.Valid()
      modifies blockchain
      ensures blockchain.Valid() && blockchain.chain == old(blockchain.chain)
      ensures blockchain.contracts == Rebuilt(blockchain.chain)
    {
      blockchain.contracts := map[];
      var chain := blockchain.chain;
      for i := 0 to |chain|
        invariant blockchain.chain == chain
        invariant blockchain.contracts == Rebuilt(chain[..i])
      {
        assert chain[..i + 1][..i] == chain[..i];
        var block := chain[i];
        if block.blockType == ContractCreation {
          var decoded := DecodePrinted(block.data);
          if decoded.Some? {
            blockchain.contracts := blockchain.contracts[decoded.value.id := decoded.value];
          }
        }
      }
      assert chain[..|chain|] == chain;
    }

    /** One active peer's chain was strictly longer than `height` and linked, and is now the local chain. */
    ghost predicate AdoptedFrom(fetched: map<string, seq<Block>>, height: int)
      reads this, blockchain
    {
      exists id :: id in peers && peers[id].active && id in fetched && fetched[id] == blockchain.chain
                   && Linked(blockchain.chain) && |blockchain.chain| > height
    }

    /**
      The adoption part of SyncWithPeers: `fetched` holds the chain each peer
      returned (a peer missing from it failed to answer). Each active peer's
      chain is adopted, copied block by block, when it is strictly longer
      than the local one at that moment and passes IsValidChain, and the
      contract map is then rebuilt. Afterwards the local chain is no shorter
      than any linked chain an active peer offered.
     */
    method SyncWithPeers(fetched: map<string, seq<Block>>)
      requires blockchain.Valid()
      modifies blockchain
      ensures blockchain.Valid()
      ensures |blockchain.chain| >= |old(blockchain.chain)|
      ensures forall id :: id in peers && peers[id].active && id in fetched && Linked(fetched[id]) ==>
        |fetched[id]| <= |blockchain.chain|
      ensures || (blockchain.chain == old(blockchain.chain) && blockchain.contracts == old(blockchain.contracts))
              || (AdoptedFrom(fetched, |old(blockchain.chain)|) && blockchain.contracts == Rebuilt(blockchain.chain))
    {
      var todo := peers.Keys;
      while todo != {}
        invariant todo <= peers.Keys
        invariant blockchain.Valid()
        invariant |blockchain.chain| >= |old(blockchain.chain)|
        invariant forall id :: id in peers && id !in todo && peers[id].active && id in fetched && Linked(fetched[id]) ==>
          |fetched[id]| <= |blockchain.chain|
        invariant || (blockchain.chain == old(blockchain.chain) && blockchain.contracts == old(blockchain.contracts))
                  || (AdoptedFrom(fetched, |old(blockchain.chain)|) && blockchain.contracts == Rebuilt(blockchain.chain))
        decreases todo
      {
        var id :| id in todo;
        todo := todo - {id};
        if peers[id].active && id in fetched {
          var candidate := fetched[id];
          if |candidate| > |blockchain.chain| {
            var valid := blockchain.IsValidChain(candidate);
            if valid {
              var copy := new Block[|candidate|];
              for i := 0 to |candidate|
                invariant forall j :: 0 <= j < i ==> copy[j] == candidate[j]
              {
                copy[i] := candidate[i];
              }
              assert copy[..] == candidate;
              blockchain.chain := copy[..];
              RebuildContractsFromChain();
              assert AdoptedFrom(fetched, |old(blockchain.chain)|);
            }
          }
        }
      }
    }

    /** The peer-count check of SyncBlockchain: it fails exactly when the table is empty. */
    method SyncBlockchain() returns (r: Outcome)
      ensures r == Fail(NoPeersAvailable) <==> |peers| == 0
      ensures r.Fail? ==> r == Fail(NoPeersAvailable)
    {
      if |peers| == 0 {
        return Fail(NoPeersAvailable);
      }
      r := Pass;
    }
  }

  /**
    The reasoning behind syncWithDiscoveredPeers, on values: insertion of the
    missing listed peers followed by removal of the unlisted ones leaves
    exactly the active directory IDs, old records kept, new ones copied.
   */
  lemma ReconcileEffect(before: map<string, Peer>, added: map<string, Peer>, after: map<string, Peer>,
                        known: map<string, PeerInfo>, discovered: seq<PeerInfo>, ids: set<string>)
    requires forall k :: k in known ==> known[k].id == k
    requires forall p :: p in discovered ==> p in known.Values && p.isActive
    requires forall id :: id in known && known[id].isActive ==> known[id] in discovered
    requires added.Keys == before.Keys + (set j | 0 <= j < |discovered| :: discovered[j].id)
    requires forall id :: id in before ==> added[id] == before[id]
    requires forall id :: id in added && id !in before ==>
      exists j :: 0 <= j < |discovered| && discovered[j].id == id && added[id] == PeerOf(discovered[j])
    requires ids == set j | 0 <= j < |discovered| :: discovered[j].id
    requires after == map id | id in added && id in ids :: added[id]
    ensures after.Keys == set id | id in known && known[id].isActive
    ensures forall id :: id in after && id in before ==> after[id] == before[id]
    ensures forall id :: id in after && id !in before ==> after[id] == PeerOf(known[id])
  {
    DiscoveredIds(known, discovered);
    forall id | id in after && id !in before
      ensures after[id] == PeerOf(known[id])
    {
      var j :| 0 <= j < |discovered| && discovered[j].id == id && added[id] == PeerOf(discovered[j]);
      DiscoveredEntry(known, discovered, j);
    }
  }

  /** The IDs of a GetActivePeers listing are exactly the active directory keys. */
  lemma DiscoveredIds(known: map<string, PeerInfo>, discovered: seq<PeerInfo>)
    requires forall k :: k in known ==> known[k].id == k
    requires forall p :: p in discovered ==> p in known.Values && p.isActive
    requires forall id :: id in known && known[id].isActive ==> known[id] in discovered
    ensures (set j | 0 <= j < |discovered| :: discovered[j].id) == set id | id in known && known[id].isActive
  {
    forall id | id in known && known[id].isActive
      ensures id in set j | 0 <= j < |discovered| :: discovered[j].id
    {
      var j :| 0 <= j < |discovered| && discovered[j] == known[id];
    }
    forall j | 0 <= j < |discovered|
      ensures discovered[j].id in known && known[discovered[j].id].isActive
    {
      DiscoveredEntry(known, discovered, j);
    }
  }

  /** A listed entry is the directory's entry under its own ID. */
  lemma DiscoveredEntry(known: map<string, PeerInfo>, discovered: seq<PeerInfo>, j: int)
    requires forall k :: k in known ==> known[k].id == k
    requires forall p :: p in discovered ==> p in known.Values && p.isActive
    requires 0 <= j < |discovered|
    ensures discovered[j].id in known && known[discovered[j].id] == discovered[j]
  {
    assert discovered[j] in discovered;
    var k :| k in known && known[k] == discovered[j];
  }
}
