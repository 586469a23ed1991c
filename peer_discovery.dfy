/**
  The registry-driven peer directory: a map from peer ID to the last record
  the registry listed for it, refreshed by merging a fetched listing (never
  the node itself) and then evicting every peer not seen for five minutes.
 */
module Discovery {
  import opened Blocks
  import opened Errors
  import Collections

  datatype PeerInfo = PeerInfo(
    id: string,
    address: string,
    port: string,
    entityType: string,
    lastSeen: Time,
    isActive: bool,
    publicKey: string)

  /** Five minutes. */
  const StalenessWindow: int := 300 * NanosPerSecond

  /** The eviction test of discoverPeers: more than five minutes since the peer was last seen. */
  predicate Stale(lastSeen: Time, now: Time) {
    now - lastSeen > StalenessWindow
  }

  /** The update loop of discoverPeers: each listed peer but the node itself overwrites its entry, in listing order. */
  function Merged(known: map<string, PeerInfo>, listed: seq<PeerInfo>, self: string): (r: map<string, PeerInfo>)
    ensures known.Keys <= r.Keys
    decreases |listed|
  {
    if listed == [] then known
    else
      var m := Merged(known, listed[..|listed| - 1], self);
      var p := listed[|listed| - 1];
      if p.id != self then m[p.id := p] else m
  }

  /** The eviction loop of discoverPeers. */
  function Evicted(m: map<string, PeerInfo>, now: Time): (r: map<string, PeerInfo>)
    ensures r.Keys <= m.Keys
    ensures forall id :: id in r ==> r[id] == m[id] && !Stale(m[id].lastSeen, now)
    ensures forall id :: id in m && !Stale(m[id].lastSeen, now) ==> id in r
  {
    map id | id in m && !Stale(m[id].lastSeen, now) :: m[id]
  }

  /** Some listed record, not the node's own, carries this ID. */
  predicate Listed(listed: seq<PeerInfo>, self: string, id: string) {
    id != self && exists i :: 0 <= i < |listed| && listed[i].id == id
  }

  /** A merged entry is either kept from before or listed; the node itself keeps whatever entry it had. */
  lemma {:induction false} MergedKeys(known: map<string, PeerInfo>, listed: seq<PeerInfo>, self: string, id: string)
    ensures id in Merged(known, listed, self) <==> id in known || Listed(listed, self, id)
    ensures !Listed(listed, self, id) && id in known ==> Merged(known, listed, self)[id] == known[id]
    decreases |listed|
  {
    if listed != [] {
      var init := listed[..|listed| - 1];
      MergedKeys(known, init, self, id);
      if Listed(listed, self, id) && listed[|listed| - 1].id != id {
        var i :| 0 <= i < |listed| && listed[i].id == id;
        assert i < |init| && init[i].id == id;
      }
      if Listed(init, self, id) {
        var i :| 0 <= i < |init| && init[i].id == id;
        assert listed[i].id == id;
      }
    }
  }

  /** The node's own ID never enters the directory through a listing. */
  lemma SelfNeverAdded(known: map<string, PeerInfo>, listed: seq<PeerInfo>, self: string)
    ensures self in Merged(known, listed, self) <==> self in known
    ensures self in known ==> Merged(known, listed, self)[self] == known[self]
  {
    MergedKeys(known, listed, self, self);
  }

  /** A listed peer other than the node ends up with the last record listed for it. */
  lemma {:induction false} LastListingWins(known: map<string, PeerInfo>, listed: seq<PeerInfo>, self: string, i: int)
    requires 0 <= i < |listed| && listed[i].id != self
    requires forall j :: i < j < |listed| ==> listed[j].id != listed[i].id
    ensures listed[i].id in Merged(known, listed, self)
    ensures Merged(known, listed, self)[listed[i].id] == listed[i]
    decreases |listed|
  {
    var init := listed[..|listed| - 1];
    if i < |listed| - 1 {
      assert init[i] == listed[i];
      forall j | i < j < |init| ensures init[j].id != init[i].id {
        assert init[j] == listed[j];
      }
      LastListingWins(known, init, self, i);
    }
  }

  /** Merging keeps each entry under its own ID. */
  lemma {:induction false} MergedWellKeyed(known: map<string, PeerInfo>, listed: seq<PeerInfo>, self: string)
    requires forall k :: k in known ==> known[k].id == k
    ensures forall k :: k in Merged(known, listed, self) ==> Merged(known, listed, self)[k].id == k
    decreases |listed|
  {
    if listed != [] {
      var init := listed[..|listed| - 1];
      MergedWellKeyed(known, init, self);
      var m0 := Merged(known, init, self);
      var p := listed[|listed| - 1];
      var m := Merged(known, listed, self);
      assert m == if p.id != self then m0[p.id := p] else m0;
      forall k | k in m ensures m[k].id == k {
        if k != p.id || p.id == self {
          assert m[k] == m0[k];
        }
      }
    }
  }

  /**
    The whole refresh: nothing stale survives, the node itself is never
    added, and a listed peer that is fresh holds its last listed record.
   */
  lemma RefreshEffect(known: map<string, PeerInfo>, listed: seq<PeerInfo>, self: string, now: Time)
    ensures var r := Evicted(Merged(known, listed, self), now);
      && (forall id :: id in r ==> !Stale(r[id].lastSeen, now))
      && (self !in known ==> self !in r)
      && (forall i :: 0 <= i < |listed| && listed[i].id != self && !Stale(listed[i].lastSeen, now)
            && (forall j :: i < j < |listed| ==> listed[j].id != listed[i].id)
            ==> listed[i].id in r && r[listed[i].id] == listed[i])
  {
    SelfNeverAdded(known, listed, self);
    forall i | 0 <= i < |listed| && listed[i].id != self && !Stale(listed[i].lastSeen, now)
        && (forall j :: i < j < |listed| ==> listed[j].id != listed[i].id)
      ensures listed[i].id in Evicted(Merged(known, listed, self), now)
      ensures Evicted(Merged(known, listed, self), now)[listed[i].id] == listed[i]
    {
      LastListingWins(known, listed, self, i);
    }
  }

  class PeerDiscovery {
    const registryUrl: string
    const nodeId: string
    const nodeAddress: string
    const entityType: string
    var knownPeers: map<string, PeerInfo>

    /** Every entry is filed under its own ID. */
    ghost predicate Valid()
      reads this
    {
      forall k :: k in knownPeers ==> knownPeers[k].id == k
    }

    /** NewPeerDiscovery: an empty directory. */
    constructor (registryUrl: string, nodeId: string, nodeAddress: string, entityType: string)
      ensures Valid()
      ensures this.registryUrl == registryUrl && this.nodeId == nodeId
      ensures this.nodeAddress == nodeAddress && this.entityType == entityType
      ensures knownPeers == map[]
    {
      this.registryUrl := registryUrl;
      this.nodeId := nodeId;
      this.nodeAddress := nodeAddress;
      this.entityType := entityType;
      knownPeers := map[];
    }

    /**
      discoverPeers after its HTTP fetch: `fetched` is the decoded listing,
      or None when the request or the decoding failed. Without a registry
      nothing happens; a failed fetch changes nothing.
     */
    method DiscoverPeers(fetched: Option<seq<PeerInfo>>, now: Time) returns (r: Outcome)
      requires Valid()
      modifies this
      ensures Valid()
      ensures registryUrl == "" ==> r == Pass && knownPeers == old(knownPeers)
      ensures registryUrl != "" && fetched.None? ==> r == Fail(FetchFailed) && knownPeers == old(knownPeers)
      ensures registryUrl != "" && fetched.Some? ==>
        r == Pass && knownPeers == Evicted(Merged(old(knownPeers), fetched.value, nodeId), now)
    {
      if registryUrl == "" {
        return Pass;
      }
      if fetched.None? {
        return Fail(FetchFailed);
      }
      var listed := fetched.value;
      for i := 0 to |listed|
        invariant knownPeers == Merged(old(knownPeers), listed[..i], nodeId)
      {
        assert listed[..i + 1][..i] == listed[..i];
        var peer := listed[i];
        if peer.id != nodeId {
          knownPeers := knownPeers[peer.id := peer];
        }
      }
      assert listed[..|listed|] == listed;
      MergedWellKeyed(old(knownPeers), listed, nodeId);
      ghost var merged := knownPeers;
      var todo := knownPeers.Keys;
      while todo != {}
        invariant todo <= merged.Keys
        invariant knownPeers == map id | id in merged && (id in todo || !Stale(merged[id].lastSeen, now)) :: merged[id]
        decreases todo
      {
        var id :| id in todo;
        todo := todo - {id};
        if now - knownPeers[id].lastSeen > StalenessWindow {
          knownPeers := knownPeers - {id};
        }
      }
      r := Pass;
    }

    /** GetActivePeers: exactly the active entries, one per ID, in no fixed order. */
    method GetActivePeers() returns (r: seq<PeerInfo>, ghost ids: seq<string>)
      ensures |ids| == |r| && forall i, j :: 0 <= i < j < |ids| ==> ids[i] != ids[j]
      ensures forall i :: 0 <= i < |r| ==> ids[i] in knownPeers && r[i] == knownPeers[ids[i]] && r[i].isActive
      ensures forall id :: id in knownPeers && knownPeers[id].isActive ==> id in ids
      ensures forall p :: p in r ==> p in knownPeers.Values && p.isActive
      ensures forall id :: id in knownPeers && knownPeers[id].isActive ==> knownPeers[id] in r
      ensures |r| == |set id | id in knownPeers && knownPeers[id].isActive|
    {
      var keep := (p: PeerInfo) => p.isActive;
      r, ids := Collections.Select(knownPeers, keep);
      assert Collections.KeysWhere(knownPeers, keep) == set id | id in knownPeers && knownPeers[id].isActive;
    }

    /** GetPeersByType: exactly the active entries of that entity type, one per ID, a part of GetActivePeers. */
    method GetPeersByType(t: string) returns (r: seq<PeerInfo>, ghost ids: seq<string>)
      ensures |ids| == |r| && forall i, j :: 0 <= i < j < |ids| ==> ids[i] != ids[j]
      ensures forall i :: 0 <= i < |r| ==> ids[i] in knownPeers && r[i] == knownPeers[ids[i]] && r[i].isActive && r[i].entityType == t
      ensures forall id :: id in knownPeers && knownPeers[id].isActive && knownPeers[id].entityType == t ==> id in ids
      ensures forall p :: p in r ==> p in knownPeers.Values && p.isActive && p.entityType == t
      ensures forall id :: id in knownPeers && knownPeers[id].isActive && knownPeers[id].entityType == t ==> knownPeers[id] in r
      ensures |r| == |set id | id in knownPeers && knownPeers[id].isActive && knownPeers[id].entityType == t|
    {
      var keep := (p: PeerInfo) => p.entityType == t && p.isActive;
      r, ids := Collections.Select(knownPeers, keep);
      assert Collections.KeysWhere(knownPeers, keep) ==
        set id | id in knownPeers && knownPeers[id].isActive && knownPeers[id].entityType == t;
    }

    /** AddBootstrapPeer: insert or overwrite one active entry with no port. */
    method AddBootstrapPeer(id: string, address: string, entityType: string, now: Time)
      requires Valid()
      modifies this
      ensures Valid()
      ensures knownPeers == old(knownPeers)[id := PeerInfo(id, address, "", entityType, now, true, "")]
    {
      knownPeers := knownPeers[id := PeerInfo(id, address, "", entityType, now, true, "")];
    }

    /** GetPeerCount: the number of active entries, the length of GetActivePeers. */
    method GetPeerCount() returns (n: nat)
      ensures n == |set id | id in knownPeers && knownPeers[id].isActive|
    {
      var keep := (p: PeerInfo) => p.isActive;
      n := Collections.CountWhere(knownPeers, keep);
      assert Collections.KeysWhere(knownPeers, keep) == set id | id in knownPeers && knownPeers[id].isActive;
    }
  }
}
