/**
 * The tracker's in-memory torrent repository: a thin facade over the swarm
 * registry. Every operation delegates to the registry; the only logic of its
 * own is the peer limit used when answering announce requests.
 */
module InMemoryRepository {
  import opened Wrappers
  import Assoc
  import opened PeerPrimitives
  import opened SwarmMetadataPrimitives
  import opened Swarm
  import opened SwarmRegistry

  /** The largest number of peers handed out per torrent by default. */
  const TORRENT_PEERS_LIMIT: nat := 74

  function Max(a: nat, b: nat): (r: nat)
    ensures r >= a && r >= b && (r == a || r == b)
  {
    if a < b then b else a
  }

  class InMemoryTorrentRepository {
    const swarms: Registry

    ghost predicate Valid()
      reads swarms, swarms.Handles()
    {
      swarms.Valid()
    }

    /** `new`: a repository over the given registry. */
    constructor (swarms: Registry)
      ensures this.swarms == swarms
    {
      this.swarms := swarms;
    }

    /** `handle_announcement`: exactly the registry's announce. */
    method HandleAnnouncement(ih: InfoHash, peer: Peer, persisted: Option<nat>)
      requires Valid()
      modifies swarms, swarms.Handles()
      ensures Valid()
      ensures swarms.Entries() == AfterAnnouncement(old(swarms.Entries()), ih, peer, persisted)
    {
      swarms.HandleAnnouncement(ih, peer, persisted);
    }

    /** `remove_inactive_peers`: exactly the registry's pruning; the count it answers is dropped. */
    method RemoveInactivePeers(cutoff: nat)
      requires Valid()
      modifies swarms.Handles()
      ensures Valid() && swarms.swarms == old(swarms.swarms)
      ensures swarms.Entries() == PruneAll(old(swarms.Entries()), cutoff)
    {
      var _ := swarms.RemoveInactivePeers(cutoff);
    }

    /** `remove_peerless_torrents`: exactly the registry's sweep under the policy. */
    method RemovePeerlessTorrents(policy: TrackerPolicy)
      requires Valid()
      modifies swarms
      ensures Valid()
      ensures swarms.Entries() == Assoc.FilterValues(old(swarms.Entries()), Retained(policy))
    {
      var _ := swarms.RemovePeerlessTorrents(policy);
    }

    /** `import_persistent`: exactly the registry's import. */
    method ImportPersistent(persisted: seq<(InfoHash, nat)>)
      requires Valid()
      modifies swarms
      ensures Valid()
      ensures swarms.Entries() == ImportAll(old(swarms.Entries()), persisted)
    {
      var _ := swarms.ImportPersistent(persisted);
    }

    /** `get`: the registry's handle for the torrent. */
    function Get(key: InfoHash): (r: Option<Coordinator>)
      reads swarms
      ensures r.Some? <==> swarms.Contains(key)
      ensures r.Some? ==> (key, r.value) in swarms.swarms
    {
      Assoc.GetMember(swarms.swarms, key);
      swarms.Get(key)
    }

    /** `get_paginated`: the registry's page: `offset` entries skipped and at most `limit` taken, in key order. */
    function GetPaginated(pagination: Option<Pagination>): (r: seq<(InfoHash, Coordinator)>)
      reads swarms
      ensures pagination.None? ==> r == swarms.swarms
      ensures pagination.Some? ==>
                var n := |swarms.swarms|;
                var start := if pagination.value.offset < n then pagination.value.offset else n;
                && |r| <= pagination.value.limit
                && |r| == (if start + pagination.value.limit < n then pagination.value.limit else n - start)
                && r == swarms.swarms[start..start + |r|]
      ensures forall e :: e in r ==> e in swarms.swarms
      ensures Assoc.Ascending(swarms.swarms, InfoHashLess) ==> Assoc.Ascending(r, InfoHashLess)
    {
      swarms.GetPaginated(pagination)
    }

    /** `contains`: whether the registry tracks the torrent. */
    function Contains(ih: InfoHash): (r: bool)
      reads swarms, swarms.Handles()
      ensures r <==> Assoc.HasKey(swarms.Entries(), ih)
    {
      StatesOfGet(swarms.swarms, ih);
      swarms.Contains(ih)
    }

    /** `get_swarm_metadata_or_default`: the torrent's counters, zeros for an untracked torrent. */
    function GetSwarmMetadataOrDefault(ih: InfoHash): (r: SwarmMetadata)
      reads swarms, swarms.Handles()
      ensures !Assoc.HasKey(swarms.Entries(), ih) ==> r == Zeroed()
      ensures Assoc.HasKey(swarms.Entries(), ih) ==> r == Assoc.Get(swarms.Entries(), ih).value.metadata
    {
      StatesOfGet(swarms.swarms, ih);
      swarms.GetSwarmMetadataOrDefault(ih)
    }

    /**
     * `get_peers_for`: the first peers of the torrent, in address order, other
     * than the requester, as many as the larger of the requested limit and
     * `TORRENT_PEERS_LIMIT` allows.
     */
    function GetPeersFor(ih: InfoHash, peer: Peer, limit: nat): (r: seq<Peer>)
      reads swarms, swarms.Handles()
      ensures !Assoc.HasKey(swarms.Entries(), ih) ==> r == []
      ensures |r| <= Max(limit, TORRENT_PEERS_LIMIT)
      ensures forall p :: p in r ==> p.peerAddr != peer.peerAddr
      ensures Assoc.HasKey(swarms.Entries(), ih) ==>
                forall p :: p in r ==> p in Assoc.Values(Assoc.Get(swarms.Entries(), ih).value.peers)
      ensures Assoc.HasKey(swarms.Entries(), ih) ==>
                var others := WithoutAddr(Assoc.Values(Assoc.Get(swarms.Entries(), ih).value.peers), peer.peerAddr);
                var n := Max(limit, TORRENT_PEERS_LIMIT);
                |r| == (if n < |others| then n else |others|) && r == others[..|r|]
    {
      StatesOfGet(swarms.swarms, ih);
      swarms.GetPeersPeersExcluding(ih, peer, Max(limit, TORRENT_PEERS_LIMIT))
    }

    /** `get_torrent_peers`: the first `TORRENT_PEERS_LIMIT` peers of the torrent in address order. */
    function GetTorrentPeers(ih: InfoHash): (r: seq<Peer>)
      reads swarms, swarms.Handles()
      ensures !Assoc.HasKey(swarms.Entries(), ih) ==> r == []
      ensures |r| <= TORRENT_PEERS_LIMIT
      ensures Assoc.HasKey(swarms.Entries(), ih) ==>
                var ps := Assoc.Get(swarms.Entries(), ih).value.peers;
                |r| == (if TORRENT_PEERS_LIMIT < |ps| then TORRENT_PEERS_LIMIT else |ps|)
                && forall i :: 0 <= i < |r| ==> r[i] == ps[i].1
    {
      StatesOfGet(swarms.swarms, ih);
      swarms.GetSwarmPeers(ih, TORRENT_PEERS_LIMIT)
    }

    /** `get_aggregate_swarm_metadata`: the registry's totals. */
    method GetAggregateSwarmMetadata() returns (metrics: AggregateActiveSwarmMetadata)
      ensures metrics == AggregateOf(swarms.Entries())
    {
      metrics := swarms.GetAggregateSwarmMetadata();
    }

    /** `count_peerless_torrents`: the registry's count of empty swarms. */
    method CountPeerlessTorrents() returns (peerless: nat)
      ensures peerless == Assoc.Count(swarms.Entries(), IsPeerless)
    {
      peerless := swarms.CountPeerlessTorrents();
    }

    /** `count_peers`: the registry's count of peers over all swarms. */
    method CountPeers() returns (peers: nat)
      ensures peers == SumOver(swarms.Entries(), PeerTotal)
    {
      peers := swarms.CountPeers();
    }
  }
}
