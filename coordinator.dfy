/**
 * One torrent's swarm: the peers announced for an info-hash, keyed by their
 * socket address in address order, and the swarm statistics that are kept in
 * step with them on every insert, update and removal.
 *
 * The specification functions work on a `SwarmState` value; the class
 * `Coordinator` holds the same state in fields and its methods are proved to
 * move it exactly as those functions say.
 */
module Swarm {
  import opened Wrappers
  import opened Net
  import Assoc
  import opened PeerPrimitives
  import opened SwarmMetadataPrimitives

  const INFO_HASH_SPACE: nat := 0x1_0000_0000_0000_0000_0000_0000_0000_0000_0000_0000

  /** A 20-byte info-hash, read big-endian, so that numeric order is byte order. */
  type InfoHash = h: nat | h < INFO_HASH_SPACE

  /** The peers of a swarm: (socket address, last announce) entries in ascending address order. */
  type PeerMap = seq<(SocketAddr, Peer)>

  /** The one field of the tracker policy that the swarm logic reads. */
  datatype TrackerPolicy = TrackerPolicy(removePeerlessTorrents: bool)

  datatype ActivityMetadata = ActivityMetadata(isActive: bool, activePeersTotal: nat, inactivePeersTotal: nat)

  predicate IsSeederPeer(p: Peer)
  {
    p.IsSeeder()
  }

  predicate IsLeecherPeer(p: Peer)
  {
    p.IsLeecher()
  }

  /** The peers whose last announce is at or before `cutoff`. */
  function InactiveAt(cutoff: nat): Peer -> bool
  {
    (p: Peer) => p.updated <= cutoff
  }

  function ActiveAt(cutoff: nat): Peer -> bool
  {
    (p: Peer) => p.updated > cutoff
  }

  datatype SwarmState = SwarmState(peers: PeerMap, metadata: SwarmMetadata)

  /**
   * The swarm invariant: entries ascend by address, each peer is stored under
   * its own address, and the seeder and leecher counters are the census of the
   * stored peers.
   */
  ghost predicate Consistent(s: SwarmState)
  {
    && Assoc.Ascending(s.peers, AddrLess)
    && (forall e :: e in s.peers ==> e.1.peerAddr == e.0)
    && s.metadata.complete == Assoc.Count(s.peers, IsSeederPeer)
    && s.metadata.incomplete == Assoc.Count(s.peers, IsLeecherPeer)
  }

  lemma ConsistentUnique(s: SwarmState)
    requires Consistent(s)
    ensures Assoc.UniqueKeys(s.peers)
  {
    AddrLessIsStrictTotalOrder();
    Assoc.AscendingUnique(s.peers, AddrLess);
  }

  /** A stored peer is counted by the counter of its role, so that counter is positive. */
  lemma StoredPeerIsCounted(s: SwarmState, addr: SocketAddr)
    requires Consistent(s) && Assoc.HasKey(s.peers, addr)
    ensures Assoc.Get(s.peers, addr).value.IsSeeder() ==> s.metadata.complete >= 1
    ensures Assoc.Get(s.peers, addr).value.IsLeecher() ==> s.metadata.incomplete >= 1
  {
    ConsistentUnique(s);
    Assoc.CountRemove(s.peers, addr, IsSeederPeer);
    Assoc.CountRemove(s.peers, addr, IsLeecherPeer);
  }

  // ---------------------------------------------------------------------------
  // Counter updates (`update_metadata_on_insert`, `_on_removal`, `_on_update`)
  // ---------------------------------------------------------------------------

  function MetadataOnInsert(m: SwarmMetadata, added: Peer): SwarmMetadata
  {
    if added.IsSeeder() then m.(complete := m.complete + 1)
    else m.(incomplete := m.incomplete + 1)
  }

  /** The decrement is defined only when the counter it lowers is positive. */
  function MetadataOnRemoval(m: SwarmMetadata, removed: Peer): SwarmMetadata
    requires removed.IsSeeder() ==> m.complete >= 1
    requires removed.IsLeecher() ==> m.incomplete >= 1
  {
    if removed.IsSeeder() then m.(complete := m.complete - 1)
    else m.(incomplete := m.incomplete - 1)
  }

  /** The new counters, and whether `downloaded` rose. */
  function MetadataOnUpdate(m: SwarmMetadata, previous: Peer, incoming: Peer): (SwarmMetadata, bool)
    requires previous.IsSeeder() ==> m.complete >= 1
    requires previous.IsLeecher() ==> m.incomplete >= 1
  {
    var roles :=
      if previous.Role() == incoming.Role() then m
      else if incoming.IsSeeder() then m.(complete := m.complete + 1, incomplete := m.incomplete - 1)
      else m.(complete := m.complete - 1, incomplete := m.incomplete + 1);
    if incoming.IsCompleted() && !previous.IsCompleted() then (roles.(downloaded := roles.downloaded + 1), true)
    else (roles, false)
  }

  // ---------------------------------------------------------------------------
  // The state after each operation
  // ---------------------------------------------------------------------------

  /** `upsert_peer`: store `p` under its address, then adjust the counters for an insert or an update. */
  function AfterUpsert(s: SwarmState, p: Peer): SwarmState
    requires Consistent(s)
  {
    var peers' := Assoc.Put(s.peers, p.peerAddr, p, AddrLess);
    match Assoc.Get(s.peers, p.peerAddr)
    case Some(previous) =>
      StoredPeerIsCounted(s, p.peerAddr);
      SwarmState(peers', MetadataOnUpdate(s.metadata, previous, p).0)
    case None => SwarmState(peers', MetadataOnInsert(s.metadata, p))
  }

  /** `remove_peer`: drop the entry at `addr`, if any, and count it out. */
  function AfterRemove(s: SwarmState, addr: SocketAddr): SwarmState
    requires Consistent(s)
  {
    match Assoc.Get(s.peers, addr)
    case Some(removed) =>
      StoredPeerIsCounted(s, addr);
      SwarmState(Assoc.Remove(s.peers, addr), MetadataOnRemoval(s.metadata, removed))
    case None => s
  }

  /** `handle_announcement`: a `Stopped` announce removes the peer, every other event upserts it. */
  function Announced(s: SwarmState, p: Peer): SwarmState
    requires Consistent(s)
  {
    match p.event
    case Stopped => AfterRemove(s, p.peerAddr)
    case Started => AfterUpsert(s, p)
    case NoEvent => AfterUpsert(s, p)
    case Completed => AfterUpsert(s, p)
  }

  /** `remove_inactive`: exactly the active peers stay, the counters are their census, and `downloaded` is kept. */
  function Pruned(s: SwarmState, cutoff: nat): SwarmState
  {
    var kept := Assoc.FilterValues(s.peers, ActiveAt(cutoff));
    SwarmState(kept, SwarmMetadata(s.metadata.downloaded, Assoc.Count(kept, IsSeederPeer), Assoc.Count(kept, IsLeecherPeer)))
  }

  /** A consistent state whose peers are those left by removing the inactive ones, with `downloaded` kept, is the pruned state. */
  lemma RemovalsArePruned(s: SwarmState, t: SwarmState, cutoff: nat)
    requires Consistent(s) && Consistent(t)
    requires t.peers == Assoc.RemoveAll(s.peers, AddrSet(InactivePeers(s.peers, cutoff)))
    requires t.metadata.downloaded == s.metadata.downloaded
    ensures t == Pruned(s, cutoff)
  {
    PruneByRemoval(s, cutoff);
  }

  // ---------------------------------------------------------------------------
  // Properties of the operations
  // ---------------------------------------------------------------------------

  /** Every upsert keeps the counters equal to the census (and so never lets a decrement underflow). */
  lemma UpsertKeepsConsistent(s: SwarmState, p: Peer)
    requires Consistent(s)
    ensures Consistent(AfterUpsert(s, p))
  {
    ConsistentUnique(s);
    AddrLessIsStrictTotalOrder();
    var k := p.peerAddr;
    Assoc.PutAscending(s.peers, k, p, AddrLess);
    Assoc.CountPut(s.peers, k, p, AddrLess, IsSeederPeer);
    Assoc.CountPut(s.peers, k, p, AddrLess, IsLeecherPeer);
    var peers' := Assoc.Put(s.peers, k, p, AddrLess);
    if Assoc.HasKey(s.peers, k) {
      forall e | e in peers' ensures e.1.peerAddr == e.0 {
        var i :| 0 <= i < |peers'| && peers'[i] == e;
        assert s.peers[i] in s.peers;
      }
    } else {
      Assoc.InsertMembers(s.peers, k, p, AddrLess);
    }
  }

  /** Every removal keeps the counters equal to the census. */
  lemma RemoveKeepsConsistent(s: SwarmState, addr: SocketAddr)
    requires Consistent(s)
    ensures Consistent(AfterRemove(s, addr))
  {
    ConsistentUnique(s);
    Assoc.RemoveAscending(s.peers, addr, AddrLess);
    Assoc.RemoveMembers(s.peers, addr);
    Assoc.CountRemove(s.peers, addr, IsSeederPeer);
    Assoc.CountRemove(s.peers, addr, IsLeecherPeer);
  }

  lemma AnnounceKeepsConsistent(s: SwarmState, p: Peer)
    requires Consistent(s)
    ensures Consistent(Announced(s, p))
  {
    if p.event == Stopped {
      RemoveKeepsConsistent(s, p.peerAddr);
    } else {
      UpsertKeepsConsistent(s, p);
    }
  }

  /**
   * The upserted peer occupies its address's slot, replacing any earlier
   * record there; no other slot changes, and the swarm grows only when the
   * address was new.
   */
  lemma UpsertSlot(s: SwarmState, p: Peer, addr: SocketAddr)
    requires Consistent(s)
    ensures Assoc.Get(AfterUpsert(s, p).peers, addr) == if addr == p.peerAddr then Some(p) else Assoc.Get(s.peers, addr)
    ensures |AfterUpsert(s, p).peers| == if Assoc.HasKey(s.peers, p.peerAddr) then |s.peers| else |s.peers| + 1
  {
    Assoc.GetPut(s.peers, p.peerAddr, p, AddrLess, addr);
  }

  /** Two announces from one address, whatever their peer ids, share a single slot: the later one. */
  lemma SameAddressOneSlot(s: SwarmState, p: Peer, q: Peer)
    requires Consistent(s) && p.peerAddr == q.peerAddr
    ensures Consistent(AfterUpsert(s, p))
    ensures |AfterUpsert(AfterUpsert(s, p), q).peers| == |AfterUpsert(s, p).peers|
    ensures Assoc.Get(AfterUpsert(AfterUpsert(s, p), q).peers, q.peerAddr) == Some(q)
  {
    UpsertKeepsConsistent(s, p);
    var s1 := AfterUpsert(s, p);
    UpsertSlot(s, p, p.peerAddr);
    UpsertSlot(s1, q, q.peerAddr);
  }

  /** `downloaded` either stays or rises by one, and it rises exactly when a stored peer that had not completed announces `Completed`. */
  lemma UpsertDownloaded(s: SwarmState, p: Peer)
    requires Consistent(s)
    ensures var d := AfterUpsert(s, p).metadata.downloaded;
            d == s.metadata.downloaded || d == s.metadata.downloaded + 1
    ensures AfterUpsert(s, p).metadata.downloaded == s.metadata.downloaded + 1 <==>
            (Assoc.HasKey(s.peers, p.peerAddr) && p.IsCompleted() && !Assoc.Get(s.peers, p.peerAddr).value.IsCompleted())
  {
  }

  /** The first announce from an address never counts as a download, even with `Completed`. */
  lemma FirstInsertNeverCountsDownload(s: SwarmState, p: Peer)
    requires Consistent(s) && !Assoc.HasKey(s.peers, p.peerAddr)
    ensures AfterUpsert(s, p).metadata.downloaded == s.metadata.downloaded
  {
  }

  /** Announcing `Completed` again from the same address does not count a second download. */
  lemma RepeatedCompletedCountsOnce(s: SwarmState, p: Peer, q: Peer)
    requires Consistent(s) && p.IsCompleted() && q.IsCompleted() && p.peerAddr == q.peerAddr
    ensures Consistent(AfterUpsert(s, p))
    ensures AfterUpsert(AfterUpsert(s, p), q).metadata.downloaded == AfterUpsert(s, p).metadata.downloaded
  {
    UpsertKeepsConsistent(s, p);
    UpsertSlot(s, p, p.peerAddr);
  }

  /** Removal empties the address's slot, leaves every other slot, and keeps `downloaded`. */
  lemma RemoveSlot(s: SwarmState, addr: SocketAddr, other: SocketAddr)
    requires Consistent(s)
    ensures Assoc.Get(AfterRemove(s, addr).peers, other) == if other == addr then None else Assoc.Get(s.peers, other)
    ensures AfterRemove(s, addr).metadata.downloaded == s.metadata.downloaded
    ensures AfterRemove(s, addr).peers == Assoc.Remove(s.peers, addr)
  {
    Assoc.GetRemove(s.peers, addr, other);
    if !Assoc.HasKey(s.peers, addr) {
      Assoc.GetIndex(s.peers, addr);
      assert forall e :: e in s.peers ==> e.0 != addr;
      Assoc.RemoveAbsent(s.peers, addr);
    }
  }

  /** A `Stopped` announce leaves no peer at the address; any other event leaves exactly this record there. */
  lemma AnnounceDispatch(s: SwarmState, p: Peer)
    requires Consistent(s)
    ensures p.event == Stopped ==> Assoc.Get(Announced(s, p).peers, p.peerAddr) == None
    ensures p.event != Stopped ==> Assoc.Get(Announced(s, p).peers, p.peerAddr) == Some(p)
  {
    if p.event == Stopped {
      RemoveSlot(s, p.peerAddr, p.peerAddr);
    } else {
      UpsertSlot(s, p, p.peerAddr);
    }
  }

  /**
   * Pruning keeps exactly the peers announced after the cutoff, each untouched,
   * removes as many peers as are inactive, and keeps the invariant.
   */
  lemma PrunedRemovesExactlyInactive(s: SwarmState, cutoff: nat, addr: SocketAddr)
    requires Consistent(s)
    ensures Consistent(Pruned(s, cutoff))
    ensures Assoc.Get(Pruned(s, cutoff).peers, addr) ==
            if Assoc.HasKey(s.peers, addr) && Assoc.Get(s.peers, addr).value.updated > cutoff
            then Assoc.Get(s.peers, addr) else None
    ensures |s.peers| - |Pruned(s, cutoff).peers| == Assoc.Count(s.peers, InactiveAt(cutoff))
  {
    ConsistentUnique(s);
    var kept := Assoc.FilterValues(s.peers, ActiveAt(cutoff));
    Assoc.FilterValuesAscending(s.peers, ActiveAt(cutoff), AddrLess);
    Assoc.FilterValuesMembers(s.peers, ActiveAt(cutoff));
    Assoc.GetFilterValues(s.peers, ActiveAt(cutoff), addr);
    Assoc.FilterValuesCount(s.peers, ActiveAt(cutoff));
    Assoc.CountComplement(s.peers, ActiveAt(cutoff), InactiveAt(cutoff));
  }

  /** The addresses of the inactive peers, in address order (`inactive_peers`). */
  function InactivePeers(peers: PeerMap, cutoff: nat): (r: seq<SocketAddr>)
    ensures |r| == Assoc.Count(peers, InactiveAt(cutoff))
  {
    Assoc.FilterValuesCount(peers, InactiveAt(cutoff));
    Assoc.Keys(Assoc.FilterValues(peers, InactiveAt(cutoff)))
  }

  ghost function AddrSet(addrs: seq<SocketAddr>): set<SocketAddr>
  {
    set a | a in addrs
  }

  lemma AddrSetPrefix(addrs: seq<SocketAddr>, i: nat)
    requires i <= |addrs|
    ensures i == 0 ==> AddrSet(addrs[..i]) == {}
    ensures i > 0 ==> AddrSet(addrs[..i]) == AddrSet(addrs[..i - 1]) + {addrs[i - 1]}
  {
    if i > 0 {
      assert addrs[..i] == addrs[..i - 1] + [addrs[i - 1]];
    }
  }

  /** One more removal extends the set of removed addresses by the next address. */
  lemma RemovalStep(startPeers: PeerMap, prev: SwarmState, addrs: seq<SocketAddr>, i: nat)
    requires Consistent(prev) && i < |addrs|
    requires prev.peers == Assoc.RemoveAll(startPeers, AddrSet(addrs[..i]))
    ensures AfterRemove(prev, addrs[i]).peers == Assoc.RemoveAll(startPeers, AddrSet(addrs[..i + 1]))
    ensures AfterRemove(prev, addrs[i]).metadata.downloaded == prev.metadata.downloaded
  {
    RemoveSlot(prev, addrs[i], addrs[i]);
    Assoc.RemoveIsRemoveAll(startPeers, AddrSet(addrs[..i]), addrs[i]);
    AddrSetPrefix(addrs, i + 1);
  }

  /** Removing the inactive addresses one by one leaves exactly the pruned peers. */
  lemma PruneByRemoval(s: SwarmState, cutoff: nat)
    requires Consistent(s)
    ensures Assoc.RemoveAll(s.peers, AddrSet(InactivePeers(s.peers, cutoff))) == Pruned(s, cutoff).peers
  {
    ConsistentUnique(s);
    var inactive := Assoc.FilterValues(s.peers, InactiveAt(cutoff));
    var addrs := InactivePeers(s.peers, cutoff);
    Assoc.FilterValuesMembers(s.peers, InactiveAt(cutoff));
    forall e | e in s.peers ensures e.0 in AddrSet(addrs) <==> !ActiveAt(cutoff)(e.1) {
      if e.0 in addrs {
        var j :| 0 <= j < |addrs| && addrs[j] == e.0;
        assert inactive[j] in inactive;
        Assoc.SameKeySameEntry(s.peers, e, inactive[j]);
      }
      if !ActiveAt(cutoff)(e.1) {
        assert e in inactive;
        var j :| 0 <= j < |inactive| && inactive[j] == e;
        assert addrs[j] == e.0;
      }
    }
    Assoc.RemoveAllIsFilterValues(s.peers, AddrSet(addrs), ActiveAt(cutoff));
  }

  // ---------------------------------------------------------------------------
  // Queries
  // ---------------------------------------------------------------------------

  /** The first `limit` elements, or all of them. */
  function Take<T>(s: seq<T>, limit: Option<nat>): (r: seq<T>)
    ensures limit.Some? ==> |r| <= limit.value
    ensures limit.None? ==> r == s
    ensures limit.Some? ==> |r| == if limit.value < |s| then limit.value else |s|
    ensures r == s[..|r|]
  {
    match limit
    case None => s
    case Some(n) => if n < |s| then s[..n] else s
  }

  /** The peers not announced from `addr`, in the same order. */
  function WithoutAddr(ps: seq<Peer>, addr: SocketAddr): (r: seq<Peer>)
    ensures forall p :: p in r <==> p in ps && p.peerAddr != addr
  {
    if |ps| == 0 then []
    else if ps[0].peerAddr != addr then [ps[0]] + WithoutAddr(ps[1..], addr)
    else WithoutAddr(ps[1..], addr)
  }

  /**
   * With each peer stored under its own address and no address twice, the
   * peers other than the requester are all the stored peers but the one at
   * the requester's address, if it has one.
   */
  lemma {:induction false} WithoutAddrCount(ps: PeerMap, addr: SocketAddr)
    requires Assoc.UniqueKeys(ps)
    requires forall e :: e in ps ==> e.1.peerAddr == e.0
    ensures |WithoutAddr(Assoc.Values(ps), addr)| == if Assoc.HasKey(ps, addr) then |ps| - 1 else |ps|
  {
    if |ps| > 0 {
      var t := ps[1..];
      var vs := Assoc.Values(ps);
      assert vs[1..] == Assoc.Values(t);
      assert ps[0] in ps;
      assert Assoc.UniqueKeys(t) by {
        forall i, j | 0 <= i < j < |t| ensures t[i].0 != t[j].0 {
          assert t[i] == ps[i + 1] && t[j] == ps[j + 1];
        }
      }
      assert forall e :: e in t ==> e in ps;
      WithoutAddrCount(t, addr);
      assert Assoc.HasKey(ps, addr) <==> ps[0].0 == addr || Assoc.HasKey(t, addr);
      if ps[0].0 == addr {
        Assoc.GetIndex(t, addr);
        assert !Assoc.HasKey(t, addr);
      }
    }
  }

  /** In a consistent swarm a requester sees every peer but its own stored record. */
  lemma OtherPeersCount(s: SwarmState, addr: SocketAddr)
    requires Consistent(s)
    ensures |WithoutAddr(Assoc.Values(s.peers), addr)| == if Assoc.HasKey(s.peers, addr) then |s.peers| - 1 else |s.peers|
  {
    ConsistentUnique(s);
    WithoutAddrCount(s.peers, addr);
  }

  class Coordinator {
    const infoHash: InfoHash
    var peers: PeerMap
    var metadata: SwarmMetadata

    function State(): SwarmState
      reads this
    {
      SwarmState(peers, metadata)
    }

    ghost predicate Valid()
      reads this
    {
      Consistent(State())
    }

    /** `Coordinator::new`: no peers, and `downloaded` seeded from the given count. */
    constructor (infoHash: InfoHash, downloaded: nat)
      ensures Valid()
      ensures this.infoHash == infoHash && peers == [] && metadata == SwarmMetadata(downloaded, 0, 0)
    {
      this.infoHash := infoHash;
      peers := [];
      metadata := SwarmMetadata(downloaded, 0, 0);
    }

    method HandleAnnouncement(incoming: Peer)
      requires Valid()
      modifies this
      ensures Valid() && State() == Announced(old(State()), incoming)
    {
      match incoming.event
      case Stopped =>
        var _ := RemovePeer(incoming.peerAddr);
      case Started =>
        var _ := UpsertPeer(incoming);
      case NoEvent =>
        var _ := UpsertPeer(incoming);
      case Completed =>
        var _ := UpsertPeer(incoming);
    }

    /** The loop of `remove_inactive`: `remove_peer` for every address in turn. */
    method RemovePeers(addrs: seq<SocketAddr>)
      requires Valid()
      modifies this
      ensures Valid()
      ensures peers == Assoc.RemoveAll(old(peers), AddrSet(addrs))
      ensures metadata.downloaded == old(metadata.downloaded)
    {
      ghost var start := State();
      Assoc.RemoveAllNone(peers);
      AddrSetPrefix(addrs, 0);
      var i := 0;
      while i < |addrs|
        invariant 0 <= i <= |addrs|
        invariant Valid()
        invariant peers == Assoc.RemoveAll(start.peers, AddrSet(addrs[..i]))
        invariant metadata.downloaded == start.metadata.downloaded
      {
        RemovalStep(start.peers, State(), addrs, i);
        var _ := RemovePeer(addrs[i]);
        i := i + 1;
      }
      assert addrs[..i] == addrs;
    }

    /** `remove_inactive`: removes the inactive peers one by one and answers how many there were. */
    method RemoveInactive(cutoff: nat) returns (removedCount: nat)
      requires Valid()
      modifies this
      ensures Valid() && State() == Pruned(old(State()), cutoff)
      ensures removedCount == Assoc.Count(old(peers), InactiveAt(cutoff))
    {
      var peersToRemove := InactivePeers(peers, cutoff);
      ghost var start := State();
      RemovePeers(peersToRemove);
      RemovalsArePruned(start, State(), cutoff);
      removedCount := |peersToRemove|;
    }

    function Get(addr: SocketAddr): Option<Peer>
      reads this
    {
      Assoc.Get(peers, addr)
    }

    /** `peers(limit)`: the peers in address order, at most `limit` of them. */
    function Peers(limit: Option<nat>): (r: seq<Peer>)
      reads this
      ensures limit.Some? ==> |r| <= limit.value
      ensures limit.Some? ==> |r| == if limit.value < |peers| then limit.value else |peers|
      ensures limit.None? ==> |r| == |peers|
      ensures |r| <= |peers|
      ensures forall i :: 0 <= i < |r| ==> r[i] == peers[i].1
    {
      Take(Assoc.Values(peers), limit)
    }

    /**
     * `peers_excluding(addr, limit)`: the peers not at the requester's
     * address, in address order, the first `limit` of them (all without a
     * limit). `OtherPeersCount` says how many there are.
     */
    function PeersExcluding(addr: SocketAddr, limit: Option<nat>): (r: seq<Peer>)
      reads this
      ensures limit.Some? ==> |r| <= limit.value
      ensures forall p :: p in r ==> p.peerAddr != addr && p in Assoc.Values(peers)
      ensures limit.None? ==> forall p :: p in Assoc.Values(peers) && p.peerAddr != addr ==> p in r
      ensures var others := WithoutAddr(Assoc.Values(peers), addr);
              && (limit.Some? ==> |r| == if limit.value < |others| then limit.value else |others|)
              && (limit.None? ==> r == others)
              && r == others[..|r|]
    {
      var candidates := WithoutAddr(Assoc.Values(peers), addr);
      assert forall p :: p in Take(candidates, limit) ==> p in candidates;
      Take(candidates, limit)
    }

    function Metadata(): SwarmMetadata
      reads this
    {
      metadata
    }

    /** `seeders_and_leechers`: the pair (complete, incomplete), which the invariant makes the role census. */
    function SeedersAndLeechers(): (r: (nat, nat))
      reads this
      ensures Valid() ==> r == (Assoc.Count(peers, IsSeederPeer), Assoc.Count(peers, IsLeecherPeer))
    {
      (metadata.complete, metadata.incomplete)
    }

    /**
     * `count_inactive_peers`: the number of peers last announced at or before
     * the cutoff, which is the number `remove_inactive` would drop.
     */
    function CountInactivePeers(cutoff: nat): (r: nat)
      reads this
      ensures r <= |peers|
      ensures r == |InactivePeers(peers, cutoff)|
      ensures r == |peers| - |Pruned(State(), cutoff).peers|
    {
      Assoc.FilterValuesCount(peers, ActiveAt(cutoff));
      Assoc.CountComplement(peers, ActiveAt(cutoff), InactiveAt(cutoff));
      Assoc.Count(peers, InactiveAt(cutoff))
    }

    /** Active and inactive counts that add up to the swarm size, and whether any peer is active. */
    function GetActivityMetadata(cutoff: nat): (r: ActivityMetadata)
      reads this
      ensures r.activePeersTotal + r.inactivePeersTotal == |peers|
      ensures r.inactivePeersTotal == Assoc.Count(peers, InactiveAt(cutoff))
      ensures r.isActive ==> exists e :: e in peers && e.1.updated > cutoff
      ensures (exists e :: e in peers && e.1.updated > cutoff) ==> r.isActive
    {
      var inactive := CountInactivePeers(cutoff);
      var active := Len() - inactive;
      Assoc.CountBelowLength(peers, InactiveAt(cutoff));
      ActivityMetadata(active > 0, active, inactive)
    }

    function Len(): nat
      reads this
    {
      |peers|
    }

    function IsEmpty(): bool
      reads this
    {
      |peers| == 0
    }

    function IsPeerless(): bool
      reads this
    {
      IsEmpty()
    }

    /** The swarm may be dropped only when the policy removes peerless torrents and no peer is left. */
    function ShouldBeRemoved(policy: TrackerPolicy): (r: bool)
      reads this
      ensures r ==> policy.removePeerlessTorrents && Len() == 0
      ensures policy.removePeerlessTorrents && Len() == 0 ==> r
    {
      policy.removePeerlessTorrents && IsEmpty()
    }

    function MeetsRetainingPolicy(policy: TrackerPolicy): (r: bool)
      reads this
      ensures r <==> !policy.removePeerlessTorrents || Len() > 0
    {
      !ShouldBeRemoved(policy)
    }

    /** `upsert_peer`: answers the record previously stored at the address, if any. */
    method UpsertPeer(incoming: Peer) returns (previous: Option<Peer>)
      requires Valid()
      modifies this
      ensures previous == Assoc.Get(old(peers), incoming.peerAddr)
      ensures Valid() && State() == AfterUpsert(old(State()), incoming)
    {
      ghost var start := State();
      previous := Assoc.Get(peers, incoming.peerAddr);
      peers := Assoc.Put(peers, incoming.peerAddr, incoming, AddrLess);
      match previous {
        case Some(previousAnnounce) =>
          StoredPeerIsCounted(start, incoming.peerAddr);
          var _ := UpdateMetadataOnUpdate(previousAnnounce, incoming);
        case None =>
          UpdateMetadataOnInsert(incoming);
      }
      UpsertKeepsConsistent(start, incoming);
    }

    /** `remove_peer`: answers the record that was removed, if any. */
    method RemovePeer(addr: SocketAddr) returns (removed: Option<Peer>)
      requires Valid()
      modifies this
      ensures removed == Assoc.Get(old(peers), addr)
      ensures Valid() && State() == AfterRemove(old(State()), addr)
    {
      ghost var start := State();
      removed := Assoc.Get(peers, addr);
      match removed {
        case Some(oldPeer) =>
          StoredPeerIsCounted(start, addr);
          peers := Assoc.Remove(peers, addr);
          UpdateMetadataOnRemoval(oldPeer);
        case None =>
      }
      RemoveKeepsConsistent(start, addr);
    }

    method UpdateMetadataOnInsert(added: Peer)
      modifies this
      ensures peers == old(peers) && metadata == MetadataOnInsert(old(metadata), added)
    {
      if added.IsSeeder() {
        metadata := metadata.(complete := metadata.complete + 1);
      } else {
        metadata := metadata.(incomplete := metadata.incomplete + 1);
      }
    }

    method UpdateMetadataOnRemoval(removedPeer: Peer)
      requires removedPeer.IsSeeder() ==> metadata.complete >= 1
      requires removedPeer.IsLeecher() ==> metadata.incomplete >= 1
      modifies this
      ensures peers == old(peers) && metadata == MetadataOnRemoval(old(metadata), removedPeer)
    {
      if removedPeer.IsSeeder() {
        metadata := metadata.(complete := metadata.complete - 1);
      } else {
        metadata := metadata.(incomplete := metadata.incomplete - 1);
      }
    }

    method UpdateMetadataOnUpdate(previousAnnounce: Peer, newAnnounce: Peer) returns (downloadsIncreased: bool)
      requires previousAnnounce.IsSeeder() ==> metadata.complete >= 1
      requires previousAnnounce.IsLeecher() ==> metadata.incomplete >= 1
      modifies this
      ensures peers == old(peers)
      ensures (metadata, downloadsIncreased) == MetadataOnUpdate(old(metadata), previousAnnounce, newAnnounce)
    {
      downloadsIncreased := false;
      if previousAnnounce.Role() != newAnnounce.Role() {
        if newAnnounce.IsSeeder() {
          metadata := metadata.(complete := metadata.complete + 1, incomplete := metadata.incomplete - 1);
        } else {
          metadata := metadata.(complete := metadata.complete - 1, incomplete := metadata.incomplete + 1);
        }
      }
      if newAnnounce.IsCompleted() && !previousAnnounce.IsCompleted() {
        metadata := metadata.(downloaded := metadata.downloaded + 1);
        downloadsIncreased := true;
      }
    }
  }
}
