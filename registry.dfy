/**
 * The swarm registry: the ordered map from info-hash to the swarm of that
 * torrent. Each swarm is a `Coordinator` object; the registry holds one
 * distinct object per info-hash, in ascending info-hash order.
 *
 * `Entries()` is the registry seen as values, (info-hash, swarm state) in key
 * order; every operation is specified by what it does to that view.
 */
module SwarmRegistry {
  import opened Wrappers
  import Assoc
  import opened PeerPrimitives
  import opened SwarmMetadataPrimitives
  import opened Swarm

  predicate InfoHashLess(a: InfoHash, b: InfoHash)
  {
    a < b
  }

  lemma InfoHashLessIsStrictTotalOrder()
    ensures Assoc.StrictTotalOrder(InfoHashLess)
  {
  }

  /** The registry as values: (info-hash, swarm state) entries. */
  type SwarmStates = seq<(InfoHash, SwarmState)>

  type U32 = n: nat | n < 0x1_0000_0000

  datatype Pagination = Pagination(offset: U32, limit: U32)

  datatype AggregateActivityMetadata = AggregateActivityMetadata(
    activePeersTotal: nat,
    inactivePeersTotal: nat,
    activeTorrentsTotal: nat,
    inactiveTorrentsTotal: nat)

  ghost predicate AllConsistent(es: SwarmStates)
  {
    forall e :: e in es ==> Consistent(e.1)
  }

  /** The swarm `Coordinator::new` creates: no peers, `downloaded` preset. */
  function NewSwarm(downloaded: nat): (r: SwarmState)
    ensures Consistent(r)
  {
    SwarmState([], SwarmMetadata(downloaded, 0, 0))
  }

  // ---------------------------------------------------------------------------
  // The registry after each operation
  // ---------------------------------------------------------------------------

  /**
   * `handle_announcement`: the swarm of `ih` handles the announce; an unknown
   * info-hash first gets a new swarm whose `downloaded` is the persisted count,
   * or 0 without one.
   */
  function AfterAnnouncement(es: SwarmStates, ih: InfoHash, peer: Peer, persisted: Option<nat>): SwarmStates
    requires AllConsistent(es)
  {
    if Assoc.HasKey(es, ih) then Assoc.Replace(es, ih, Announced(SwarmAt(es, ih), peer))
    else Assoc.Insert(es, ih, Announced(NewSwarm(persisted.GetOr(0)), peer), InfoHashLess)
  }

  /** The swarm stored for a tracked info-hash, which is consistent when all are. */
  function SwarmAt(es: SwarmStates, ih: InfoHash): (r: SwarmState)
    requires AllConsistent(es) && Assoc.HasKey(es, ih)
    ensures Assoc.Get(es, ih) == Some(r) && Consistent(r)
  {
    Assoc.GetMember(es, ih);
    Assoc.Get(es, ih).value
  }

  /** `import_persistent` for one persisted (info-hash, downloads) pair: only an absent info-hash gets a swarm. */
  function ImportOne(es: SwarmStates, entry: (InfoHash, nat)): SwarmStates
  {
    if Assoc.HasKey(es, entry.0) then es
    else Assoc.Insert(es, entry.0, NewSwarm(entry.1), InfoHashLess)
  }

  /** `import_persistent`: the pairs are imported in order. */
  function ImportAll(es: SwarmStates, persisted: seq<(InfoHash, nat)>): SwarmStates
    decreases |persisted|
  {
    if |persisted| == 0 then es else ImportAll(ImportOne(es, persisted[0]), persisted[1..])
  }

  /** The count `import_persistent` answers: the pairs whose info-hash was absent when reached. */
  function ImportCount(es: SwarmStates, persisted: seq<(InfoHash, nat)>): nat
    decreases |persisted|
  {
    if |persisted| == 0 then 0
    else (if Assoc.HasKey(es, persisted[0].0) then 0 else 1) + ImportCount(ImportOne(es, persisted[0]), persisted[1..])
  }

  /** Importing from position `i` on is importing the pair at `i`, then the rest. */
  lemma ImportStep(es: SwarmStates, persisted: seq<(InfoHash, nat)>, i: nat)
    requires i < |persisted|
    ensures ImportAll(es, persisted[i..]) == ImportAll(ImportOne(es, persisted[i]), persisted[i + 1..])
    ensures ImportCount(es, persisted[i..]) ==
            (if Assoc.HasKey(es, persisted[i].0) then 0 else 1) + ImportCount(ImportOne(es, persisted[i]), persisted[i + 1..])
  {
    assert persisted[i..][1..] == persisted[i + 1..];
  }

  /** `remove_inactive_peers`: every swarm pruned at the cutoff. */
  function PruneAll(es: SwarmStates, cutoff: nat): (r: SwarmStates)
    ensures |r| == |es| && forall i :: 0 <= i < |es| ==> r[i] == (es[i].0, Pruned(es[i].1, cutoff))
  {
    if |es| == 0 then [] else [(es[0].0, Pruned(es[0].1, cutoff))] + PruneAll(es[1..], cutoff)
  }

  /** The swarms that `meets_retaining_policy` keeps. */
  function Retained(policy: TrackerPolicy): SwarmState -> bool
  {
    (st: SwarmState) => !policy.removePeerlessTorrents || |st.peers| > 0
  }

  function Dropped(policy: TrackerPolicy): SwarmState -> bool
  {
    (st: SwarmState) => policy.removePeerlessTorrents && |st.peers| == 0
  }

  // ---------------------------------------------------------------------------
  // Totals over all swarms
  // ---------------------------------------------------------------------------

  /** The sum of `f` over the swarms. */
  function SumOver(es: SwarmStates, f: SwarmState -> nat): nat
  {
    if |es| == 0 then 0 else SumOver(es[..|es| - 1], f) + f(es[|es| - 1].1)
  }

  function PeerTotal(st: SwarmState): nat
  {
    |st.peers|
  }

  function DownloadedOf(st: SwarmState): nat
  {
    st.metadata.downloaded
  }

  function CompleteOf(st: SwarmState): nat
  {
    st.metadata.complete
  }

  function IncompleteOf(st: SwarmState): nat
  {
    st.metadata.incomplete
  }

  function InactivePeerTotal(cutoff: nat): SwarmState -> nat
  {
    (st: SwarmState) => Assoc.Count(st.peers, InactiveAt(cutoff))
  }

  function ActivePeerTotal(cutoff: nat): SwarmState -> nat
  {
    (st: SwarmState) => |st.peers| - Assoc.Count(st.peers, InactiveAt(cutoff))
  }

  function HasActivePeer(cutoff: nat): SwarmState -> bool
  {
    (st: SwarmState) => Assoc.Count(st.peers, InactiveAt(cutoff)) < |st.peers|
  }

  predicate IsPeerless(st: SwarmState)
  {
    |st.peers| == 0
  }

  /** `get_aggregate_swarm_metadata`: the per-swarm counters summed, and one torrent per swarm. */
  function AggregateOf(es: SwarmStates): AggregateActiveSwarmMetadata
  {
    AggregateActiveSwarmMetadata(SumOver(es, DownloadedOf), SumOver(es, CompleteOf), SumOver(es, IncompleteOf), |es|)
  }

  /** `get_activity_metadata`: peer totals summed over the swarms, and the torrents with an active peer. */
  function ActivityOf(es: SwarmStates, cutoff: nat): AggregateActivityMetadata
  {
    var active := Assoc.Count(es, HasActivePeer(cutoff));
    AggregateActivityMetadata(
      SumOver(es, ActivePeerTotal(cutoff)),
      SumOver(es, InactivePeerTotal(cutoff)),
      active,
      |es| - active)
  }

  // ---------------------------------------------------------------------------
  // Properties of the registry operations
  // ---------------------------------------------------------------------------

  lemma ConsistentMember(es: SwarmStates, ih: InfoHash)
    requires AllConsistent(es) && Assoc.HasKey(es, ih)
    ensures Consistent(Assoc.Get(es, ih).value)
  {
    Assoc.GetMember(es, ih);
  }

  /** A first announce creates the torrent's entry, with `downloaded` equal to the persisted count or 0. */
  lemma AnnouncementCreatesEntry(es: SwarmStates, ih: InfoHash, peer: Peer, persisted: Option<nat>)
    requires AllConsistent(es) && !Assoc.HasKey(es, ih)
    ensures Assoc.HasKey(AfterAnnouncement(es, ih, peer, persisted), ih)
    ensures Assoc.Get(AfterAnnouncement(es, ih, peer, persisted), ih).value.metadata.downloaded == persisted.GetOr(0)
    ensures |AfterAnnouncement(es, ih, peer, persisted)| == |es| + 1
  {
    var created := NewSwarm(persisted.GetOr(0));
    Assoc.GetInsert(es, ih, Announced(created, peer), InfoHashLess, ih);
    if peer.event == Stopped {
      RemoveSlot(created, peer.peerAddr, peer.peerAddr);
    } else {
      FirstInsertNeverCountsDownload(created, peer);
    }
  }

  /** An announce changes only the announced torrent's entry, and that one as its swarm dictates. */
  lemma AnnouncementTouchesOneEntry(es: SwarmStates, ih: InfoHash, peer: Peer, persisted: Option<nat>, other: InfoHash)
    requires AllConsistent(es)
    ensures other != ih ==> Assoc.Get(AfterAnnouncement(es, ih, peer, persisted), other) == Assoc.Get(es, other)
    ensures Assoc.HasKey(es, ih) ==>
            Assoc.Get(AfterAnnouncement(es, ih, peer, persisted), ih) == Some(Announced(SwarmAt(es, ih), peer))
    ensures Assoc.HasKey(es, ih) ==> |AfterAnnouncement(es, ih, peer, persisted)| == |es|
  {
    if Assoc.HasKey(es, ih) {
      Assoc.GetReplace(es, ih, Announced(SwarmAt(es, ih), peer), other);
      Assoc.GetReplace(es, ih, Announced(SwarmAt(es, ih), peer), ih);
    } else {
      Assoc.GetInsert(es, ih, Announced(NewSwarm(persisted.GetOr(0)), peer), InfoHashLess, other);
    }
  }

  /** Announces keep the entries in key order and every swarm consistent. */
  lemma AnnouncementKeepsInvariant(es: SwarmStates, ih: InfoHash, peer: Peer, persisted: Option<nat>)
    requires AllConsistent(es) && Assoc.Ascending(es, InfoHashLess)
    ensures AllConsistent(AfterAnnouncement(es, ih, peer, persisted))
    ensures Assoc.Ascending(AfterAnnouncement(es, ih, peer, persisted), InfoHashLess)
  {
    InfoHashLessIsStrictTotalOrder();
    if Assoc.HasKey(es, ih) {
      var st := SwarmAt(es, ih);
      AnnounceKeepsConsistent(st, peer);
      Assoc.PutAscending(es, ih, Announced(st, peer), InfoHashLess);
      var r := Assoc.Replace(es, ih, Announced(st, peer));
      forall e | e in r ensures Consistent(e.1) {
        var i :| 0 <= i < |r| && r[i] == e;
        assert es[i] in es;
      }
    } else {
      var st := Announced(NewSwarm(persisted.GetOr(0)), peer);
      AnnounceKeepsConsistent(NewSwarm(persisted.GetOr(0)), peer);
      Assoc.InsertAscending(es, ih, st, InfoHashLess);
      Assoc.InsertMembers(es, ih, st, InfoHashLess);
    }
  }

  /** On a tracked info-hash the announcement replaces the entry at that info-hash's index. */
  lemma AnnouncementAt(es: SwarmStates, ih: InfoHash, i: nat, peer: Peer, persisted: Option<nat>)
    requires AllConsistent(es) && Assoc.UniqueKeys(es) && i < |es| && es[i].0 == ih
    ensures Consistent(es[i].1)
    ensures AfterAnnouncement(es, ih, peer, persisted) == es[i := (es[i].0, Announced(es[i].1, peer))]
  {
    assert es[i] in es;
    Assoc.GetAt(es, i);
    Assoc.ReplaceAt(es, ih, Announced(SwarmAt(es, ih), peer), i);
  }

  /** After `remove(key)` the key is gone and the other entries are as before. */
  lemma RemoveDeletesOnlyKey(es: SwarmStates, key: InfoHash, other: InfoHash)
    requires Assoc.UniqueKeys(es)
    ensures Assoc.Get(Assoc.Remove(es, key), other) == if other == key then None else Assoc.Get(es, other)
    ensures |Assoc.Remove(es, key)| == if Assoc.HasKey(es, key) then |es| - 1 else |es|
  {
    Assoc.GetRemove(es, key, other);
    Assoc.CountRemove(es, key, IsPeerless);
  }

  /** An entry already present keeps its swarm whatever is imported. */
  lemma {:induction false} ImportKeepsExisting(es: SwarmStates, persisted: seq<(InfoHash, nat)>, k: InfoHash)
    requires Assoc.HasKey(es, k)
    ensures Assoc.Get(ImportAll(es, persisted), k) == Assoc.Get(es, k)
    decreases |persisted|
  {
    if |persisted| > 0 {
      var next := ImportOne(es, persisted[0]);
      if !Assoc.HasKey(es, persisted[0].0) {
        Assoc.GetInsert(es, persisted[0].0, NewSwarm(persisted[0].1), InfoHashLess, k);
      }
      ImportKeepsExisting(next, persisted[1..], k);
    }
  }

  /** An absent info-hash that is imported gets a new swarm with the persisted downloads; one not imported stays absent. */
  lemma {:induction false} ImportAddsMissing(es: SwarmStates, persisted: seq<(InfoHash, nat)>, k: InfoHash)
    requires !Assoc.HasKey(es, k) && Assoc.UniqueKeys(persisted)
    ensures Assoc.Get(ImportAll(es, persisted), k) ==
            if Assoc.HasKey(persisted, k) then Some(NewSwarm(Assoc.Get(persisted, k).value)) else None
    decreases |persisted|
  {
    if |persisted| > 0 {
      var entry := persisted[0];
      var next := ImportOne(es, entry);
      assert Assoc.UniqueKeys(persisted[1..]);
      if entry.0 == k {
        Assoc.GetInsert(es, k, NewSwarm(entry.1), InfoHashLess, k);
        ImportKeepsExisting(next, persisted[1..], k);
      } else {
        if !Assoc.HasKey(es, entry.0) {
          Assoc.GetInsert(es, entry.0, NewSwarm(entry.1), InfoHashLess, k);
        }
        ImportAddsMissing(next, persisted[1..], k);
      }
    }
  }

  /** The count answered is the number of entries the import added. */
  lemma {:induction false} ImportCountIsGrowth(es: SwarmStates, persisted: seq<(InfoHash, nat)>)
    ensures |ImportAll(es, persisted)| == |es| + ImportCount(es, persisted)
    ensures ImportCount(es, persisted) <= |persisted|
    decreases |persisted|
  {
    if |persisted| > 0 {
      ImportCountIsGrowth(ImportOne(es, persisted[0]), persisted[1..]);
    }
  }

  lemma {:induction false} ImportKeepsInvariant(es: SwarmStates, persisted: seq<(InfoHash, nat)>)
    requires AllConsistent(es) && Assoc.Ascending(es, InfoHashLess)
    ensures AllConsistent(ImportAll(es, persisted)) && Assoc.Ascending(ImportAll(es, persisted), InfoHashLess)
    decreases |persisted|
  {
    if |persisted| > 0 {
      var entry := persisted[0];
      if !Assoc.HasKey(es, entry.0) {
        InfoHashLessIsStrictTotalOrder();
        Assoc.InsertAscending(es, entry.0, NewSwarm(entry.1), InfoHashLess);
        Assoc.InsertMembers(es, entry.0, NewSwarm(entry.1), InfoHashLess);
      }
      ImportKeepsInvariant(ImportOne(es, entry), persisted[1..]);
    }
  }

  /**
   * Removing peerless torrents keeps exactly the swarms the policy retains,
   * untouched, and the count removed is the number of dropped swarms; with the
   * policy flag off nothing is removed.
   */
  lemma PeerlessRemoval(es: SwarmStates, policy: TrackerPolicy, k: InfoHash)
    requires Assoc.UniqueKeys(es)
    ensures Assoc.Get(Assoc.FilterValues(es, Retained(policy)), k) ==
            if Assoc.HasKey(es, k) && Retained(policy)(Assoc.Get(es, k).value) then Assoc.Get(es, k) else None
    ensures |es| - |Assoc.FilterValues(es, Retained(policy))| == Assoc.Count(es, Dropped(policy))
    ensures !policy.removePeerlessTorrents ==> Assoc.FilterValues(es, Retained(policy)) == es
  {
    Assoc.GetFilterValues(es, Retained(policy), k);
    Assoc.FilterValuesCount(es, Retained(policy));
    Assoc.CountComplement(es, Retained(policy), Dropped(policy));
    if !policy.removePeerlessTorrents {
      KeepAll(es, Retained(policy));
    }
  }

  lemma {:induction false} KeepAll(es: SwarmStates, keep: SwarmState -> bool)
    requires forall st :: keep(st)
    ensures Assoc.FilterValues(es, keep) == es
  {
    if |es| > 0 {
      KeepAll(es[1..], keep);
    }
  }

  /** Splitting the registry splits the aggregate: totals add up with `add_assign`. */
  lemma {:induction false} SumOverAppend(a: SwarmStates, b: SwarmStates, f: SwarmState -> nat)
    ensures SumOver(a + b, f) == SumOver(a, f) + SumOver(b, f)
  {
    if |b| > 0 {
      assert (a + b)[..|a + b| - 1] == a + b[..|b| - 1];
      SumOverAppend(a, b[..|b| - 1], f);
    } else {
      assert a + b == a;
    }
  }

  lemma AggregateOfAppend(a: SwarmStates, b: SwarmStates)
    ensures AggregateOf(a + b) == AddAssign(AggregateOf(a), AggregateOf(b))
  {
    var ab := a + b;
    assert |ab| == |a| + |b|;
    assert SumOver(ab, DownloadedOf) == SumOver(a, DownloadedOf) + SumOver(b, DownloadedOf) by {
      SumOverAppend(a, b, DownloadedOf);
    }
    assert SumOver(ab, CompleteOf) == SumOver(a, CompleteOf) + SumOver(b, CompleteOf) by {
      SumOverAppend(a, b, CompleteOf);
    }
    assert SumOver(ab, IncompleteOf) == SumOver(a, IncompleteOf) + SumOver(b, IncompleteOf) by {
      SumOverAppend(a, b, IncompleteOf);
    }
  }

  /** With consistent swarms the aggregate seeders and leechers are the role census of all peers, and they make up every peer. */
  lemma {:induction false} AggregateIsCensus(es: SwarmStates)
    requires AllConsistent(es)
    ensures AggregateOf(es).totalComplete + AggregateOf(es).totalIncomplete == SumOver(es, PeerTotal)
  {
    if |es| > 0 {
      var last := es[|es| - 1].1;
      assert es[|es| - 1] in es;
      assert forall e :: e in es[..|es| - 1] ==> e in es;
      AggregateIsCensus(es[..|es| - 1]);
      Assoc.CountComplement(last.peers, IsSeederPeer, IsLeecherPeer);
    }
  }

  /** Active and inactive peers make up every peer, and active and inactive torrents every torrent. */
  lemma {:induction false} ActivityTotals(es: SwarmStates, cutoff: nat)
    ensures ActivityOf(es, cutoff).activePeersTotal + ActivityOf(es, cutoff).inactivePeersTotal == SumOver(es, PeerTotal)
    ensures ActivityOf(es, cutoff).activeTorrentsTotal + ActivityOf(es, cutoff).inactiveTorrentsTotal == |es|
  {
    if |es| > 0 {
      ActivityTotals(es[..|es| - 1], cutoff);
    }
  }

  // ---------------------------------------------------------------------------
  // The registry's states as seen through its coordinator objects
  // ---------------------------------------------------------------------------

  function HandlesOf(s: seq<(InfoHash, Coordinator)>): set<Coordinator>
  {
    set e | e in s :: e.1
  }

  ghost function StatesOf(s: seq<(InfoHash, Coordinator)>): (r: SwarmStates)
    reads HandlesOf(s)
    ensures |r| == |s| && forall i :: 0 <= i < |s| ==> r[i] == (s[i].0, s[i].1.State())
  {
    if |s| == 0 then []
    else
      assert HandlesOf(s[1..]) <= HandlesOf(s);
      [(s[0].0, s[0].1.State())] + StatesOf(s[1..])
  }

  lemma {:induction false} StatesOfGet(s: seq<(InfoHash, Coordinator)>, k: InfoHash)
    ensures Assoc.Get(StatesOf(s), k) == if Assoc.HasKey(s, k) then Some(Assoc.Get(s, k).value.State()) else None
  {
    if |s| > 0 {
      StatesOfGet(s[1..], k);
      assert StatesOf(s)[1..] == StatesOf(s[1..]);
    }
  }

  lemma {:induction false} StatesOfRemove(s: seq<(InfoHash, Coordinator)>, k: InfoHash)
    ensures StatesOf(Assoc.Remove(s, k)) == Assoc.Remove(StatesOf(s), k)
  {
    if |s| > 0 {
      StatesOfRemove(s[1..], k);
      assert StatesOf(s)[1..] == StatesOf(s[1..]);
      if s[0].0 != k {
        assert Assoc.Remove(s, k)[1..] == Assoc.Remove(s[1..], k);
      }
    }
  }

  lemma {:induction false} StatesOfInsert(s: seq<(InfoHash, Coordinator)>, k: InfoHash, c: Coordinator)
    ensures StatesOf(Assoc.Insert(s, k, c, InfoHashLess)) == Assoc.Insert(StatesOf(s), k, c.State(), InfoHashLess)
  {
    if |s| > 0 && !InfoHashLess(k, s[0].0) {
      StatesOfInsert(s[1..], k, c);
      assert StatesOf(s)[1..] == StatesOf(s[1..]);
      assert Assoc.Insert(s, k, c, InfoHashLess)[1..] == Assoc.Insert(s[1..], k, c, InfoHashLess);
    }
  }

  lemma SumOverStep(es: SwarmStates, i: nat, f: SwarmState -> nat)
    requires i < |es|
    ensures SumOver(es[..i + 1], f) == SumOver(es[..i], f) + f(es[i].1)
  {
    assert es[..i + 1][..i] == es[..i];
  }

  lemma CountStep(es: SwarmStates, i: nat, p: SwarmState -> bool)
    requires i < |es|
    ensures Assoc.Count(es[..i + 1], p) == Assoc.Count(es[..i], p) + (if p(es[i].1) then 1 else 0)
  {
    assert es[..i + 1] == es[..i] + [es[i]];
    Assoc.CountSnoc(es[..i], es[i], p);
  }

  lemma PruneAllStep(es: SwarmStates, i: nat, cutoff: nat)
    requires i < |es|
    ensures (PruneAll(es[..i], cutoff) + es[i..])[i := (es[i].0, Pruned(es[i].1, cutoff))] == PruneAll(es[..i + 1], cutoff) + es[i + 1..]
  {
  }

  /** One step of `remove_inactive_peers` on the registry's view: the swarm at `i` is still the original one, and pruning it extends the pruned prefix. */
  lemma PruneLoopStep(es: SwarmStates, cur: SwarmStates, i: nat, cutoff: nat, total: nat, removed: nat)
    requires i < |es| && cur == PruneAll(es[..i], cutoff) + es[i..]
    requires total == SumOver(es[..i], InactivePeerTotal(cutoff))
    requires removed == InactivePeerTotal(cutoff)(cur[i].1)
    ensures cur[i := (cur[i].0, Pruned(cur[i].1, cutoff))] == PruneAll(es[..i + 1], cutoff) + es[i + 1..]
    ensures total + removed == SumOver(es[..i + 1], InactivePeerTotal(cutoff))
  {
    assert cur[i] == es[i];
    PruneAllStep(es, i, cutoff);
    SumOverStep(es, i, InactivePeerTotal(cutoff));
  }

  lemma DroppedStep(es: SwarmStates, i: nat, policy: TrackerPolicy)
    requires i < |es|
    ensures Dropped(policy)(es[i].1) <==> policy.removePeerlessTorrents && |es[i].1.peers| == 0
    ensures DroppedKeys(es[..i + 1], policy) ==
            DroppedKeys(es[..i], policy) + if Dropped(policy)(es[i].1) then {es[i].0} else {}
    ensures Assoc.Count(es[..i + 1], Dropped(policy)) ==
            Assoc.Count(es[..i], Dropped(policy)) + if Dropped(policy)(es[i].1) then 1 else 0
  {
    CountStep(es, i, Dropped(policy));
    assert es[..i + 1][..i] == es[..i];
  }

  /** The info-hashes of the swarms the policy drops. */
  ghost function DroppedKeys(es: SwarmStates, policy: TrackerPolicy): set<InfoHash>
  {
    if |es| == 0 then {}
    else DroppedKeys(es[..|es| - 1], policy) + (if Dropped(policy)(es[|es| - 1].1) then {es[|es| - 1].0} else {})
  }

  lemma {:induction false} DroppedKeysMembers(es: SwarmStates, policy: TrackerPolicy)
    requires Assoc.UniqueKeys(es)
    ensures forall e :: e in es ==> (e.0 in DroppedKeys(es, policy) <==> !Retained(policy)(e.1))
  {
    if |es| > 0 {
      var init := es[..|es| - 1];
      var last := es[|es| - 1];
      DroppedKeysMembers(init, policy);
      DroppedKeysIn(init, policy);
      Assoc.GetIndex(init, last.0);
      assert last.0 !in DroppedKeys(init, policy);
      assert Dropped(policy)(last.1) <==> !Retained(policy)(last.1);
      forall e | e in es ensures e.0 in DroppedKeys(es, policy) <==> !Retained(policy)(e.1) {
        if e != last {
          var j :| 0 <= j < |es| && es[j] == e;
          assert e in init && e.0 != last.0;
        }
      }
    }
  }

  lemma {:induction false} DroppedKeysIn(es: SwarmStates, policy: TrackerPolicy)
    ensures forall k :: k in DroppedKeys(es, policy) ==> Assoc.HasKey(es, k)
  {
    if |es| > 0 {
      var init := es[..|es| - 1];
      DroppedKeysIn(init, policy);
      forall k | k in DroppedKeys(es, policy) ensures Assoc.HasKey(es, k) {
        Assoc.GetIndex(es, k);
        if k in DroppedKeys(init, policy) {
          Assoc.GetIndex(init, k);
          var j :| 0 <= j < |init| && init[j].0 == k;
          assert es[j].0 == k;
        } else {
          assert es[|es| - 1].0 == k;
        }
      }
    }
  }

  lemma DroppedKeysFilter(es: SwarmStates, policy: TrackerPolicy)
    requires Assoc.UniqueKeys(es)
    ensures Assoc.RemoveAll(es, DroppedKeys(es, policy)) == Assoc.FilterValues(es, Retained(policy))
  {
    DroppedKeysMembers(es, policy);
    Assoc.RemoveAllIsFilterValues(es, DroppedKeys(es, policy), Retained(policy));
  }

  /** Each coordinator object serves one info-hash only. */
  ghost predicate DistinctHandles(s: seq<(InfoHash, Coordinator)>)
  {
    forall e1, e2 :: e1 in s && e2 in s && e1.1 == e2.1 ==> e1.0 == e2.0
  }

  ghost predicate AllValid(s: seq<(InfoHash, Coordinator)>)
    reads HandlesOf(s)
  {
    forall e :: e in s ==> e.1.Valid()
  }

  /** The registry invariant on its sequence of swarms: ascending info-hashes, one info-hash per coordinator, every coordinator valid. */
  ghost predicate SwarmsValid(s: seq<(InfoHash, Coordinator)>)
    reads HandlesOf(s)
  {
    && Assoc.Ascending(s, InfoHashLess)
    && DistinctHandles(s)
    && AllValid(s)
  }

  /** A view that agrees with `cur` everywhere but at index `i` is `cur` updated at `i`. */
  lemma StatesAfterOne(s: seq<(InfoHash, Coordinator)>, cur: SwarmStates, i: nat)
    requires |cur| == |s| && i < |s|
    requires forall j :: 0 <= j < |s| && j != i ==> cur[j] == (s[j].0, s[j].1.State())
    ensures StatesOf(s) == cur[i := (s[i].0, s[i].1.State())]
  {
  }

  lemma DistinctIndicesDistinctHandles(s: seq<(InfoHash, Coordinator)>, i: nat, j: nat)
    requires Assoc.Ascending(s, InfoHashLess) && DistinctHandles(s)
    requires i < |s| && j < |s| && i != j
    ensures s[i].1 != s[j].1
  {
    InfoHashLessIsStrictTotalOrder();
    Assoc.AscendingUnique(s, InfoHashLess);
    assert s[i] in s && s[j] in s;
  }

  /** The coordinator at index `i` handles the announce; no other swarm changes. */
  method AnnounceSwarmAt(s: seq<(InfoHash, Coordinator)>, ghost cur: SwarmStates, i: nat, peer: Peer)
    requires SwarmsValid(s) && i < |s| && cur == StatesOf(s)
    modifies s[i].1
    ensures SwarmsValid(s)
    ensures StatesOf(s) == cur[i := (cur[i].0, Announced(cur[i].1, peer))]
  {
    assert s[i] in s;
    s[i].1.HandleAnnouncement(peer);
    forall e | e in s ensures e.1.Valid() {
      if e.1 != s[i].1 { assert old(e.1.Valid()); }
    }
    forall j | 0 <= j < |s| && j != i ensures cur[j] == (s[j].0, s[j].1.State()) {
      DistinctIndicesDistinctHandles(s, i, j);
      assert s[j] in s;
    }
    StatesAfterOne(s, cur, i);
  }

  /** The coordinator at index `i` drops its inactive peers; no other swarm changes. */
  method PruneSwarmAt(s: seq<(InfoHash, Coordinator)>, ghost cur: SwarmStates, i: nat, cutoff: nat) returns (removed: nat)
    requires SwarmsValid(s) && i < |s| && cur == StatesOf(s)
    modifies s[i].1
    ensures SwarmsValid(s)
    ensures StatesOf(s) == cur[i := (cur[i].0, Pruned(cur[i].1, cutoff))]
    ensures removed == InactivePeerTotal(cutoff)(cur[i].1)
  {
    assert s[i] in s;
    removed := s[i].1.RemoveInactive(cutoff);
    forall e | e in s ensures e.1.Valid() {
      if e.1 != s[i].1 { assert old(e.1.Valid()); }
    }
    forall j | 0 <= j < |s| && j != i ensures cur[j] == (s[j].0, s[j].1.State()) {
      DistinctIndicesDistinctHandles(s, i, j);
      assert s[j] in s;
    }
    StatesAfterOne(s, cur, i);
  }

  /** The invariant of the `remove_inactive_peers` loop: the first `i` swarms are pruned and their removals added up in `total`. */
  ghost predicate PruneProgress(s: seq<(InfoHash, Coordinator)>, es: SwarmStates, i: nat, cutoff: nat, total: nat)
    reads HandlesOf(s)
  {
    && SwarmsValid(s) && |es| == |s| && i <= |s|
    && StatesOf(s) == PruneAll(es[..i], cutoff) + es[i..]
    && total == SumOver(es[..i], InactivePeerTotal(cutoff))
  }

  /** Once every swarm has been visited, the loop invariant is the contract of `remove_inactive_peers`. */
  lemma PruneFinished(s: seq<(InfoHash, Coordinator)>, es: SwarmStates, i: nat, cutoff: nat, total: nat)
    requires PruneProgress(s, es, i, cutoff, total) && i >= |s|
    ensures SwarmsValid(s)
    ensures StatesOf(s) == PruneAll(es, cutoff)
    ensures total == SumOver(es, InactivePeerTotal(cutoff))
  {
    assert es[..i] == es;
  }

  /** One iteration of `remove_inactive_peers`: the swarm at `i` is pruned and its removals added to the running total. */
  method PruneStep(s: seq<(InfoHash, Coordinator)>, ghost es: SwarmStates, i: nat, cutoff: nat, total: nat) returns (total': nat)
    requires PruneProgress(s, es, i, cutoff, total) && i < |s|
    modifies s[i].1
    ensures PruneProgress(s, es, i + 1, cutoff, total')
  {
    ghost var cur := StatesOf(s);
    var removed := PruneSwarmAt(s, cur, i, cutoff);
    PruneLoopStep(es, cur, i, cutoff, total, removed);
    total' := total + removed;
  }

  /** The loop of `remove_inactive_peers`: each swarm in turn drops its inactive peers, and the removals are added up. */
  method PruneSwarms(s: seq<(InfoHash, Coordinator)>, ghost es: SwarmStates, cutoff: nat) returns (removedTotal: nat)
    requires SwarmsValid(s) && es == StatesOf(s)
    modifies HandlesOf(s)
    ensures SwarmsValid(s)
    ensures StatesOf(s) == PruneAll(es, cutoff)
    ensures removedTotal == SumOver(es, InactivePeerTotal(cutoff))
  {
    removedTotal := 0;
    var i := 0;
    while i < |s|
      invariant PruneProgress(s, es, i, cutoff, removedTotal)
    {
      assert s[i] in s;
      removedTotal := PruneStep(s, es, i, cutoff, removedTotal);
      i := i + 1;
    }
    PruneFinished(s, es, i, cutoff, removedTotal);
  }

  /**
   * The loop of `remove_peerless_torrents` over the swarms in `snapshot`:
   * every swarm that fails the retaining policy is removed from `remaining`.
   */
  method SweepPeerless(snapshot: seq<(InfoHash, Coordinator)>, ghost es: SwarmStates, policy: TrackerPolicy)
    returns (remaining: seq<(InfoHash, Coordinator)>, removedTotal: nat)
    requires es == StatesOf(snapshot)
    ensures remaining == Assoc.RemoveAll(snapshot, DroppedKeys(es, policy))
    ensures removedTotal == Assoc.Count(es, Dropped(policy))
  {
    ghost var removedKeys: set<InfoHash> := {};
    Assoc.RemoveAllNone(snapshot);
    remaining := snapshot;
    removedTotal := 0;
    var i := 0;
    while i < |snapshot|
      invariant 0 <= i <= |snapshot|
      invariant remaining == Assoc.RemoveAll(snapshot, removedKeys)
      invariant removedKeys == DroppedKeys(es[..i], policy)
      invariant removedTotal == Assoc.Count(es[..i], Dropped(policy))
    {
      var swarm := snapshot[i].1;
      DroppedStep(es, i, policy);
      if !swarm.MeetsRetainingPolicy(policy) {
        Assoc.RemoveIsRemoveAll(snapshot, removedKeys, snapshot[i].0);
        remaining := Assoc.Remove(remaining, snapshot[i].0);
        removedKeys := removedKeys + {snapshot[i].0};
        removedTotal := removedTotal + 1;
      }
      i := i + 1;
    }
    assert es[..i] == es;
  }

  /** Dropping the swarms the policy does not retain keeps the registry invariant and leaves the retained swarms. */
  lemma SweptValid(snapshot: seq<(InfoHash, Coordinator)>, remaining: seq<(InfoHash, Coordinator)>, policy: TrackerPolicy)
    requires Assoc.Ascending(snapshot, InfoHashLess) && DistinctHandles(snapshot) && AllValid(snapshot)
    requires remaining == Assoc.RemoveAll(snapshot, DroppedKeys(StatesOf(snapshot), policy))
    ensures Assoc.Ascending(remaining, InfoHashLess) && DistinctHandles(remaining) && AllValid(remaining)
    ensures StatesOf(remaining) == Assoc.FilterValues(StatesOf(snapshot), Retained(policy))
  {
    var es := StatesOf(snapshot);
    InfoHashLessIsStrictTotalOrder();
    Assoc.AscendingUnique(es, InfoHashLess);
    DroppedKeysFilter(es, policy);
    StatesOfRemoveAll(snapshot, DroppedKeys(es, policy));
    Assoc.RemoveAllAscending(snapshot, DroppedKeys(es, policy), InfoHashLess);
    Assoc.RemoveAllMembers(snapshot, DroppedKeys(es, policy));
  }

  /** The states and the validity of swarms whose coordinators were not touched are what they were. */
  twostate lemma SwarmsUnchanged(s: seq<(InfoHash, Coordinator)>)
    requires forall e :: e in s ==> unchanged(e.1)
    ensures StatesOf(s) == old(StatesOf(s))
    ensures AllValid(s) == old(AllValid(s))
  {
    if |s| > 0 {
      assert s[0] in s;
      assert forall e :: e in s[1..] ==> e in s;
      SwarmsUnchanged(s[1..]);
    }
  }

  /** Inserting a valid coordinator not yet in the registry keeps the registry invariant. */
  lemma InsertedValid(s: seq<(InfoHash, Coordinator)>, ih: InfoHash, swarm: Coordinator)
    requires Assoc.Ascending(s, InfoHashLess) && DistinctHandles(s) && AllValid(s)
    requires !Assoc.HasKey(s, ih) && swarm.Valid() && swarm !in HandlesOf(s)
    ensures var t := Assoc.Insert(s, ih, swarm, InfoHashLess);
      Assoc.Ascending(t, InfoHashLess) && DistinctHandles(t) && AllValid(t)
    ensures StatesOf(Assoc.Insert(s, ih, swarm, InfoHashLess)) == Assoc.Insert(StatesOf(s), ih, swarm.State(), InfoHashLess)
  {
    InfoHashLessIsStrictTotalOrder();
    StatesOfInsert(s, ih, swarm);
    Assoc.InsertAscending(s, ih, swarm, InfoHashLess);
    Assoc.InsertMembers(s, ih, swarm, InfoHashLess);
  }

  /** Removing a key keeps the registry invariant. */
  lemma RemovedValid(s: seq<(InfoHash, Coordinator)>, ih: InfoHash)
    requires Assoc.Ascending(s, InfoHashLess) && DistinctHandles(s) && AllValid(s)
    ensures var t := Assoc.Remove(s, ih);
      Assoc.Ascending(t, InfoHashLess) && DistinctHandles(t) && AllValid(t)
    ensures StatesOf(Assoc.Remove(s, ih)) == Assoc.Remove(StatesOf(s), ih)
  {
    StatesOfRemove(s, ih);
    Assoc.RemoveAscending(s, ih, InfoHashLess);
    Assoc.RemoveMembers(s, ih);
  }

  class Registry {
    var swarms: seq<(InfoHash, Coordinator)>

    function Handles(): set<Coordinator>
      reads this
    {
      HandlesOf(swarms)
    }

    /** Keys ascend, each coordinator object serves one info-hash only, and every swarm keeps its invariant. */
    ghost predicate Valid()
      reads this, Handles()
    {
      SwarmsValid(swarms)
    }

    ghost function Entries(): SwarmStates
      reads this, Handles()
    {
      StatesOf(swarms)
    }

    lemma EntriesConsistent()
      requires Valid()
      ensures AllConsistent(Entries()) && Assoc.Ascending(Entries(), InfoHashLess)
      ensures Assoc.UniqueKeys(swarms) && Assoc.UniqueKeys(Entries())
    {
      var es := Entries();
      forall e | e in es ensures Consistent(e.1) {
        var i :| 0 <= i < |es| && es[i] == e;
        assert swarms[i] in swarms;
      }
      InfoHashLessIsStrictTotalOrder();
      Assoc.AscendingUnique(swarms, InfoHashLess);
      Assoc.AscendingUnique(es, InfoHashLess);
    }

    constructor ()
      ensures Valid() && swarms == [] && Entries() == []
    {
      swarms := [];
    }

    method HandleAnnouncement(ih: InfoHash, peer: Peer, persisted: Option<nat>)
      requires Valid()
      modifies this, Handles()
      ensures Valid()
      ensures Entries() == AfterAnnouncement(old(Entries()), ih, peer, persisted)
    {
      EntriesConsistent();
      StatesOfGet(swarms, ih);
      match Assoc.Get(swarms, ih) {
        case None =>
          AnnounceNew(ih, peer, persisted);
        case Some(_) =>
          Assoc.GetIndex(swarms, ih);
          var i :| 0 <= i < |swarms| && swarms[i].0 == ih;
          AnnouncementAt(Entries(), ih, i, peer, persisted);
          AnnounceExisting(i, peer);
      }
    }

    /** A new swarm, seeded with the persisted downloads, handles the announce and is added under `ih`. */
    method AnnounceNew(ih: InfoHash, peer: Peer, persisted: Option<nat>)
      requires Valid() && !Contains(ih)
      modifies this
      ensures Valid()
      ensures Entries() == Assoc.Insert(old(Entries()), ih, Announced(NewSwarm(persisted.GetOr(0)), peer), InfoHashLess)
    {
      var swarm := new Coordinator(ih, persisted.GetOr(0));
      swarm.HandleAnnouncement(peer);
      SwarmsUnchanged(swarms);
      InsertSwarm(ih, swarm);
    }

    /** The tracked swarm at index `i` handles the announce; no other swarm changes. */
    method AnnounceExisting(i: nat, peer: Peer)
      requires Valid() && i < |swarms|
      modifies swarms[i].1
      ensures Valid()
      ensures |old(Entries())| == |swarms|
      ensures Entries() == old(Entries())[i := (old(Entries())[i].0, Announced(old(Entries())[i].1, peer))]
    {
      AnnounceSwarmAt(swarms, Entries(), i, peer);
    }

    /** Adds a new, valid swarm object under an untracked info-hash. */
    method InsertSwarm(ih: InfoHash, swarm: Coordinator)
      requires Valid() && !Contains(ih) && swarm.Valid() && swarm !in Handles()
      modifies this
      ensures Valid()
      ensures Entries() == Assoc.Insert(old(Entries()), ih, swarm.State(), InfoHashLess)
    {
      InsertedValid(swarms, ih, swarm);
      label before:
      swarms := Assoc.Insert(swarms, ih, swarm, InfoHashLess);
      SwarmsUnchanged@before(swarms);
    }

    /** `remove`: answers the removed swarm handle, if any. */
    method Remove(key: InfoHash) returns (removed: Option<Coordinator>)
      requires Valid()
      modifies this
      ensures removed == Assoc.Get(old(swarms), key)
      ensures Valid() && Entries() == Assoc.Remove(old(Entries()), key)
    {
      removed := Assoc.Get(swarms, key);
      RemovedValid(swarms, key);
      label before:
      swarms := Assoc.Remove(swarms, key);
      SwarmsUnchanged@before(swarms);
    }

    function Get(key: InfoHash): Option<Coordinator>
      reads this
    {
      Assoc.Get(swarms, key)
    }

    function Contains(key: InfoHash): bool
      reads this
    {
      Assoc.HasKey(swarms, key)
    }

    function Len(): nat
      reads this
    {
      |swarms|
    }

    function IsEmpty(): bool
      reads this
    {
      |swarms| == 0
    }

    /** `get_paginated`: the entries in key order, `offset` skipped and at most `limit` taken; all entries without pagination. */
    function GetPaginated(pagination: Option<Pagination>): (r: seq<(InfoHash, Coordinator)>)
      reads this
      ensures pagination.None? ==> r == swarms
      ensures pagination.Some? ==>
                var start := if pagination.value.offset < |swarms| then pagination.value.offset else |swarms|;
                && |r| <= pagination.value.limit
                && |r| == (if start + pagination.value.limit < |swarms| then pagination.value.limit else |swarms| - start)
                && r == swarms[start..start + |r|]
      ensures Assoc.Ascending(swarms, InfoHashLess) ==> Assoc.Ascending(r, InfoHashLess)
    {
      match pagination
      case None => swarms
      case Some(p) =>
        var rest := if p.offset < |swarms| then swarms[p.offset..] else [];
        Take(rest, Some(p.limit))
    }

    /** `get_swarm_metadata`: the torrent's counters, or nothing for an untracked torrent. */
    function GetSwarmMetadata(ih: InfoHash): (r: Option<SwarmMetadata>)
      reads this, Handles()
      ensures r.Some? <==> Contains(ih)
      ensures Assoc.HasKey(Entries(), ih) <==> Contains(ih)
      ensures Assoc.HasKey(Entries(), ih) ==> r == Some(Assoc.Get(Entries(), ih).value.metadata)
    {
      Assoc.GetMember(swarms, ih);
      StatesOfGet(swarms, ih);
      match Assoc.Get(swarms, ih)
      case Some(swarm) => Some(swarm.Metadata())
      case None => None
    }

    /** `get_swarm_metadata_or_default`: the zeroed triple for an untracked torrent. */
    function GetSwarmMetadataOrDefault(ih: InfoHash): (r: SwarmMetadata)
      reads this, Handles()
      ensures !Contains(ih) ==> r == Zeroed()
      ensures Assoc.HasKey(Entries(), ih) ==> r == Assoc.Get(Entries(), ih).value.metadata
    {
      match GetSwarmMetadata(ih)
      case Some(m) => m
      case None => Zeroed()
    }

    /**
     * `get_peers_peers_excluding`: the first `limit` peers of the torrent, in
     * address order, that are not at the requester's address; none for an
     * untracked torrent.
     */
    function GetPeersPeersExcluding(ih: InfoHash, peer: Peer, limit: nat): (r: seq<Peer>)
      reads this, Handles()
      ensures !Contains(ih) ==> r == []
      ensures |r| <= limit
      ensures forall p :: p in r ==> p.peerAddr != peer.peerAddr
      ensures Assoc.HasKey(Entries(), ih) ==> forall p :: p in r ==> p in Assoc.Values(Assoc.Get(Entries(), ih).value.peers)
      ensures Assoc.HasKey(Entries(), ih) ==>
                var others := WithoutAddr(Assoc.Values(Assoc.Get(Entries(), ih).value.peers), peer.peerAddr);
                |r| == (if limit < |others| then limit else |others|) && r == others[..|r|]
    {
      Assoc.GetMember(swarms, ih);
      StatesOfGet(swarms, ih);
      match Assoc.Get(swarms, ih)
      case Some(swarm) => swarm.PeersExcluding(peer.peerAddr, Some(limit))
      case None => []
    }

    /** `get_swarm_peers`: the first `limit` peers of the torrent in address order; none for an untracked torrent. */
    function GetSwarmPeers(ih: InfoHash, limit: nat): (r: seq<Peer>)
      reads this, Handles()
      ensures !Contains(ih) ==> r == []
      ensures |r| <= limit
      ensures Assoc.HasKey(Entries(), ih) ==>
                var ps := Assoc.Get(Entries(), ih).value.peers;
                |r| == (if limit < |ps| then limit else |ps|) && forall i :: 0 <= i < |r| ==> r[i] == ps[i].1
    {
      Assoc.GetMember(swarms, ih);
      StatesOfGet(swarms, ih);
      match Assoc.Get(swarms, ih)
      case Some(swarm) => swarm.Peers(Some(limit))
      case None => []
    }

    method GetActivityMetadata(cutoff: nat) returns (r: AggregateActivityMetadata)
      ensures r == ActivityOf(Entries(), cutoff)
    {
      ghost var es := Entries();
      var activePeersTotal := 0;
      var inactivePeersTotal := 0;
      var activeTorrentsTotal := 0;
      var i := 0;
      while i < |swarms|
        invariant 0 <= i <= |swarms|
        invariant activePeersTotal == SumOver(es[..i], ActivePeerTotal(cutoff))
        invariant inactivePeersTotal == SumOver(es[..i], InactivePeerTotal(cutoff))
        invariant activeTorrentsTotal == Assoc.Count(es[..i], HasActivePeer(cutoff))
      {
        var activity := swarms[i].1.GetActivityMetadata(cutoff);
        if activity.isActive {
          activeTorrentsTotal := activeTorrentsTotal + 1;
        }
        activePeersTotal := activePeersTotal + activity.activePeersTotal;
        inactivePeersTotal := inactivePeersTotal + activity.inactivePeersTotal;
        SumOverStep(es, i, ActivePeerTotal(cutoff));
        SumOverStep(es, i, InactivePeerTotal(cutoff));
        CountStep(es, i, HasActivePeer(cutoff));
        i := i + 1;
      }
      assert es[..i] == es == Entries();
      r := AggregateActivityMetadata(activePeersTotal, inactivePeersTotal, activeTorrentsTotal, Len() - activeTorrentsTotal);
    }

    method CountInactivePeers(cutoff: nat) returns (total: nat)
      ensures total == SumOver(Entries(), InactivePeerTotal(cutoff))
    {
      ghost var es := Entries();
      total := 0;
      var i := 0;
      while i < |swarms|
        invariant 0 <= i <= |swarms|
        invariant total == SumOver(es[..i], InactivePeerTotal(cutoff))
      {
        total := total + swarms[i].1.CountInactivePeers(cutoff);
        SumOverStep(es, i, InactivePeerTotal(cutoff));
        i := i + 1;
      }
      assert es[..i] == es == Entries();
    }

    /** `remove_inactive_peers`: prunes every swarm and answers the number of peers removed in all. */
    method RemoveInactivePeers(cutoff: nat) returns (removedTotal: nat)
      requires Valid()
      modifies Handles()
      ensures Valid() && swarms == old(swarms)
      ensures Entries() == PruneAll(old(Entries()), cutoff)
      ensures removedTotal == SumOver(old(Entries()), InactivePeerTotal(cutoff))
    {
      removedTotal := PruneSwarms(swarms, Entries(), cutoff);
    }

    /** `remove_peerless_torrents`: drops every swarm that fails the retaining policy and answers how many. */
    method RemovePeerlessTorrents(policy: TrackerPolicy) returns (removedTotal: nat)
      requires Valid()
      modifies this
      ensures Valid()
      ensures Entries() == Assoc.FilterValues(old(Entries()), Retained(policy))
      ensures removedTotal == Assoc.Count(old(Entries()), Dropped(policy))
    {
      EntriesConsistent();
      ghost var es := Entries();
      SweptValid(swarms, Assoc.RemoveAll(swarms, DroppedKeys(es, policy)), policy);
      label before:
      var remaining;
      remaining, removedTotal := SweepPeerless(swarms, es, policy);
      swarms := remaining;
      SwarmsUnchanged@before(remaining);
    }

    /** `import_persistent`: a new swarm, with the persisted downloads, for every absent info-hash; answers how many. */
    method ImportPersistent(persisted: seq<(InfoHash, nat)>) returns (imported: nat)
      requires Valid()
      modifies this
      ensures Valid()
      ensures Entries() == ImportAll(old(Entries()), persisted)
      ensures imported == ImportCount(old(Entries()), persisted)
    {
      imported := 0;
      var i := 0;
      while i < |persisted|
        invariant 0 <= i <= |persisted|
        invariant Valid()
        invariant ImportAll(Entries(), persisted[i..]) == ImportAll(old(Entries()), persisted)
        invariant imported + ImportCount(Entries(), persisted[i..]) == ImportCount(old(Entries()), persisted)
      {
        var (ih, completed) := persisted[i];
        ImportStep(Entries(), persisted, i);
        StatesOfGet(swarms, ih);
        if !Contains(ih) {
          ImportNew(ih, completed);
          imported := imported + 1;
        }
        i := i + 1;
      }
    }

    /** A new swarm with `completed` downloads and no peers is added under the untracked `ih`. */
    method ImportNew(ih: InfoHash, completed: nat)
      requires Valid() && !Contains(ih)
      modifies this
      ensures Valid()
      ensures Entries() == Assoc.Insert(old(Entries()), ih, NewSwarm(completed), InfoHashLess)
    {
      var swarm := new Coordinator(ih, completed);
      SwarmsUnchanged(swarms);
      InsertSwarm(ih, swarm);
    }

    method GetAggregateSwarmMetadata() returns (metrics: AggregateActiveSwarmMetadata)
      ensures metrics == AggregateOf(Entries())
    {
      ghost var es := Entries();
      metrics := DefaultAggregate();
      var i := 0;
      while i < |swarms|
        invariant 0 <= i <= |swarms|
        invariant metrics == AggregateOf(es[..i])
      {
        var stats := swarms[i].1.Metadata();
        metrics := AggregateActiveSwarmMetadata(
          metrics.totalDownloaded + stats.downloaded,
          metrics.totalComplete + stats.complete,
          metrics.totalIncomplete + stats.incomplete,
          metrics.totalTorrents + 1);
        SumOverStep(es, i, DownloadedOf);
        SumOverStep(es, i, CompleteOf);
        SumOverStep(es, i, IncompleteOf);
        i := i + 1;
      }
      assert es[..i] == es == Entries();
    }

    method CountPeerlessTorrents() returns (peerless: nat)
      ensures peerless == Assoc.Count(Entries(), IsPeerless)
    {
      ghost var es := Entries();
      peerless := 0;
      var i := 0;
      while i < |swarms|
        invariant 0 <= i <= |swarms|
        invariant peerless == Assoc.Count(es[..i], IsPeerless)
      {
        if swarms[i].1.IsPeerless() {
          peerless := peerless + 1;
        }
        CountStep(es, i, IsPeerless);
        i := i + 1;
      }
      assert es[..i] == es == Entries();
    }

    method CountPeers() returns (peers: nat)
      ensures peers == SumOver(Entries(), PeerTotal)
    {
      ghost var es := Entries();
      peers := 0;
      var i := 0;
      while i < |swarms|
        invariant 0 <= i <= |swarms|
        invariant peers == SumOver(es[..i], PeerTotal)
      {
        peers := peers + swarms[i].1.Len();
        SumOverStep(es, i, PeerTotal);
        i := i + 1;
      }
      assert es[..i] == es;
      assert es == Entries();
    }
  }

  lemma {:induction false} StatesOfRemoveAll(s: seq<(InfoHash, Coordinator)>, ks: set<InfoHash>)
    ensures StatesOf(Assoc.RemoveAll(s, ks)) == Assoc.RemoveAll(StatesOf(s), ks)
  {
    if |s| > 0 {
      StatesOfRemoveAll(s[1..], ks);
      assert StatesOf(s)[1..] == StatesOf(s[1..]);
      if s[0].0 !in ks {
        assert Assoc.RemoveAll(s, ks)[1..] == Assoc.RemoveAll(s[1..], ks);
      }
    }
  }
}
