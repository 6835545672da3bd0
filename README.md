# Torrust tracker: swarm registry, metrics and request validators

This project is a Dafny model of the logic at the centre of the Torrust
BitTorrent tracker, with proofs of what that logic promises.

- **The per-torrent swarm (`Coordinator`).** It maps each peer's socket address to
  its last announce and keeps a `SwarmMetadata` triple: downloads, seeders and
  leechers. An announce upserts the peer, or removes it when the event is
  `Stopped`. The seeder and leecher counters always equal the role census of the
  stored peers. `downloaded` rises exactly when a stored peer moves into
  `Completed`. Inactive peers are pruned against a cutoff.
- **The registry (`Registry`) and the in-memory repository over it.** The registry
  is an ordered map from info-hash to swarm. It creates swarms on first announce,
  paginates in key order, prunes inactive peers and peerless torrents under the
  tracker policy, imports persisted download counts and aggregates totals. The
  repository only delegates to it, apart from the `max(limit, TORRENT_PEERS_LIMIT)`
  rule for announce responses.
- **Peer primitives.** Seeder and leecher predicates, roles and their text forms,
  the ordering of peers by id, and the 20-byte peer id with `Id::new`,
  `Id::try_from` and the hexadecimal rendering. Also the scrape triple of
  BitTorrent Enhancement Proposal 48 and the aggregate addition.
- **The metrics library.**
  - Label names and metric names, with their Prometheus sanitisers.
  - Label sets: sorted maps with subset matching and two renderings.
  - Counters with 64-bit wrap-around.
  - Samples, measurements and sample collections.
  - Metrics and the counter sum over matching samples.
  - Metric collections. These keep counter names and gauge names apart on
    construction, on update and on merge.
- **Request-side validators.**
  - The HTTP tracker's client-address resolution, behind a reverse proxy or not.
  - Service bindings and their label values.
  - The REST API's bearer-token authentication.
  - The index's public settings and the `EmailOnSignup` option.

## How the source is modelled

- **Ordered maps** are association sequences kept in strictly ascending key
  order (module `Assoc`). Such maps are the Rust `BTreeMap` of peers and of
  labels, and the `SkipMap` of swarms.
- **Info-hashes** are 160-bit numbers read big-endian, so numeric order is the
  byte order of the source.
- **Hash maps.** A metric kind's `HashMap` is a Dafny `map`. A sample collection
  is a unique-key association sequence.
- **Classes.** State that the source changes in place and shares through `Arc`
  handles becomes Dafny classes: `Coordinator`, `Registry`,
  `InMemoryTorrentRepository` and `MetricCollection`. The registry holds distinct
  coordinator objects, and every method states its new state through a function
  of the old one, such as `Announced`, `Pruned`, `ImportAll` or `IncrementCounterIn`.
- **Owned values** are datatypes, and their in-place setters become functions
  that return the updated value. Such values are `Counter`, `Measurement`,
  `Sample`, `SampleCollection`, `Metric`, `LabelSet` and `Peer`. Since the Rust
  values are owned and never aliased, this loses nothing but the update in
  place.
- **Panics.** `LabelName::new` and `MetricName::new` panic on the empty name;
  the model returns `None` there.
- **Character sets.** The Rust `to_lowercase` becomes ASCII lower-casing. This
  is exact for deciding whether a string spells "required", "optional", "none",
  "seeder" or "leecher". No non-ASCII character lower-cases to one of the ASCII
  letters involved, except the Kelvin sign, which becomes 'k', and no accepted
  word contains a 'k'.

## Model

| member | source | states |
|---|---|---|
| Swarm.ConsistentUnique | torrust-tracker/packages/swarm-coordination-registry/src/swarm/coordinator.rs:158-178 | a consistent swarm stores at most one record per address |
| Swarm.StoredPeerIsCounted | torrust-tracker/packages/swarm-coordination-registry/src/swarm/coordinator.rs:207-221 | a stored seeder makes `complete` positive and a stored leecher makes `incomplete` positive, so no removal decrement underflows |
| Swarm.UpsertKeepsConsistent | torrust-tracker/packages/swarm-coordination-registry/src/swarm/coordinator.rs:158-178 | an upsert, whether by insert or by update with a role change, keeps `complete` and `incomplete` equal to the census of seeders and leechers |
| Swarm.RemoveKeepsConsistent | torrust-tracker/packages/swarm-coordination-registry/src/swarm/coordinator.rs:180-190 | a removal keeps the counters equal to the role census |
| Swarm.AnnounceKeepsConsistent | torrust-tracker/packages/swarm-coordination-registry/src/swarm/coordinator.rs:36-43 | every announce keeps the counting invariant |
| Swarm.UpsertSlot | torrust-tracker/packages/swarm-coordination-registry/src/swarm/coordinator.rs:158-178 | after an upsert the address holds the new record, every other address is unchanged, and the peer count grows only for a new address |
| Swarm.SameAddressOneSlot | torrust-tracker/packages/swarm-coordination-registry/src/swarm/coordinator.rs:620-640 | two announces from one address, whatever their peer ids, occupy one slot holding the later record |
| Swarm.UpsertDownloaded | torrust-tracker/packages/swarm-coordination-registry/src/swarm/coordinator.rs:223-246 | `downloaded` stays the same or rises by one, and it rises exactly when a stored peer that had not completed announces `Completed` |
| Swarm.FirstInsertNeverCountsDownload | torrust-tracker/packages/swarm-coordination-registry/src/swarm/coordinator.rs:732-744 | the first announce from an address never counts a download, even with `Completed` |
| Swarm.RepeatedCompletedCountsOnce | torrust-tracker/packages/swarm-coordination-registry/src/swarm/coordinator.rs:885-902 | sending `Completed` again from the same address does not count a second download |
| Swarm.RemoveSlot | torrust-tracker/packages/swarm-coordination-registry/src/swarm/coordinator.rs:180-190 | a removal empties exactly the given address and keeps `downloaded` |
| Swarm.AnnounceDispatch | torrust-tracker/packages/swarm-coordination-registry/src/swarm/coordinator.rs:36-43 | after a `Stopped` announce no peer is stored at the address; after any other event exactly the announced record is |
| Swarm.PrunedRemovesExactlyInactive | torrust-tracker/packages/swarm-coordination-registry/src/swarm/coordinator.rs:45-53 | pruning keeps a peer exactly when its last announce is after the cutoff, keeps the invariant, and removes as many peers as are inactive |
| Swarm.PruneByRemoval | torrust-tracker/packages/swarm-coordination-registry/src/swarm/coordinator.rs:45-53 | removing every inactive address at once leaves exactly the active peers |
| Swarm.RemovalsArePruned | torrust-tracker/packages/swarm-coordination-registry/src/swarm/coordinator.rs:45-53 | removing the inactive addresses one at a time gives the pruned swarm |
| Swarm.InactivePeers | torrust-tracker/packages/swarm-coordination-registry/src/swarm/coordinator.rs:193-199 | the addresses listed are those of the inactive peers, one per inactive peer |
| Swarm.Coordinator.constructor | torrust-tracker/packages/swarm-coordination-registry/src/swarm/coordinator.rs:27-34 | a new swarm has no peers, zero seeders and leechers, and the given `downloaded` |
| Swarm.Coordinator.HandleAnnouncement | torrust-tracker/packages/swarm-coordination-registry/src/swarm/coordinator.rs:36-43 | the new state is the announce applied to the old one, and the invariant holds |
| Swarm.Coordinator.RemovePeers | torrust-tracker/packages/swarm-coordination-registry/src/swarm/coordinator.rs:45-53 | the loop of `remove_inactive` removes exactly the listed addresses and keeps `downloaded` |
| Swarm.Coordinator.RemoveInactive | torrust-tracker/packages/swarm-coordination-registry/src/swarm/coordinator.rs:45-53 | the new state is the pruned state, and the count answered is the number of inactive peers |
| Swarm.Coordinator.Peers | torrust-tracker/packages/swarm-coordination-registry/src/swarm/coordinator.rs:61-66 | with a limit exactly the first `min(limit, size)` peers in address order; all of them without a limit |
| Swarm.Coordinator.PeersExcluding | torrust-tracker/packages/swarm-coordination-registry/src/swarm/coordinator.rs:69-88 | the peers not at the requester's address, in address order: with a limit exactly the first `min(limit, n)` of them, where n is their number, and without a limit all of them |
| Swarm.WithoutAddrCount | torrust-tracker/packages/swarm-coordination-registry/src/swarm/coordinator.rs:69-79 | with unique addresses, each peer stored under its own, the filter drops exactly the stored record at the requester's address, if any |
| Swarm.OtherPeersCount | torrust-tracker/packages/swarm-coordination-registry/src/swarm/coordinator.rs:69-79 | in a consistent swarm the requester sees every stored peer but its own record, so n is the swarm size, less one when the requester is stored |
| Swarm.Coordinator.SeedersAndLeechers | torrust-tracker/packages/swarm-coordination-registry/src/swarm/coordinator.rs:102-115 | the pair answered is the census of seeders and leechers |
| Swarm.Coordinator.CountInactivePeers | torrust-tracker/packages/swarm-coordination-registry/src/swarm/coordinator.rs:118-123 | the number of peers with `updated <= cutoff`: the length of the inactive-address list, and the number of peers `remove_inactive` drops |
| Swarm.Coordinator.GetActivityMetadata | torrust-tracker/packages/swarm-coordination-registry/src/swarm/coordinator.rs:126-134 | active plus inactive is the swarm size, and `is_active` holds exactly when some peer announced after the cutoff |
| Swarm.Coordinator.ShouldBeRemoved | torrust-tracker/packages/swarm-coordination-registry/src/swarm/coordinator.rs:203-205 | true exactly when the policy removes peerless torrents and the swarm is empty |
| Swarm.Coordinator.MeetsRetainingPolicy | torrust-tracker/packages/swarm-coordination-registry/src/swarm/coordinator.rs:154-156 | the negation: the flag is off or some peer is left |
| Swarm.Coordinator.UpsertPeer | torrust-tracker/packages/swarm-coordination-registry/src/swarm/coordinator.rs:158-178 | answers the previous record at the address; the new state is the upsert of the old one, and the invariant holds |
| Swarm.Coordinator.RemovePeer | torrust-tracker/packages/swarm-coordination-registry/src/swarm/coordinator.rs:180-190 | answers the removed record; the new state is the removal from the old one, and the invariant holds |
| Swarm.Coordinator.UpdateMetadataOnInsert | torrust-tracker/packages/swarm-coordination-registry/src/swarm/coordinator.rs:207-213 | the counter of the added peer's role goes up by one |
| Swarm.Coordinator.UpdateMetadataOnRemoval | torrust-tracker/packages/swarm-coordination-registry/src/swarm/coordinator.rs:215-221 | the counter of the removed peer's role goes down by one, which the precondition keeps from underflowing |
| Swarm.Coordinator.UpdateMetadataOnUpdate | torrust-tracker/packages/swarm-coordination-registry/src/swarm/coordinator.rs:223-246 | a role change moves one unit between the counters; a move into `Completed` adds a download and answers true |
| SwarmRegistry.InfoHashLessIsStrictTotalOrder | torrust-tracker/packages/swarm-coordination-registry/src/swarm/registry.rs:141-156 | the key order of the registry is a strict total order |
| SwarmRegistry.NewSwarm | torrust-tracker/packages/swarm-coordination-registry/src/swarm/registry.rs:58-79 | a swarm created by the registry is consistent |
| SwarmRegistry.AnnouncementCreatesEntry | torrust-tracker/packages/swarm-coordination-registry/src/swarm/registry.rs:58-79 | an announce for an untracked info-hash creates its entry, with `downloaded` equal to the persisted count or 0, and adds one entry |
| SwarmRegistry.AnnouncementTouchesOneEntry | torrust-tracker/packages/swarm-coordination-registry/src/swarm/registry.rs:52-86 | an announce changes only the announced torrent's entry, and changes it as its swarm dictates |
| SwarmRegistry.AnnouncementKeepsInvariant | torrust-tracker/packages/swarm-coordination-registry/src/swarm/registry.rs:52-86 | announces keep the entries in key order and every swarm consistent |
| SwarmRegistry.AnnouncementAt | torrust-tracker/packages/swarm-coordination-registry/src/swarm/registry.rs:78-86 | on a tracked info-hash the announce replaces the entry at that key's position |
| SwarmRegistry.RemoveDeletesOnlyKey | torrust-tracker/packages/swarm-coordination-registry/src/swarm/registry.rs:110-118 | after `remove(key)` the key is gone, the other entries are as before, and one entry fewer exists when the key was tracked |
| SwarmRegistry.PruneAll | torrust-tracker/packages/swarm-coordination-registry/src/swarm/registry.rs:298-315 | every swarm is pruned at the cutoff, under the same key |
| SwarmRegistry.ImportKeepsExisting | torrust-tracker/packages/swarm-coordination-registry/src/swarm/registry.rs:359-381 | an entry already present keeps its swarm whatever is imported |
| SwarmRegistry.ImportAddsMissing | torrust-tracker/packages/swarm-coordination-registry/src/swarm/registry.rs:359-381 | an untracked imported info-hash gets a new swarm with the persisted downloads; an info-hash not imported stays untracked |
| SwarmRegistry.ImportCountIsGrowth | torrust-tracker/packages/swarm-coordination-registry/src/swarm/registry.rs:359-381 | the count answered is the number of entries the import added, at most the number of persisted pairs |
| SwarmRegistry.ImportKeepsInvariant | torrust-tracker/packages/swarm-coordination-registry/src/swarm/registry.rs:359-381 | import keeps key order and consistent swarms |
| SwarmRegistry.PeerlessRemoval | torrust-tracker/packages/swarm-coordination-registry/src/swarm/registry.rs:326-352 | exactly the retained swarms stay, untouched; the count removed is the number dropped; with the flag off nothing is removed |
| SwarmRegistry.SumOverAppend | torrust-tracker/packages/swarm-coordination-registry/src/swarm/registry.rs:397-412 | totals over two parts of the registry add up |
| SwarmRegistry.AggregateOfAppend | torrust-tracker/packages/swarm-coordination-registry/src/swarm/registry.rs:397-412 | the aggregate of two parts is their `add_assign` |
| SwarmRegistry.AggregateIsCensus | torrust-tracker/packages/swarm-coordination-registry/src/swarm/registry.rs:397-412 | with consistent swarms, aggregate seeders plus leechers make up every peer |
| SwarmRegistry.ActivityTotals | torrust-tracker/packages/swarm-coordination-registry/src/swarm/registry.rs:251-275 | active and inactive peers make up every peer, and active and inactive torrents make up every torrent |
| SwarmRegistry.AnnounceSwarmAt | torrust-tracker/packages/swarm-coordination-registry/src/swarm/registry.rs:78-86 | the coordinator at one position handles the announce and no other swarm changes |
| SwarmRegistry.PruneSwarmAt | torrust-tracker/packages/swarm-coordination-registry/src/swarm/registry.rs:298-315 | the coordinator at one position drops its inactive peers, no other swarm changes, and the count is that swarm's inactive peers |
| SwarmRegistry.PruneSwarms | torrust-tracker/packages/swarm-coordination-registry/src/swarm/registry.rs:298-315 | the loop visits every swarm and sums the removals |
| SwarmRegistry.SweepPeerless | torrust-tracker/packages/swarm-coordination-registry/src/swarm/registry.rs:326-352 | the sweep removes exactly the swarms that fail the retaining policy and counts them |
| SwarmRegistry.Registry.constructor | torrust-tracker/packages/swarm-coordination-registry/src/swarm/registry.rs:25-30 | a new registry is empty and valid |
| SwarmRegistry.Registry.HandleAnnouncement | torrust-tracker/packages/swarm-coordination-registry/src/swarm/registry.rs:52-86 | the new entries are the announce applied to the old ones, and the invariant holds |
| SwarmRegistry.Registry.AnnounceNew | torrust-tracker/packages/swarm-coordination-registry/src/swarm/registry.rs:58-79 | a swarm seeded with the persisted downloads handles the announce and is inserted under the info-hash |
| SwarmRegistry.Registry.AnnounceExisting | torrust-tracker/packages/swarm-coordination-registry/src/swarm/registry.rs:78-86 | the tracked swarm handles the announce and nothing else changes |
| SwarmRegistry.Registry.InsertSwarm | torrust-tracker/packages/swarm-coordination-registry/src/swarm/registry.rs:89-102 | a new swarm object is added under an untracked info-hash, in key order |
| SwarmRegistry.Registry.Remove | torrust-tracker/packages/swarm-coordination-registry/src/swarm/registry.rs:110-118 | answers the removed swarm handle; the new entries are the old ones without the key |
| SwarmRegistry.Registry.GetPaginated | torrust-tracker/packages/swarm-coordination-registry/src/swarm/registry.rs:141-156 | without pagination every entry; with pagination `offset` entries skipped and at most `limit` taken, in ascending key order |
| SwarmRegistry.Registry.GetSwarmMetadata | torrust-tracker/packages/swarm-coordination-registry/src/swarm/registry.rs:167-175 | the torrent's counters, or nothing exactly for an untracked torrent |
| SwarmRegistry.Registry.GetSwarmMetadataOrDefault | torrust-tracker/packages/swarm-coordination-registry/src/swarm/registry.rs:188-194 | the zeroed triple for an untracked torrent, the torrent's counters otherwise |
| SwarmRegistry.Registry.GetPeersPeersExcluding | torrust-tracker/packages/swarm-coordination-registry/src/swarm/registry.rs:212-225 | no peers for an untracked torrent; otherwise exactly the first `min(limit, n)` of its peers not at the requester's address, in address order |
| SwarmRegistry.Registry.GetSwarmPeers | torrust-tracker/packages/swarm-coordination-registry/src/swarm/registry.rs:241-249 | no peers for an untracked torrent; otherwise its first `limit` peers in address order |
| SwarmRegistry.Registry.GetActivityMetadata | torrust-tracker/packages/swarm-coordination-registry/src/swarm/registry.rs:251-275 | the loop's totals are the activity of all entries |
| SwarmRegistry.Registry.CountInactivePeers | torrust-tracker/packages/swarm-coordination-registry/src/swarm/registry.rs:278-287 | the sum of the inactive peers of every swarm |
| SwarmRegistry.Registry.RemoveInactivePeers | torrust-tracker/packages/swarm-coordination-registry/src/swarm/registry.rs:298-315 | every swarm is pruned, and the count answered is the sum of the peers removed from each |
| SwarmRegistry.Registry.RemovePeerlessTorrents | torrust-tracker/packages/swarm-coordination-registry/src/swarm/registry.rs:326-352 | the entries left are those the policy retains, and the count is the number dropped |
| SwarmRegistry.Registry.ImportPersistent | torrust-tracker/packages/swarm-coordination-registry/src/swarm/registry.rs:359-381 | the entries are the import of the persisted counts, and the count answered is the number added |
| SwarmRegistry.Registry.ImportNew | torrust-tracker/packages/swarm-coordination-registry/src/swarm/registry.rs:365-375 | a peerless swarm with the persisted downloads is inserted under the untracked info-hash |
| SwarmRegistry.Registry.GetAggregateSwarmMetadata | torrust-tracker/packages/swarm-coordination-registry/src/swarm/registry.rs:397-412 | the loop's totals are the sums of the per-swarm triples, with `total_torrents` the number of entries |
| SwarmRegistry.Registry.CountPeerlessTorrents | torrust-tracker/packages/swarm-coordination-registry/src/swarm/registry.rs:425-437 | the number of swarms without peers |
| SwarmRegistry.Registry.CountPeers | torrust-tracker/packages/swarm-coordination-registry/src/swarm/registry.rs:449-459 | the sum of the swarm sizes |
| InMemoryRepository.Max | torrust-tracker/packages/tracker-core/src/torrent/repository/in_memory.rs:182-187 | the larger of the two numbers |
| InMemoryRepository.InMemoryTorrentRepository.constructor | torrust-tracker/packages/tracker-core/src/torrent/repository/in_memory.rs:29-31 | the repository wraps the given registry |
| InMemoryRepository.InMemoryTorrentRepository.HandleAnnouncement | torrust-tracker/packages/tracker-core/src/torrent/repository/in_memory.rs:51-61 | exactly the registry's announce |
| InMemoryRepository.InMemoryTorrentRepository.RemoveInactivePeers | torrust-tracker/packages/tracker-core/src/torrent/repository/in_memory.rs:76-81 | exactly the registry's pruning |
| InMemoryRepository.InMemoryTorrentRepository.RemovePeerlessTorrents | torrust-tracker/packages/tracker-core/src/torrent/repository/in_memory.rs:96-101 | exactly the registry's sweep under the policy |
| InMemoryRepository.InMemoryTorrentRepository.ImportPersistent | torrust-tracker/packages/tracker-core/src/torrent/repository/in_memory.rs:267-269 | exactly the registry's import |
| InMemoryRepository.InMemoryTorrentRepository.Get | torrust-tracker/packages/tracker-core/src/torrent/repository/in_memory.rs:113-115 | a handle exactly for a tracked torrent, the one the registry stores |
| InMemoryRepository.InMemoryTorrentRepository.GetPaginated | torrust-tracker/packages/tracker-core/src/torrent/repository/in_memory.rs:131-133 | the registry's page: all entries without pagination; with it the slice that skips `offset` entries and takes at most `limit`, in ascending key order |
| InMemoryRepository.InMemoryTorrentRepository.Contains | torrust-tracker/packages/tracker-core/src/torrent/repository/in_memory.rs:273-275 | agrees with the registry's entries |
| InMemoryRepository.InMemoryTorrentRepository.GetSwarmMetadataOrDefault | torrust-tracker/packages/tracker-core/src/torrent/repository/in_memory.rs:153-158 | zeros for an untracked torrent, the torrent's counters otherwise |
| InMemoryRepository.InMemoryTorrentRepository.GetPeersFor | torrust-tracker/packages/tracker-core/src/torrent/repository/in_memory.rs:182-187 | no peers for an untracked torrent; otherwise exactly the first `min(max(limit, TORRENT_PEERS_LIMIT), n)` of its peers not at the requester's address, in address order |
| InMemoryRepository.InMemoryTorrentRepository.GetTorrentPeers | torrust-tracker/packages/tracker-core/src/torrent/repository/in_memory.rs:207-213 | the first `TORRENT_PEERS_LIMIT` peers of the torrent in address order |
| InMemoryRepository.InMemoryTorrentRepository.GetAggregateSwarmMetadata | torrust-tracker/packages/tracker-core/src/torrent/repository/in_memory.rs:229-234 | the registry's aggregate |
| InMemoryRepository.InMemoryTorrentRepository.CountPeerlessTorrents | torrust-tracker/packages/tracker-core/src/torrent/repository/in_memory.rs:242-247 | the registry's count of empty swarms |
| InMemoryRepository.InMemoryTorrentRepository.CountPeers | torrust-tracker/packages/tracker-core/src/torrent/repository/in_memory.rs:255-257 | the registry's count of peers |
| PeerPrimitives.RoleIsSeederCensus | torrust-tracker/packages/primitives/src/peer.rs:262-285 | the role is `Seeder` exactly for a seeder, which has nothing left and did not stop; a leecher is a non-seeder |
| PeerPrimitives.OppositeSwapsRoles | torrust-tracker/packages/primitives/src/peer.rs:46-55 | `opposite` changes the role and is an involution |
| PeerPrimitives.StoppedIsLeecher | torrust-tracker/packages/primitives/src/peer.rs:262-271 | a `Stopped` announce is a leecher whatever it has left |
| PeerPrimitives.IntoSeederIsSeeder | torrust-tracker/packages/primitives/src/peer.rs:308-313 | `into_seeder` makes a non-stopped peer a seeder |
| PeerPrimitives.Peer.ChangeIp | torrust-tracker/packages/primitives/src/peer.rs:291-293 | the IP is replaced, the port and every other field are kept |
| PeerPrimitives.Peer.IntoCompleted | torrust-tracker/packages/primitives/src/peer.rs:295-305 | the event becomes `Completed` and nothing else changes |
| PeerPrimitives.Peer.IntoSeeder | torrust-tracker/packages/primitives/src/peer.rs:308-313 | `left` becomes 0 and nothing else changes |
| PeerPrimitives.ParseDisplayedRole | torrust-tracker/packages/primitives/src/peer.rs:57-79 | parsing the displayed form of a role gives that role back |
| PeerPrimitives.ParsePeerRoleAccepts | torrust-tracker/packages/primitives/src/peer.rs:66-79 | exactly "seeder" and "leecher", in any letter case, are accepted; a rejection carries the raw input |
| PeerPrimitives.ParseUpperCaseSeeder | torrust-tracker/packages/primitives/src/peer.rs:66-79 | mixed-case and upper-case spellings are accepted and another word is not |
| PeerPrimitives.CompareBytesEqual | torrust-tracker/packages/primitives/src/peer.rs:189-193 | byte strings compare equal exactly when they are equal |
| PeerPrimitives.CompareBytesAntisymmetric | torrust-tracker/packages/primitives/src/peer.rs:189-193 | `a` is below `b` exactly when `b` is above `a` |
| PeerPrimitives.ComparePeersById | torrust-tracker/packages/primitives/src/peer.rs:189-199 | peers compare by peer id alone, equal exactly for equal ids, and antisymmetrically |
| PeerPrimitives.IdTryFromLength | torrust-tracker/packages/primitives/src/peer.rs:379-399 | exactly 20 bytes are accepted and kept; fewer give `NotEnoughBytes`, more give `TooManyBytes` |
| PeerPrimitives.IdNewRoundTrip | torrust-tracker/packages/primitives/src/peer.rs:361-377 | `Id::new(n)` is four zero bytes followed by 16 bytes from which the `i128` is recovered |
| PeerPrimitives.LittleEndianRoundTrip | torrust-tracker/packages/primitives/src/peer.rs:367-372 | reading back the little-endian bytes of a number gives the number |
| PeerPrimitives.ToHexString | torrust-tracker/packages/primitives/src/peer.rs:440-451 | the buffer-filling loop renders "0x" followed by two hex digits per byte, in byte order |
| PeerPrimitives.HexDigits | torrust-tracker/packages/primitives/src/peer.rs:440-451 | every character of the rendering is a lower-case hexadecimal digit |
| PeerPrimitives.HexRoundTrip | torrust-tracker/packages/primitives/src/peer.rs:440-451 | reading the digits back gives the bytes, so the rendering loses nothing |
| SwarmMetadataPrimitives.Zeroed | torrust-tracker/packages/primitives/src/swarm_metadata.rs:25-29 | downloads, seeders and leechers are all zero |
| SwarmMetadataPrimitives.AddDefaultIsIdentity | torrust-tracker/packages/primitives/src/swarm_metadata.rs:50-72 | adding the all-zero aggregate, on either side, changes nothing |
| SwarmMetadataPrimitives.AddAssignCommutesAndAssociates | torrust-tracker/packages/primitives/src/swarm_metadata.rs:65-72 | the field-wise addition is commutative and associative |
| Labels.NameLessIsStrictTotalOrder | torrust-tracker/packages/metrics/src/label/set.rs:41-43 | label names are ordered by a strict total order |
| Labels.LabelSet.Upsert | torrust-tracker/packages/metrics/src/label/set.rs:21-24 | the name now has the value, every other name keeps its value, the order is kept, and the size grows only for a new name |
| Labels.LabelSet.IsEmpty | torrust-tracker/packages/metrics/src/label/set.rs:26-28 | true exactly when no name has a value |
| Labels.LabelSet.ContainsPair | torrust-tracker/packages/metrics/src/label/set.rs:30-35 | true exactly when the name is present with that value |
| Labels.LabelSet.Matches | torrust-tracker/packages/metrics/src/label/set.rs:37-39 | true exactly when every pair of the criteria is in the set; empty criteria match every set |
| Labels.LabelSet.Iter | torrust-tracker/packages/metrics/src/label/set.rs:41-43 | visits exactly the pairs of the set, in ascending name order |
| Labels.LabelSet.ToPrometheus | torrust-tracker/packages/metrics/src/label/set.rs:183-201 | "" for the empty set, else `{`, the sanitised `name="value"` pairs joined by ",", then `}` |
| Labels.UpsertFacts | torrust-tracker/packages/metrics/src/label/set.rs:21-24 | inserting into a sorted pair list keeps it sorted, gives the name the new value, keeps every other lookup, and adds one pair only for a new name |
| Labels.PushPairsIsJoin | torrust-tracker/packages/metrics/src/label/set.rs:183-201 | the fold of `to_prometheus` builds the joined pair texts |
| Labels.Empty | torrust-tracker/packages/metrics/src/label/set.rs:16-19 | the empty set is well formed and empty |
| Labels.Singleton | torrust-tracker/packages/metrics/src/label/set.rs:140-148 | the set holds the one pair and nothing else |
| Labels.FromPairs | torrust-tracker/packages/metrics/src/label/set.rs:65-111 | the insertion loop builds a well-formed set in which each name has the value of its last occurrence in the list |
| Labels.EmptyRenderings | torrust-tracker/packages/metrics/src/label/set.rs:46-57 | the empty set displays as "{}" and renders as "" in the Prometheus format |
| Labels.PrometheusIsDisplayForCleanNames | torrust-tracker/packages/metrics/src/label/set.rs:183-201 | for a non-empty set whose names need no sanitising, both renderings agree |
| Labels.TextsAgree | torrust-tracker/packages/metrics/src/label/set.rs:183-201 | when every name is its own sanitised form, the Prometheus pair texts are the display pair texts |
| Labels.MatchesSingleton | torrust-tracker/packages/metrics/src/label/set.rs:37-39 | a one-pair criterion matches exactly the sets containing that pair |
| Labels.MatchesIsPreorder | torrust-tracker/packages/metrics/src/label/set.rs:37-39 | every set matches itself, and matching is transitive |
| Labels.SameLookupsSameSet | torrust-tracker/packages/metrics/src/label/set.rs:21-24 | two well-formed sets with the same lookups are equal, so a set is determined by its contents |
| LabelNames.NewLabelName | torrust-tracker/packages/metrics/src/label/name.rs:15-19 | the empty name is refused, any other name is kept |
| LabelNames.ToPrometheus | torrust-tracker/packages/metrics/src/label/name.rs:39-66 | the output matches `[a-zA-Z_][a-zA-Z0-9_]*` and never starts with exactly two underscores; invalid characters become '_'; a name that would start with exactly two gets a third, the only case in which the length grows |
| LabelNames.ToPrometheusFixedPoints | torrust-tracker/packages/metrics/src/label/name.rs:89-96 | a name is unchanged exactly when it is already valid and does not start with exactly two underscores |
| LabelNames.ToPrometheusIdempotent | torrust-tracker/packages/metrics/src/label/name.rs:39-66 | sanitising a sanitised name changes nothing |
| MetricNames.NewMetricName | torrust-tracker/packages/metrics/src/metric/name.rs:15-19 | the empty name is refused, any other name is kept |
| MetricNames.ToPrometheus | torrust-tracker/packages/metrics/src/metric/name.rs:22-46 | same length; the output is a valid metric name; a character is kept exactly when it is valid at its position, and otherwise becomes '_' |
| MetricNames.ToPrometheusFixedPoints | torrust-tracker/packages/metrics/src/metric/name.rs:70-77 | a name is unchanged exactly when it is already valid |
| MetricNames.ToPrometheusIdempotent | torrust-tracker/packages/metrics/src/metric/name.rs:22-46 | sanitising a sanitised name changes nothing |
| Counters.Counter.Primitive | torrust-tracker/packages/metrics/src/counter.rs:15-23 | `primitive` is `value` |
| Counters.Counter.Increment | torrust-tracker/packages/metrics/src/counter.rs:25-27 | adds `v`, wrapping past 2^64 - 1 |
| Counters.Counter.Absolute | torrust-tracker/packages/metrics/src/counter.rs:29-31 | the counter now holds `v` |
| Counters.Zero | torrust-tracker/packages/metrics/src/counter.rs:6-7 | the default counter is 0 |
| Counters.FromU32 | torrust-tracker/packages/metrics/src/counter.rs:34-38 | widening from `u32` is exact; it is `FromU64` of the widened value and differs from it only in the source type |
| Counters.FromU64 | torrust-tracker/packages/metrics/src/counter.rs:40-44 | the counter holds the `u64`, as `Counter.Absolute` sets it; the two differ only in building versus overwriting |
| Counters.FromI32 | torrust-tracker/packages/metrics/src/counter.rs:46-51 | a non-negative `i32` is kept and a negative one is taken modulo 2^64 |
| Counters.ToU64 | torrust-tracker/packages/metrics/src/counter.rs:53-57 | converting to `u64` gives the primitive value |
| Counters.U64RoundTrip | torrust-tracker/packages/metrics/src/counter.rs:40-57 | `u64` to counter and back is the identity, and so is the converse |
| Counters.IncrementTwice | torrust-tracker/packages/metrics/src/counter.rs:25-27 | two increments are one increment by the sum, modulo 2^64 |
| Counters.AbsoluteOverwrites | torrust-tracker/packages/metrics/src/counter.rs:29-31 | `absolute` after an increment leaves only the absolute value |
| Counters.FromI32Injective | torrust-tracker/packages/metrics/src/counter.rs:46-51 | distinct `i32` values give distinct counters, and a non-negative one agrees with `From<u32>` |
| Samples.SetRecordedAt | torrust-tracker/packages/metrics/src/sample.rs:107-109 | the value is kept and the time is replaced |
| Samples.CounterIncrement | torrust-tracker/packages/metrics/src/sample.rs:124-128 | the counter goes up by one and the time is the given one |
| Samples.CounterAbsolute | torrust-tracker/packages/metrics/src/sample.rs:130-133 | the counter holds `v` and the time is the given one |
| Samples.GaugeSet | torrust-tracker/packages/metrics/src/sample.rs:136-140 | the gauge holds `v` and the time is the given one |
| Samples.GaugeIncrement | torrust-tracker/packages/metrics/src/sample.rs:142-146 | the gauge goes up by one and the time is the given one |
| Samples.GaugeDecrement | torrust-tracker/packages/metrics/src/sample.rs:147-151 | the gauge goes down by one and the time is the given one |
| Samples.NewSample | torrust-tracker/packages/metrics/src/sample.rs:19-48 | the accessors give back the value, time and label set it was built from |
| Samples.IntoPair | torrust-tracker/packages/metrics/src/sample.rs:112-116 | the pair holds the sample's label set and its measurement |
| Samples.IntoPairRoundTrip | torrust-tracker/packages/metrics/src/sample.rs:112-116 | rebuilding a sample from its pair restores it |
| Samples.SampleIncrement | torrust-tracker/packages/metrics/src/sample.rs:61-65 | the measurement is incremented and the labels are kept |
| Samples.CounterSampleToPrometheus | torrust-tracker/packages/metrics/src/sample.rs:51-59 | the rendered labels, a space, then the counter value |
| SampleCollections.SampleCollection.Get | torrust-tracker/packages/metrics/src/sample_collection.rs:45-48 | the measurement stored for the label set, and nothing exactly when none is stored |
| SampleCollections.SampleCollection.Len | torrust-tracker/packages/metrics/src/sample_collection.rs:50-53 | the number of distinct label sets |
| SampleCollections.SampleCollection.IsEmpty | torrust-tracker/packages/metrics/src/sample_collection.rs:55-58 | true exactly when `len` is 0, and so when no label set has a measurement |
| SampleCollections.EmptyCollection | torrust-tracker/packages/metrics/src/sample_collection.rs:27-43 | the default collection is well formed and empty |
| SampleCollections.Entry | torrust-tracker/packages/metrics/src/sample_collection.rs:74-81 | the entry update changes only the given label set, creating it from the initial measurement when absent |
| SampleCollections.IncrementCounter | torrust-tracker/packages/metrics/src/sample_collection.rs:74-81 | an absent label set gets 1 at the given time; a present one is incremented; the others are unchanged; `len` grows only for a new label set |
| SampleCollections.AbsoluteCounter | torrust-tracker/packages/metrics/src/sample_collection.rs:83-90 | the label set gets `v` at the given time, created if absent; the others are unchanged |
| SampleCollections.SetGauge | torrust-tracker/packages/metrics/src/sample_collection.rs:94-101 | the label set gets `v` at the given time; the others are unchanged |
| SampleCollections.IncrementGauge | torrust-tracker/packages/metrics/src/sample_collection.rs:103-110 | the label set's gauge goes up by one, from 0.0 when absent; the others are unchanged |
| SampleCollections.DecrementGauge | torrust-tracker/packages/metrics/src/sample_collection.rs:112-119 | the label set's gauge goes down by one, from 0.0 when absent; the others are unchanged |
| SampleCollections.Pairs | torrust-tracker/packages/metrics/src/sample_collection.rs:27-43 | each sample becomes its pair, in list order |
| SampleCollections.New | torrust-tracker/packages/metrics/src/sample_collection.rs:27-43 | the loop succeeds exactly when no two samples share a label set, and then stores every sample; otherwise it names a repeated label set |
| Metrics.Metric.GetSampleData | torrust-tracker/packages/metrics/src/metric/mod.rs:67-70 | the stored measurement for the label set, and nothing exactly when none is stored |
| Metrics.Metric.NumberOfSamples | torrust-tracker/packages/metrics/src/metric/mod.rs:72-75 | the number of distinct label sets |
| Metrics.Metric.IsEmpty | torrust-tracker/packages/metrics/src/metric/mod.rs:77-80 | true exactly when there are no samples |
| Metrics.Metric.CollectMatchingSamples | torrust-tracker/packages/metrics/src/metric/mod.rs:82-91 | exactly the stored samples whose label set matches the criteria |
| Metrics.MatchingEntriesMembers | torrust-tracker/packages/metrics/src/metric/mod.rs:82-91 | the filter keeps exactly the entries whose label set matches the criteria |
| Metrics.MatchingEntriesUnique | torrust-tracker/packages/metrics/src/metric/mod.rs:82-91 | filtering a collection with unique label sets keeps them unique |
| Metrics.NewMetric | torrust-tracker/packages/metrics/src/metric/mod.rs:34-47 | the metric holds the given name, unit, description and samples |
| Metrics.NewEmptyWithName | torrust-tracker/packages/metrics/src/metric/mod.rs:52-60 | no unit, no description, zero samples, and empty |
| Metrics.IncrementCounter | torrust-tracker/packages/metrics/src/metric/mod.rs:94-97 | only the addressed sample changes: created at 1 or incremented |
| Metrics.AbsoluteCounter | torrust-tracker/packages/metrics/src/metric/mod.rs:99-102 | only the addressed sample changes, and it holds `v` |
| Metrics.SetGauge | torrust-tracker/packages/metrics/src/metric/mod.rs:104-108 | only the addressed sample changes, and it holds `v` |
| Metrics.IncrementGauge | torrust-tracker/packages/metrics/src/metric/mod.rs:109-112 | only the addressed sample changes: its gauge goes up by one, from 0.0 when absent, stamped with the given time |
| Metrics.DecrementGauge | torrust-tracker/packages/metrics/src/metric/mod.rs:113-116 | only the addressed sample changes: its gauge goes down by one, from 0.0 when absent, stamped with the given time |
| Metrics.EmptyCriteriaSumAll | torrust-tracker/packages/metrics/src/metric/aggregate/sum.rs:99-107 | with empty criteria the sum is the total of all samples |
| Metrics.MatchAll | torrust-tracker/packages/metrics/src/metric/aggregate/sum.rs:11-21 | empty criteria keep every sample |
| Metrics.NoMatchSumsToZero | torrust-tracker/packages/metrics/src/metric/aggregate/sum.rs:135-152 | when no sample matches, the sum is 0 |
| Metrics.EmptyMetricSumsToZero | torrust-tracker/packages/metrics/src/metric/aggregate/sum.rs:135-152 | a metric without samples sums to 0 |
| Metrics.SinglePairSum | torrust-tracker/packages/metrics/src/metric/aggregate/sum.rs:117-134 | a one-pair criterion sums exactly the samples carrying that pair, whatever their other labels |
| Metrics.SingleMatchIsCarrying | torrust-tracker/packages/metrics/src/metric/aggregate/sum.rs:117-134 | the samples matching a one-pair criterion are those carrying the pair |
| Metrics.NoMatchNoEntries | torrust-tracker/packages/metrics/src/metric/mod.rs:82-91 | when no label set matches, no sample is collected |
| Metrics.MatchingTotalSnoc | torrust-tracker/packages/metrics/src/metric/aggregate/sum.rs:11-21 | adding a sample raises the sum by its value exactly when it matches |
| Metrics.MatchingTotalReplace | torrust-tracker/packages/metrics/src/metric/aggregate/sum.rs:11-21 | replacing a sample's value changes the sum by the difference exactly when it matches |
| Metrics.IncrementRaisesSum | torrust-tracker/packages/metrics/src/metric/aggregate/sum.rs:11-21 | an increment without wrap-around raises the sum by one exactly when the label set matches the criteria |
| MetricCollections.MetricKindCollection.Insert | torrust-tracker/packages/metrics/src/metric_collection/mod.rs:367-369 | the metric is stored under its name, replacing any metric of that name; the others are kept |
| MetricCollections.MetricKindCollection.InsertIfAbsent | torrust-tracker/packages/metrics/src/metric_collection/mod.rs:361-365 | a metric already stored under the name is never overwritten; otherwise it is an insert |
| MetricCollections.MetricKindCollection.GetValue | torrust-tracker/packages/metrics/src/metric_collection/mod.rs:436-442 | the value of the named metric's sample, present exactly when the metric and the sample exist |
| MetricCollections.EmptyKind | torrust-tracker/packages/metrics/src/metric_collection/mod.rs:331-334 | the default kind collection is empty and well formed |
| MetricCollections.IncrementCounterIn | torrust-tracker/packages/metrics/src/metric_collection/mod.rs:409-417 | the metric is created when absent; the addressed counter becomes one more, or 1; every other value is unchanged |
| MetricCollections.AbsoluteCounterIn | torrust-tracker/packages/metrics/src/metric_collection/mod.rs:426-434 | the addressed counter becomes `v`, creating the metric when absent; every other value is unchanged |
| MetricCollections.SetGaugeIn | torrust-tracker/packages/metrics/src/metric_collection/mod.rs:453-461 | the addressed gauge becomes `v`; every other value is unchanged |
| MetricCollections.IncrementGaugeIn | torrust-tracker/packages/metrics/src/metric_collection/mod.rs:470-478 | the addressed gauge goes up by one, from 0.0; every other value is unchanged |
| MetricCollections.DecrementGaugeIn | torrust-tracker/packages/metrics/src/metric_collection/mod.rs:487-495 | the addressed gauge goes down by one, from 0.0; every other value is unchanged |
| MetricCollections.IncrementTwiceFromScratch | torrust-tracker/packages/metrics/src/metric_collection/mod.rs:954-973 | two increments of a counter that does not exist yet leave it at 2 |
| MetricCollections.NewKindCollection | torrust-tracker/packages/metrics/src/metric_collection/mod.rs:342-354 | the loop succeeds exactly when the names are distinct, and then stores every metric under its name; otherwise it names a repeated name |
| MetricCollections.CheckForNameCollision | torrust-tracker/packages/metrics/src/metric_collection/mod.rs:388-398 | passes exactly when the two name sets are disjoint, and otherwise names a common name |
| MetricCollections.InsertAll | torrust-tracker/packages/metrics/src/metric_collection/mod.rs:378-386 | the insertion loop of `merge` stores every entry of the other collection over the base |
| MetricCollections.UnionValid | torrust-tracker/packages/metrics/src/metric_collection/mod.rs:378-386 | the union of two well-formed kind collections is well formed and holds both name sets |
| MetricCollections.MergeKind | torrust-tracker/packages/metrics/src/metric_collection/mod.rs:378-386 | fails exactly on a common name, with that name; otherwise the result is the union of both collections |
| MetricCollections.MetricCollection.constructor | torrust-tracker/packages/metrics/src/metric_collection/mod.rs:23-27 | the default collection is empty, well formed, and has disjoint names |
| MetricCollections.MetricCollection.New | torrust-tracker/packages/metrics/src/metric_collection/mod.rs:34-47 | fails exactly when a name is both a counter and a gauge, reporting both name sets; otherwise it holds the two kinds |
| MetricCollections.MetricCollection.CheckCrossTypeCollision | torrust-tracker/packages/metrics/src/metric_collection/mod.rs:67-80 | passes exactly when no name of either kind is in the other collection, and otherwise names a common name |
| MetricCollections.MetricCollection.Merge | torrust-tracker/packages/metrics/src/metric_collection/mod.rs:54-59 | fails exactly on a name present in both collections, of either kind, and then nothing changes; otherwise both kinds are the unions and every name of both is present |
| MetricCollections.MetricCollection.DescribeCounter | torrust-tracker/packages/metrics/src/metric_collection/mod.rs:84-90 | the counter is stored, with no samples, so `contains_counter` holds; the gauges are unchanged |
| MetricCollections.MetricCollection.IncrementCounter | torrust-tracker/packages/metrics/src/metric_collection/mod.rs:108-123 | fails with `MetricNameCollisionAdding` exactly when a gauge has the name, and then nothing changes; otherwise the counters are incremented |
| MetricCollections.MetricCollection.SetCounter | torrust-tracker/packages/metrics/src/metric_collection/mod.rs:131-147 | fails exactly when a gauge has the name, changing nothing; otherwise the addressed counter holds `v` |
| MetricCollections.MetricCollection.DescribeGauge | torrust-tracker/packages/metrics/src/metric_collection/mod.rs:151-157 | the gauge is stored, with no samples, so `contains_gauge` holds; the counters are unchanged |
| MetricCollections.MetricCollection.SetGauge | torrust-tracker/packages/metrics/src/metric_collection/mod.rs:173-189 | fails exactly when a counter has the name, changing nothing; otherwise the addressed gauge holds `v` |
| MetricCollections.MetricCollection.IncrementGauge | torrust-tracker/packages/metrics/src/metric_collection/mod.rs:195-210 | fails exactly when a counter has the name, changing nothing; otherwise the gauge goes up by one |
| MetricCollections.MetricCollection.DecrementGauge | torrust-tracker/packages/metrics/src/metric_collection/mod.rs:216-231 | fails exactly when a counter has the name, changing nothing; otherwise the gauge goes down by one |
| PeerIpResolver.ModeToBool | torrust-tracker/packages/http-protocol/src/v1/services/peer_ip_resolver.rs:56-63 | true exactly for `Enabled` |
| PeerIpResolver.ModeFromBool | torrust-tracker/packages/http-protocol/src/v1/services/peer_ip_resolver.rs:65-73 | `Enabled` exactly for true |
| PeerIpResolver.ModeBoolRoundTrip | torrust-tracker/packages/http-protocol/src/v1/services/peer_ip_resolver.rs:56-73 | the two conversions are inverse to each other |
| PeerIpResolver.RemoteClientAddr.Ip | torrust-tracker/packages/http-protocol/src/v1/services/peer_ip_resolver.rs:144-150 | the stored IP, whatever its source tag |
| PeerIpResolver.TryClientIpFromConnectionInfo | torrust-tracker/packages/http-protocol/src/v1/services/peer_ip_resolver.rs:85-93 | the connection IP when there is one, `MissingClientIp` otherwise |
| PeerIpResolver.TryClientIpFromProxyHeader | torrust-tracker/packages/http-protocol/src/v1/services/peer_ip_resolver.rs:95-103 | the right-most forwarded IP when there is one, `MissingRightMostXForwardedForIp` otherwise |
| PeerIpResolver.ClientPortFromConnectionInfo | torrust-tracker/packages/http-protocol/src/v1/services/peer_ip_resolver.rs:105-111 | the connection port exactly when there is a connection address |
| PeerIpResolver.ResolveRemoteClientAddr | torrust-tracker/packages/http-protocol/src/v1/services/peer_ip_resolver.rs:35-47 | behind a proxy the forwarded IP or `MissingRightMostXForwardedForIp`; otherwise the connection IP or `MissingClientIp`; the port is the connection's in both modes |
| PeerIpResolver.OnlyTheConsultedSourceMatters | torrust-tracker/packages/http-protocol/src/v1/services/peer_ip_resolver.rs:35-47 | the source the mode does not consult never changes the outcome |
| ServiceBindings.DisplayStringsDistinct | torrust-tracker/packages/primitives/src/service_binding.rs:10-67 | the display strings "udp"/"http"/"https", "plain"/"v4_mapped_v6" and "inet"/"inet6" name one variant each |
| ServiceBindings.FamilyOf | torrust-tracker/packages/primitives/src/service_binding.rs:69-81 | `Inet` exactly for IPv4 and `Inet6` exactly for IPv6 |
| ServiceBindings.ServiceBinding.BindAddressIpFamily | torrust-tracker/packages/primitives/src/service_binding.rs:163-166 | `Inet` exactly for an IPv4 bind address |
| ServiceBindings.ServiceBinding.BindAddressIpType | torrust-tracker/packages/primitives/src/service_binding.rs:154-161 | `V4MappedV6` exactly for an IPv4-mapped IPv6 address (corrected test, see Findings) |
| ServiceBindings.NewServiceBinding | torrust-tracker/packages/primitives/src/service_binding.rs:135-141 | `PortZeroNotAllowed` exactly for port 0; otherwise protocol and address are stored unchanged |
| ServiceBindings.TextTestAcceptsUnmappedAddress | torrust-tracker/packages/primitives/src/service_binding.rs:177-184 | the address 0:0:0:0:0:0:ffff:1 prints as "::ffff:1" and passes the text test, yet is not IPv4-mapped |
| ServiceBindings.MappedPassesTextTest | torrust-tracker/packages/primitives/src/service_binding.rs:177-184 | every IPv4-mapped address passes the text test, so the two tests differ only by false positives |
| ServiceBindings.ToIpv6Mapped | torrust-tracker/packages/primitives/src/service_binding.rs:255-261 | the mapped address carries the IPv4 address in its low 32 bits |
| ServiceBindings.MappedAddressesClassified | torrust-tracker/packages/primitives/src/service_binding.rs:239-259 | a binding on a mapped address is `V4MappedV6`, and one on an IPv4 address is `Plain` |
| ApiAuth.HeaderText | torrust-tracker/packages/axum-rest-tracker-api-server/src/v1/middlewares/auth.rs:102-104 | a header is readable exactly when every character is visible ASCII or a tab |
| ApiAuth.ExtractBearerTokenFromHeader | torrust-tracker/packages/axum-rest-tracker-api-server/src/v1/middlewares/auth.rs:99-123 | no readable header gives no token; exactly "Bearer" gives ""; "Bearer " gives the remainder; anything else is `UnknownTokenProvided` |
| ApiAuth.BearerRoundTrip | torrust-tracker/packages/axum-rest-tracker-api-server/src/v1/middlewares/auth.rs:114-122 | a header built from a readable token gives that token back |
| ApiAuth.Auth | torrust-tracker/packages/axum-rest-tracker-api-server/src/v1/middlewares/auth.rs:70-97 | header errors pass through; the header token wins over the query token; with neither the result is `Unauthorized`; an accepted token is configured |
| ApiAuth.HeaderTakesPrecedence | torrust-tracker/packages/axum-rest-tracker-api-server/src/v1/middlewares/auth.rs:81-90 | with a header token the query token never matters, and the outcome is decided by `authenticate` |
| ApiAuth.AcceptedIffConfigured | torrust-tracker/packages/axum-rest-tracker-api-server/src/v1/middlewares/auth.rs:92-94 | a provided token passes exactly when it is one of the configured values; otherwise it is `TokenNotValid` |
| IndexSettings.ExtractPublicSettings | torrust-index/src/services/settings.rs:88-111 | `Required`, `Optional` or `NotIncluded` exactly as the registration's email setting says; the website and tracker fields are copied |
| IndexSettings.DefaultEmailOnSignup | torrust-index/src/services/settings.rs:137-141 | the default is `Optional` |
| IndexSettings.ToLowercase | torrust-index/src/services/settings.rs:158 | each character is lower-cased, and the length is kept |
| IndexSettings.ParseEmailOnSignup | torrust-index/src/services/settings.rs:154-167 | exactly "required", "optional" and "none", in any letter case, are accepted, each to its variant; a rejection quotes the input |
| IndexSettings.ToLowercaseIdempotent | torrust-index/src/services/settings.rs:158 | lower-casing twice is lower-casing once |
| IndexSettings.ParseIgnoresCase | torrust-index/src/services/settings.rs:154-167 | a string parses as its lower-case form does |
| IndexSettings.DisplayParseRoundTrip | torrust-index/src/services/settings.rs:143-167 | the displayed form parses back for `Required` and `Optional`; "ignored" does not parse, and "none" is `NotIncluded` |
| IndexSettings.DisplayStringsDistinct | torrust-index/src/services/settings.rs:143-152 | the three display strings are different |

## Left out

- Concurrency. The `SkipMap`, the `Arc<Mutex<…>>` coordinator handles, the locks and `async` are left out, and the registry is a sequential map of coordinator objects.
- The event bus, event senders and tracing calls in the swarm and registry code are not modelled; they change no swarm state.
- SwarmMetadata counters: they are unbounded naturals, so `u32` overflow of `downloaded`, `complete` and `incomplete` is not modelled. That a decrement never underflows is proved.
- Metrics.Sum: the counter sum is an unbounded natural, so `u64` overflow of the sum is not modelled.
- Counters.Counter.Increment: wrap-around past 2^64 - 1 is modelled, as in a release build; a debug build panics there instead.
- Gauges are `real`. The rounding of `f64` is not modelled, and neither is the gauge `Sum`, an `f64` summation.
- Hash map iteration order is unspecified in the source. So the model does not fix the order of `collect_matching_samples`, nor which colliding name a collision error reports; it proves only that the reported name is a colliding one.
- Serialisation is not modelled: serde, JSON and RFC 3339 time stamps, and the Prometheus rendering of whole metrics and metric collections. The Prometheus forms of names, label sets, counters and counter samples are modelled.
- Units and descriptions are optional strings, and `DurationSinceUnixEpoch` is a natural count of time units.
- The source location (`Location::caller()`) carried by the peer, peer-id and resolver errors is not modelled.
- `Id::to_hex_string` always answers `Some` in the model, because `bin2hex` writes only ASCII digits. `get_client_name` uses a peer-id registry crate and is not part of this model.
- ServiceBinding `url` and `Display` rely on the `url` crate and are not part of this model. Rust's `Ipv6Addr` text form, on which `is_v4_mapped_v6` depends, is modelled in module `Net`.
- `SocketAddr` is an IP address and a port. The IPv6 flow label and scope id are not modelled. So two IPv6 socket addresses that differ only in those fields are one peer key here. They are also one requester address for the `!=` test of `peers_excluding` (coordinator.rs:75), where the source tells them apart.
- The API middleware's responses and its forwarding of the request are not modelled; `Auth` answers the accepted token or the error.
- The index configuration types are not part of this model, and Markdown texts are their source strings.
- `to_lowercase` is ASCII-only. For the accepted spellings this is exact, as explained above.
- `TORRENT_PEERS_LIMIT` is 74, the value the registry tests use; the configuration crate is not part of this model.
- MetricCollections.MetricCollection.DescribeCounter: the source does not check the gauges here, nor `describe_gauge` the counters. The model keeps that behaviour: its contract states that a name of the other kind then leaves the two name sets overlapping.
- MetricCollections.MetricCollection.Merge: the model requires `other` to be a different object, as Rust's borrow rules do.

## Findings

| source | as written | input that shows it | evidently intended | confidence | as-written member | corrected member |
|---|---|---|---|---|---|---|
| torrust-tracker/packages/primitives/src/service_binding.rs:177-184 | `is_v4_mapped_v6` tests whether the IPv6 address's text starts with "::ffff:" | 0:0:0:0:0:0:ffff:1 prints as "::ffff:1" and is classified `V4MappedV6`, although it is not in ::ffff:0:0/96 | `V4MappedV6` exactly for IPv4-mapped addresses (`Ipv6Addr::to_ipv4_mapped` is `Some`) | not executed | ServiceBindings.TextTestAcceptsUnmappedAddress | ServiceBindings.ServiceBinding.BindAddressIpType |
