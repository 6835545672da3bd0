/**
 * Per-torrent swarm statistics (the scrape dictionary of BitTorrent
 * Enhancement Proposal 48) and their aggregate over all torrents.
 */
module SwarmMetadataPrimitives {

  /**
   * `SwarmMetadata`: `downloaded` counts the peers that ever completed the
   * download, `complete` the current seeders and `incomplete` the current
   * leechers.
   */
  datatype SwarmMetadata = SwarmMetadata(downloaded: nat, complete: nat, incomplete: nat)
  {
    function Downloads(): nat
    {
      downloaded
    }

    function Seeders(): nat
    {
      complete
    }

    function Leechers(): nat
    {
      incomplete
    }
  }

  /** `SwarmMetadata::zeroed`, which is also its `Default`. */
  function Zeroed(): (r: SwarmMetadata)
    ensures r.downloaded == 0 && r.complete == 0 && r.incomplete == 0
  {
    SwarmMetadata(0, 0, 0)
  }

  datatype AggregateActiveSwarmMetadata = AggregateActiveSwarmMetadata(
    totalDownloaded: nat,
    totalComplete: nat,
    totalIncomplete: nat,
    totalTorrents: nat)

  function DefaultAggregate(): AggregateActiveSwarmMetadata
  {
    AggregateActiveSwarmMetadata(0, 0, 0, 0)
  }

  /** `a += b`: the value of `a` after `add_assign`, each of the four totals added separately. */
  function AddAssign(a: AggregateActiveSwarmMetadata, b: AggregateActiveSwarmMetadata): AggregateActiveSwarmMetadata
  {
    AggregateActiveSwarmMetadata(
      a.totalDownloaded + b.totalDownloaded,
      a.totalComplete + b.totalComplete,
      a.totalIncomplete + b.totalIncomplete,
      a.totalTorrents + b.totalTorrents)
  }

  /** Adding the default aggregate changes nothing, from either side. */
  lemma AddDefaultIsIdentity(a: AggregateActiveSwarmMetadata)
    ensures AddAssign(a, DefaultAggregate()) == a
    ensures AddAssign(DefaultAggregate(), a) == a
  {
  }

  /** The order in which aggregates are added does not matter. */
  lemma AddAssignCommutesAndAssociates(a: AggregateActiveSwarmMetadata, b: AggregateActiveSwarmMetadata, c: AggregateActiveSwarmMetadata)
    ensures AddAssign(a, b) == AddAssign(b, a)
    ensures AddAssign(AddAssign(a, b), c) == AddAssign(a, AddAssign(b, c))
  {
  }
}
