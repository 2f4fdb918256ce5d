/** The records one cycle works on: a torrent as the client reports it, the
    pairs returned by the metrics store, and the tag calls sent to a client. */
module Torrents {
  import opened Tags

  /** One torrent of one client, with the fields the cycle reads.
      `client` is the name of the configured client the torrent was listed
      from (written by the cycle after listing); `score` is the retention score
      written once per cycle before sorting. Byte counts and seeding time are
      non-negative; timestamps are epoch seconds. */
  datatype Torrent = Torrent(
    name: string,
    hash: string,
    client: string,
    category: string,
    tags: string,
    downloaded: nat,
    uploaded: nat,
    totalSize: nat,
    seedingTime: nat,
    lastActivity: int,
    addedOn: int,
    score: real)

  /** One series of a metrics query result: the `hash` label and the value. */
  datatype Sample = Sample(hash: string, value: real)

  /** The torrents one configured client lists, under that client's name. */
  datatype Listing = Listing(client: string, torrents: seq<Torrent>)

  /** A request to a named client to add `tag` to the torrent with `hash`. */
  datatype TagCall = TagCall(client: string, hash: string, tag: string)

  /** The eligibility test: the marker `met` occurs in the tag string. */
  predicate HasMet(t: Torrent)
  {
    Occurs(MET_TAG, t.tags)
  }

  /** The already-marked test: the marker `remove` occurs in the tag string. */
  predicate HasRemove(t: Torrent)
  {
    Occurs(REMOVE_TAG, t.tags)
  }

  /** The call that marks `t` for removal on its own client. */
  function RemoveCall(t: Torrent): TagCall
  {
    TagCall(t.client, t.hash, REMOVE_TAG)
  }
}
