/** The tag state held by the configured clients, and the one mutation the
    cycle performs on it: adding a tag to one torrent on one client
    (`torrents_add_tags`, orpheus.py line 122). The clients themselves, and
    the network between them and the program, are not part of this model. */
module TagStore {
  import opened Torrents

  /** The tags each client holds, keyed by (client name, torrent hash). */
  type TagMap = map<(string, string), set<string>>

  /** The tags of one torrent on one client; none if the key is absent. */
  function TagsOf(m: TagMap, client: string, hash: string): set<string>
  {
    if (client, hash) in m then m[(client, hash)] else {}
  }

  /** The tag state after one call. */
  function WithTag(m: TagMap, c: TagCall): TagMap
  {
    m[(c.client, c.hash) := TagsOf(m, c.client, c.hash) + {c.tag}]
  }

  /** The tag state after a sequence of calls, applied in order. */
  function ApplyCalls(m: TagMap, calls: seq<TagCall>): TagMap
    decreases |calls|
  {
    if calls == [] then m
    else WithTag(ApplyCalls(m, calls[..|calls| - 1]), calls[|calls| - 1])
  }

  /** One more call applies on top of the calls before it. */
  lemma ApplyCallsAppend(m: TagMap, calls: seq<TagCall>, c: TagCall)
    ensures ApplyCalls(m, calls + [c]) == WithTag(ApplyCalls(m, calls), c)
  {
    assert (calls + [c])[..|calls|] == calls;
  }

  /** The (client, hash) keys a sequence of calls addresses. */
  ghost function CallKeys(calls: seq<TagCall>): set<(string, string)>
  {
    set i | 0 <= i < |calls| :: (calls[i].client, calls[i].hash)
  }

  /** Tags only grow: no tag is ever removed, every called tag is present
      afterwards, and a torrent no call addresses keeps exactly its tags. */
  lemma {:induction false} TagsOnlyGrow(m: TagMap, calls: seq<TagCall>)
    ensures forall key :: key in m ==> key in ApplyCalls(m, calls) && m[key] <= ApplyCalls(m, calls)[key]
    ensures forall i :: 0 <= i < |calls| ==>
      calls[i].tag in TagsOf(ApplyCalls(m, calls), calls[i].client, calls[i].hash)
    ensures forall key :: key !in CallKeys(calls) ==>
      (key in ApplyCalls(m, calls) <==> key in m) && (key in m ==> ApplyCalls(m, calls)[key] == m[key])
    decreases |calls|
  {
    if calls != [] {
      var init := calls[..|calls| - 1];
      TagsOnlyGrow(m, init);
      forall i | 0 <= i < |calls|
        ensures calls[i].tag in TagsOf(ApplyCalls(m, calls), calls[i].client, calls[i].hash)
      {
        if i < |calls| - 1 {
          assert init[i] == calls[i];
        }
      }
    }
  }

  /** The configured clients, by name, with the tags they hold. */
  class Clients {
    /** The names of the configured clients. */
    const names: set<string>
    /** The tags each client holds for each of its torrents. */
    var tags: TagMap
    /** Every tag call the clients have received, in order. */
    ghost var log: seq<TagCall>

    constructor (names: set<string>, tags: TagMap)
      ensures this.names == names && this.tags == tags && log == []
    {
      this.names := names;
      this.tags := tags;
      log := [];
    }

    /** Adds `tag` to the torrent `hash` on the client named `client`. */
    method AddTags(client: string, hash: string, tag: string)
      requires client in names
      modifies this
      ensures tags == WithTag(old(tags), TagCall(client, hash, tag))
      ensures log == old(log) + [TagCall(client, hash, tag)]
    {
      tags := WithTag(tags, TagCall(client, hash, tag));
      log := log + [TagCall(client, hash, tag)];
    }
  }
}
