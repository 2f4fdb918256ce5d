/** The scoring pass of one cycle (orpheus.py, lines 70-86): each torrent's
    effective download and upload, its score written into the record, and
    its raw upload counter published to the gauge. */
module Scoring {
  import opened Torrents
  import opened Assign
  import opened Deltas

  /** calculate_score(downloaded, uploaded, seeding_time, last_activity), with
      the wall clock it reads already fixed for the cycle. Its floating-point
      arithmetic is not part of this model; it is any function of the four
      inputs. */
  type ScoreFn = (nat, real, nat, int) -> real

  /** The larger of the downloaded counter and the declared size. */
  function EffectiveDownloaded(t: Torrent): (d: nat)
    ensures d >= t.downloaded && d >= t.totalSize
    ensures d == t.downloaded || d == t.totalSize
  {
    if t.downloaded >= t.totalSize then t.downloaded else t.totalSize
  }

  /** The delta recorded for the torrent's hash, or else its raw counter. */
  function EffectiveUpload(t: Torrent, deltas: map<string, real>): (u: real)
    ensures u == t.uploaded as real || u in deltas.Values
    ensures t.hash !in deltas ==> u == t.uploaded as real
  {
    if t.hash in deltas then deltas[t.hash] else t.uploaded as real
  }

  /** The score the cycle writes into the record of `t`. */
  function ScoreOf(t: Torrent, deltas: map<string, real>, score: ScoreFn): real
  {
    score(EffectiveDownloaded(t), EffectiveUpload(t, deltas), t.seedingTime, t.lastActivity)
  }

  /** The list after the scoring pass: each record with its score written. */
  function Scored(torrents: seq<Torrent>, deltas: map<string, real>, score: ScoreFn): seq<Torrent>
  {
    seq(|torrents|, i requires 0 <= i < |torrents| => torrents[i].(score := ScoreOf(torrents[i], deltas, score)))
  }

  /** The gauge writes of the pass: `(name, hash) -> uploaded`, in list order. */
  function Readings(torrents: seq<Torrent>): seq<((string, string), nat)>
  {
    seq(|torrents|, i requires 0 <= i < |torrents| => ((torrents[i].name, torrents[i].hash), torrents[i].uploaded))
  }

  /** Scores every torrent in place and publishes its raw upload counter.
      Only the score field changes, and every record gets one; the gauge
      receives one write per torrent in list order. */
  method ProcessTorrents(torrents: seq<Torrent>, deltas: map<string, real>, score: ScoreFn,
                         gauge: map<(string, string), nat>)
    returns (scored: seq<Torrent>, published: map<(string, string), nat>)
    ensures |scored| == |torrents|
    ensures forall i :: 0 <= i < |torrents| ==>
      scored[i] == torrents[i].(score := ScoreOf(torrents[i], deltas, score))
    ensures scored == Scored(torrents, deltas, score)
    ensures published == AssignAll(gauge, Readings(torrents))
  {
    scored, published := torrents, gauge;
    for i := 0 to |torrents|
      invariant |scored| == |torrents|
      invariant forall k :: 0 <= k < i ==> scored[k] == torrents[k].(score := ScoreOf(torrents[k], deltas, score))
      invariant forall k :: i <= k < |torrents| ==> scored[k] == torrents[k]
      invariant published == AssignAll(gauge, Readings(torrents[..i]))
    {
      var t := scored[i];
      var effectiveDownloaded := EffectiveDownloaded(t);
      var effectiveUpload := EffectiveUpload(t, deltas);
      scored := scored[i := t.(score := score(effectiveDownloaded, effectiveUpload, t.seedingTime, t.lastActivity))];
      assert Readings(torrents[..i + 1])[..i] == Readings(torrents[..i]);
      published := published[(t.name, t.hash) := t.uploaded];
    }
    assert torrents[..|torrents|] == torrents;
  }

  /** Where the effective upload comes from: the raw counter when the
      increase query was not issued or returned no series for the hash, and
      otherwise the value of the hash's last series. */
  lemma EffectiveUploadSource(fullHistory: set<string>, increase: seq<Sample>, t: Torrent)
    ensures fullHistory == {} ==> EffectiveUpload(t, DeltaMap(fullHistory, increase)) == t.uploaded as real
    ensures fullHistory != {} && t.hash !in HashesOf(increase) ==>
      EffectiveUpload(t, DeltaMap(fullHistory, increase)) == t.uploaded as real
    ensures fullHistory != {} ==>
      forall i :: 0 <= i < |increase| && increase[i].hash == t.hash &&
                  (forall j :: i < j < |increase| ==> increase[j].hash != t.hash) ==>
        EffectiveUpload(t, DeltaMap(fullHistory, increase)) == increase[i].value
  {
    DeltaMapContents(fullHistory, increase);
  }

  /** The fallback law: the increase query is filtered to the full-history
      hashes, so a torrent without a 30-day-old sample is scored on its raw
      upload counter. */
  lemma FallbackOutsideFullHistory(fullHistory: set<string>, increase: seq<Sample>, t: Torrent)
    requires HashesOf(increase) <= fullHistory
    requires t.hash !in fullHistory
    ensures EffectiveUpload(t, DeltaMap(fullHistory, increase)) == t.uploaded as real
  {
    EffectiveUploadSource(fullHistory, increase, t);
  }

  /** The gauge holds each torrent's RAW upload counter under its name and
      hash, whatever delta was used for its score; other series keep their
      values. */
  lemma {:induction false} PublishedRawCounter(gauge: map<(string, string), nat>, torrents: seq<Torrent>, i: int)
    requires 0 <= i < |torrents|
    requires forall j :: i < j < |torrents| ==>
      (torrents[j].name, torrents[j].hash) != (torrents[i].name, torrents[i].hash)
    ensures var key := (torrents[i].name, torrents[i].hash);
      key in AssignAll(gauge, Readings(torrents)) && AssignAll(gauge, Readings(torrents))[key] == torrents[i].uploaded
  {
    AssignAllLastWins(gauge, Readings(torrents), i);
  }

  /** A series no torrent of the cycle names keeps its previous value. */
  lemma PublishedElsewhere(gauge: map<(string, string), nat>, torrents: seq<Torrent>, key: (string, string))
    requires forall j :: 0 <= j < |torrents| ==> (torrents[j].name, torrents[j].hash) != key
    ensures key in AssignAll(gauge, Readings(torrents)) <==> key in gauge
    ensures key in gauge ==> AssignAll(gauge, Readings(torrents))[key] == gauge[key]
  {
    AssignAllElsewhere(gauge, Readings(torrents), key);
  }
}
