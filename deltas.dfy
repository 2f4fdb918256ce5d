/** The trailing-window upload deltas of one cycle and the history-age
    report (orpheus.py, lines 149-168). The metrics store is not part of this
    model: each query's result is handed in as a sequence of samples. */
module Deltas {
  import opened Torrents
  import opened Assign

  /** The hashes that carry a series in a query result. */
  ghost function HashesOf(results: seq<Sample>): set<string>
  {
    set i | 0 <= i < |results| :: results[i].hash
  }

  /** A query result as dictionary assignments `hash -> value`. */
  function Pairs(results: seq<Sample>): seq<(string, real)>
  {
    seq(|results|, i requires 0 <= i < |results| => (results[i].hash, results[i].value))
  }

  /** The delta dictionary the cycle ends up with: empty when no torrent has
      a 30-day-old sample (the increase query is then not issued), otherwise
      the increase results with later entries overwriting earlier ones. */
  function DeltaMap(fullHistory: set<string>, increase: seq<Sample>): (d: map<string, real>)
    ensures fullHistory == {} ==> d == map[]
    ensures fullHistory != {} ==> d.Keys == HashesOf(increase)
  {
    if fullHistory == {} then map[]
    else
      AssignAllKeys(map[], Pairs(increase));
      PairsKeys(increase);
      AssignAll(map[], Pairs(increase))
  }

  /** The keys a query result assigns are the hashes that carry a series. */
  lemma PairsKeys(results: seq<Sample>)
    ensures KeysOf(Pairs(results)) == HashesOf(results)
  {
    forall h | h in HashesOf(results) ensures h in KeysOf(Pairs(results)) {
      var i :| 0 <= i < |results| && results[i].hash == h;
      assert Pairs(results)[i].0 == h;
    }
  }

  /** Collects the hashes that have a sample 30 days back. The set is empty
      exactly when that query returned nothing. */
  method FullHistoryHashes(history: seq<Sample>) returns (hashes: set<string>)
    ensures hashes == HashesOf(history)
    ensures hashes == {} <==> history == []
  {
    hashes := {};
    for i := 0 to |history|
      invariant hashes == HashesOf(history[..i])
    {
      assert HashesOf(history[..i + 1]) == HashesOf(history[..i]) + {history[i].hash} by {
        assert forall k :: 0 <= k < i ==> history[..i + 1][k] == history[..i][k];
        assert history[..i + 1][i] == history[i];
      }
      hashes := hashes + {history[i].hash};
    }
    assert history[..|history|] == history;
    if history != [] {
      assert history[0].hash in hashes;
    }
  }

  /** Builds the delta dictionary. `issued` tells whether the windowed
      increase query was sent at all; `increase` is what it returned. */
  method BuildDeltas(fullHistory: set<string>, increase: seq<Sample>)
    returns (deltas: map<string, real>, issued: bool)
    ensures issued <==> fullHistory != {}
    ensures deltas == DeltaMap(fullHistory, increase)
  {
    deltas := map[];
    issued := fullHistory != {};
    if issued {
      for i := 0 to |increase|
        invariant deltas == AssignAll(map[], Pairs(increase[..i]))
      {
        assert Pairs(increase[..i + 1])[..i] == Pairs(increase[..i]);
        deltas := deltas[increase[i].hash := increase[i].value];
      }
      assert increase[..|increase|] == increase;
    }
  }

  /** The keys of the delta dictionary are exactly the hashes the increase
      query returned (none if it was not issued), and each hash holds the value
      of its last series. */
  lemma {:induction false} DeltaMapContents(fullHistory: set<string>, increase: seq<Sample>)
    ensures fullHistory == {} ==> DeltaMap(fullHistory, increase) == map[]
    ensures fullHistory != {} ==> DeltaMap(fullHistory, increase).Keys == HashesOf(increase)
    ensures fullHistory != {} ==>
      forall i :: 0 <= i < |increase| && (forall j :: i < j < |increase| ==> increase[j].hash != increase[i].hash) ==>
        DeltaMap(fullHistory, increase)[increase[i].hash] == increase[i].value
  {
    if fullHistory != {} {
      var kvs := Pairs(increase);
      forall i | 0 <= i < |increase| && (forall j :: i < j < |increase| ==> increase[j].hash != increase[i].hash)
        ensures DeltaMap(fullHistory, increase)[increase[i].hash] == increase[i].value
      {
        AssignAllLastWins(map[], kvs, i);
      }
    }
  }

  /** How many tracked torrents first appear in each age band of the sample
      history: more than 30 days, 28-30, 21-28, 14-21, 7-14 and under 7. */
  datatype HistoryAges = HistoryAges(d30: int, d28: int, d21: int, d14: int, d7: int, d0: int)

  /** The age bands from the series counts at offsets 30, 28, 21, 14, 7 and
      0 days, each band subtracting all the bands before it. */
  function Buckets(c30: nat, c28: nat, c21: nat, c14: nat, c7: nat, c0: nat): (b: HistoryAges)
    ensures b.d30 == c30
    ensures b.d28 == c28 - c30 && b.d21 == c21 - c28 && b.d14 == c14 - c21
    ensures b.d7 == c7 - c14 && b.d0 == c0 - c7
    ensures b.d30 + b.d28 + b.d21 + b.d14 + b.d7 + b.d0 == c0
  {
    var d30 := c30;
    var d28 := c28 - d30;
    var d21 := c21 - d30 - d28;
    var d14 := c14 - d30 - d28 - d21;
    var d7 := c7 - d30 - d28 - d21 - d14;
    var d0 := c0 - d30 - d28 - d21 - d14 - d7;
    HistoryAges(d30, d28, d21, d14, d7, d0)
  }
}
