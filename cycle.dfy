/** One cycle of `fetch_metrics` (orpheus.py, lines 134-176): list every
    configured client's torrents, derive the deltas and the history-age
    report from the metrics store's answers, score, sort, and run the
    reclamation pass. */
module Cycle {
  import opened Tags
  import opened Torrents
  import opened TagStore
  import opened Assign
  import opened Deltas
  import opened Scoring
  import opened Ordering
  import opened Planner

  /** The metrics store's answers for one cycle: the upload series as they
      stood 30, 28, 21, 14 and 7 days ago and now, and the windowed increase
      over the full-history hashes (read only when that query is sent). */
  datatype HistoryAnswers = HistoryAnswers(
    offset30: seq<Sample>,
    offset28: seq<Sample>,
    offset21: seq<Sample>,
    offset14: seq<Sample>,
    offset7: seq<Sample>,
    current: seq<Sample>,
    increase: seq<Sample>)

  /** A client's listing with the client's name written into every record. */
  function Stamped(l: Listing): seq<Torrent>
  {
    seq(|l.torrents|, i requires 0 <= i < |l.torrents| => l.torrents[i].(client := l.client))
  }

  /** All listings' torrents in client order, each stamped with its client. */
  function Collected(listings: seq<Listing>): (r: seq<Torrent>)
    ensures |r| == ListedCount(listings)
    decreases |listings|
  {
    if listings == [] then []
    else
      ListedCountLast(listings);
      Collected(listings[..|listings| - 1]) + Stamped(listings[|listings| - 1])
  }

  /** How many torrents the listings report, client by client from the front. */
  function ListedCount(listings: seq<Listing>): nat
  {
    if listings == [] then 0 else |listings[0].torrents| + ListedCount(listings[1..])
  }

  /** Counting from the front agrees with counting the last listing last. */
  lemma {:induction false} ListedCountLast(listings: seq<Listing>)
    requires listings != []
    ensures ListedCount(listings) == ListedCount(listings[..|listings| - 1]) + |listings[|listings| - 1].torrents|
    decreases |listings|
  {
    if |listings| == 1 {
      assert listings[1..] == [];
    } else {
      var init := listings[..|listings| - 1];
      ListedCountLast(listings[1..]);
      assert listings[1..][..|listings| - 2] == init[1..];
      assert init[0] == listings[0];
    }
  }

  /** How many torrents of `s` are eligible for removal. */
  function MetCount(s: seq<Torrent>): nat
  {
    if s == [] then 0 else MetCount(s[..|s| - 1]) + (if HasMet(s[|s| - 1]) then 1 else 0)
  }

  /** The declared sizes of the eligible torrents of `s`, summed. */
  function MetSize(s: seq<Torrent>): nat
  {
    if s == [] then 0 else MetSize(s[..|s| - 1]) + (if HasMet(s[|s| - 1]) then s[|s| - 1].totalSize else 0)
  }

  /** Appending a torrent adds it to the eligible tallies when it is eligible. */
  lemma MetAppend(s: seq<Torrent>, t: Torrent)
    ensures MetCount(s + [t]) == MetCount(s) + (if HasMet(t) then 1 else 0)
    ensures MetSize(s + [t]) == MetSize(s) + (if HasMet(t) then t.totalSize else 0)
  {
    assert (s + [t])[..|s|] == s;
  }

  /** Stamping one more record of a listing appends it. */
  lemma StampedGrows(before: seq<Torrent>, l: Listing, j: nat)
    requires j < |l.torrents|
    ensures before + Stamped(l)[..j + 1] == before + Stamped(l)[..j] + [l.torrents[j].(client := l.client)]
  {
    assert Stamped(l)[..j + 1] == Stamped(l)[..j] + [Stamped(l)[j]];
  }

  /** Collecting one more listing appends its stamped records. */
  lemma CollectedGrows(listings: seq<Listing>, i: nat)
    requires i < |listings|
    ensures Collected(listings[..i + 1]) == Collected(listings[..i]) + Stamped(listings[i])[..|listings[i].torrents|]
  {
    assert listings[..i + 1][..i] == listings[..i];
    assert Stamped(listings[i])[..|listings[i].torrents|] == Stamped(listings[i]);
  }

  /** Every collected torrent carries the name of a listed client, and the
      collection holds every listed torrent. */
  lemma {:induction false} CollectedClients(listings: seq<Listing>)
    ensures forall t :: t in Collected(listings) ==> exists i :: 0 <= i < |listings| && t.client == listings[i].client
    ensures forall i, j :: 0 <= i < |listings| && 0 <= j < |listings[i].torrents| ==>
      listings[i].torrents[j].(client := listings[i].client) in Collected(listings)
    decreases |listings|
  {
    if listings != [] {
      var init := listings[..|listings| - 1];
      var last := listings[|listings| - 1];
      CollectedClients(init);
      forall t | t in Collected(listings)
        ensures exists i :: 0 <= i < |listings| && t.client == listings[i].client
      {
        if t in Collected(init) {
          var i :| 0 <= i < |init| && t.client == init[i].client;
          assert listings[i] == init[i];
        } else {
          assert t in Stamped(last);
        }
      }
      forall i, j | 0 <= i < |listings| && 0 <= j < |listings[i].torrents|
        ensures listings[i].torrents[j].(client := listings[i].client) in Collected(listings)
      {
        if i < |listings| - 1 {
          assert listings[i] == init[i];
        } else {
          assert Stamped(last)[j] == listings[i].torrents[j].(client := listings[i].client);
        }
      }
    }
  }

  /** The eligible count of any list is the number of eligible indices the
      reclamation pass walks over it. */
  lemma {:induction false} MetCountIsEligible(ts: seq<Torrent>, n: nat)
    requires n <= |ts|
    ensures MetCount(ts[..n]) == |EligibleBelow(ts, n)|
  {
    if n > 0 {
      MetCountIsEligible(ts, n - 1);
      assert ts[..n] == ts[..n - 1] + [ts[n - 1]];
      MetAppend(ts[..n - 1], ts[n - 1]);
    }
  }

  /** One more torrent adds its size to both tallies when it is eligible. */
  lemma EligibleSizeStep(ts: seq<Torrent>, n: nat)
    requires 0 < n <= |ts|
    requires MetSize(ts[..n - 1]) == SizeOf(ts, EligibleBelow(ts, n - 1))
    ensures MetSize(ts[..n]) == SizeOf(ts, EligibleBelow(ts, n))
  {
    var before, t := ts[..n - 1], ts[n - 1];
    assert ts[..n] == before + [t];
    MetAppend(before, t);
    var e := EligibleBelow(ts, n - 1);
    if HasMet(t) {
      assert EligibleBelow(ts, n) == e + [n - 1];
      CountOneMore(ts, e, n - 1);
      assert MetSize(ts[..n]) == MetSize(before) + t.totalSize;
    } else {
      assert EligibleBelow(ts, n) == e;
      assert MetSize(ts[..n]) == MetSize(before);
    }
  }

  /** The eligible size of any list is the summed size of the eligible
      indices the reclamation pass walks over it. */
  lemma {:induction false} MetSizeIsEligible(ts: seq<Torrent>, n: nat)
    requires n <= |ts|
    ensures MetSize(ts[..n]) == SizeOf(ts, EligibleBelow(ts, n))
  {
    if n > 0 {
      MetSizeIsEligible(ts, n - 1);
      EligibleSizeStep(ts, n);
    } else {
      assert ts[..n] == [];
    }
  }

  lemma {:induction false} SizeOfPrefix(ts: seq<Torrent>, idx: seq<nat>, m: nat)
    requires Indices(ts, idx) && m <= |idx|
    ensures SizeOf(ts, idx[..m]) <= SizeOf(ts, idx)
    decreases |idx|
  {
    if m < |idx| {
      var init := idx[..|idx| - 1];
      assert idx[..m] == init[..m];
      SizeOfPrefix(ts, init, m);
    } else {
      assert idx[..m] == idx;
    }
  }

  /** The bytes a pass expects to reclaim never exceed the eligible size of
      the list it walks. */
  lemma ReclaimedAtMostMetSize(ts: seq<Torrent>, deficit: real, known: set<string>)
    ensures Run(ts, |ts|, deficit, known).reclaimed <= MetSize(ts)
  {
    var st := Run(ts, |ts|, deficit, known);
    var e := EligibleBelow(ts, |ts|);
    PassCountsShortestCoveringPrefix(ts, deficit, known);
    MetSizeIsEligible(ts, |ts|);
    assert ts[..|ts|] == ts;
    SizeOfPrefix(ts, e, |st.counted|);
  }

  /** The tallies of a concatenation are the sums of the parts' tallies. */
  lemma {:induction false} MetConcat(a: seq<Torrent>, b: seq<Torrent>)
    ensures MetCount(a + b) == MetCount(a) + MetCount(b)
    ensures MetSize(a + b) == MetSize(a) + MetSize(b)
    decreases |b|
  {
    if b == [] {
      assert a + b == a;
    } else {
      var init, x := b[..|b| - 1], b[|b| - 1];
      assert b == init + [x];
      assert a + b == (a + init) + [x];
      MetConcat(a, init);
      MetAppend(a + init, x);
      MetAppend(init, x);
    }
  }

  /** Taking the record at `k` out of `r` takes it out of the tallies. */
  lemma {:induction false} MetRemove(r: seq<Torrent>, k: nat)
    requires k < |r|
    ensures MetCount(r) == MetCount(r[..k] + r[k + 1..]) + (if HasMet(r[k]) then 1 else 0)
    ensures MetSize(r) == MetSize(r[..k] + r[k + 1..]) + (if HasMet(r[k]) then r[k].totalSize else 0)
  {
    var before, x, after := r[..k], r[k], r[k + 1..];
    assert MetCount(r) == MetCount(before + [x]) + MetCount(after)
        && MetSize(r) == MetSize(before + [x]) + MetSize(after) by {
      assert r == before + [x] + after;
      MetConcat(before + [x], after);
    }
    MetAppend(before, x);
    MetConcat(before, after);
  }

  /** Taking the last record out of `s` and one equal record out of `r`
      keeps the two lists permutations of each other. */
  lemma RemoveMatching(s: seq<Torrent>, r: seq<Torrent>, k: nat)
    requires multiset(s) == multiset(r) && s != []
    requires k < |r| && r[k] == s[|s| - 1]
    ensures multiset(s[..|s| - 1]) == multiset(r[..k] + r[k + 1..])
  {
    var init, before, after := s[..|s| - 1], r[..k], r[k + 1..];
    assert s == init + [s[|s| - 1]];
    assert r == before + [r[k]] + after;
    assert multiset(s) == multiset(init) + multiset{r[k]};
    assert multiset(r) == multiset(before) + multiset{r[k]} + multiset(after);
    assert multiset(before + after) == multiset(before) + multiset(after);
    assert multiset(init) == multiset(s) - multiset{r[k]};
    assert multiset(before + after) == multiset(r) - multiset{r[k]};
  }

  /** The tallies do not depend on the order of the records. */
  lemma {:induction false} MetPermutes(s: seq<Torrent>, r: seq<Torrent>)
    requires multiset(s) == multiset(r)
    ensures MetCount(s) == MetCount(r) && MetSize(s) == MetSize(r)
    decreases |s|
  {
    if s == [] {
      assert |r| == |multiset(r)| == 0;
    } else {
      var x := s[|s| - 1];
      assert x in multiset(r) by {
        assert x in s;
      }
      var k :| 0 <= k < |r| && r[k] == x;
      RemoveMatching(s, r, k);
      MetPermutes(s[..|s| - 1], r[..k] + r[k + 1..]);
      MetRemove(r, k);
    }
  }

  /** Writing the scores changes neither tally: scoring keeps every record's
      tags and size. */
  lemma {:induction false} ScoredKeepsTallies(ts: seq<Torrent>, deltas: map<string, real>, score: ScoreFn)
    ensures MetCount(Scored(ts, deltas, score)) == MetCount(ts)
    ensures MetSize(Scored(ts, deltas, score)) == MetSize(ts)
    decreases |ts|
  {
    var s := Scored(ts, deltas, score);
    if ts == [] {
      assert s == [];
    } else {
      var n := |ts| - 1;
      assert s[..n] == Scored(ts[..n], deltas, score);
      ScoredKeepsTallies(ts[..n], deltas, score);
      assert s[n].tags == ts[n].tags && s[n].totalSize == ts[n].totalSize;
    }
  }

  /** The tallies the cycle logs belong to the list the pass walks: the
      eligible count and size of the collection are the number and summed
      size of the eligible indices of the scored, sorted list, so the pass
      never expects to reclaim more than the logged reclaimable size. */
  lemma {:induction false} LoggedTalliesArePassEligible(listings: seq<Listing>, deltas: map<string, real>, score: ScoreFn,
                                                       deficit: real, known: set<string>)
    ensures var ordered := SortByScore(Scored(Collected(listings), deltas, score));
      && MetCount(Collected(listings)) == |EligibleBelow(ordered, |ordered|)|
      && MetSize(Collected(listings)) == SizeOf(ordered, EligibleBelow(ordered, |ordered|))
      && Run(ordered, |ordered|, deficit, known).reclaimed <= MetSize(Collected(listings))
  {
    var collected := Collected(listings);
    var scored := Scored(collected, deltas, score);
    var ordered := SortByScore(scored);
    ScoredKeepsTallies(collected, deltas, score);
    SortPermutes(scored);
    MetPermutes(scored, ordered);
    MetCountIsEligible(ordered, |ordered|);
    MetSizeIsEligible(ordered, |ordered|);
    assert ordered[..|ordered|] == ordered;
    ReclaimedAtMostMetSize(ordered, deficit, known);
  }

  /** Sorting the scored collection keeps every torrent's client, so each
      one the pass reaches names a configured client. */
  lemma OrderedClientsKnown(listings: seq<Listing>, deltas: map<string, real>, score: ScoreFn, known: set<string>)
    requires forall i :: 0 <= i < |listings| ==> listings[i].client in known
    ensures var ordered := SortByScore(Scored(Collected(listings), deltas, score));
      forall k :: 0 <= k < |ordered| ==> ordered[k].client in known
  {
    var collected := Collected(listings);
    var scored := Scored(collected, deltas, score);
    var ordered := SortByScore(scored);
    CollectedClients(listings);
    SortByScoreSpec(scored);
    forall k | 0 <= k < |ordered| ensures ordered[k].client in known {
      assert ordered[k] in multiset(scored);
      var j :| 0 <= j < |scored| && scored[j] == ordered[k];
      assert collected[j] in collected;
    }
  }

  /** The cycle tags the lowest-scored eligible torrents: on the list it
      hands to the pass, every torrent the pass counts scores no higher than
      any eligible torrent the pass leaves alone. */
  lemma PassTakesLowestScores(listings: seq<Listing>, deltas: map<string, real>, score: ScoreFn,
                              deficit: real, known: set<string>, a: nat, b: nat)
    requires var ordered := SortByScore(Scored(Collected(listings), deltas, score));
      var counted := Run(ordered, |ordered|, deficit, known).counted;
      && a < |ordered| && a in counted
      && b < |ordered| && HasMet(ordered[b]) && b !in counted
    ensures var ordered := SortByScore(Scored(Collected(listings), deltas, score));
      ordered[a].score <= ordered[b].score
  {
    var ordered := SortByScore(Scored(Collected(listings), deltas, score));
    SortSorted(Scored(Collected(listings), deltas, score));
    CountedAreLowest(ordered, deficit, known, a, b);
  }

  /** Lists every client's torrents in order, stamping each with its client's
      name, and tallies the eligible ones. */
  method CollectTorrents(listings: seq<Listing>) returns (torrents: seq<Torrent>, metCount: nat, metSize: nat)
    ensures torrents == Collected(listings)
    ensures metCount == MetCount(torrents) && metSize == MetSize(torrents)
  {
    torrents, metCount, metSize := [], 0, 0;
    for i := 0 to |listings|
      invariant torrents == Collected(listings[..i])
      invariant metCount == MetCount(torrents) && metSize == MetSize(torrents)
    {
      var l := listings[i];
      ghost var before := torrents;
      for j := 0 to |l.torrents|
        invariant torrents == before + Stamped(l)[..j]
        invariant metCount == MetCount(torrents) && metSize == MetSize(torrents)
      {
        var t := l.torrents[j].(client := l.client);
        StampedGrows(before, l, j);
        MetAppend(torrents, t);
        torrents := torrents + [t];
        if Occurs(MET_TAG, t.tags) {
          metCount := metCount + 1;
          metSize := metSize + t.totalSize;
        }
      }
      CollectedGrows(listings, i);
    }
    assert listings[..|listings|] == listings;
  }

  /** One cycle. The listings are what the configured clients report, in
      configuration order; `answers` are the metrics store's answers; `score`
      is the scoring function with this cycle's clock. Returns the history-age
      report, the deltas, the gauge after publication, the ordered list the
      pass walked, and how the pass ended. */
  method FetchMetrics(listings: seq<Listing>, answers: HistoryAnswers, score: ScoreFn,
                      gauge: map<(string, string), nat>, total: nat, free: nat, clients: Clients)
    returns (ages: HistoryAges, deltas: map<string, real>, published: map<(string, string), nat>,
             ordered: seq<Torrent>, outcome: Outcome)
    requires forall i :: 0 <= i < |listings| ==> listings[i].client in clients.names
    modifies clients
    ensures ages == Buckets(|answers.offset30|, |answers.offset28|, |answers.offset21|,
                            |answers.offset14|, |answers.offset7|, |answers.current|)
    ensures deltas == DeltaMap(HashesOf(answers.offset30), answers.increase)
    ensures published == AssignAll(gauge, Readings(Collected(listings)))
    ensures ordered == SortByScore(Scored(Collected(listings), deltas, score))
    ensures SortedByScore(ordered)
    ensures multiset(ordered) == multiset(Scored(Collected(listings), deltas, score))
    ensures !outcome.UnknownClient?
    ensures free as real < Limit(total) ==>
      var st := Run(ordered, |ordered|, Limit(total) - free as real, clients.names);
      && outcome == Finish(st)
      && clients.tags == ApplyCalls(old(clients.tags), st.calls)
      && clients.log == old(clients.log) + st.calls
    ensures total == 0 ==>
      outcome == UsageUndefined && clients.tags == old(clients.tags) && clients.log == old(clients.log)
    ensures 0 < total && Limit(total) <= free as real ==>
      outcome == EnoughSpace && clients.tags == old(clients.tags) && clients.log == old(clients.log)
  {
    var torrents, metCount, metSize := CollectTorrents(listings);

    var fullHistory := FullHistoryHashes(answers.offset30);
    var issued;
    deltas, issued := BuildDeltas(fullHistory, answers.increase);

    ages := Buckets(|answers.offset30|, |answers.offset28|, |answers.offset21|,
                    |answers.offset14|, |answers.offset7|, |answers.current|);

    torrents, published := ProcessTorrents(torrents, deltas, score, gauge);
    ordered := SortByScore(torrents);
    SortByScoreSpec(torrents);

    OrderedClientsKnown(listings, deltas, score, clients.names);
    outcome := ManageDiskSpace(ordered, total, free, clients);
  }
}
