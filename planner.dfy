/** The greedy reclamation pass, `manage_disk_space` (orpheus.py, lines
    89-131). When free space is below a fifth of the volume, it walks the
    score-ordered torrents once, counts the eligible ones (tag string holding
    `met`) towards the deficit, sends a `remove` tag call for each one not
    already marked, and stops as soon as the deficit is covered.

    The pass is specified as a state machine: `Step` is one iteration of the
    loop and `Run` the state after the first `n` torrents. The method
    `ManageDiskSpace` is proved to follow `Run`, and the lemmas say what `Run`
    guarantees: the accounting, the eligible indices counted (a prefix of the
    eligible ones, cut at the first point the deficit is covered), and the
    calls sent. */
module Planner {
  import opened Wrappers
  import opened Tags
  import opened Torrents
  import opened TagStore
  import opened Ordering

  /** The fraction of the volume kept free. */
  const RESERVED_FRACTION: real := 0.2

  /** The free-space floor of a volume of `total` bytes. */
  function Limit(total: nat): (r: real)
    ensures 0.0 <= r <= total as real
    ensures r * 5.0 == total as real
  {
    total as real * RESERVED_FRACTION
  }

  /** The counters the pass reports at its end. */
  datatype Summary = Summary(alreadyTagged: nat, tagged: nat, reclaimed: nat)

  /** How a pass ends. */
  datatype Outcome =
    | EnoughSpace                    // free space at or above the floor: nothing done
    | UsageUndefined                 // empty volume: the usage report divides by zero and raises
    | Finished(summary: Summary)     // the loop ended: deficit covered or list exhausted
    | UnknownClient(client: string)  // the client lookup failed and aborted the pass

  /** The pass after some prefix of the list: the loop's variables, the
      indices of the torrents counted so far, the tag calls sent so far, and
      the client name whose lookup failed, if one did. */
  datatype PassState = PassState(
    required: real,
    alreadyTagged: nat,
    tagged: nat,
    reclaimed: nat,
    counted: seq<nat>,
    calls: seq<TagCall>,
    failed: Option<string>)

  function Start(deficit: real): PassState
  {
    PassState(deficit, 0, 0, 0, [], [], None)
  }

  /** One iteration of the loop, over torrent `t` at index `i`. Once the
      deficit is covered or a lookup has failed, the loop has been left and
      nothing changes any more. */
  function Step(st: PassState, t: Torrent, i: nat, known: set<string>): (r: PassState)
    ensures st.failed.Some? || st.required <= 0.0 ==> r == st
  {
    if st.failed.Some? || st.required <= 0.0 then st
    else if !HasMet(t) then st
    else if HasRemove(t) then
      st.(required := st.required - t.totalSize as real,
          reclaimed := st.reclaimed + t.totalSize,
          alreadyTagged := st.alreadyTagged + 1,
          counted := st.counted + [i])
    else if t.client !in known then
      st.(failed := Some(t.client))
    else
      st.(required := st.required - t.totalSize as real,
          reclaimed := st.reclaimed + t.totalSize,
          tagged := st.tagged + 1,
          counted := st.counted + [i],
          calls := st.calls + [RemoveCall(t)])
  }

  /** The pass after the first `n` torrents of `ts`, from deficit `deficit`,
      with `known` the names of the configured clients. */
  function Run(ts: seq<Torrent>, n: nat, deficit: real, known: set<string>): (r: PassState)
    requires n <= |ts|
    ensures r.alreadyTagged + r.tagged == |r.counted| <= n
    ensures |r.calls| <= |r.counted|
  {
    if n == 0 then Start(deficit)
    else Step(Run(ts, n - 1, deficit, known), ts[n - 1], n - 1, known)
  }

  /** How a pass in state `st` ends. */
  function Finish(st: PassState): Outcome
  {
    if st.failed.Some? then UnknownClient(st.failed.value)
    else Finished(Summary(st.alreadyTagged, st.tagged, st.reclaimed))
  }

  /** The indices below `n` of the eligible torrents, ascending. */
  function EligibleBelow(ts: seq<Torrent>, n: nat): (e: seq<nat>)
    requires n <= |ts|
    ensures forall k :: 0 <= k < |e| ==> e[k] < n && HasMet(ts[e[k]])
    ensures forall a, b :: 0 <= a < b < |e| ==> e[a] < e[b]
  {
    if n == 0 then []
    else EligibleBelow(ts, n - 1) + (if HasMet(ts[n - 1]) then [n - 1] else [])
  }

  ghost predicate Indices(ts: seq<Torrent>, idx: seq<nat>)
  {
    forall k :: 0 <= k < |idx| ==> idx[k] < |ts|
  }

  /** The declared sizes of the torrents at `idx`, summed. */
  function SizeOf(ts: seq<Torrent>, idx: seq<nat>): nat
    requires Indices(ts, idx)
  {
    if idx == [] then 0
    else SizeOf(ts, idx[..|idx| - 1]) + ts[idx[|idx| - 1]].totalSize
  }

  /** How many torrents at `idx` already carry the removal marker. */
  function MarkedAmong(ts: seq<Torrent>, idx: seq<nat>): nat
    requires Indices(ts, idx)
  {
    if idx == [] then 0
    else MarkedAmong(ts, idx[..|idx| - 1]) + (if HasRemove(ts[idx[|idx| - 1]]) then 1 else 0)
  }

  /** The calls that counting the torrents at `idx` sends, in order: one for
      each torrent not already marked. */
  function CallsFor(ts: seq<Torrent>, idx: seq<nat>): seq<TagCall>
    requires Indices(ts, idx)
  {
    if idx == [] then []
    else CallsFor(ts, idx[..|idx| - 1]) +
         (if HasRemove(ts[idx[|idx| - 1]]) then [] else [RemoveCall(ts[idx[|idx| - 1]])])
  }

  /** The counted torrents are the first eligible ones below `n`, in list
      order. */
  ghost predicate CountsEligiblePrefix(ts: seq<Torrent>, n: nat, st: PassState)
    requires n <= |ts|
  {
    var e := EligibleBelow(ts, n);
    && (forall k :: 0 <= k < |st.counted| ==> st.counted[k] < n)
    && |st.counted| <= |e| && st.counted == e[..|st.counted|]
  }

  /** The loop's counters and calls are those of the counted torrents. */
  ghost predicate Accounts(ts: seq<Torrent>, deficit: real, st: PassState)
    requires Indices(ts, st.counted)
  {
    && st.reclaimed == SizeOf(ts, st.counted)
    && st.reclaimed as real + st.required == deficit
    && st.alreadyTagged == MarkedAmong(ts, st.counted)
    && st.alreadyTagged + st.tagged == |st.counted|
    && st.calls == CallsFor(ts, st.counted)
  }

  /** Minimality: each torrent was counted while the deficit was still open. */
  ghost predicate CountedWhileOpen(ts: seq<Torrent>, deficit: real, c: seq<nat>)
    requires Indices(ts, c)
  {
    forall j :: 0 <= j < |c| ==> SizeOf(ts, c[..j]) as real < deficit
  }

  /** Why the pass counts no further: the deficit is covered, every eligible
      torrent so far is counted, or the lookup of the client of the next
      eligible, unmarked torrent failed. */
  ghost predicate StopsOrFails(ts: seq<Torrent>, n: nat, known: set<string>, st: PassState)
    requires n <= |ts|
  {
    var e := EligibleBelow(ts, n);
    && (st.failed.None? ==> st.required <= 0.0 || st.counted == e)
    && (st.failed.Some? ==>
          && |st.counted| < |e|
          && st.required > 0.0
          && !HasRemove(ts[e[|st.counted|]])
          && ts[e[|st.counted|]].client == st.failed.value
          && st.failed.value !in known)
  }

  /** What holds of the pass after the first `n` torrents. */
  ghost predicate Consistent(ts: seq<Torrent>, n: nat, deficit: real, known: set<string>, st: PassState)
    requires n <= |ts|
  {
    && CountsEligiblePrefix(ts, n, st)
    && Accounts(ts, deficit, st)
    && CountedWhileOpen(ts, deficit, st.counted)
    && StopsOrFails(ts, n, known, st)
  }

  lemma {:induction false} EligibleExtends(ts: seq<Torrent>, n: nat, m: nat)
    requires n <= |ts|
    requires m <= |EligibleBelow(ts, n)|
    ensures n < |ts| ==> EligibleBelow(ts, n + 1)[..m] == EligibleBelow(ts, n)[..m]
  {
  }

  /** Every eligible torrent below `n` is listed. */
  lemma {:induction false} EligibleBelowComplete(ts: seq<Torrent>, n: nat)
    requires n <= |ts|
    ensures forall k :: 0 <= k < n && HasMet(ts[k]) ==> k in EligibleBelow(ts, n)
  {
    if n > 0 {
      EligibleBelowComplete(ts, n - 1);
    }
  }

  /** A step that leaves the state alone keeps it consistent. */
  lemma ConsistentWhenUnchanged(ts: seq<Torrent>, n: nat, deficit: real, known: set<string>, st: PassState)
    requires n < |ts|
    requires Consistent(ts, n, deficit, known, st)
    requires st.failed.Some? || st.required <= 0.0 || !HasMet(ts[n])
    ensures Consistent(ts, n + 1, deficit, known, st)
  {
    var e, e' := EligibleBelow(ts, n), EligibleBelow(ts, n + 1);
    var c := st.counted;
    EligibleExtends(ts, n, |c|);
    if st.failed.Some? {
      EligibleExtends(ts, n, |c| + 1);
      assert e'[|c|] == e'[..|c| + 1][|c|] == e[..|c| + 1][|c|] == e[|c|];
    }
  }

  /** Counting one more index adds its size, its marker and its call. */
  lemma CountOneMore(ts: seq<Torrent>, c: seq<nat>, i: nat)
    requires Indices(ts, c) && i < |ts|
    ensures Indices(ts, c + [i])
    ensures SizeOf(ts, c + [i]) == SizeOf(ts, c) + ts[i].totalSize
    ensures MarkedAmong(ts, c + [i]) == MarkedAmong(ts, c) + (if HasRemove(ts[i]) then 1 else 0)
    ensures CallsFor(ts, c + [i]) == CallsFor(ts, c) + (if HasRemove(ts[i]) then [] else [RemoveCall(ts[i])])
  {
    assert (c + [i])[..|c|] == c;
  }

  /** Counting index `i` while the deficit is still open keeps minimality. */
  lemma MinimalityExtends(ts: seq<Torrent>, c: seq<nat>, i: nat, deficit: real)
    requires Indices(ts, c) && i < |ts|
    requires CountedWhileOpen(ts, deficit, c)
    requires SizeOf(ts, c) as real < deficit
    ensures Indices(ts, c + [i]) && CountedWhileOpen(ts, deficit, c + [i])
  {
    var c' := c + [i];
    forall j | 0 <= j < |c'| ensures SizeOf(ts, c'[..j]) as real < deficit {
      if j < |c| {
        assert c'[..j] == c[..j];
      } else {
        assert c'[..j] == c;
      }
    }
  }

  /** A step that counts torrent `n`, already marked, keeps the state
      consistent. */
  lemma ConsistentWhenMarked(ts: seq<Torrent>, n: nat, deficit: real, known: set<string>, st: PassState)
    requires n < |ts|
    requires Consistent(ts, n, deficit, known, st)
    requires st.failed.None? && st.required > 0.0 && HasMet(ts[n]) && HasRemove(ts[n])
    ensures Consistent(ts, n + 1, deficit, known, Step(st, ts[n], n, known))
  {
    var t, c := ts[n], st.counted;
    assert c == EligibleBelow(ts, n);
    assert EligibleBelow(ts, n + 1) == c + [n];
    CountOneMore(ts, c, n);
    MinimalityExtends(ts, c, n, deficit);
    assert Step(st, t, n, known) ==
      st.(required := st.required - t.totalSize as real,
          reclaimed := st.reclaimed + t.totalSize,
          alreadyTagged := st.alreadyTagged + 1,
          counted := c + [n]);
    assert CountsEligiblePrefix(ts, n + 1, Step(st, t, n, known));
    assert Accounts(ts, deficit, Step(st, t, n, known));
  }

  /** A step that tags torrent `n` keeps the state consistent. */
  lemma ConsistentWhenTagged(ts: seq<Torrent>, n: nat, deficit: real, known: set<string>, st: PassState)
    requires n < |ts|
    requires Consistent(ts, n, deficit, known, st)
    requires st.failed.None? && st.required > 0.0 && HasMet(ts[n]) && !HasRemove(ts[n])
    requires ts[n].client in known
    ensures Consistent(ts, n + 1, deficit, known, Step(st, ts[n], n, known))
  {
    var t, c := ts[n], st.counted;
    assert c == EligibleBelow(ts, n);
    assert EligibleBelow(ts, n + 1) == c + [n];
    CountOneMore(ts, c, n);
    MinimalityExtends(ts, c, n, deficit);
    assert Step(st, t, n, known) ==
      st.(required := st.required - t.totalSize as real,
          reclaimed := st.reclaimed + t.totalSize,
          tagged := st.tagged + 1,
          counted := c + [n],
          calls := st.calls + [RemoveCall(t)]);
    assert CountsEligiblePrefix(ts, n + 1, Step(st, t, n, known));
    assert Accounts(ts, deficit, Step(st, t, n, known));
  }

  /** A step whose client lookup fails keeps the state consistent. */
  lemma ConsistentWhenFailed(ts: seq<Torrent>, n: nat, deficit: real, known: set<string>, st: PassState)
    requires n < |ts|
    requires Consistent(ts, n, deficit, known, st)
    requires st.failed.None? && st.required > 0.0 && HasMet(ts[n])
    requires !HasRemove(ts[n]) && ts[n].client !in known
    ensures Consistent(ts, n + 1, deficit, known, Step(st, ts[n], n, known))
  {
    var e, e' := EligibleBelow(ts, n), EligibleBelow(ts, n + 1);
    assert st.counted == e;
    assert e' == e + [n];
    assert e'[..|st.counted|] == e;
  }

  lemma StepConsistent(ts: seq<Torrent>, n: nat, deficit: real, known: set<string>, st: PassState)
    requires n < |ts|
    requires Consistent(ts, n, deficit, known, st)
    ensures Consistent(ts, n + 1, deficit, known, Step(st, ts[n], n, known))
  {
    var t := ts[n];
    if st.failed.Some? || st.required <= 0.0 || !HasMet(t) {
      ConsistentWhenUnchanged(ts, n, deficit, known, st);
    } else if HasRemove(t) {
      ConsistentWhenMarked(ts, n, deficit, known, st);
    } else if t.client in known {
      ConsistentWhenTagged(ts, n, deficit, known, st);
    } else {
      ConsistentWhenFailed(ts, n, deficit, known, st);
    }
  }

  /** Every prefix of the pass satisfies `Consistent`. */
  lemma {:induction false} RunConsistent(ts: seq<Torrent>, n: nat, deficit: real, known: set<string>)
    requires n <= |ts|
    ensures Consistent(ts, n, deficit, known, Run(ts, n, deficit, known))
  {
    if n == 0 {
      StartConsistent(ts, deficit, known);
    } else {
      RunConsistent(ts, n - 1, deficit, known);
      RunStepConsistent(ts, n, deficit, known);
    }
  }

  lemma StartConsistent(ts: seq<Torrent>, deficit: real, known: set<string>)
    ensures Consistent(ts, 0, deficit, known, Run(ts, 0, deficit, known))
  {
    assert Run(ts, 0, deficit, known) == Start(deficit);
  }

  lemma RunStepConsistent(ts: seq<Torrent>, n: nat, deficit: real, known: set<string>)
    requires 0 < n <= |ts|
    requires Consistent(ts, n - 1, deficit, known, Run(ts, n - 1, deficit, known))
    ensures Consistent(ts, n, deficit, known, Run(ts, n, deficit, known))
  {
    var prev := Run(ts, n - 1, deficit, known);
    StepConsistent(ts, n - 1, deficit, known, prev);
    assert Run(ts, n, deficit, known) == Step(prev, ts[n - 1], n - 1, known);
  }

  /** Once the deficit is covered or a lookup has failed, the rest of the
      list changes nothing: the `break` and the exception. */
  lemma {:induction false} RunStopped(ts: seq<Torrent>, i: nat, n: nat, deficit: real, known: set<string>)
    requires i <= n <= |ts|
    requires Run(ts, i, deficit, known).failed.Some? || Run(ts, i, deficit, known).required <= 0.0
    ensures Run(ts, n, deficit, known) == Run(ts, i, deficit, known)
    decreases n
  {
    if n > i {
      RunStopped(ts, i, n - 1, deficit, known);
    }
  }

  /** The pass over the whole list counts the shortest prefix of the
      eligible torrents whose sizes cover the deficit (all of them if none
      does); its counters, reclaimed bytes and calls follow from that prefix. */
  lemma PassCountsShortestCoveringPrefix(ts: seq<Torrent>, deficit: real, known: set<string>)
    ensures var st := Run(ts, |ts|, deficit, known);
      var e := EligibleBelow(ts, |ts|);
      && |st.counted| <= |e| && st.counted == e[..|st.counted|]
      && (forall j :: 0 <= j < |st.counted| ==> SizeOf(ts, e[..j]) as real < deficit)
      && (st.failed.None? ==> SizeOf(ts, st.counted) as real >= deficit || st.counted == e)
      && st.reclaimed == SizeOf(ts, st.counted)
      && st.reclaimed as real + st.required == deficit
      && st.alreadyTagged == MarkedAmong(ts, st.counted)
      && st.alreadyTagged + st.tagged == |st.counted|
      && st.calls == CallsFor(ts, st.counted)
  {
    var st := Run(ts, |ts|, deficit, known);
    var e := EligibleBelow(ts, |ts|);
    RunConsistent(ts, |ts|, deficit, known);
    forall j | 0 <= j < |st.counted| ensures SizeOf(ts, e[..j]) as real < deficit {
      assert st.counted[..j] == e[..j];
    }
  }

  /** A torrent without the eligibility marker is never counted and never
      tagged, wherever it stands in the list. */
  lemma IneligibleUntouched(ts: seq<Torrent>, deficit: real, known: set<string>, k: nat)
    requires k < |ts| && !HasMet(ts[k])
    ensures k !in Run(ts, |ts|, deficit, known).counted
  {
    RunConsistent(ts, |ts|, deficit, known);
  }

  /** Over a list sorted ascending by score, the pass tags the lowest-scored
      eligible torrents: no counted torrent scores above an eligible one the
      pass left alone. */
  lemma CountedAreLowest(ts: seq<Torrent>, deficit: real, known: set<string>, a: nat, b: nat)
    requires SortedByScore(ts)
    requires a < |ts| && a in Run(ts, |ts|, deficit, known).counted
    requires b < |ts| && HasMet(ts[b]) && b !in Run(ts, |ts|, deficit, known).counted
    ensures ts[a].score <= ts[b].score
  {
    var c := Run(ts, |ts|, deficit, known).counted;
    var e := EligibleBelow(ts, |ts|);
    RunConsistent(ts, |ts|, deficit, known);
    EligibleBelowComplete(ts, |ts|);
    var p :| 0 <= p < |c| && c[p] == a;
    var q :| 0 <= q < |e| && e[q] == b;
    assert c[p] == e[p];
    assert p < q;
    assert a < b;
  }

  /** The counted torrents, and so the tag calls, come in ascending list order. */
  lemma CountedInListOrder(ts: seq<Torrent>, deficit: real, known: set<string>)
    ensures var c := Run(ts, |ts|, deficit, known).counted;
      forall a, b :: 0 <= a < b < |c| ==> c[a] < c[b]
  {
    RunConsistent(ts, |ts|, deficit, known);
    var c := Run(ts, |ts|, deficit, known).counted;
    var e := EligibleBelow(ts, |ts|);
    forall a, b | 0 <= a < b < |c| ensures c[a] < c[b] {
      assert c[a] == e[a] && c[b] == e[b];
    }
  }

  /** The calls of a set of counted torrents: exactly one `remove` call per
      torrent that lacks the marker, and none for a torrent that has it. */
  lemma {:induction false} CallsForMembers(ts: seq<Torrent>, idx: seq<nat>)
    requires Indices(ts, idx)
    ensures forall c :: c in CallsFor(ts, idx) ==>
      exists k :: 0 <= k < |idx| && !HasRemove(ts[idx[k]]) && c == RemoveCall(ts[idx[k]])
    ensures forall k :: 0 <= k < |idx| && !HasRemove(ts[idx[k]]) ==> RemoveCall(ts[idx[k]]) in CallsFor(ts, idx)
    ensures |CallsFor(ts, idx)| + MarkedAmong(ts, idx) == |idx|
    decreases |idx|
  {
    if idx != [] {
      var init := idx[..|idx| - 1];
      CallsForMembers(ts, init);
      forall c | c in CallsFor(ts, idx)
        ensures exists k :: 0 <= k < |idx| && !HasRemove(ts[idx[k]]) && c == RemoveCall(ts[idx[k]])
      {
        if c in CallsFor(ts, init) {
          var k :| 0 <= k < |init| && !HasRemove(ts[init[k]]) && c == RemoveCall(ts[init[k]]);
          assert idx[k] == init[k];
        } else {
          assert c == RemoveCall(ts[idx[|idx| - 1]]);
        }
      }
      forall k | 0 <= k < |idx| && !HasRemove(ts[idx[k]]) ensures RemoveCall(ts[idx[k]]) in CallsFor(ts, idx) {
        if k < |idx| - 1 {
          assert idx[k] == init[k];
        }
      }
    }
  }

  /** With every torrent's client configured, the pass never aborts. */
  lemma {:induction false} KnownClientsNeverFail(ts: seq<Torrent>, n: nat, deficit: real, known: set<string>)
    requires n <= |ts|
    requires forall k :: 0 <= k < |ts| ==> ts[k].client in known
    ensures Run(ts, n, deficit, known).failed.None?
  {
    if n > 0 {
      KnownClientsNeverFail(ts, n - 1, deficit, known);
    }
  }

  /** With no deficit, the pass counts nothing and sends no call. */
  lemma {:induction false} NoDeficitNoCalls(ts: seq<Torrent>, n: nat, deficit: real, known: set<string>)
    requires n <= |ts| && deficit <= 0.0
    ensures Run(ts, n, deficit, known) == Start(deficit)
  {
    if n > 0 {
      NoDeficitNoCalls(ts, n - 1, deficit, known);
    }
  }

  /** A torrent of the worked example: listed on client `c`, with the given
      tags and size; the other fields play no part in the pass. */
  function ExampleTorrent(name: string, tags: string, size: nat): Torrent
  {
    Torrent(name, name, "c", "", tags, 0, 0, size, 0, 0, 0, 0.0)
  }

  /** The worked example: a 15 GB deficit over eligible torrents of 5 GB
      (already marked), 8 GB, 20 GB and 1 GB. The first is counted without a
      call, the next two are tagged, and the pass stops with 33 GB to be
      reclaimed, leaving the fourth untouched. */
  lemma WorkedExample()
    ensures var gb := 1000000000;
      var ts := [ExampleTorrent("a", "met,remove", 5 * gb), ExampleTorrent("b", "met", 8 * gb),
                 ExampleTorrent("x", "met", 20 * gb), ExampleTorrent("y", "met", 1 * gb)];
      var st := Run(ts, |ts|, (15 * gb) as real, {"c"});
      && Finish(st) == Finished(Summary(1, 2, 33 * gb))
      && st.counted == [0, 1, 2]
      && st.calls == [TagCall("c", "b", REMOVE_TAG), TagCall("c", "x", REMOVE_TAG)]
  {
    var gb := 1000000000;
    var known := {"c"};
    var t0, t1 := ExampleTorrent("a", "met,remove", 5 * gb), ExampleTorrent("b", "met", 8 * gb);
    var t2, t3 := ExampleTorrent("x", "met", 20 * gb), ExampleTorrent("y", "met", 1 * gb);
    var ts := [t0, t1, t2, t3];
    var deficit := (15 * gb) as real;
    assert HasMet(t0) && HasRemove(t0) by {
      PrefixMarkerOccurs(MET_TAG, "met,remove");
      OccursIff(REMOVE_TAG, "met,remove");
      assert OccursAt(REMOVE_TAG, "met,remove", 4);
    }
    assert HasMet(t1) && !HasRemove(t1) && HasMet(t2) && !HasRemove(t2) by {
      PrefixMarkerOccurs(MET_TAG, "met");
    }
    var st1 := PassState((10 * gb) as real, 1, 0, 5 * gb, [0], [], None);
    var st2 := PassState((2 * gb) as real, 1, 1, 13 * gb, [0, 1], [RemoveCall(t1)], None);
    var st3 := PassState((-18 * gb) as real, 1, 2, 33 * gb, [0, 1, 2], [RemoveCall(t1), RemoveCall(t2)], None);
    assert Step(Start(deficit), t0, 0, known) == st1;
    assert Step(st1, t1, 1, known) == st2;
    assert Step(st2, t2, 2, known) == st3;
    assert Step(st3, t3, 3, known) == st3;
    assert Run(ts, 1, deficit, known) == st1;
    assert Run(ts, 2, deficit, known) == st2;
    assert Run(ts, 3, deficit, known) == st3;
    assert Run(ts, 4, deficit, known) == st3;
  }

  /** An ineligible torrent leaves the pass as it was. */
  lemma RunSkips(ts: seq<Torrent>, i: nat, deficit: real, known: set<string>)
    requires i < |ts| && !HasMet(ts[i])
    ensures Run(ts, i + 1, deficit, known) == Run(ts, i, deficit, known)
  {
  }

  /** An eligible, already marked torrent is counted without a call. */
  lemma RunCountsMarked(ts: seq<Torrent>, i: nat, deficit: real, known: set<string>)
    requires i < |ts| && HasMet(ts[i]) && HasRemove(ts[i])
    requires Run(ts, i, deficit, known).failed.None? && Run(ts, i, deficit, known).required > 0.0
    ensures var st, st' := Run(ts, i, deficit, known), Run(ts, i + 1, deficit, known);
      && st'.failed.None?
      && st'.required == st.required - ts[i].totalSize as real
      && st'.reclaimed == st.reclaimed + ts[i].totalSize
      && st'.alreadyTagged == st.alreadyTagged + 1 && st'.tagged == st.tagged
      && st'.calls == st.calls
  {
  }

  /** An eligible, unmarked torrent of a configured client is counted and
      gets a call. */
  lemma RunTags(ts: seq<Torrent>, i: nat, deficit: real, known: set<string>)
    requires i < |ts| && HasMet(ts[i]) && !HasRemove(ts[i]) && ts[i].client in known
    requires Run(ts, i, deficit, known).failed.None? && Run(ts, i, deficit, known).required > 0.0
    ensures var st, st' := Run(ts, i, deficit, known), Run(ts, i + 1, deficit, known);
      && st'.failed.None?
      && st'.required == st.required - ts[i].totalSize as real
      && st'.reclaimed == st.reclaimed + ts[i].totalSize
      && st'.alreadyTagged == st.alreadyTagged && st'.tagged == st.tagged + 1
      && st'.calls == st.calls + [RemoveCall(ts[i])]
  {
  }

  /** One pass of `manage_disk_space` over `torrents` on a volume of `total`
      bytes with `free` bytes free. At or above the floor it does nothing,
      except that on an empty volume its usage report divides by zero;
      otherwise it runs the tagging loop from the deficit `limit - free`. */
  method ManageDiskSpace(torrents: seq<Torrent>, total: nat, free: nat, clients: Clients)
    returns (outcome: Outcome)
    modifies clients
    ensures total == 0 ==>
      outcome == UsageUndefined && clients.tags == old(clients.tags) && clients.log == old(clients.log)
    ensures 0 < total && Limit(total) <= free as real ==>
      outcome == EnoughSpace && clients.tags == old(clients.tags) && clients.log == old(clients.log)
    ensures free as real < Limit(total) ==>
      var st := Run(torrents, |torrents|, Limit(total) - free as real, clients.names);
      && outcome == Finish(st)
      && clients.tags == ApplyCalls(old(clients.tags), st.calls)
      && clients.log == old(clients.log) + st.calls
    ensures (forall k :: 0 <= k < |torrents| ==> torrents[k].client in clients.names) ==>
      !outcome.UnknownClient?
  {
    var limit := Limit(total);
    if free as real >= limit {
      // the usage report divides by `total - limit`
      if total as real - limit == 0.0 {
        return UsageUndefined;
      }
      return EnoughSpace;
    }
    // below the floor the volume is not empty, so the usage report is defined
    assert total as real - limit > 0.0;
    if forall k :: 0 <= k < |torrents| ==> torrents[k].client in clients.names {
      KnownClientsNeverFail(torrents, |torrents|, limit - free as real, clients.names);
    }
    outcome := TagUntilCovered(torrents, limit - free as real, clients);
  }

  /** The loop of `manage_disk_space` from deficit `deficit`: it follows
      `Run`, sending its calls to the clients in order; an unconfigured client
      name aborts the pass, with the calls sent before it standing. */
  method TagUntilCovered(torrents: seq<Torrent>, deficit: real, clients: Clients)
    returns (outcome: Outcome)
    modifies clients
    ensures var st := Run(torrents, |torrents|, deficit, clients.names);
      && outcome == Finish(st)
      && clients.tags == ApplyCalls(old(clients.tags), st.calls)
      && clients.log == old(clients.log) + st.calls
  {
    ghost var known := clients.names;
    ghost var st := Start(deficit);
    var required := deficit;
    var alreadyTagged, tagged, reclaimed := 0, 0, 0;
    for i := 0 to |torrents|
      invariant st == Run(torrents, i, deficit, known)
      invariant st.failed.None? && st.required == required
      invariant st.alreadyTagged == alreadyTagged && st.tagged == tagged && st.reclaimed == reclaimed
      invariant clients.tags == ApplyCalls(old(clients.tags), st.calls)
      invariant clients.log == old(clients.log) + st.calls
    {
      if required <= 0.0 {
        RunStopped(torrents, i, |torrents|, deficit, known);
        assert st == Run(torrents, |torrents|, deficit, known);
        break;
      }
      var t := torrents[i];
      if !HasMet(t) {
        RunSkips(torrents, i, deficit, known);
        continue;
      }
      if HasRemove(t) {
        RunCountsMarked(torrents, i, deficit, known);
        st := Run(torrents, i + 1, deficit, known);
        required := required - t.totalSize as real;
        reclaimed := reclaimed + t.totalSize;
        alreadyTagged := alreadyTagged + 1;
        continue;
      }
      if t.client !in clients.names {
        RunStopped(torrents, i + 1, |torrents|, deficit, known);
        return UnknownClient(t.client);
      }
      RunTags(torrents, i, deficit, known);
      ApplyCallsAppend(old(clients.tags), st.calls, RemoveCall(t));
      clients.AddTags(t.client, t.hash, REMOVE_TAG);
      assert clients.log == old(clients.log) + (st.calls + [RemoveCall(t)]);
      st := Run(torrents, i + 1, deficit, known);
      required := required - t.totalSize as real;
      reclaimed := reclaimed + t.totalSize;
      tagged := tagged + 1;
    }
    assert st == Run(torrents, |torrents|, deficit, known);
    outcome := Finished(Summary(alreadyTagged, tagged, reclaimed));
  }
}
