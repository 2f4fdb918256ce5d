# orpheus: a verified model of the scoring and reclamation cycle

orpheus runs a cycle every five minutes. In each cycle it lists the torrents of
every configured qBittorrent client and reads upload history from a Prometheus
metrics store. From that history it derives each torrent's 30-day upload delta.
It scores every torrent, sorts the list by score, and, when the `/lts` volume has
less than a fifth of its space free, greedily tags the lowest-scored eligible
torrents `remove` until the deficit is covered.

This project models that cycle in Dafny and proves what it guarantees. The
modules follow the program's parts:

- `Tags` (tags.dfy): the `met` / `remove` marker tests. They are Python substring
  tests on the comma-separated tag string, so a tag such as `metadata` counts as
  `met`.
- `Torrents` (torrents.dfy): the torrent record, query samples, client listings
  and tag calls.
- `Assign` (assign.dfy): filling a dictionary from key/value pairs, where the
  last write wins. It is used for both the delta map and the gauge.
- `Deltas` (deltas.dfy): the full-history hash set, the delta map and the
  history-age buckets.
- `Scoring` (scoring.dfy): effective download and upload, the scoring pass that
  writes each record's score, and gauge publication.
- `Ordering` (ordering.dfy): the stable ascending sort by score.
- `TagStore` (tagstore.dfy): the clients' tag state and the add-tag call.
- `Planner` (planner.dfy): `manage_disk_space`. It is a state machine
  (`Step`, `Run`) with an imperative method proved to follow it, plus lemmas on
  accounting, minimality, eligibility and call order.
- `Schedule` (schedule.dfy): the interval-aligned sleep.
- `Cycle` (cycle.dfy): `fetch_metrics`, which chains the parts above.

The score itself is a parameter: any function of effective download, effective
upload, seeding time and last activity. Query answers, listings and the volume's
`total`/`free` byte counts are inputs.

## Model

| member | source | states |
|---|---|---|
| `Tags.Occurs` | orpheus.py:108-111 | The marker test. A match needs a tag string at least as long as the marker. The empty marker matches any string, and every string matches itself, as with Python's `in`. |
| `Tags.OccursIff` | orpheus.py:108-111 | The marker scan is true exactly when the marker occurs as a contiguous substring of the tag string. This is Python's `in` on strings. |
| `Tags.PrefixMarkerOccurs` | orpheus.py:108 | A tag string that starts with the marker passes the test, so `metadata` counts as `met`. |
| `Assign.AssignAllKeys` | orpheus.py:158-161 | After filling a dictionary from pairs, its keys are the old keys plus the assigned ones, and no others. |
| `Assign.AssignAllLastWins` | orpheus.py:158-161 | The last pair for a key decides that key's value. |
| `Assign.AssignAllElsewhere` | orpheus.py:86 | A key that no pair mentions keeps its old entry, or stays absent. |
| `Deltas.FullHistoryHashes` | orpheus.py:149-152 | Returns exactly the hashes in the 30-day-offset result. The set is empty exactly when that result is empty. |
| `Deltas.BuildDeltas` | orpheus.py:154-161 | Sends the increase query exactly when the full-history set is non-empty. The delta map is empty when the query is not sent; otherwise it is the increase results assigned in order. |
| `Deltas.DeltaMap` | orpheus.py:154-161 | The delta dictionary is empty when no torrent has a 30-day-old sample. Otherwise its keys are exactly the hashes the increase query returned. |
| `Deltas.DeltaMapContents` | orpheus.py:154-161 | With no full history the delta map is empty. Otherwise its keys are exactly the hashes the increase query returned, and each hash holds the value of its last series. |
| `Deltas.Buckets` | orpheus.py:163-168 | Each age band is the difference of consecutive offset counts (30, 28, 21, 14, 7, 0 days), and the six bands sum to the current count. |
| `Scoring.EffectiveDownloaded` | orpheus.py:81 | The effective download is at least the downloaded counter and at least the declared size, and equals one of them. |
| `Scoring.EffectiveUpload` | orpheus.py:82 | `deltas.get(hash, uploaded)`: the result is the raw upload counter or one of the recorded deltas, and it is the raw counter whenever the hash has no delta. |
| `Scoring.ProcessTorrents` | orpheus.py:70-86 | Every record gets its score from the effective values, and no other field changes. The gauge gets one write `(name, hash) -> uploaded` per torrent, in list order. |
| `Scoring.EffectiveUploadSource` | orpheus.py:82 | The effective upload is the raw counter when no increase query was sent or the hash has no series; otherwise it is the value of the hash's last series. |
| `Scoring.FallbackOutsideFullHistory` | orpheus.py:155-157 | A torrent outside the full-history set is scored on its raw upload counter, because the increase query is filtered to that set. |
| `Scoring.PublishedRawCounter` | orpheus.py:86 | The gauge holds each torrent's raw `uploaded` counter under `(name, hash)`, never the delta. |
| `Scoring.PublishedElsewhere` | orpheus.py:86 | A series that no listed torrent names keeps its previous gauge value. |
| `Ordering.SortByScore` | orpheus.py:174 | The reference stable sort keeps the length and exactly the records of its input. Its order, multiset and stability are the rows below. |
| `Ordering.SortSorted` | orpheus.py:174 | The sorted list is ascending by score. |
| `Ordering.SortPermutes` | orpheus.py:174 | The sorted list holds the same records, each as often as before. |
| `Ordering.SortStable` | orpheus.py:174 | For every score, the records with that score keep their input order. |
| `Ordering.SortByScoreSpec` | orpheus.py:174 | The sort preserves length, and its result is sorted, a permutation of the input, and stable. This is what the reclamation pass receives. |
| `Ordering.StableSortUnique` | orpheus.py:174 | Two lists that are both sorted by score and stable with respect to each other are equal. |
| `Ordering.StableSortIsSortByScore` | orpheus.py:174 | Any sorted, stable rearrangement of the list is exactly the reference sort, so the model fixes the result of `list.sort`. |
| `TagStore.TagsOnlyGrow` | orpheus.py:121-122 | Applying tag calls never removes a tag. Every called tag is present afterwards, and a torrent that no call addresses keeps exactly its tags. |
| `TagStore.Clients.AddTags` | orpheus.py:122 | Adds the tag to one torrent on one client and logs the call. |
| `Planner.Limit` | orpheus.py:92 | The free-space floor is a fifth of the volume: between zero and the volume size, and five times the floor is the volume size. |
| `Planner.Step` | orpheus.py:104-125 | One loop iteration. Once the deficit is covered or a lookup has failed, an iteration changes nothing: the `break` and the end of the pass by exception. |
| `Planner.Run` | orpheus.py:100-125 | The loop after the first `n` torrents. `aleady_tagged + tagged` counts exactly the counted torrents, at most one per torrent walked. There is at most one call per counted torrent. |
| `Planner.EligibleBelow` | orpheus.py:108-109 | The eligible indices below `n` are in range, carry `met`, and ascend. |
| `Planner.EligibleBelowComplete` | orpheus.py:108-109 | Every `met` torrent below `n` is among the eligible indices. |
| `Planner.RunConsistent` | orpheus.py:97-125 | After every prefix of the list, the following hold. Counted torrents are the first eligible ones in list order. `reclaimed` is their size sum, and `reclaimed + required` equals the initial deficit. `aleady_tagged` counts the marked ones, and together with `tagged` it covers all counted torrents. The calls are one per unmarked counted torrent. Each torrent was counted while the deficit was still open. The loop has stopped only because the deficit is covered or every eligible torrent is counted. An abort comes from the next unmarked eligible torrent's unknown client. |
| `Planner.RunStopped` | orpheus.py:104-106 | Once the deficit is covered or a lookup has failed, later torrents change nothing. This is the `break` and the exception. |
| `Planner.PassCountsShortestCoveringPrefix` | orpheus.py:97-131 | The whole pass counts the shortest prefix of eligible torrents whose sizes cover the deficit, or all of them if none does. Its counters, reclaimed bytes and calls follow from that prefix. |
| `Planner.IneligibleUntouched` | orpheus.py:108-109 | A torrent without `met` is never counted or tagged, whatever its position in the list. |
| `Planner.CountedAreLowest` | orpheus.py:104-122 | Over a list sorted ascending by score, every counted torrent scores no higher than any eligible torrent the pass left alone: the pass takes the lowest-scored eligible torrents. |
| `Planner.CountedInListOrder` | orpheus.py:104-125 | Counted torrents, and so the tag calls, come in ascending list order. |
| `Planner.CallsForMembers` | orpheus.py:111-125 | There is exactly one `remove` call per counted torrent without the marker, and none for an already-marked one. The number of calls plus the number of marked torrents equals the number counted. |
| `Planner.KnownClientsNeverFail` | orpheus.py:121 | If every torrent's client is configured, the pass never aborts. |
| `Planner.NoDeficitNoCalls` | orpheus.py:104-106 | With no deficit, the loop counts nothing and sends no call. |
| `Planner.WorkedExample` | orpheus.py:97-131 | Worked example: a 15 GB deficit over 5 GB (marked), 8 GB, 20 GB and 1 GB. The result is 1 already tagged, 2 tagged and 33 GB reclaimed, and the fourth torrent is untouched. |
| `Planner.ManageDiskSpace` | orpheus.py:89-131 | On an empty volume (`total == 0`) the floor is zero, so free space is at or above it. The usage report then divides by `total - limit == 0` and the call raises: outcome `UsageUndefined`, with no calls. Otherwise, at or above the floor, it returns `EnoughSpace` with no calls and an unchanged tag state. Below the floor it runs the loop from the deficit `limit - free`: its outcome, its calls and the clients' new tag state are those of `Run`. When every torrent's client is configured, the outcome is never `UnknownClient`. |
| `Planner.TagUntilCovered` | orpheus.py:97-131 | The loop follows `Run` from the deficit: its outcome, its calls and the clients' new tag state are those of the pass. An unknown client aborts the pass, and the calls already sent stand. |
| `Schedule.SleepSeconds` | orpheus.py:193 | The sleep is never negative. It is zero exactly when the cycle ran up to or past the next interval boundary. |
| `Schedule.SleepReachesNextBoundary` | orpheus.py:193 | A cycle that ends before the next boundary wakes exactly on the first multiple of the interval after its start. |
| `Schedule.WakesOnFiveMinuteMark` | orpheus.py:185-193 | With the main loop's 300-second interval, a cycle that ends before the next five-minute mark wakes exactly on that mark, at most 300 seconds after it started. |
| `Cycle.Collected` | orpheus.py:138-147 | The collected list, in client order, has one record per listed torrent: its length is the number of torrents the clients reported, which is the count the cycle logs. |
| `Cycle.CollectedClients` | orpheus.py:138-141 | Every collected torrent carries a listed client's name, and every listed torrent is collected. |
| `Cycle.MetCountIsEligible` | orpheus.py:143-144 | For any list, the count of its `met` records equals the number of eligible indices the pass walks over that list. |
| `Cycle.MetSizeIsEligible` | orpheus.py:143-145 | For any list, the summed size of its `met` records equals the summed size of the eligible indices the pass walks over that list. |
| `Cycle.ReclaimedAtMostMetSize` | orpheus.py:112-124 | For any list, the bytes the pass expects to reclaim never exceed the summed size of that list's `met` records. |
| `Cycle.MetPermutes` | orpheus.py:143-145 | The `met` count and size of two lists holding the same records agree, whatever their order. |
| `Cycle.ScoredKeepsTallies` | orpheus.py:84 | Writing the scores changes neither the `met` count nor the `met` size, because scoring keeps every record's tags and size. |
| `Cycle.LoggedTalliesArePassEligible` | orpheus.py:138-176 | The count and size the cycle logs, taken over the unsorted collection, are the number and summed size of the eligible indices of the scored, sorted list the pass walks. The pass over that list never expects to reclaim more than the logged size. |
| `Cycle.OrderedClientsKnown` | orpheus.py:138-141 | Every torrent the pass reaches names a configured client, because listings come from the configured clients. |
| `Cycle.PassTakesLowestScores` | orpheus.py:172-176 | On the list the cycle hands to the pass, which is the scored collection sorted ascending, every torrent the pass counts scores no higher than any eligible torrent it leaves alone. |
| `Cycle.CollectTorrents` | orpheus.py:135-145 | Collects all listings in client order, stamps each record with its client's name, and tallies the eligible count and size. |
| `Cycle.FetchMetrics` | orpheus.py:134-176 | One cycle. It returns the age buckets and the delta map, and leaves the gauge holding raw counters. The list handed to the pass is the scored collection, stably sorted ascending, and is a permutation of it. The pass never aborts with an unknown client. An empty volume ends the cycle with `UsageUndefined`; otherwise the calls and tag state are those of `Run` on that list. |

## Left out

- `calculate_score` (orpheus.py:58-67) is not modelled. It uses floating-point division, fractional powers and the wall clock. The model takes the score as a function parameter of the same four inputs.
- `Cycle.FetchMetrics` assumes one clock reading for the whole cycle: the score parameter fixes it. The source reads `time.time()` on every call to `calculate_score` (orpheus.py:59), so scores in one cycle use slightly different clocks. The order it states for `ordered` is therefore exact only for a single clock.
- Floating point is modelled as exact reals. This covers `limit = total * 0.2`, the float `required`, the float deltas and the scores. Rounding is not modelled, and neither are NaN scores in the sort.
- Prometheus queries (`query_prometheus`, orpheus.py:45-55) are not modelled, as they are network and JSON work. Each query's answer is an input sequence of `(hash, value)` samples, and a failed query is the empty sequence, as the source returns. A series without a `hash` label (the `None` key at orpheus.py:159) is not modelled.
- qBittorrent client work is not modelled: loading the client configuration, constructing clients and `torrents_info`. Listings are inputs, and `torrents_add_tags` is `TagStore.Clients.AddTags`. Exceptions raised inside the client library are not modelled. An unknown client name ends the pass with `UnknownClient`. The source's `KeyError` has no handler.
- Missing dictionary fields, which raise `KeyError` in the source, are not modelled. Every record has all the fields it reads.
- `shutil.disk_usage`, the Prometheus `Gauge` and `start_http_server`, logging and `bcolors` are not modelled: they are external or presentation-only. One log detail is modelled: the usage percentage divides by `total - limit`, which raises on an empty volume. That raise is the `UsageUndefined` outcome. It ends the process, because nothing catches it. `total` and `free` are inputs, and the gauge is a map from `(name, hash)` to value.
- The infinite `while True` loop in `main` is not modelled: it is process control. Only its sleep formula is modelled.
- `Scoring.ProcessTorrents` does not model update in place: the source writes `score` into each shared dict, while the model returns the new list. Aliasing of those dicts is not modelled.
- `Ordering.SortByScore` does not model the library's algorithm: it is a reference insertion sort, not Timsort. `Ordering.StableSortIsSortByScore` shows that every stable ascending sort gives the same list.

## Notes on the code's behaviour

- The markers `met` and `remove` are substring tests on the tag string, not set membership, so a tag such as `metadata` counts as `met`.
- A failing tag call is not caught: it ends the pass, and the calls already sent stand.
- The deficit has no `max(0, ...)`: the pass returns early when `free >= limit`, so the loop only starts with a positive deficit.
