# brrd in Dafny

brrd listens to a feed of NavigationTiming browser measurements. It keeps the
last `WINDOW_SPAN` (300) seconds of events in a sliding window. Every `STEP`
(30) seconds it computes the median of each metric over the window and writes
the medians to a round-robin database (RRD) through rrdtool. This project
models the in-memory half of that pipeline and proves its properties:

- `Stats`: the sliding window and the median. The window is a class holding a
  binary min-heap of `(timestamp, event)` entries, ordered by timestamp.
- `HeapQ` and `Bisect`: the standard-library `heappush`/`heappop` and
  `bisect.insort` that the window and the aggregator rely on.
- `Logger`: `update_rrd`, from a window snapshot through the sorted
  per-metric lists and the all-or-nothing sample threshold down to one
  `rrd.update` call.
- `Ingest`: `create_rrd`'s data-source and archive definitions, and the
  receive loop of `take_action`, which adds NavigationTiming events to the
  window and starts the periodic worker when it is not alive.
- `Rrd`: rendering of the `DS:`/`RRA:` tokens, the argument list of `create`,
  and the validation, reordering and `:`-joining done by `update`. The calls
  into rrdtool are modelled as the arguments they would receive.
- `Consts`: the configuration and the divisibility facts that `consts.py`
  asserts at import time.
- `Text`: decimal rendering and parsing of integers, and `:` join/split.
  These are used to prove that tokens and update strings parse back.

The wall clock (`time.time()`, `now()`) becomes an explicit `now` parameter.
Python's `str` of a float becomes a parameter `showFloat`.
Whether the RRD file exists becomes the boolean `present`.
Metric values are `real`. The even-length median uses exact division.

A message with a missing key is not dropped. The code reads `meta['schema']`
for every message, and `meta['timestamp']` and `meta['event']` only for a
NavigationTiming message (logger.py:104-105); a missing key there raises out
of the receive loop. A message of another schema is ignored whether or not it
has the other two keys. The model follows the code. A `Message` always carries
all three fields, and the crash path is listed under "Left out".

## Model

| member | source | states |
|---|---|---|
| HeapQ.HeapPush | brrd/stats.py:45 | pushing onto a heap gives a heap holding the old entries plus the new one, as a multiset |
| HeapQ.HeapPop | brrd/stats.py:46-47 | popping a non-empty heap returns its root; the rest is a heap with exactly that entry removed and one fewer element |
| HeapQ.RootIsMinimum | brrd/stats.py:46 | the root of a heap has the smallest timestamp, so `heap[0][0] < cutoff` tests the oldest entry |
| HeapQ.SiftDown | brrd/stats.py:47 | restoring the heap below the root keeps the same entries and the same length |
| Bisect.BisectRightSplits | brrd/logger.py:44 | in a sorted list, every element before the insertion point is <= x and every element from it on is > x (bisect_right) |
| Bisect.BisectRightUnique | brrd/logger.py:44 | the bisect_right position is the only index that splits a sorted list that way |
| Bisect.InsertSorted | brrd/logger.py:44 | inserting at the bisect_right position keeps a sorted list sorted and adds exactly that value |
| Bisect.Insort | brrd/logger.py:44 | the binary-search insort returns the splice at bisect_right: sorted and the old multiset plus x |
| Stats.Retained | brrd/stats.py:46-47 | the retained entries are no more than the input and all have timestamp >= cutoff |
| Stats.RetainedCount | brrd/stats.py:46-47 | an entry is retained as often as it was stored if it is not older than the cutoff, and not at all otherwise |
| Stats.RetainedPermutation | brrd/stats.py:45-47 | what is retained depends only on the multiset of stored entries, not on their heap positions |
| Stats.RetainedDropStale | brrd/stats.py:46-47 | removing one stale entry does not change what is retained |
| Stats.RetainedAllFresh | brrd/stats.py:46-47 | when nothing is stale, everything is retained, in order |
| Stats.RetainedDropsStale | brrd/stats.py:53-54 | one stale entry makes the retained list strictly shorter |
| Stats.Prune | brrd/stats.py:46-47 | popping while the root is stale leaves a heap holding exactly the entries at or after the cutoff |
| Stats.SlidingWindow.constructor | brrd/stats.py:35-38 | a new window is an empty heap with the given span |
| Stats.SlidingWindow.Add | brrd/stats.py:41-47 | after add, the heap is a heap again; it holds the old entries plus the new one, minus those older than now - span, and nothing older |
| Stats.SlidingWindow.Items | brrd/stats.py:49-55 | items is a heap of exactly the stored entries not older than now - span, its first element is the oldest, and the window is left as it is |
| Stats.SlidingWindow.Len | brrd/stats.py:57-58 | len counts every stored entry, stale ones included |
| Stats.LenAtLeastItems | brrd/stats.py:49-58 | len(window) >= len(items()), strictly when some stored entry has gone stale |
| Stats.Median | brrd/stats.py:64-72 | an empty list fails (ValueError); otherwise the median is the mean of the elements at (n-1)//2 and n//2, i.e. the middle one when n is odd |
| Stats.MedianOfSorted | brrd/stats.py:64-72 | for a sorted non-empty list the median is >= the lower half, <= the upper half, and between the first and last elements |
| Stats.MedianExamples | brrd/stats.py:69-72 | the medians of [1,2,3], [1,2,3,4] and [] are 2, 2.5 and an error |
| Text.IntToString | brrd/rrd.py:82 | the decimal rendering of an integer is non-empty and contains no ':' |
| Text.NatRoundTrip | brrd/rrd.py:82 | the digits of a natural number read back to that number |
| Text.IntRoundTrip | brrd/rrd.py:82 | the decimal rendering of any integer parses back to it |
| Text.SplitPrefix | brrd/rrd.py:90 | splitting a word without ':' followed by more text extends the first field of the rest |
| Text.SplitJoin | brrd/rrd.py:90 | splitting a ':'-joined list of ':'-free fields gives back those fields |
| Consts.MetricSet | brrd/consts.py:24-29 | the set of metric names holds exactly the names in METRICS, and there are four of them, as many as METRICS has entries |
| Consts.StepIsWhole | brrd/consts.py:52-55 | STEP = 3600 / 120 is the whole number 30 |
| Consts.YearIsWhole | brrd/consts.py:43 | the 365.25-day year is a whole 31557600 seconds |
| Consts.PeriodsDivisible | brrd/consts.py:38-57 | every period is a whole number of STEP-long rows: period // ROWS // STEP * ROWS * STEP == period; the hour takes 1 step per row, the year 8766 |
| Consts.MetricsDistinct | brrd/consts.py:24-29 | there are four pairwise distinct metric names, so a dict keyed by them has four entries |
| Consts.ThresholdPositive | brrd/consts.py:35 | SAMPLE_THRESHOLD >= 1, so a list that passes it is non-empty |
| Consts.RangeAndHeartbeat | brrd/consts.py:64-67 | MIN < MAX and the heartbeat is a full day of 86400 seconds |
| Rrd.DSRoundTrip | brrd/rrd.py:30-45 | a DS renders as DS:name:type:heartbeat:min:max in that order and parses back to the same DS when name and type have no ':' |
| Rrd.RRARoundTrip | brrd/rrd.py:48-57 | an RRA renders as RRA:type:xff:steps:rows in that order and parses back when the type and rendered xff have no ':' |
| Rrd.TimeText | brrd/rrd.py:84 | the time field ('N' or epoch seconds) is non-empty and contains no ':' |
| Rrd.Reorder | brrd/rrd.py:87-88 | reading a dict in source order succeeds exactly when every source name is a key, giving the values in source order; otherwise it fails with KeyError on the first missing name |
| Rrd.Rrd.constructor | brrd/rrd.py:63-68 | the file name, step, start, sources and archives are stored as given, and they are constants |
| Rrd.Rrd.Create | brrd/rrd.py:73-82 | create passes [filename, --no-overwrite, --step, step, --start, start], then every DS token, then every RRA token, in order; overwrite has no effect; each DS token parses back to its source |
| Rrd.Rrd.Update | brrd/rrd.py:84-91 | a count mismatch fails with ValueError before anything else; otherwise the call fails exactly when the dict lookup does; on success the string is time and the values in source order joined by ':', which splits back into those fields |
| Logger.InsertAllSortedPermutation | brrd/logger.py:43-44 | repeated insort builds a sorted list with exactly the inserted values |
| Logger.SamplesSortedPermutation | brrd/logger.py:37-44 | each metric's list is sorted and holds exactly the metric's truthy values from the snapshot |
| Logger.ValuesConcat | brrd/logger.py:38-42 | the kept values of two runs of entries are the kept values of each, concatenated |
| Logger.ValuesOne | brrd/logger.py:39-42 | one event contributes its value when it is present and non-zero, and nothing otherwise, so a literal 0 counts as absent |
| Logger.ValuesPermutation | brrd/logger.py:38-42 | the multiset of kept values depends only on the multiset of entries |
| Logger.SortedUnique | brrd/logger.py:43-44 | two sorted lists with the same elements are equal |
| Logger.SamplesPermutation | brrd/logger.py:38-44 | the sorted lists do not depend on the order in which the snapshot lists its entries |
| Logger.SamplesSnoc | brrd/logger.py:38-44 | one more event inserts its truthy value in sorted position, or leaves the list as it was |
| Logger.AddSkip | brrd/logger.py:40-42 | a falsy value leaves its metric's list unchanged |
| Logger.AddInsert | brrd/logger.py:43-44 | a truthy value is inserted into its own metric's list and no other list changes |
| Logger.AddEvent | brrd/logger.py:39-44 | one event's pass over METRICS inserts each truthy value into its metric's list and creates no keys outside METRICS |
| Logger.CollectSamples | brrd/logger.py:37-44 | after the first loop, each metric's list is the sorted list of the snapshot's truthy values for it |
| Logger.ComputeMedians | brrd/logger.py:46-51 | no result exactly when some metric has fewer than SAMPLE_THRESHOLD values; otherwise one entry per metric, keyed exactly by METRICS, each the median of its list |
| Logger.PushMedians | brrd/logger.py:53 | rrd.update with the medians succeeds exactly when the sources are four names that are all metrics; the string is 'N' and the medians in source order joined by ':', which splits back into those fields when no rendered median contains ':' |
| Logger.UpdateRrd | brrd/logger.py:35-53 | update_rrd skips exactly when some metric has too few values in the window; otherwise it writes exactly once, the medians of the window's truthy values keyed by METRICS, joined by ':' in source order after time 'N' |
| Ingest.Sources | brrd/logger.py:68-71 | one GAUGE source per metric in METRICS order, with HEARTBEAT, MIN and MAX, each of whose tokens parses back |
| Ingest.Archives | brrd/logger.py:73-77 | one AVERAGE archive per period in PERIODS order, xff 0.5, period / ROWS / STEP steps and ROWS rows, where steps * ROWS * STEP is exactly the period; the hour archive has one step |
| Ingest.CreateRrd | brrd/logger.py:67-84 | the rrd has exactly those sources and archives at step STEP and start 'N'; create is called exactly when no file is present, with the header, then the DS tokens, then the RRA tokens, and each DS token parses back |
| Ingest.LaunchesFirst | brrd/logger.py:102-107 | an arrival starts the worker exactly when the worker was not alive and it is the first arrival at least WINDOW_SPAN seconds after the start |
| Ingest.LaunchesAtMostOnce | brrd/logger.py:106-107 | the worker is started at most once over any run of arrivals |
| Ingest.LaunchesSnoc | brrd/logger.py:102-107 | the decision for one more arrival depends only on whether the worker is alive after the earlier ones |
| Ingest.MetricLogger.constructor | brrd/logger.py:87-93 | the window starts empty with span WINDOW_SPAN; the rrd is the one create_rrd builds (path, step, start, every source and archive) and the create call made is kept; the worker is not started |
| Ingest.IngestOnePermutation | brrd/logger.py:104-105 | one message's effect on the window depends only on the multiset of stored entries |
| Ingest.IngestedSnoc | brrd/logger.py:102-105 | a run one message longer applies that message to what the shorter run left |
| Ingest.IngestedIgnoresOthers | brrd/logger.py:104-105 | messages of other schemas never change the window |
| Ingest.IngestedFresh | brrd/logger.py:104-105 | after a NavigationTiming message at time now, nothing in the window is older than now - WINDOW_SPAN |
| Ingest.MetricLogger.Receive | brrd/logger.py:103-107 | a NavigationTiming message is added to the window as add does, any other leaves it unchanged; the worker starts exactly when it was not alive and WINDOW_SPAN seconds have passed |
| Ingest.MetricLogger.ReceiveAll | brrd/logger.py:102-107 | over a run of messages the window holds exactly what the messages' adds leave, the worker starts at exactly the arrivals that Launches picks, and is alive afterwards exactly when one arrival came late enough |

## Left out

- `heappush`/`heappop` and `bisect.insort` are the Python standard library. They are modelled by a textbook sift-up/sift-down and by a bisect_right binary search, proved to their contracts. The standard library's exact positions inside the heap list are not reproduced.
- HeapQ.HeapPush: entries are ordered by timestamp only. Python compares whole `(timestamp, event)` tuples, so it also orders equal timestamps by their event dicts.
- `SlidingWindow.lock`, the unlocked read of the heap in `items`, and the worker thread running `update_rrd` beside the receive loop are concurrency. They are not modelled. Each call is modelled as running alone.
- `time.time()` and `now()` are read from the system clock. They become the `now` parameter, as integer seconds, although `time.time()` is a float. In one turn of the receive loop the code reads two clocks: `time.time()` inside `add` (stats.py:43) and `now()` for the worker check (logger.py:106). Ingest.MetricLogger.Receive uses one `now` for both, so a clock tick between the two reads is not modelled.
- brrd/utils.py (`PeriodicThread`, `monotonic_clock`, `now`, `Application`) is not part of this model. The thread's interval is only represented by each `UpdateRrd` call being one tick.
- The zmq socket, `recv_json`, the cliff command wiring and the logging in `take_action` are transport. `ReceiveAll` models a finite prefix of the endless loop.
- A message without `schema`, a NavigationTiming message without `timestamp` or `event`, and malformed JSON raise out of the receive loop in the code. This is not modelled: `Message` always has the three fields.
- Ingest.Launches: `worker.is_alive()` is modelled as "has been started". In the code, an exception escaping `update_rrd` (the ValueError or KeyError that the model returns as a failed outcome, or an error inside rrdtool) ends the thread, `is_alive()` turns false, and the next late-enough message calls `start()` again, which raises RuntimeError out of the receive loop. That restart and its crash are not modelled, so LaunchesAtMostOnce holds only under this reading.
- Ingest.MetricLogger.Receive: `alive` is set once the worker is started and never cleared, so the worker dying and the failing second `start()` are not modelled.
- `os.path.abspath` in `RRD.__init__` and `os.path.exists` in `RRD.exists` use the file system. The file name is stored as given, and existence is the `present` parameter.
- The rrdtool engine (consolidation, x-files factor, heartbeat, circular archives) is external. `create` and `update` return the arguments rrdtool would receive.
- Python's `str` of a float (xff and the update values) is the `showFloat` parameter. The update-string round trip is proved only when no rendered value contains ':'.
- Consts.STEP and RRA `steps` are integers in the model. In Python they are floats from true division, so `create` passes `30.0` and `1.0` where the model's argument list has `30` and `1`.
- Metric values are `real`. Python's floats and ints, and its float rounding in the median's `/ 2`, are not modelled.
- setup.py is packaging only.
