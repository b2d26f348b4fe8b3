/** `brrd.logger`: the aggregation step that turns a window snapshot into one
    rrd update, the construction of the rrd definitions, and the per-message
    decision of the ingestion loop. */
module Logger {
  import opened Wrappers
  import opened HeapQ
  import opened Bisect
  import opened Stats
  import opened Text
  import opened Consts
  import opened Rrd

  /** The `event` of a NavigationTiming message: metric name to measurement. */
  type Event = map<string, real>

  /** `event.get(metric)` is truthy: present and non-zero. A literal 0 counts as absent. */
  predicate Truthy(event: Event, metric: string)
  {
    metric in event && event[metric] != 0.0
  }

  /** The values of `metric` that the aggregation keeps, in snapshot order. */
  function Values(items: seq<Entry<Event>>, metric: string): seq<real>
  {
    if items == [] then []
    else
      var last := items[|items| - 1].data;
      Values(items[..|items| - 1], metric) + (if Truthy(last, metric) then [last[metric]] else [])
  }

  /** The list that repeated `bisect.insort` builds from `vs`. */
  function InsertAll(vs: seq<real>): seq<real>
  {
    if vs == [] then [] else Insert(InsertAll(vs[..|vs| - 1]), vs[|vs| - 1])
  }

  /** The sorted list of `metric`'s values that `update_rrd` builds. */
  function Samples(items: seq<Entry<Event>>, metric: string): seq<real>
  {
    InsertAll(Values(items, metric))
  }

  /** `samples.get(metric, ())`. */
  function Get(samples: map<string, seq<real>>, metric: string): seq<real>
  {
    if metric in samples then samples[metric] else []
  }

  /** Repeated insertion yields a sorted permutation of its input. */
  lemma {:induction false} InsertAllSortedPermutation(vs: seq<real>)
    ensures Sorted(InsertAll(vs))
    ensures multiset(InsertAll(vs)) == multiset(vs)
  {
    if vs != [] {
      var init := vs[..|vs| - 1];
      InsertAllSortedPermutation(init);
      InsertSorted(InsertAll(init), vs[|vs| - 1]);
      assert vs == init + [vs[|vs| - 1]];
    }
  }

  /** A metric's sample list is sorted and holds exactly its truthy values. */
  lemma SamplesSortedPermutation(items: seq<Entry<Event>>, metric: string)
    ensures Sorted(Samples(items, metric))
    ensures multiset(Samples(items, metric)) == multiset(Values(items, metric))
    ensures |Samples(items, metric)| == |Values(items, metric)|
  {
    InsertAllSortedPermutation(Values(items, metric));
    assert |multiset(Samples(items, metric))| == |multiset(Values(items, metric))|;
  }

  /** `Values` distributes over concatenation. */
  lemma {:induction false} ValuesConcat(a: seq<Entry<Event>>, b: seq<Entry<Event>>, metric: string)
    ensures Values(a + b, metric) == Values(a, metric) + Values(b, metric)
    decreases |b|
  {
    if b != [] {
      var b' := b[..|b| - 1];
      assert (a + b)[..|a + b| - 1] == a + b';
      ValuesConcat(a, b', metric);
    } else {
      assert a + b == a;
    }
  }

  /** The values of a single entry. */
  lemma ValuesOne(e: Entry<Event>, metric: string)
    ensures Values([e], metric) == if Truthy(e.data, metric) then [e.data[metric]] else []
  {
    assert [e][..0] == [];
  }

  /** Reordering the snapshot reorders the values, and no more. */
  lemma {:induction false} ValuesPermutation(a: seq<Entry<Event>>, b: seq<Entry<Event>>, metric: string)
    requires multiset(a) == multiset(b)
    ensures multiset(Values(a, metric)) == multiset(Values(b, metric))
    decreases |a|
  {
    if a == [] {
      assert b == [] by {
        assert |multiset(b)| == 0;
      }
    } else {
      var x := a[|a| - 1];
      var a' := a[..|a| - 1];
      assert a == a' + [x];
      assert x in multiset(b);
      var k :| 0 <= k < |b| && b[k] == x;
      assert b == b[..k] + [x] + b[k + 1..];
      var b' := b[..k] + b[k + 1..];
      assert multiset(a) == multiset(a') + multiset{x};
      assert multiset(b) == multiset(b') + multiset{x};
      MultisetCancel(multiset(a'), multiset(b'), x);
      ValuesPermutation(a', b', metric);
      ValuesConcat(a', [x], metric);
      ValuesConcat(b[..k] + [x], b[k + 1..], metric);
      ValuesConcat(b[..k], [x], metric);
      ValuesConcat(b[..k], b[k + 1..], metric);
      ValuesOne(x, metric);
    }
  }

  /** Two sorted lists with the same elements are equal. */
  lemma {:induction false} SortedUnique(p: seq<real>, q: seq<real>)
    requires Sorted(p) && Sorted(q) && multiset(p) == multiset(q)
    ensures p == q
    decreases |p|
  {
    assert |p| == |multiset(p)| == |multiset(q)| == |q|;
    if p != [] {
      assert p[0] in multiset(q) && q[0] in multiset(p);
      var i :| 0 <= i < |q| && q[i] == p[0];
      var j :| 0 <= j < |p| && p[j] == q[0];
      assert q[0] <= q[i];
      assert p[0] <= p[j];
      assert p == [p[0]] + p[1..] && q == [q[0]] + q[1..];
      assert multiset(p) == multiset(p[1..]) + multiset{p[0]};
      assert multiset(q) == multiset(q[1..]) + multiset{p[0]};
      MultisetCancel(multiset(p[1..]), multiset(q[1..]), p[0]);
      TailSorted(p);
      TailSorted(q);
      SortedUnique(p[1..], q[1..]);
    }
  }

  lemma TailSorted(s: seq<real>)
    requires Sorted(s) && s != []
    ensures Sorted(s[1..])
  {
    forall i, j | 0 <= i <= j < |s| - 1
      ensures s[1..][i] <= s[1..][j]
    {
      assert s[i + 1] <= s[j + 1];
    }
  }

  /** A metric's sample list does not depend on the order of the snapshot. */
  lemma SamplesPermutation(a: seq<Entry<Event>>, b: seq<Entry<Event>>, metric: string)
    requires multiset(a) == multiset(b)
    ensures Samples(a, metric) == Samples(b, metric)
  {
    SamplesSortedPermutation(a, metric);
    SamplesSortedPermutation(b, metric);
    ValuesPermutation(a, b, metric);
    SortedUnique(Samples(a, metric), Samples(b, metric));
  }

  /** What one tick of the periodic worker did. */
  datatype Tick =
    | Skipped
    | Updated(medians: map<string, real>, outcome: Result<UpdateCall, RrdError>)

  /** Folding in one more entry inserts its value, if truthy, into the metric's list. */
  lemma SamplesSnoc(items: seq<Entry<Event>>, i: nat, metric: string)
    requires i < |items|
    ensures Samples(items[..i + 1], metric) ==
      if Truthy(items[i].data, metric) then Insert(Samples(items[..i], metric), items[i].data[metric])
      else Samples(items[..i], metric)
  {
    assert items[..i + 1][..i] == items[..i];
    var vs := Values(items[..i], metric);
    if Truthy(items[i].data, metric) {
      assert (vs + [items[i].data[metric]])[..|vs|] == vs;
    } else {
      assert vs + [] == vs;
    }
  }

  /** `metric`'s list from `samples` with the event's value, if truthy, inserted. */
  function Added(samples: map<string, seq<real>>, event: Event, metric: string): seq<real>
  {
    if Truthy(event, metric) then Insert(Get(samples, metric), event[metric]) else Get(samples, metric)
  }

  /** The inner loop's invariant after `j` metrics: the first `j` lists have
      had the event's value added, the others are as in `samples`. */
  ghost predicate AddedUpTo(r: map<string, seq<real>>, samples: map<string, seq<real>>, event: Event, j: int)
  {
    forall k :: 0 <= k < |METRICS| ==>
      Get(r, METRICS[k]) == if k < j then Added(samples, event, METRICS[k]) else Get(samples, METRICS[k])
  }

  /** One step of the inner loop for a metric whose value is missing or zero. */
  lemma AddSkip(r: map<string, seq<real>>, samples: map<string, seq<real>>, event: Event, j: int)
    requires 0 <= j < |METRICS| && !Truthy(event, METRICS[j])
    requires AddedUpTo(r, samples, event, j)
    ensures AddedUpTo(r, samples, event, j + 1)
  {
    forall k | 0 <= k < |METRICS|
      ensures Get(r, METRICS[k]) == if k < j + 1 then Added(samples, event, METRICS[k]) else Get(samples, METRICS[k])
    {
      if k == j {
        assert Get(r, METRICS[k]) == Get(samples, METRICS[k]);
      }
    }
  }

  /** One step of the inner loop for a metric whose value is truthy. */
  lemma AddInsert(r: map<string, seq<real>>, samples: map<string, seq<real>>, event: Event, j: int)
    requires 0 <= j < |METRICS| && Truthy(event, METRICS[j])
    requires AddedUpTo(r, samples, event, j)
    ensures AddedUpTo(r[METRICS[j] := Insert(Get(r, METRICS[j]), event[METRICS[j]])], samples, event, j + 1)
  {
    MetricsDistinct();
    var metric := METRICS[j];
    var r' := r[metric := Insert(Get(r, metric), event[metric])];
    forall k | 0 <= k < |METRICS|
      ensures Get(r', METRICS[k]) == if k < j + 1 then Added(samples, event, METRICS[k]) else Get(samples, METRICS[k])
    {
      if k != j {
        assert METRICS[k] != metric;
        assert Get(r', METRICS[k]) == Get(r, METRICS[k]);
      }
    }
  }

  /** The inner loop over `METRICS` for one event: each truthy value is
      inserted into its metric's list, created on first use (`setdefault`). */
  method AddEvent(samples: map<string, seq<real>>, event: Event) returns (r: map<string, seq<real>>)
    requires forall m :: m in samples ==> m in METRICS
    requires forall j :: 0 <= j < |METRICS| ==> Sorted(Get(samples, METRICS[j]))
    ensures forall m :: m in r ==> m in METRICS
    ensures forall j :: 0 <= j < |METRICS| ==> Get(r, METRICS[j]) == Added(samples, event, METRICS[j])
  {
    r := samples;
    for j := 0 to |METRICS|
      invariant forall m :: m in r ==> m in METRICS
      invariant AddedUpTo(r, samples, event, j)
    {
      var metric := METRICS[j];
      if metric in event && event[metric] != 0.0 {
        var values := Get(r, metric);
        assert values == Get(samples, metric);
        values := Insort(values, event[metric]);
        AddInsert(r, samples, event, j);
        r := r[metric := values];
      } else {
        AddSkip(r, samples, event, j);
      }
    }
    assert AddedUpTo(r, samples, event, |METRICS|);
  }

  /** `update_rrd`'s first loop: fold the entries of a snapshot into one
      sorted list per metric, skipping values that are missing or zero. */
  method CollectSamples(items: seq<Entry<Event>>) returns (samples: map<string, seq<real>>)
    ensures forall m :: m in samples ==> m in METRICS
    ensures forall j :: 0 <= j < |METRICS| ==> Get(samples, METRICS[j]) == Samples(items, METRICS[j])
  {
    samples := map[];
    for i := 0 to |items|
      invariant forall m :: m in samples ==> m in METRICS
      invariant forall j :: 0 <= j < |METRICS| ==> Get(samples, METRICS[j]) == Samples(items[..i], METRICS[j])
    {
      forall j | 0 <= j < |METRICS|
        ensures Sorted(Get(samples, METRICS[j]))
      {
        SamplesSortedPermutation(items[..i], METRICS[j]);
      }
      ghost var before := samples;
      samples := AddEvent(samples, items[i].data);
      forall j | 0 <= j < |METRICS|
        ensures Get(samples, METRICS[j]) == Samples(items[..i + 1], METRICS[j])
      {
        assert Get(samples, METRICS[j]) == Added(before, items[i].data, METRICS[j]);
        SamplesSnoc(items, i, METRICS[j]);
      }
    }
    assert items[..|items|] == items;
  }

  /** `update_rrd`'s second loop: the median of every metric's list, or
      `None` as soon as one list is shorter than `SAMPLE_THRESHOLD`. */
  method ComputeMedians(samples: map<string, seq<real>>) returns (found: Option<map<string, real>>)
    ensures found.None? <==> exists j :: 0 <= j < |METRICS| && |Get(samples, METRICS[j])| < SAMPLE_THRESHOLD
    ensures found.Some? ==> found.value.Keys == MetricSet()
    ensures found.Some? ==> forall j :: 0 <= j < |METRICS| ==>
      Median(Get(samples, METRICS[j])) == Success(found.value[METRICS[j]])
  {
    MetricsDistinct();
    var medians: map<string, real> := map[];
    for j := 0 to |METRICS|
      invariant medians.Keys == set k | 0 <= k < j :: METRICS[k]
      invariant forall k :: 0 <= k < j ==> |Get(samples, METRICS[k])| >= SAMPLE_THRESHOLD
      invariant forall k :: 0 <= k < j ==> Median(Get(samples, METRICS[k])) == Success(medians[METRICS[k]])
    {
      var metric := METRICS[j];
      var values := Get(samples, metric);
      if |values| < SAMPLE_THRESHOLD {
        return None;
      }
      medians := medians[metric := Median(values).value];
    }
    assert medians.Keys == MetricSet();
    found := Some(medians);
  }

  /** `rrd.update(medians)`: one value per metric, written at time "N" in the
      order of the file's sources. */
  method PushMedians(rrd: Rrd, medians: map<string, real>, showFloat: real -> string)
    returns (outcome: Result<UpdateCall, RrdError>)
    requires medians.Keys == MetricSet()
    ensures outcome.Success? <==>
      (|rrd.sources| == |METRICS| &&
       forall i :: 0 <= i < |rrd.sources| ==> rrd.sources[i].name in medians)
    ensures outcome.Success? ==>
      outcome.value.arg ==
        Join(["N"] + seq(|rrd.sources|, i requires 0 <= i < |rrd.sources| => showFloat(medians[rrd.sources[i].name])), ':')
    ensures outcome.Success? ==>
      outcome.value.filename == rrd.filename &&
      ((forall i :: 0 <= i < |rrd.sources| ==> NoSep(showFloat(medians[rrd.sources[i].name]), ':')) ==>
        Split(outcome.value.arg, ':') ==
          ["N"] + seq(|rrd.sources|, i requires 0 <= i < |rrd.sources| => showFloat(medians[rrd.sources[i].name])))
  {
    MetricsDistinct();
    assert |medians| == |medians.Keys| == |METRICS|;
    outcome := rrd.Update(Named(medians), showFloat);
    if outcome.Success? {
      var vs := Ordered(Named(medians), rrd.sources).value;
      assert [TimeText(Now)] + Render(vs, showFloat) ==
        ["N"] + seq(|rrd.sources|, i requires 0 <= i < |rrd.sources| => showFloat(medians[rrd.sources[i].name]));
    }
  }

  /** `update_rrd(rrd, window)` at wall-clock time `now`: read the window,
      build the sorted lists, and write one median per metric, or nothing at
      all if some metric has fewer than `SAMPLE_THRESHOLD` values. */
  method UpdateRrd(rrd: Rrd, window: SlidingWindow<Event>, now: int, showFloat: real -> string) returns (tick: Tick)
    requires window.Valid()
    ensures tick.Skipped? <==>
      exists j :: 0 <= j < |METRICS| &&
        |Values(Retained(window.heap, now - window.span), METRICS[j])| < SAMPLE_THRESHOLD
    ensures tick.Updated? ==> tick.medians.Keys == MetricSet()
    ensures tick.Updated? ==> forall j :: 0 <= j < |METRICS| ==>
      Median(Samples(Retained(window.heap, now - window.span), METRICS[j])) == Success(tick.medians[METRICS[j]])
    ensures tick.Updated? ==>
      (tick.outcome.Success? <==>
        (|rrd.sources| == |METRICS| &&
         forall i :: 0 <= i < |rrd.sources| ==> rrd.sources[i].name in tick.medians))
    ensures tick.Updated? && tick.outcome.Success? ==>
      tick.outcome.value.arg ==
        Join(["N"] + seq(|rrd.sources|, i requires 0 <= i < |rrd.sources| => showFloat(tick.medians[rrd.sources[i].name])), ':')
    ensures tick.Updated? && tick.outcome.Success? ==>
      tick.outcome.value.filename == rrd.filename &&
      ((forall i :: 0 <= i < |rrd.sources| ==> NoSep(showFloat(tick.medians[rrd.sources[i].name]), ':')) ==>
        Split(tick.outcome.value.arg, ':') ==
          ["N"] + seq(|rrd.sources|, i requires 0 <= i < |rrd.sources| => showFloat(tick.medians[rrd.sources[i].name])))
  {
    ghost var snapshot := Retained(window.heap, now - window.span);
    var items := window.Items(now);
    var samples := CollectSamples(items);
    forall j | 0 <= j < |METRICS|
      ensures Samples(items, METRICS[j]) == Samples(snapshot, METRICS[j])
    {
      SamplesPermutation(items, snapshot, METRICS[j]);
    }
    forall j | 0 <= j < |METRICS|
      ensures |Samples(snapshot, METRICS[j])| == |Values(snapshot, METRICS[j])|
    {
      SamplesSortedPermutation(snapshot, METRICS[j]);
    }
    var found := ComputeMedians(samples);
    if found.None? {
      return Skipped;
    }
    var medians := found.value;
    var outcome := PushMedians(rrd, medians, showFloat);
    tick := Updated(medians, outcome);
  }
}

/** `brrd.logger`'s command: the rrd definitions `create_rrd` builds, and
    the ingestion loop of `take_action`, one received message at a time. */
module Ingest {
  import opened Wrappers
  import opened HeapQ
  import opened Stats
  import opened Text
  import opened Consts
  import opened Rrd
  import opened Logger

  /** The data source `create_rrd` defines for the `i`-th metric. */
  function SourceDef(i: nat): DS
    requires i < |METRICS|
  {
    DS(METRICS[i], "GAUGE", HEARTBEAT, MIN, MAX)
  }

  /** The archive `create_rrd` defines for the `i`-th period. */
  function ArchiveDef(i: nat): RRA
    requires i < |PERIODS|
  {
    RRA("AVERAGE", 0.5, PERIODS[i] / ROWS / STEP, ROWS)
  }

  /** The arguments of `create` for the rrd that `create_rrd` builds at `rrdPath`. */
  function CreateArgs(rrdPath: string, showFloat: real -> string): seq<string>
  {
    [rrdPath, "--no-overwrite", "--step", IntToString(STEP), "--start", "N"]
      + seq(|METRICS|, i requires 0 <= i < |METRICS| => SourceDef(i).ToString())
      + seq(|PERIODS|, i requires 0 <= i < |PERIODS| => ArchiveDef(i).ToString(showFloat))
  }

  /** One data source per metric: a gauge with the configured heartbeat and range. */
  method Sources() returns (sources: seq<DS>)
    ensures |sources| == |METRICS|
    ensures forall i :: 0 <= i < |sources| ==> sources[i] == SourceDef(i)
    ensures forall i :: 0 <= i < |sources| ==> ParseDS(sources[i].ToString()) == Some(sources[i])
  {
    sources := [];
    for i := 0 to |METRICS|
      invariant |sources| == i
      invariant forall k :: 0 <= k < i ==> sources[k] == SourceDef(k)
    {
      sources := sources + [DS(METRICS[i], "GAUGE", HEARTBEAT, MIN, MAX)];
    }
    forall i | 0 <= i < |sources|
      ensures ParseDS(sources[i].ToString()) == Some(sources[i])
    {
      DSRoundTrip(sources[i]);
    }
  }

  /** One averaging archive per period, of `ROWS` rows, each row covering
      `period / ROWS / STEP` base steps. */
  method Archives() returns (archives: seq<RRA>)
    ensures |archives| == |PERIODS|
    ensures forall i :: 0 <= i < |archives| ==> archives[i] == ArchiveDef(i)
    ensures forall i :: 0 <= i < |archives| ==>
      archives[i].cf == "AVERAGE" && archives[i].xff == 0.5 && archives[i].rows == ROWS
    ensures forall i :: 0 <= i < |archives| ==> archives[i].steps * ROWS * STEP == PERIODS[i]
    ensures archives[0].steps == 1
  {
    PeriodsDivisible();
    archives := [];
    for i := 0 to |PERIODS|
      invariant |archives| == i
      invariant forall k :: 0 <= k < i ==> archives[k] == ArchiveDef(k)
    {
      var steps := PERIODS[i] / ROWS / STEP;
      archives := archives + [RRA("AVERAGE", 0.5, steps, ROWS)];
    }
  }

  /** An argument list with `create`'s layout over `create_rrd`'s definitions is `CreateArgs`. */
  lemma CreateArgsLayout(args: seq<string>, rrdPath: string, showFloat: real -> string)
    requires |args| == 6 + |METRICS| + |PERIODS|
    requires args[..6] == [rrdPath, "--no-overwrite", "--step", IntToString(STEP), "--start", "N"]
    requires forall i :: 0 <= i < |METRICS| ==> args[6 + i] == SourceDef(i).ToString()
    requires forall i :: 0 <= i < |PERIODS| ==> args[6 + |METRICS| + i] == ArchiveDef(i).ToString(showFloat)
    ensures args == CreateArgs(rrdPath, showFloat)
  {
    var c := CreateArgs(rrdPath, showFloat);
    forall k | 0 <= k < |args|
      ensures args[k] == c[k]
    {
      if k < 6 {
        assert args[k] == args[..6][k];
      }
    }
  }

  /** `create_rrd(rrd_path)`: build the definitions and, unless a file is
      `present` at that path, the `create` call. */
  method CreateRrd(rrdPath: string, present: bool, showFloat: real -> string) returns (rrd: Rrd, created: Option<seq<string>>)
    ensures fresh(rrd)
    ensures rrd.filename == rrdPath && rrd.step == STEP && rrd.start == Now
    ensures |rrd.sources| == |METRICS| && forall i :: 0 <= i < |METRICS| ==> rrd.sources[i] == SourceDef(i)
    ensures |rrd.archives| == |PERIODS| && forall i :: 0 <= i < |PERIODS| ==> rrd.archives[i] == ArchiveDef(i)
    ensures forall i :: 0 <= i < |PERIODS| ==> rrd.archives[i].steps * ROWS * STEP == PERIODS[i]
    ensures created.Some? <==> !present
    ensures created.Some? ==> created.value == CreateArgs(rrdPath, showFloat)
    ensures created.Some? ==> |created.value| == 6 + |METRICS| + |PERIODS|
    ensures created.Some? ==> forall i :: 0 <= i < |METRICS| ==> ParseDS(created.value[6 + i]) == Some(SourceDef(i))
  {
    var sources := Sources();
    var archives := Archives();
    rrd := new Rrd(rrdPath, STEP, Now, sources, archives);
    if !present {
      var args := rrd.Create(false, showFloat);
      CreateArgsLayout(args, rrdPath, showFloat);
      created := Some(args);
    } else {
      created := None;
    }
  }

  /** A message as received: its `schema`, `timestamp` and `event` fields. */
  datatype Message = Message(schema: string, timestamp: int, event: Event)

  /** Whether each of a run of arrivals, at times `nows`, starts the worker:
      a start happens when the worker is not yet alive and `WINDOW_SPAN`
      seconds have gone by since `timeStart`. */
  function Launches(alive: bool, timeStart: int, nows: seq<int>): (r: seq<bool>)
    ensures |r| == |nows|
    decreases |nows|
  {
    if nows == [] then []
    else
      var go := !alive && nows[0] - timeStart >= WINDOW_SPAN;
      [go] + Launches(alive || go, timeStart, nows[1..])
  }

  /** An arrival starts the worker exactly when it is the first one at which
      the window has been filling for `WINDOW_SPAN` seconds, and never if the
      worker was alive to begin with. */
  lemma {:induction false} LaunchesFirst(alive: bool, timeStart: int, nows: seq<int>)
    ensures forall i :: 0 <= i < |nows| ==>
      (Launches(alive, timeStart, nows)[i] <==>
        (!alive && nows[i] - timeStart >= WINDOW_SPAN &&
         forall k :: 0 <= k < i ==> nows[k] - timeStart < WINDOW_SPAN))
    decreases |nows|
  {
    if nows != [] {
      var go := !alive && nows[0] - timeStart >= WINDOW_SPAN;
      LaunchesFirst(alive || go, timeStart, nows[1..]);
      var r := Launches(alive, timeStart, nows);
      forall i | 0 <= i < |nows|
        ensures r[i] <==>
          (!alive && nows[i] - timeStart >= WINDOW_SPAN &&
           forall k :: 0 <= k < i ==> nows[k] - timeStart < WINDOW_SPAN)
      {
        if i > 0 {
          assert r[i] == Launches(alive || go, timeStart, nows[1..])[i - 1];
          assert forall k :: 0 <= k < i - 1 ==> nows[1..][k] == nows[k + 1];
          if !alive && !go {
            assert (forall k :: 0 <= k < i ==> nows[k] - timeStart < WINDOW_SPAN) <==>
              (forall k :: 0 <= k < i - 1 ==> nows[1..][k] - timeStart < WINDOW_SPAN);
          }
        }
      }
    }
  }

  /** The worker is started at most once over any run of arrivals. */
  lemma LaunchesAtMostOnce(alive: bool, timeStart: int, nows: seq<int>)
    ensures forall i, j :: 0 <= i < j < |nows| ==>
      !(Launches(alive, timeStart, nows)[i] && Launches(alive, timeStart, nows)[j])
  {
    LaunchesFirst(alive, timeStart, nows);
  }

  /** Whether the worker is alive after a run of arrivals at times `nows`. */
  predicate AliveAfter(alive: bool, timeStart: int, nows: seq<int>)
  {
    alive || exists k :: 0 <= k < |nows| && nows[k] - timeStart >= WINDOW_SPAN
  }

  /** One more arrival extends the run's decisions by the decision taken in
      the state the run left behind. */
  lemma {:induction false} LaunchesSnoc(alive: bool, timeStart: int, nows: seq<int>, now: int)
    ensures Launches(alive, timeStart, nows + [now]) ==
      Launches(alive, timeStart, nows) + [!AliveAfter(alive, timeStart, nows) && now - timeStart >= WINDOW_SPAN]
    decreases |nows|
  {
    if nows == [] {
      assert [] + [now] == [now];
    } else {
      var go := !alive && nows[0] - timeStart >= WINDOW_SPAN;
      assert (nows + [now])[1..] == nows[1..] + [now];
      LaunchesSnoc(alive || go, timeStart, nows[1..], now);
      assert AliveAfter(alive, timeStart, nows) == AliveAfter(alive || go, timeStart, nows[1..]) by {
        if AliveAfter(alive || go, timeStart, nows[1..]) && !alive && !go {
          var k :| 0 <= k < |nows[1..]| && nows[1..][k] - timeStart >= WINDOW_SPAN;
          assert nows[k + 1] - timeStart >= WINDOW_SPAN;
        }
        if AliveAfter(alive, timeStart, nows) && !alive && !go {
          var k :| 0 <= k < |nows| && nows[k] - timeStart >= WINDOW_SPAN;
          assert k > 0 && nows[1..][k - 1] == nows[k];
        }
      }
    }
  }

  /** The window's entries after a run of messages, starting from `h`:
      each NavigationTiming message goes through `add` at its own arrival
      time, every other message is ignored. */
  function Ingested(h: seq<Entry<Event>>, msgs: seq<Message>, nows: seq<int>): seq<Entry<Event>>
    requires |msgs| == |nows|
    decreases |msgs|
  {
    if msgs == [] then h
    else
      var n := |msgs| - 1;
      IngestOne(Ingested(h, msgs[..n], nows[..n]), msgs[n], nows[n])
  }

  /** One message's effect on the window's entries `h` at time `now`. */
  function IngestOne(h: seq<Entry<Event>>, msg: Message, now: int): seq<Entry<Event>>
  {
    if msg.schema == "NavigationTiming"
    then Retained(h + [Entry(msg.timestamp, msg.event)], now - WINDOW_SPAN)
    else h
  }

  /** One message's effect depends only on the multiset of entries it meets. */
  lemma IngestOnePermutation(a: seq<Entry<Event>>, b: seq<Entry<Event>>, msg: Message, now: int)
    requires multiset(a) == multiset(b)
    ensures multiset(IngestOne(a, msg, now)) == multiset(IngestOne(b, msg, now))
  {
    if msg.schema == "NavigationTiming" {
      var e := Entry(msg.timestamp, msg.event);
      RetainedPermutation(a + [e], b + [e], now - WINDOW_SPAN);
    }
  }

  /** A run one message longer applies that message to the shorter run's result. */
  lemma IngestedSnoc(h: seq<Entry<Event>>, msgs: seq<Message>, nows: seq<int>, i: nat)
    requires |msgs| == |nows| && i < |msgs|
    ensures Ingested(h, msgs[..i + 1], nows[..i + 1]) == IngestOne(Ingested(h, msgs[..i], nows[..i]), msgs[i], nows[i])
  {
    assert msgs[..i + 1][..i] == msgs[..i] && nows[..i + 1][..i] == nows[..i];
  }

  /** The loop step of `ReceiveAll` for the window: a heap matching the
      first `i` messages, after `add`, matches the first `i + 1`. */
  lemma WindowStep(after: seq<Entry<Event>>, before: seq<Entry<Event>>, h: seq<Entry<Event>>,
                   msgs: seq<Message>, nows: seq<int>, i: nat)
    requires |msgs| == |nows| && i < |msgs|
    requires multiset(before) == multiset(Ingested(h, msgs[..i], nows[..i]))
    requires multiset(after) == multiset(IngestOne(before, msgs[i], nows[i]))
    ensures multiset(after) == multiset(Ingested(h, msgs[..i + 1], nows[..i + 1]))
  {
    IngestedSnoc(h, msgs, nows, i);
    IngestOnePermutation(before, Ingested(h, msgs[..i], nows[..i]), msgs[i], nows[i]);
  }

  /** The loop step of `ReceiveAll` for the worker: the decisions and the
      alive flag for the first `i` arrivals extend to the first `i + 1`. */
  lemma LaunchStep(alive: bool, timeStart: int, nows: seq<int>, i: nat, wasAlive: bool, launched: bool)
    requires i < |nows|
    requires wasAlive == AliveAfter(alive, timeStart, nows[..i])
    requires launched == (!wasAlive && nows[i] - timeStart >= WINDOW_SPAN)
    ensures Launches(alive, timeStart, nows[..i + 1]) == Launches(alive, timeStart, nows[..i]) + [launched]
    ensures AliveAfter(alive, timeStart, nows[..i + 1]) == (wasAlive || launched)
  {
    LaunchesSnoc(alive, timeStart, nows[..i], nows[i]);
    assert nows[..i + 1] == nows[..i] + [nows[i]];
    assert forall k :: 0 <= k < i ==> nows[..i + 1][k] == nows[..i][k];
  }

  /** A run with no NavigationTiming message leaves the window as it was. */
  lemma {:induction false} IngestedIgnoresOthers(h: seq<Entry<Event>>, msgs: seq<Message>, nows: seq<int>)
    requires |msgs| == |nows|
    requires forall i :: 0 <= i < |msgs| ==> msgs[i].schema != "NavigationTiming"
    ensures Ingested(h, msgs, nows) == h
    decreases |msgs|
  {
    if msgs != [] {
      var n := |msgs| - 1;
      IngestedIgnoresOthers(h, msgs[..n], nows[..n]);
    }
  }

  /** After a NavigationTiming message at time `now`, nothing in the window
      is older than `now - WINDOW_SPAN`, whatever came before. */
  lemma IngestedFresh(h: seq<Entry<Event>>, msgs: seq<Message>, nows: seq<int>)
    requires |msgs| == |nows| && msgs != [] && msgs[|msgs| - 1].schema == "NavigationTiming"
    ensures forall k :: 0 <= k < |Ingested(h, msgs, nows)| ==>
      Ingested(h, msgs, nows)[k].ts >= nows[|nows| - 1] - WINDOW_SPAN
  {
  }

  /** The state `take_action` keeps across messages. */
  class MetricLogger {
    const window: SlidingWindow<Event>
    const rrd: Rrd
    const timeStart: int
    /** The `create` call made at start-up, if the file was not present. */
    const created: Option<seq<string>>
    var alive: bool

    ghost predicate Valid()
      reads this, window
    {
      window.Valid() && window.span == WINDOW_SPAN
    }

    /** Set up the window, the rrd (creating its file unless `present`) and
        the clock reading `timeStart`; the worker is not started yet. */
    constructor (rrdPath: string, present: bool, timeStart: int, showFloat: real -> string)
      ensures Valid() && fresh(window) && window.heap == []
      ensures fresh(rrd) && rrd.filename == rrdPath && rrd.step == STEP && rrd.start == Now
      ensures |rrd.sources| == |METRICS| && forall i :: 0 <= i < |METRICS| ==> rrd.sources[i] == SourceDef(i)
      ensures |rrd.archives| == |PERIODS| && forall i :: 0 <= i < |PERIODS| ==> rrd.archives[i] == ArchiveDef(i)
      ensures created.Some? <==> !present
      ensures created.Some? ==> created.value == CreateArgs(rrdPath, showFloat)
      ensures this.timeStart == timeStart && !alive
    {
      window := new SlidingWindow(WINDOW_SPAN);
      var r, c := CreateRrd(rrdPath, present, showFloat);
      rrd := r;
      created := c;
      this.timeStart := timeStart;
      alive := false;
    }

    /** One turn of the receive loop at clock reading `now`: a
        NavigationTiming message goes into the window, then the worker is
        started if it is not alive and the window has had `WINDOW_SPAN`
        seconds to fill. */
    method Receive(msg: Message, now: int) returns (launched: bool)
      requires Valid()
      modifies this, window
      ensures Valid()
      ensures msg.schema == "NavigationTiming" ==>
        window.Contents() == multiset(Retained(old(window.heap) + [Entry(msg.timestamp, msg.event)], now - WINDOW_SPAN))
      ensures msg.schema != "NavigationTiming" ==> window.heap == old(window.heap)
      ensures window.Contents() == multiset(IngestOne(old(window.heap), msg, now))
      ensures launched == Launches(old(alive), timeStart, [now])[0]
      ensures alive == (old(alive) || launched)
    {
      if msg.schema == "NavigationTiming" {
        window.Add(now, msg.timestamp, msg.event);
      }
      launched := !alive && now - timeStart >= WINDOW_SPAN;
      if launched {
        alive := true;
      }
    }

    /** `take_action`'s receive loop over the messages `msgs` arriving at
        clock readings `nows`: whether each turn started the worker. */
    method ReceiveAll(msgs: seq<Message>, nows: seq<int>) returns (launches: seq<bool>)
      requires Valid() && |msgs| == |nows|
      modifies this, window
      ensures Valid()
      ensures launches == Launches(old(alive), timeStart, nows)
      ensures alive == AliveAfter(old(alive), timeStart, nows)
      ensures window.Contents() == multiset(Ingested(old(window.heap), msgs, nows))
    {
      launches := [];
      ghost var h0 := window.heap;
      for i := 0 to |msgs|
        invariant Valid()
        invariant launches == Launches(old(alive), timeStart, nows[..i])
        invariant alive == AliveAfter(old(alive), timeStart, nows[..i])
        invariant window.Contents() == multiset(Ingested(h0, msgs[..i], nows[..i]))
      {
        ghost var before := window.heap;
        ghost var wasAlive := alive;
        var launched := Receive(msgs[i], nows[i]);
        WindowStep(window.heap, before, h0, msgs, nows, i);
        LaunchStep(old(alive), timeStart, nows, i, wasAlive, launched);
        launches := launches + [launched];
      }
      assert msgs[..|msgs|] == msgs && nows[..|msgs|] == nows;
    }
  }
}
