/** `brrd.rrd`: data-source and archive definitions, and the argument lists
    that `create` and `update` hand to rrdtool. `showFloat` stands for
    Python's `str` of a float, which this model does not spell out. */
module Rrd {
  import opened Wrappers
  import opened Text

  /** A data source ('DS'): name, type, heartbeat, min and max. */
  datatype DS = DS(name: string, dsType: string, heartbeat: int, min: int, max: int)
  {
    /** `str(ds)`: the template `DS:name:type:heartbeat:min:max`. */
    function ToString(): string
    {
      Join(["DS", name, dsType, IntToString(heartbeat), IntToString(min), IntToString(max)], ':')
    }
  }

  /** An archive ('RRA'): consolidation function, x-files factor, steps and rows. */
  datatype RRA = RRA(cf: string, xff: real, steps: int, rows: int)
  {
    /** `str(rra)`: the template `RRA:type:xff:steps:rows`. */
    function ToString(showFloat: real -> string): string
    {
      Join(["RRA", cf, showFloat(xff), IntToString(steps), IntToString(rows)], ':')
    }
  }

  /** The inverse of `DS.ToString`. */
  function ParseDS(s: string): Option<DS>
  {
    var f := Split(s, ':');
    if |f| == 6 && f[0] == "DS" && ParseInt(f[3]).Some? && ParseInt(f[4]).Some? && ParseInt(f[5]).Some?
    then Some(DS(f[1], f[2], ParseInt(f[3]).value, ParseInt(f[4]).value, ParseInt(f[5]).value))
    else None
  }

  /** The inverse of `RRA.ToString`, given the inverse of the float rendering. */
  function ParseRRA(s: string, readFloat: string -> Option<real>): Option<RRA>
  {
    var f := Split(s, ':');
    if |f| == 5 && f[0] == "RRA" && readFloat(f[2]).Some? && ParseInt(f[3]).Some? && ParseInt(f[4]).Some?
    then Some(RRA(f[1], readFloat(f[2]).value, ParseInt(f[3]).value, ParseInt(f[4]).value))
    else None
  }

  /** A data source renders as its six fields in order and parses back,
      provided its name and type contain no ':'. */
  lemma DSRoundTrip(ds: DS)
    requires NoSep(ds.name, ':') && NoSep(ds.dsType, ':')
    ensures Split(ds.ToString(), ':') ==
      ["DS", ds.name, ds.dsType, IntToString(ds.heartbeat), IntToString(ds.min), IntToString(ds.max)]
    ensures ParseDS(ds.ToString()) == Some(ds)
  {
    var parts := ["DS", ds.name, ds.dsType, IntToString(ds.heartbeat), IntToString(ds.min), IntToString(ds.max)];
    assert forall i :: 0 <= i < |parts| ==> NoSep(parts[i], ':');
    SplitJoin(parts, ':');
    IntRoundTrip(ds.heartbeat);
    IntRoundTrip(ds.min);
    IntRoundTrip(ds.max);
  }

  /** An archive renders as its five fields in order and parses back,
      provided its type and rendered x-files factor contain no ':'. */
  lemma RRARoundTrip(rra: RRA, showFloat: real -> string, readFloat: string -> Option<real>)
    requires NoSep(rra.cf, ':') && NoSep(showFloat(rra.xff), ':')
    requires readFloat(showFloat(rra.xff)) == Some(rra.xff)
    ensures Split(rra.ToString(showFloat), ':') ==
      ["RRA", rra.cf, showFloat(rra.xff), IntToString(rra.steps), IntToString(rra.rows)]
    ensures ParseRRA(rra.ToString(showFloat), readFloat) == Some(rra)
  {
    var parts := ["RRA", rra.cf, showFloat(rra.xff), IntToString(rra.steps), IntToString(rra.rows)];
    assert forall i :: 0 <= i < |parts| ==> NoSep(parts[i], ':');
    SplitJoin(parts, ':');
    IntRoundTrip(rra.steps);
    IntRoundTrip(rra.rows);
  }

  /** The `time` and `start` arguments: rrdtool's "now" marker `N`, or epoch seconds. */
  datatype Time = Now | At(epoch: int)

  function TimeText(t: Time): (s: string)
    ensures |s| > 0 && NoSep(s, ':')
  {
    match t
    case Now => "N"
    case At(e) => IntToString(e)
  }

  /** The `values` argument of `update`: a sequence, or a dict keyed by source name. */
  datatype Values = Positional(items: seq<real>) | Named(byName: map<string, real>)
  {
    /** `len(values)`. */
    function Count(): nat
    {
      match this
      case Positional(v) => |v|
      case Named(m) => |m|
    }
  }

  datatype RrdError =
    | MissingSources        // the ValueError raised on a count mismatch
    | KeyError(key: string) // a dict without an entry for this source

  /** The call `rrdtool.update(filename, arg)`. */
  datatype UpdateCall = UpdateCall(filename: string, arg: string)

  /** `sources[i]` is the first source whose name the dict lacks. */
  predicate FirstMissing(byName: map<string, real>, sources: seq<DS>, i: int)
  {
    0 <= i < |sources| && sources[i].name !in byName &&
    forall j :: 0 <= j < i ==> sources[j].name in byName
  }

  /** `[values[source.name] for source in sources]`: the dict read in source
      order, failing on the first source it has no entry for. */
  function Reorder(byName: map<string, real>, sources: seq<DS>): (r: Result<seq<real>, RrdError>)
    ensures r.Success? <==> forall i :: 0 <= i < |sources| ==> sources[i].name in byName
    ensures r.Success? ==> (|r.value| == |sources| &&
      forall i :: 0 <= i < |sources| ==> r.value[i] == byName[sources[i].name])
    ensures r.Failure? ==> exists i :: FirstMissing(byName, sources, i) && r.error == KeyError(sources[i].name)
  {
    if sources == [] then Success([])
    else if sources[0].name !in byName then Failure(KeyError(sources[0].name))
    else
      match Reorder(byName, sources[1..])
      case Success(rest) => Success([byName[sources[0].name]] + rest)
      case Failure(e) =>
        assert exists i :: FirstMissing(byName, sources[1..], i) && e == KeyError(sources[1..][i].name);
        var i :| FirstMissing(byName, sources[1..], i) && e == KeyError(sources[1..][i].name);
        assert FirstMissing(byName, sources, i + 1);
        Failure(e)
  }

  /** The values of an update in source order. */
  function Ordered(values: Values, sources: seq<DS>): Result<seq<real>, RrdError>
  {
    match values
    case Positional(v) => Success(v)
    case Named(m) => Reorder(m, sources)
  }

  /** Each value through `str`. */
  function Render(vs: seq<real>, showFloat: real -> string): (r: seq<string>)
    ensures |r| == |vs| && forall i :: 0 <= i < |vs| ==> r[i] == showFloat(vs[i])
  {
    seq(|vs|, i requires 0 <= i < |vs| => showFloat(vs[i]))
  }

  /** A round-robin database file: constant definitions fixed at construction. */
  class Rrd {
    const filename: string
    const step: int
    const start: Time
    const sources: seq<DS>
    const archives: seq<RRA>

    /** `RRD(filename, step, start, sources, archives)`; the path is kept as given. */
    constructor (filename: string, step: int, start: Time, sources: seq<DS>, archives: seq<RRA>)
      ensures this.filename == filename && this.step == step && this.start == start
      ensures this.sources == sources && this.archives == archives
    {
      this.filename := filename;
      this.step := step;
      this.start := start;
      this.sources := sources;
      this.archives := archives;
    }

    /** The arguments `create` passes to `rrdtool.create`. `--no-overwrite`
        is always passed: `overwrite` has no effect. */
    method Create(overwrite: bool, showFloat: real -> string) returns (args: seq<string>)
      ensures |args| == 6 + |sources| + |archives|
      ensures args[..6] == [filename, "--no-overwrite", "--step", IntToString(step), "--start", TimeText(start)]
      ensures forall i :: 0 <= i < |sources| ==> args[6 + i] == sources[i].ToString()
      ensures forall i :: 0 <= i < |archives| ==> args[6 + |sources| + i] == archives[i].ToString(showFloat)
      ensures forall i :: 0 <= i < |sources| && NoSep(sources[i].name, ':') && NoSep(sources[i].dsType, ':') ==>
        ParseDS(args[6 + i]) == Some(sources[i])
    {
      args := [filename, "--no-overwrite", "--step", IntToString(step), "--start", TimeText(start)];
      args := args + seq(|sources|, i requires 0 <= i < |sources| => sources[i].ToString());
      args := args + seq(|archives|, i requires 0 <= i < |archives| => archives[i].ToString(showFloat));
      forall i | 0 <= i < |sources| && NoSep(sources[i].name, ':') && NoSep(sources[i].dsType, ':')
        ensures ParseDS(args[6 + i]) == Some(sources[i])
      {
        DSRoundTrip(sources[i]);
      }
    }

    /** `update(values, time)`: check the count, put the values in source
        order, and join `time` and the values with ':'. */
    method Update(values: Values, showFloat: real -> string, time: Time := Now) returns (r: Result<UpdateCall, RrdError>)
      ensures values.Count() != |sources| ==> r == Failure(MissingSources)
      ensures values.Count() == |sources| ==>
        (r.Failure? <==> Ordered(values, sources).Failure?) &&
        (r.Failure? ==> r.error == Ordered(values, sources).error)
      ensures r.Success? ==> Ordered(values, sources).Success? && |Ordered(values, sources).value| == |sources|
      ensures r.Success? ==> (r.value.filename == filename &&
        r.value.arg == Join([TimeText(time)] + Render(Ordered(values, sources).value, showFloat), ':'))
      ensures r.Success? && (forall i :: 0 <= i < |sources| ==> NoSep(showFloat(Ordered(values, sources).value[i]), ':')) ==>
        Split(r.value.arg, ':') == [TimeText(time)] + Render(Ordered(values, sources).value, showFloat)
    {
      if values.Count() != |sources| {
        return Failure(MissingSources);
      }
      var ordered := Ordered(values, sources);
      if ordered.Failure? {
        return Failure(ordered.error);
      }
      var fields := [TimeText(time)] + Render(ordered.value, showFloat);
      r := Success(UpdateCall(filename, Join(fields, ':')));
      if forall i :: 0 <= i < |sources| ==> NoSep(showFloat(ordered.value[i]), ':') {
        assert forall i :: 0 <= i < |fields| ==> NoSep(fields[i], ':');
        SplitJoin(fields, ':');
      }
    }
  }
}
