/** The plugin's `fetch`: one observations request per registered station, starting a backtrack
    interval before the station's last sync time unless an explicit begin is given. */
module Fetch {
  import opened Wrappers
  import opened Dicts
  import opened PyJson
  import opened StationInfo
  import opened Normalise
  import opened Observations
  import opened Registry

  /** One call `fetch_station_data(station, begin=start, end=end)`. Instants are integers. */
  datatype FetchCall = FetchCall(station: string, begin: Option<int>, end: Option<int>)

  /** `{station: (begin or sync_time(station)) for station in stations}`; a datetime is always
      truthy, so an explicit begin wins over every sync time. */
  function SyncTimes(ids: seq<string>, begin: Option<int>, syncTime: string -> Option<int>): ODict<string, Option<int>>
    decreases |ids|
  {
    if ids == [] then []
    else
      var s := ids[|ids| - 1];
      Put(SyncTimes(ids[..|ids| - 1], begin, syncTime), s, if begin.Some? then begin else syncTime(s))
  }

  /** `sync_time - backtrack_interval if sync_time is not None else sync_time`. */
  function Backtracked(t: Option<int>, backtrack: int): Option<int> {
    match t
    case Some(x) => Some(x - backtrack)
    case None => None
  }

  /** The calls the generator makes, in the order of the stations dict. */
  function Plan(stations: Obj, begin: Option<int>, end: Option<int>, backtrack: int, syncTime: string -> Option<int>): seq<FetchCall> {
    var times := SyncTimes(Keys(stations), begin, syncTime);
    seq(|times|, i requires 0 <= i < |times| => FetchCall(times[i].0, Backtracked(times[i].1, backtrack), end))
  }

  lemma {:induction false} SyncTimesSpec(ids: seq<string>, begin: Option<int>, syncTime: string -> Option<int>)
    requires forall i, j :: 0 <= i < j < |ids| ==> ids[i] != ids[j]
    ensures var t := SyncTimes(ids, begin, syncTime);
      |t| == |ids| && forall i :: 0 <= i < |ids| ==> t[i] == (ids[i], if begin.Some? then begin else syncTime(ids[i]))
    decreases |ids|
  {
    if ids != [] {
      var pre := ids[..|ids| - 1];
      var s := ids[|ids| - 1];
      SyncTimesSpec(pre, begin, syncTime);
      var t := SyncTimes(pre, begin, syncTime);
      assert Keys(t) == pre;
      assert s !in pre;
      PutNew(t, s, if begin.Some? then begin else syncTime(s));
    }
  }

  /** One call per registered station, in registry order, each up to the requested end and
      starting a backtrack interval before the explicit begin, or else before the station's sync
      time; a station never synced is fetched from the beginning. */
  lemma PlanSpec(stations: Obj, begin: Option<int>, end: Option<int>, backtrack: int, syncTime: string -> Option<int>)
    requires Distinct(stations)
    ensures var plan := Plan(stations, begin, end, backtrack, syncTime);
      && |plan| == |stations|
      && (forall i :: 0 <= i < |plan| ==> plan[i].station == stations[i].0 && plan[i].end == end)
      && (begin.Some? ==> forall i :: 0 <= i < |plan| ==> plan[i].begin == Some(begin.value - backtrack))
      && (begin.None? ==> forall i :: 0 <= i < |plan| ==>
            plan[i].begin == (if syncTime(stations[i].0).Some? then Some(syncTime(stations[i].0).value - backtrack) else None))
  {
    var ids := Keys(stations);
    assert forall i, j :: 0 <= i < j < |ids| ==> ids[i] != ids[j];
    SyncTimesSpec(ids, begin, syncTime);
  }

  /** One call of the generator: the station is looked up through the cache and its
      observations fetched. */
  function CallStep(outs: seq<Option<Table>>, c: map<string, Obj>, call: FetchCall, api: string -> Reply, obs: FetchCall -> Reply): Outcome<(seq<Option<Table>>, map<string, Obj>)> {
    var (info, c') :- LookupInfo(c, call.station, api);
    var t :- FetchSpec(info, obs(call));
    Ok((outs + [t], c'))
  }

  /** What the generator yields, and the cache after it: the calls in turn; the first
      exception ends the iteration. */
  function Outputs(plan: seq<FetchCall>, cache: map<string, Obj>, api: string -> Reply, obs: FetchCall -> Reply): Outcome<(seq<Option<Table>>, map<string, Obj>)>
    decreases |plan|
  {
    if plan == [] then Ok(([], cache))
    else
      var (outs, c) :- Outputs(plan[..|plan| - 1], cache, api, obs);
      CallStep(outs, c, plan[|plan| - 1], api, obs)
  }

  /** One call made with fresh station metadata. */
  function FreshCall(call: FetchCall, api: string -> Reply, obs: FetchCall -> Reply): Outcome<Option<Table>> {
    var info :- FreshInfo(api(call.station));
    FetchSpec(info, obs(call))
  }

  /** Reference definition without a cache: every call asks the station endpoint afresh. */
  function OutputsRef(plan: seq<FetchCall>, api: string -> Reply, obs: FetchCall -> Reply): Outcome<seq<Option<Table>>> {
    MapAll(plan, call => FreshCall(call, api, obs))
  }

  /** The reference succeeds exactly when every call does. */
  lemma OutputsRefOk(plan: seq<FetchCall>, api: string -> Reply, obs: FetchCall -> Reply)
    ensures OutputsRef(plan, api, obs).Ok? <==> forall i :: 0 <= i < |plan| ==> FreshCall(plan[i], api, obs).Ok?
  {
    MapAllOk(plan, call => FreshCall(call, api, obs));
  }

  /** The reference yields one result per call, each the observations fetched with the
      station's fresh metadata. */
  lemma OutputsRefValues(plan: seq<FetchCall>, api: string -> Reply, obs: FetchCall -> Reply)
    requires OutputsRef(plan, api, obs).Ok?
    ensures var outs := OutputsRef(plan, api, obs).value;
      |outs| == |plan| && forall i :: 0 <= i < |plan| ==> FreshCall(plan[i], api, obs) == Ok(outs[i])
  {
    MapAllValues(plan, call => FreshCall(call, api, obs));
  }

  /** The cache is invisible to the generator: against a coherent cache it yields what the
      reference yields, raises the same exception when that raises, and stays coherent. */
  lemma {:induction false} OutputsMatchRef(plan: seq<FetchCall>, cache: map<string, Obj>, api: string -> Reply, obs: FetchCall -> Reply)
    requires Coherent(cache, api)
    ensures var f, g := Outputs(plan, cache, api, obs), OutputsRef(plan, api, obs);
      && (f.Raised? <==> g.Raised?)
      && (f.Raised? ==> f.exception == g.exception)
      && (f.Ok? ==> f.value.0 == g.value && Coherent(f.value.1, api))
    decreases |plan|
  {
    if plan != [] {
      var pre := plan[..|plan| - 1];
      OutputsMatchRef(pre, cache, api, obs);
      var f := Outputs(pre, cache, api, obs);
      assert OutputsRef(plan, api, obs) ==
        (var outs :- OutputsRef(pre, api, obs); var t :- FreshCall(plan[|plan| - 1], api, obs); Ok(outs + [t]));
      if f.Ok? {
        LookupCoherent(f.value.1, plan[|plan| - 1].station, api);
      }
    }
  }

  lemma {:induction false} OutputsRaisedPrefix(plan: seq<FetchCall>, k: nat, cache: map<string, Obj>, api: string -> Reply, obs: FetchCall -> Reply)
    requires k <= |plan| && Outputs(plan[..k], cache, api, obs).Raised?
    ensures Outputs(plan, cache, api, obs) == Outputs(plan[..k], cache, api, obs)
    decreases |plan|
  {
    if k < |plan| {
      var pre := plan[..|plan| - 1];
      assert pre[..k] == plan[..k];
      OutputsRaisedPrefix(pre, k, cache, api, obs);
    } else {
      assert plan[..k] == plan;
    }
  }

  /** `fetch(pipe, begin, end)` from the pipe's parameters: the registry is read and its names
      filled in (get_stations), then each station's observations are fetched in turn.
      `syncTime` answers `pipe.get_sync_time` for a station, `backtrack` is the pipe's backtrack
      interval, `api` the station endpoint and `obs` the observations endpoint. */
  function FetchRun(parameters: Obj, cache: map<string, Obj>, begin: Option<int>, end: Option<int>, backtrack: int,
                    syncTime: string -> Option<int>, api: string -> Reply, obs: FetchCall -> Reply): Outcome<(seq<Option<Table>>, map<string, Obj>)>
  {
    var reg :- RegistryFromParameters(parameters);
    var f :- FillNames(reg, reg, cache, api);
    Outputs(Plan(f.stations, begin, end, backtrack, syncTime), f.cache, api, obs)
  }

  /** `fetch` without a cache anywhere. */
  function FetchRunRef(parameters: Obj, begin: Option<int>, end: Option<int>, backtrack: int,
                       syncTime: string -> Option<int>, api: string -> Reply, obs: FetchCall -> Reply): Outcome<seq<Option<Table>>>
  {
    var reg :- RegistryFromParameters(parameters);
    var filled :- NameFill(reg, api);
    OutputsRef(Plan(filled, begin, end, backtrack, syncTime), api, obs)
  }

  /** End to end, the station-info cache changes nothing that `fetch` yields. */
  lemma FetchRunTransparent(parameters: Obj, cache: map<string, Obj>, begin: Option<int>, end: Option<int>, backtrack: int,
                            syncTime: string -> Option<int>, api: string -> Reply, obs: FetchCall -> Reply)
    requires Coherent(cache, api)
    requires RegistryFromParameters(parameters).Ok? ==> Distinct(RegistryFromParameters(parameters).value)
    ensures var f, g := FetchRun(parameters, cache, begin, end, backtrack, syncTime, api, obs),
                        FetchRunRef(parameters, begin, end, backtrack, syncTime, api, obs);
      && (f.Raised? <==> g.Raised?)
      && (f.Raised? ==> f.exception == g.exception)
      && (f.Ok? ==> f.value.0 == g.value && Coherent(f.value.1, api))
  {
    if RegistryFromParameters(parameters).Ok? {
      var reg := RegistryFromParameters(parameters).value;
      FillNamesMatchesNameFill(reg, cache, api);
      var f := FillNames(reg, reg, cache, api);
      if f.Ok? {
        OutputsMatchRef(Plan(f.value.stations, begin, end, backtrack, syncTime), f.value.cache, api, obs);
      }
    }
  }

  lemma OutputsNext(plan: seq<FetchCall>, i: nat, cache: map<string, Obj>, api: string -> Reply, obs: FetchCall -> Reply)
    requires i < |plan|
    ensures Outputs(plan[..i + 1], cache, api, obs) ==
      (var (outs, c) :- Outputs(plan[..i], cache, api, obs); CallStep(outs, c, plan[i], api, obs))
  {
    assert plan[..i + 1][..i] == plan[..i];
    assert plan[..i + 1][i] == plan[i];
  }

  /** `fetch` reads the registry, fills its names, then runs the plan. */
  lemma FetchRunStages(parameters: Obj, cache: map<string, Obj>, begin: Option<int>, end: Option<int>, backtrack: int,
                       syncTime: string -> Option<int>, api: string -> Reply, obs: FetchCall -> Reply)
    ensures var reg, run := RegistryFromParameters(parameters), FetchRun(parameters, cache, begin, end, backtrack, syncTime, api, obs);
      && (reg.Raised? ==> run == Raised(reg.exception))
      && (reg.Ok? ==> var f := FillNames(reg.value, reg.value, cache, api);
            && (f.Raised? ==> run == Raised(f.exception))
            && (f.Ok? ==> run == Outputs(Plan(f.value.stations, begin, end, backtrack, syncTime), f.value.cache, api, obs)))
  {
  }

  method FetchAll(cache: StationInfoCache, parameters: Obj, begin: Option<int>, end: Option<int>, backtrack: int,
                  syncTime: string -> Option<int>, api: string -> Reply, obs: FetchCall -> Reply) returns (r: Outcome<seq<Option<Table>>>)
    requires cache.Valid()
    modifies cache
    ensures cache.Valid()
    ensures var spec := FetchRun(parameters, old(cache.entries), begin, end, backtrack, syncTime, api, obs);
      && (r.Raised? <==> spec.Raised?)
      && (r.Raised? ==> r.exception == spec.exception)
      && (r.Ok? ==> r.value == spec.value.0 && cache.entries == spec.value.1)
  {
    FetchRunStages(parameters, old(cache.entries), begin, end, backtrack, syncTime, api, obs);
    var stations := GetStations(cache, parameters, api);
    if stations.Raised? {
      return Raised(stations.exception);
    }
    var plan := Plan(stations.value.registry, begin, end, backtrack, syncTime);
    ghost var c0 := cache.entries;
    var outs: seq<Option<Table>> := [];
    var i := 0;
    while i < |plan|
      invariant 0 <= i <= |plan|
      invariant cache.Valid()
      invariant Outputs(plan[..i], c0, api, obs) == Ok((outs, cache.entries))
    {
      var call := plan[i];
      OutputsNext(plan, i, c0, api, obs);
      ghost var before := cache.entries;
      var info := cache.GetStationInfo(call.station, api);
      if info.Raised? {
        assert CallStep(outs, before, call, api, obs) == Raised(info.exception);
        OutputsRaisedPrefix(plan, i + 1, c0, api, obs);
        return Raised(info.exception);
      }
      var t := FetchStationData(info.value, obs(call));
      if t.Raised? {
        assert CallStep(outs, before, call, api, obs) == Raised(t.exception);
        OutputsRaisedPrefix(plan, i + 1, c0, api, obs);
        return Raised(t.exception);
      }
      assert CallStep(outs, before, call, api, obs) == Ok((outs + [t.value], cache.entries));
      outs := outs + [t.value];
      i := i + 1;
    }
    assert plan[..i] == plan;
    r := Ok(outs);
  }
}
