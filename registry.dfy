/** The station registry kept in the pipe's parameters (`get_stations`), and the name-filling pass
    it shares with registration. */
module Registry {
  import opened Wrappers
  import opened Dicts
  import opened PyJson
  import opened StationInfo

  /** `pipe.parameters.get('noaa', {}).get('stations', {})`. */
  function StationsParam(parameters: Obj): Outcome<Json> {
    var noaa := GetOr(parameters, "noaa", JObj([]));
    if noaa.JObj? then Ok(GetOr(noaa.fields, "stations", JObj([]))) else Raised("AttributeError")
  }

  /** `{stationID: {} for stationID in ids}` for a list of station IDs. */
  function ListToRegistry(ids: seq<Json>): Outcome<Obj>
    decreases |ids|
  {
    if ids == [] then Ok([])
    else
      var reg :- ListToRegistry(ids[..|ids| - 1]);
      var id := ids[|ids| - 1];
      if id.JStr? then Ok(Put(reg, id.s, JObj([]))) else Raised("TypeError")
  }

  /** Converting a list succeeds exactly when every element is a string ID. */
  lemma {:induction false} ListToRegistryOk(ids: seq<Json>)
    ensures ListToRegistry(ids).Ok? <==> forall i :: 0 <= i < |ids| ==> ids[i].JStr?
    decreases |ids|
  {
    if ids != [] {
      var pre := ids[..|ids| - 1];
      ListToRegistryOk(pre);
      assert forall i :: 0 <= i < |pre| ==> pre[i] == ids[i];
    }
  }

  /** A list of IDs becomes a dict mapping each listed ID, and nothing else, to an empty dict. */
  lemma {:induction false} ListToRegistrySpec(ids: seq<Json>)
    requires ListToRegistry(ids).Ok?
    ensures var reg := ListToRegistry(ids).value;
      && Distinct(reg)
      && (forall k :: HasKey(reg, k) <==> JStr(k) in ids)
      && (forall i :: 0 <= i < |reg| ==> reg[i].1 == JObj([]))
    decreases |ids|
  {
    if ids != [] {
      var pre := ids[..|ids| - 1];
      var id := ids[|ids| - 1];
      ListToRegistrySpec(pre);
      var reg0 := ListToRegistry(pre).value;
      var reg := Put(reg0, id.s, JObj([]));
      assert reg == ListToRegistry(ids).value;
      PutSpec(reg0, id.s, JObj([]));
      forall i | 0 <= i < |reg| ensures reg[i].1 == JObj([]) {
        assert reg[i] in reg;
      }
      forall k ensures HasKey(reg, k) <==> JStr(k) in ids {
        assert HasKey(reg, k) <==> HasKey(reg0, k) || k == id.s;
        assert JStr(k) in ids <==> JStr(k) in pre || JStr(k) == id by {
          assert ids == pre + [id];
        }
      }
    }
  }

  /** Without repeated IDs, the dict lists the IDs in order, each mapped to an empty dict. */
  lemma {:induction false} ListToRegistryInOrder(ids: seq<Json>)
    requires forall i :: 0 <= i < |ids| ==> ids[i].JStr?
    requires forall i, j :: 0 <= i < j < |ids| ==> ids[i] != ids[j]
    ensures ListToRegistry(ids).Ok?
    ensures var reg := ListToRegistry(ids).value;
      |reg| == |ids| && forall i :: 0 <= i < |ids| ==> reg[i] == (ids[i].s, JObj([]))
    decreases |ids|
  {
    ListToRegistryOk(ids);
    if ids != [] {
      var pre := ids[..|ids| - 1];
      var id := ids[|ids| - 1];
      ListToRegistryInOrder(pre);
      ListToRegistrySpec(pre);
      var reg0 := ListToRegistry(pre).value;
      assert id !in pre;
      assert !HasKey(reg0, id.s);
      PutNew(reg0, id.s, JObj([]));
    }
  }

  /** The registry a stations parameter names: a list is converted, a dict is taken as it is,
      anything else has no `items`. */
  function RegistryFromParameters(parameters: Obj): Outcome<Obj> {
    var raw :- StationsParam(parameters);
    if raw.JList? then ListToRegistry(raw.items) else Items(raw)
  }

  /** The state of the name-filling loop: the registry so far, the cache, and whether anything was replaced. */
  datatype Filled = Filled(stations: Obj, cache: map<string, Obj>, edited: bool)

  /** One pass of the loop body: an entry without a `name` is replaced by the (cached) lookup
      of its station, and the edit is recorded. */
  function FillEntryStep(f: Filled, entry: (string, Json), api: string -> Reply): Outcome<Filled> {
    var named :- In("name", entry.1);
    if named then Ok(f)
    else
      var found :- LookupInfo(f.cache, entry.0, api);
      Ok(Filled(Put(f.stations, entry.0, JObj(found.0)), found.1, true))
  }

  /** The loop over a snapshot of the registry, one entry at a time. */
  function FillNames(snapshot: Obj, stations: Obj, cache: map<string, Obj>, api: string -> Reply): Outcome<Filled>
    decreases |snapshot|
  {
    if snapshot == [] then Ok(Filled(stations, cache, false))
    else
      var f :- FillNames(snapshot[..|snapshot| - 1], stations, cache, api);
      FillEntryStep(f, snapshot[|snapshot| - 1], api)
  }

  lemma {:induction false} FillNamesRaisedPrefix(snapshot: Obj, k: nat, stations: Obj, cache: map<string, Obj>, api: string -> Reply)
    requires k <= |snapshot| && FillNames(snapshot[..k], stations, cache, api).Raised?
    ensures FillNames(snapshot, stations, cache, api) == FillNames(snapshot[..k], stations, cache, api)
    decreases |snapshot|
  {
    if k < |snapshot| {
      var pre := snapshot[..|snapshot| - 1];
      assert pre[..k] == snapshot[..k];
      FillNamesRaisedPrefix(pre, k, stations, cache, api);
    } else {
      assert snapshot[..k] == snapshot;
    }
  }

  /** An entry without a name (and on which `'name' in` does not raise). */
  predicate Unnamed(entry: Json) {
    In("name", entry) == Ok(false)
  }

  /** Reference definition of the pass, without a cache: one entry at a time. */
  function FillEntry(entry: (string, Json), api: string -> Reply): Outcome<(string, Json)> {
    var named :- In("name", entry.1);
    if named then Ok(entry)
    else
      var info :- FreshInfo(api(entry.0));
      Ok((entry.0, JObj(info)))
  }

  function NameFill(reg: Obj, api: string -> Reply): Outcome<Obj>
    decreases |reg|
  {
    if reg == [] then Ok([])
    else
      var pre :- NameFill(reg[..|reg| - 1], api);
      var e :- FillEntry(reg[|reg| - 1], api);
      Ok(pre + [e])
  }

  /** The reference pass keeps the keys in order, leaves named entries alone, replaces the others
      by a fresh lookup, and succeeds exactly when every entry does. */
  lemma {:induction false} NameFillSpec(reg: Obj, api: string -> Reply)
    ensures NameFill(reg, api).Ok? <==> forall i :: 0 <= i < |reg| ==> FillEntry(reg[i], api).Ok?
    ensures NameFill(reg, api).Ok? ==> var out := NameFill(reg, api).value;
      && |out| == |reg|
      && forall i :: 0 <= i < |reg| ==>
           && out[i].0 == reg[i].0
           && (In("name", reg[i].1) == Ok(true) ==> out[i] == reg[i])
           && (Unnamed(reg[i].1) ==> FreshInfo(api(reg[i].0)).Ok? && out[i].1 == JObj(FreshInfo(api(reg[i].0)).value))
    decreases |reg|
  {
    if reg != [] {
      var pre := reg[..|reg| - 1];
      NameFillSpec(pre, api);
      assert forall i :: 0 <= i < |pre| ==> pre[i] == reg[i];
    }
  }

  /** After the first `k` entries the loop agrees with the reference pass over them, with the
      rest of the registry still as it was. */
  ghost predicate PrefixAgrees(reg: Obj, k: nat, cache: map<string, Obj>, api: string -> Reply)
    requires k <= |reg|
  {
    var f, g := FillNames(reg[..k], reg, cache, api), NameFill(reg[..k], api);
    && (f.Raised? <==> g.Raised?)
    && (f.Raised? ==> f.exception == g.exception)
    && (f.Ok? ==> && f.value.stations == g.value + reg[k..]
                  && Coherent(f.value.cache, api)
                  && (f.value.edited <==> exists i :: 0 <= i < k && Unnamed(reg[i].1)))
  }

  /** The reference pass over a prefix, followed by the rest, has the registry's keys. */
  lemma SpliceKeys(reg: Obj, j: nat, api: string -> Reply)
    requires Distinct(reg) && j < |reg| && NameFill(reg[..j], api).Ok?
    ensures var x := NameFill(reg[..j], api).value + reg[j..];
      |x| == |reg| && Distinct(x) && x[j] == reg[j]
  {
    NameFillSpec(reg[..j], api);
    var x := NameFill(reg[..j], api).value + reg[j..];
    assert forall i :: 0 <= i < |x| ==> x[i].0 == reg[i].0;
  }

  /** Against a coherent cache, one pass of the loop body does what the reference does to that
      entry, in its place. */
  lemma EntryStepAgrees(f: Filled, g: Obj, entry: (string, Json), rest: Obj, api: string -> Reply)
    requires f.stations == g + [entry] + rest && Distinct(f.stations) && Coherent(f.cache, api)
    ensures var f', e := FillEntryStep(f, entry, api), FillEntry(entry, api);
      && (f'.Raised? <==> e.Raised?)
      && (f'.Raised? ==> f'.exception == e.exception)
      && (f'.Ok? ==> && f'.value.stations == g + [e.value] + rest
                     && Coherent(f'.value.cache, api)
                     && (f'.value.edited <==> f.edited || Unnamed(entry.1)))
  {
    if Unnamed(entry.1) {
      LookupCoherent(f.cache, entry.0, api);
      if LookupInfo(f.cache, entry.0, api).Ok? {
        var v := JObj(LookupInfo(f.cache, entry.0, api).value.0);
        var j := |g|;
        assert f.stations[j] == entry;
        PutAt(f.stations, j, v);
        assert f.stations[j := (entry.0, v)] == g + [(entry.0, v)] + rest;
      }
    }
  }

  lemma UnnamedUpTo(reg: Obj, j: nat)
    requires j < |reg|
    ensures (exists i :: 0 <= i < j + 1 && Unnamed(reg[i].1)) <==>
      (exists i :: 0 <= i < j && Unnamed(reg[i].1)) || Unnamed(reg[j].1)
  {
  }

  lemma FillNamesNext(reg: Obj, j: nat, cache: map<string, Obj>, api: string -> Reply)
    requires j < |reg|
    ensures FillNames(reg[..j + 1], reg, cache, api) ==
      (var f :- FillNames(reg[..j], reg, cache, api); FillEntryStep(f, reg[j], api))
    ensures NameFill(reg[..j + 1], api) ==
      (var g :- NameFill(reg[..j], api); var e :- FillEntry(reg[j], api); Ok(g + [e]))
  {
    assert reg[..j + 1][..j] == reg[..j];
    assert reg[..j + 1][j] == reg[j];
  }

  /** One more entry of the loop keeps it in step with the reference pass. */
  lemma FillStep(reg: Obj, j: nat, cache: map<string, Obj>, api: string -> Reply)
    requires Distinct(reg) && j < |reg| && PrefixAgrees(reg, j, cache, api)
    ensures PrefixAgrees(reg, j + 1, cache, api)
  {
    FillNamesNext(reg, j, cache, api);
    var f := FillNames(reg[..j], reg, cache, api);
    if f.Ok? {
      var g := NameFill(reg[..j], api).value;
      SpliceKeys(reg, j, api);
      assert reg[j..] == [reg[j]] + reg[j + 1..];
      EntryStepAgrees(f.value, g, reg[j], reg[j + 1..], api);
      UnnamedUpTo(reg, j);
    }
  }

  /** Against a coherent cache, the loop over the first `k` entries agrees with the reference pass. */
  lemma {:induction false} FillNamesPrefix(reg: Obj, k: nat, cache: map<string, Obj>, api: string -> Reply)
    requires Distinct(reg) && k <= |reg| && Coherent(cache, api)
    ensures var f, g := FillNames(reg[..k], reg, cache, api), NameFill(reg[..k], api);
      && (f.Raised? <==> g.Raised?)
      && (f.Raised? ==> f.exception == g.exception)
      && (f.Ok? ==> && f.value.stations == g.value + reg[k..]
                    && Coherent(f.value.cache, api)
                    && (f.value.edited <==> exists i :: 0 <= i < k && Unnamed(reg[i].1)))
  {
    if k > 0 {
      FillNamesPrefix(reg, k - 1, cache, api);
      FillStep(reg, k - 1, cache, api);
    } else {
      assert reg[..0] == [];
    }
  }

  /** The cache is invisible to the name-filling pass: against a coherent cache it yields the
      reference pass's registry, reports an edit exactly when some entry had no name, and keeps
      the cache coherent. */
  lemma FillNamesMatchesNameFill(reg: Obj, cache: map<string, Obj>, api: string -> Reply)
    requires Distinct(reg) && Coherent(cache, api)
    ensures var f, g := FillNames(reg, reg, cache, api), NameFill(reg, api);
      && (f.Raised? <==> g.Raised?)
      && (f.Raised? ==> f.exception == g.exception)
      && (f.Ok? ==> && f.value.stations == g.value
                    && Coherent(f.value.cache, api)
                    && (f.value.edited <==> exists i :: 0 <= i < |reg| && Unnamed(reg[i].1)))
  {
    FillNamesPrefix(reg, |reg|, cache, api);
    assert reg[..|reg|] == reg;
    assert NameFill(reg, api).Ok? ==> NameFill(reg, api).value + reg[|reg|..] == NameFill(reg, api).value;
  }

  /** The loop of get_stations and register over `{k: v for k, v in stations_dict.items()}`. */
  method FillMissingNames(cache: StationInfoCache, stations: Obj, api: string -> Reply) returns (r: Outcome<(Obj, bool)>)
    requires cache.Valid()
    modifies cache
    ensures cache.Valid()
    ensures var spec := FillNames(stations, stations, old(cache.entries), api);
      && (r.Raised? <==> spec.Raised?)
      && (r.Raised? ==> r.exception == spec.exception)
      && (r.Ok? ==> r.value == (spec.value.stations, spec.value.edited) && cache.entries == spec.value.cache)
  {
    var current := stations;
    var edit := false;
    var i := 0;
    while i < |stations|
      invariant 0 <= i <= |stations|
      invariant cache.Valid()
      invariant FillNames(stations[..i], stations, old(cache.entries), api) == Ok(Filled(current, cache.entries, edit))
    {
      var (stationID, info) := stations[i];
      FillNamesNext(stations, i, old(cache.entries), api);
      ghost var f := Filled(current, cache.entries, edit);
      var named := In("name", info);
      if named.Raised? {
        assert FillEntryStep(f, stations[i], api) == Raised(named.exception);
        FillNamesRaisedPrefix(stations, i + 1, stations, old(cache.entries), api);
        return Raised(named.exception);
      }
      if !named.value {
        var found := cache.GetStationInfo(stationID, api);
        if found.Raised? {
          assert FillEntryStep(f, stations[i], api) == Raised(found.exception);
          FillNamesRaisedPrefix(stations, i + 1, stations, old(cache.entries), api);
          return Raised(found.exception);
        }
        current := Put(current, stationID, JObj(found.value));
        edit := true;
      }
      assert FillEntryStep(f, stations[i], api) == Ok(Filled(current, cache.entries, edit));
      i := i + 1;
    }
    assert stations[..|stations|] == stations;
    r := Ok((current, edit));
  }

  /** What get_stations hands back: the registry, and whether it was written back to the pipe
      (`pipe.parameters['noaa']['stations'] = ...; pipe.edit()`). */
  datatype Stations = Stations(registry: Obj, persisted: bool)

  method GetStations(cache: StationInfoCache, parameters: Obj, api: string -> Reply) returns (r: Outcome<Stations>)
    requires cache.Valid()
    modifies cache
    ensures cache.Valid()
    ensures RegistryFromParameters(parameters).Raised? ==>
      r == Raised(RegistryFromParameters(parameters).exception) && cache.entries == old(cache.entries)
    ensures RegistryFromParameters(parameters).Ok? ==>
      var reg := RegistryFromParameters(parameters).value;
      var spec := FillNames(reg, reg, old(cache.entries), api);
      && (r.Raised? <==> spec.Raised?)
      && (r.Raised? ==> r.exception == spec.exception)
      && (r.Ok? ==> r.value == Stations(spec.value.stations, spec.value.edited) && cache.entries == spec.value.cache)
  {
    var reg := RegistryFromParameters(parameters);
    if reg.Raised? {
      return Raised(reg.exception);
    }
    var filled := FillMissingNames(cache, reg.value, api);
    if filled.Raised? {
      return Raised(filled.exception);
    }
    r := Ok(Stations(filled.value.0, filled.value.1));
  }
}
