/** `register`: the parameters a new pipe is created with. */
module Register {
  import opened Wrappers
  import opened Dicts
  import opened PyJson
  import opened StationInfo
  import opened Registry

  /** The parameters dict `register` returns around a stations dict. */
  function RegistrationParameters(stations: Obj): (p: Json)
    ensures p.JObj? && Keys(p.fields) == ["columns", "noaa", "verify"]
    ensures At(p, ["columns", "datetime"]) == Some(JStr("timestamp"))
    ensures At(p, ["columns", "id"]) == Some(JStr("station"))
    ensures At(p, ["noaa", "stations"]) == Some(JObj(stations))
    ensures At(p, ["verify", "chunk_minutes"]) == Some(JNum(20160))
  {
    var p := JObj([("columns", JObj([("datetime", JStr("timestamp")), ("id", JStr("station"))])),
                   ("noaa", JObj([("stations", JObj(stations))])),
                   ("verify", JObj([("chunk_minutes", JNum(20160))]))]);
    assert "columns" != "noaa" && "columns" != "verify" && "noaa" != "verify" && "datetime" != "id";
    assert Keys(p.fields) == ["columns", "noaa", "verify"];
    p
  }

  /** A stations parameter given as a list becomes `{stationID: {} for stationID in ...}`. */
  function Converted(raw: Json): Outcome<Json> {
    if raw.JList? then
      var reg :- ListToRegistry(raw.items);
      Ok(JObj(reg))
    else Ok(raw)
  }

  /** register as a value. A falsy registry gives the stations the user picks (`asked`);
      otherwise every entry without a name is replaced by its (cached) lookup. */
  function RegisterSpec(parameters: Obj, cache: map<string, Obj>, asked: Obj, api: string -> Reply): Outcome<(Json, map<string, Obj>)> {
    var raw :- StationsParam(parameters);
    var stations :- Converted(raw);
    if !Truthy(stations) then Ok((RegistrationParameters(asked), cache))
    else
      var reg :- Items(stations);
      var f :- FillNames(reg, reg, cache, api);
      Ok((RegistrationParameters(f.stations), f.cache))
  }

  /** What register writes is read back unchanged by get_stations. */
  lemma RegisteredRegistry(stations: Obj)
    ensures RegistryFromParameters(RegistrationParameters(stations).fields) == Ok(stations)
  {
    var p := RegistrationParameters(stations).fields;
    assert p[0].0 != "noaa" && p[1].0 == "noaa";
    assert Get(p, "noaa") == Some(p[1].1);
    assert Get(p[1].1.fields, "stations") == Some(JObj(stations));
  }

  /** When every entry already has a name, the name-filling pass changes nothing, consults no
      endpoint and reports no edit. */
  lemma {:induction false} AllNamedUnchanged(snapshot: Obj, stations: Obj, cache: map<string, Obj>, api: string -> Reply)
    requires forall i :: 0 <= i < |snapshot| ==> In("name", snapshot[i].1) == Ok(true)
    ensures FillNames(snapshot, stations, cache, api) == Ok(Filled(stations, cache, false))
    decreases |snapshot|
  {
    if snapshot != [] {
      var pre := snapshot[..|snapshot| - 1];
      assert forall i :: 0 <= i < |pre| ==> pre[i] == snapshot[i];
      AllNamedUnchanged(pre, stations, cache, api);
    }
  }

  /** Registering with a fully named registry and then reading the stations back neither looks
      anything up nor edits the pipe. */
  lemma RegisterThenGetStations(stations: Obj, cache: map<string, Obj>, api: string -> Reply)
    requires forall i :: 0 <= i < |stations| ==> In("name", stations[i].1) == Ok(true)
    ensures var reg := RegistryFromParameters(RegistrationParameters(stations).fields);
      reg == Ok(stations) && FillNames(stations, stations, cache, api) == Ok(Filled(stations, cache, false))
  {
    RegisteredRegistry(stations);
    AllNamedUnchanged(stations, stations, cache, api);
  }

  /** Converting first and taking the items is how get_stations reads the registry too. */
  lemma ConvertedRegistry(parameters: Obj)
    requires StationsParam(parameters).Ok?
    ensures var c := Converted(StationsParam(parameters).value);
      && (c.Raised? ==> RegistryFromParameters(parameters) == Raised(c.exception))
      && (c.Ok? ==> RegistryFromParameters(parameters) == Items(c.value))
      && (RegistryFromParameters(parameters).Ok? ==> c == Ok(JObj(RegistryFromParameters(parameters).value)))
  {
  }

  /** A missing, empty or otherwise falsy registry (including an empty list) asks the user. */
  lemma RegisterAsks(parameters: Obj, cache: map<string, Obj>, asked: Obj, api: string -> Reply)
    requires StationsParam(parameters).Ok?
    requires var raw := StationsParam(parameters).value;
      (raw.JList? && raw.items == []) || (!raw.JList? && !Truthy(raw))
    ensures RegisterSpec(parameters, cache, asked, api) == Ok((RegistrationParameters(asked), cache))
  {
    var raw := StationsParam(parameters).value;
    assert !Truthy(Converted(raw).value);
  }

  /** A truthy registry that is neither a dict nor a list has no `items`. */
  lemma RegisterNotDict(parameters: Obj, cache: map<string, Obj>, asked: Obj, api: string -> Reply)
    requires StationsParam(parameters).Ok?
    requires var raw := StationsParam(parameters).value; !raw.JList? && !raw.JObj? && Truthy(raw)
    ensures RegisterSpec(parameters, cache, asked, api) == Raised("AttributeError")
  {
    var raw := StationsParam(parameters).value;
    assert Converted(raw) == Ok(raw);
  }

  /** A non-empty registry that reads back is filled in, and the filled registry is what is
      registered, with the cache the filling leaves. */
  lemma RegisterFills(parameters: Obj, cache: map<string, Obj>, asked: Obj, api: string -> Reply)
    requires RegistryFromParameters(parameters).Ok? && RegistryFromParameters(parameters).value != []
    ensures var reg := RegistryFromParameters(parameters).value;
      var f, r := FillNames(reg, reg, cache, api), RegisterSpec(parameters, cache, asked, api);
      && (f.Raised? ==> r == Raised(f.exception))
      && (f.Ok? ==> r == Ok((RegistrationParameters(f.value.stations), f.value.cache)))
  {
    var reg := RegistryFromParameters(parameters).value;
    ConvertedRegistry(parameters);
    assert Converted(StationsParam(parameters).value) == Ok(JObj(reg));
    assert Truthy(JObj(reg)) && Items(JObj(reg)) == Ok(reg);
    assert RegisterSpec(parameters, cache, asked, api) ==
      (var f :- FillNames(reg, reg, cache, api); Ok((RegistrationParameters(f.stations), f.cache)));
  }

  /** Against a coherent cache, registering a non-empty registry yields the reference pass's
      stations and keeps the cache coherent. */
  lemma RegisterTransparent(parameters: Obj, cache: map<string, Obj>, asked: Obj, api: string -> Reply)
    requires Coherent(cache, api)
    requires RegistryFromParameters(parameters).Ok?
    requires RegistryFromParameters(parameters).value != [] && Distinct(RegistryFromParameters(parameters).value)
    ensures var r, g := RegisterSpec(parameters, cache, asked, api), NameFill(RegistryFromParameters(parameters).value, api);
      && (r.Raised? <==> g.Raised?)
      && (r.Raised? ==> r.exception == g.exception)
      && (r.Ok? ==> r.value.0 == RegistrationParameters(g.value) && Coherent(r.value.1, api))
  {
    var reg := RegistryFromParameters(parameters).value;
    RegisterFills(parameters, cache, asked, api);
    FillNamesMatchesNameFill(reg, cache, api);
  }

  method RegisterPipe(cache: StationInfoCache, parameters: Obj, asked: Obj, api: string -> Reply) returns (r: Outcome<Json>)
    requires cache.Valid()
    modifies cache
    ensures cache.Valid()
    ensures var spec := RegisterSpec(parameters, old(cache.entries), asked, api);
      && (r.Raised? <==> spec.Raised?)
      && (r.Raised? ==> r.exception == spec.exception)
      && (r.Ok? ==> r.value == spec.value.0 && cache.entries == spec.value.1)
  {
    var raw := StationsParam(parameters);
    if raw.Raised? {
      return Raised(raw.exception);
    }
    var stations := raw.value;
    if stations.JList? {
      var reg := ListToRegistry(stations.items);
      if reg.Raised? {
        return Raised(reg.exception);
      }
      stations := JObj(reg.value);
    }
    if !Truthy(stations) {
      return Ok(RegistrationParameters(asked));
    }
    var reg :- Items(stations);
    var filled := FillMissingNames(cache, reg, api);
    if filled.Raised? {
      return Raised(filled.exception);
    }
    r := Ok(RegistrationParameters(filled.value.0));
  }
}
