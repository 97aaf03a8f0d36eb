/** Station metadata: parsing the station endpoint's reply, and the memoising cache in front of it. */
module StationInfo {
  import opened Wrappers
  import opened Dicts
  import opened Strings
  import opened PyJson

  /** An HTTP reply: NoReply when the request itself raised; `ok` is the response's truthiness
      (status below 400); `body` is the decoded text, None when it is not JSON. */
  datatype Reply = NoReply | Reply(ok: bool, body: Option<Json>)

  /** `info['properties']['name'].rstrip()`, or the exception it raises. */
  function ParsedName(body: Json): Outcome<string> {
    var props :- Index(body, "properties");
    var name :- Index(props, "name");
    if name.JStr? then Ok(RStrip(name.s)) else Raised("AttributeError")
  }

  /** `info['geometry']`, where any exception or a JSON null leaves no geometry. */
  function ParsedGeometry(body: Json): Option<Json> {
    match Index(body, "geometry")
    case Ok(g) => if g.JNull? then None else Some(g)
    case Raised(_) => None
  }

  /** The metadata dict built from a decoded reply: empty when no name can be read,
      otherwise the name and, when present, the geometry. */
  function ParseInfo(body: Json): (info: Obj)
    ensures info == [] <==> ParsedName(body).Raised?
    ensures info != [] ==> Get(info, "name") == Some(JStr(ParsedName(body).value))
    ensures info != [] ==> Get(info, "geometry") == ParsedGeometry(body)
    ensures Distinct(info)
  {
    match ParsedName(body)
    case Raised(_) => []
    case Ok(name) =>
      [("name", JStr(name))] + (if ParsedGeometry(body).Some? then [("geometry", ParsedGeometry(body).value)] else [])
  }

  /** A fresh lookup of a station (the part of get_station_info after a cache miss). */
  function FreshInfo(reply: Reply): Outcome<Obj> {
    match reply
    case NoReply => Raised("RequestException")
    case Reply(ok, body) =>
      if !ok then Ok([])
      else if body.None? then Raised("JSONDecodeError")
      else Ok(ParseInfo(body.value))
  }

  /** get_station_info against a cache: a non-empty cached entry is returned as it is;
      otherwise the endpoint is asked and a named result is stored. */
  function LookupInfo(cache: map<string, Obj>, stationID: string, api: string -> Reply): Outcome<(Obj, map<string, Obj>)> {
    if stationID in cache && cache[stationID] != [] then Ok((cache[stationID], cache))
    else
      var info :- FreshInfo(api(stationID));
      if info == [] then Ok((info, cache)) else Ok((info, cache[stationID := info]))
  }

  /** Every cached entry is what a fresh lookup of that station yields. */
  ghost predicate Coherent(cache: map<string, Obj>, api: string -> Reply) {
    forall k :: k in cache ==> cache[k] != [] && FreshInfo(api(k)) == Ok(cache[k])
  }

  /** The cache is transparent: against a coherent cache a lookup answers what a fresh lookup
      answers, raises exactly when it does, and leaves the cache coherent. */
  lemma LookupCoherent(cache: map<string, Obj>, stationID: string, api: string -> Reply)
    requires Coherent(cache, api)
    ensures var r := LookupInfo(cache, stationID, api);
      && (r.Raised? ==> FreshInfo(api(stationID)) == Raised(r.exception))
      && (r.Ok? ==> FreshInfo(api(stationID)) == Ok(r.value.0) && Coherent(r.value.1, api))
  {
  }

  /** A hit never consults the endpoint; a miss stores only a named result under its ID and keeps every other entry. */
  lemma LookupCaches(cache: map<string, Obj>, stationID: string, api: string -> Reply)
    ensures stationID in cache && cache[stationID] != [] ==> LookupInfo(cache, stationID, api) == Ok((cache[stationID], cache))
    ensures LookupInfo(cache, stationID, api).Ok? ==>
      var (info, c) := LookupInfo(cache, stationID, api).value;
      && c.Keys <= cache.Keys + {stationID}
      && (info != [] ==> stationID in c && c[stationID] == info)
      && (forall k :: k in cache && k != stationID ==> k in c && c[k] == cache[k])
      && (stationID in cache ==> stationID in c)
      && (info == [] ==> c == cache)
  {
  }

  /** The module-level `_stations_info_cache`. */
  class StationInfoCache {
    var entries: map<string, Obj>

    /** Only named metadata is ever cached. */
    ghost predicate Valid()
      reads this
    {
      forall k :: k in entries ==> Get(entries[k], "name").Some?
    }

    constructor ()
      ensures Valid() && entries == map[]
    {
      entries := map[];
    }

    method GetStationInfo(stationID: string, api: string -> Reply) returns (r: Outcome<Obj>)
      requires Valid()
      modifies this
      ensures Valid()
      ensures r.Raised? ==> LookupInfo(old(entries), stationID, api) == Raised(r.exception) && entries == old(entries)
      ensures r.Ok? ==> LookupInfo(old(entries), stationID, api) == Ok((r.value, entries))
    {
      var cached := if stationID in entries then entries[stationID] else [];
      if cached != [] {
        return Ok(cached);
      }
      var reply := FreshInfo(api(stationID));
      if reply.Raised? {
        return Raised(reply.exception);
      }
      var info := reply.value;
      if info != [] {
        entries := entries[stationID := info];
      }
      r := Ok(info);
    }
  }
}
