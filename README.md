# NOAA weather plugin — a Dafny model

The plugin syncs weather observations from the US National Weather Service API
(`api.weather.gov`) into a Meerschaum pipe. A pipe's parameters hold a *station registry*
`noaa.stations`, which maps station IDs to metadata dicts (`name`, optionally `geometry`).
This project models the plugin's core:

- **Station metadata** (`get_station_info`): a lookup through a module-level memoising
  cache that stores only named metadata (`StationInfo`, class `StationInfoCache`).
- **The registry** (`get_stations`): reading `noaa.stations` (a list of IDs is turned into a
  dict), and filling in every entry without a `name` by a metadata lookup (`Registry`).
- **State listings** (`get_state_stations`): every station in the listing of a state, keyed by
  the last piece of the ID split at `/stations/`, with its stripped name and its geometry
  (`StateStations`).
- **Observations** (`fetch_station_data`): flattening the observation features into a
  column table. The table starts with `location`, `geometry` and `cloudLayers`. Keys that begin
  with `@` are skipped. `{value, unitCode}` envelopes are unwrapped, and the unit without
  `wmoUnit:` is added to the column name. `station` URLs keep their last segment. A null
  `cloudLayers` becomes `[]`. The table is then normalised so that only the columns of the most
  common length survive; on a tie the length seen first wins (`Observations`, `Normalise`).
- **Fetching** (`fetch` in `__init__.py`): one observations request per registered station,
  starting a backtrack interval before the explicit begin or before the station's sync time
  (`Fetch`).
- **Registration** (`register`): the parameters a new pipe gets (`Register`).

Python dicts are ordered association lists (`Dicts`), where assignment replaces a key in
place or appends it. Decoded JSON is the datatype `PyJson.Json`. Python's `in`, `[...]`,
`.items()` and iteration on JSON values are functions that return
`Outcome<T>`: `Ok(value)`, or `Raised(name)` for the exception Python would raise.
Truthiness, which never raises, is the predicate `PyJson.Truthy`.
Every stateful operation has a specification function. The methods that carry
the source's loops are proved equal to it. The properties are proved about those functions,
including that the cache is invisible: against a cache that agrees with the endpoint,
every pass yields what a cache-less reference definition yields.

Network access is a parameter. `api: string -> Reply` answers the station endpoint.
`obs: FetchCall -> Reply` answers the observations endpoint. A `Reply` is `NoReply` (the request
raised) or `Reply(ok, body)`, where `body` is `None` when the text is not JSON.

The source checks `info_dict['name']` (`_stations.py:208`) before it does anything else
with the reply. So fetching a station whose metadata could not be read raises `KeyError`,
even though the flattening later reads the name with `.get`. The model keeps that behaviour.

## Model

| member | source | states |
|---|---|---|
| Strings.SplitJoin | _stations.py:245 | Joining the pieces of `s.split(sep)` with `sep` gives back `s` |
| Strings.SplitPiecesFree | _stations.py:245 | No piece of `s.split(sep)` contains `sep` |
| Strings.LastPieceSpec | _stations.py:245 | `s.split(sep)[-1]` has no `sep`, ends `s`, and is all of `s` or follows a `sep` |
| Strings.RemoveAllIsJoinSplit | _stations.py:253 | `s.replace(p, '')` is the concatenation of the pieces of `s.split(p)` |
| Strings.RemoveAllAbsent | _stations.py:253 | `replace` leaves a string without the pattern unchanged |
| Strings.RStripSpec | _stations.py:40 | `rstrip` keeps a prefix, drops only whitespace, and the result does not end in whitespace |
| Strings.LStripSpec | _stations.py:169 | `lstrip` keeps a suffix, drops only whitespace, and the result does not start with whitespace |
| Dicts.GetSpec | _stations.py:21 | A lookup finds a value exactly when the key is present, and the pair is in the dict |
| Dicts.GetAt | _stations.py:278 | In a dict with distinct keys, looking up the key at position i gives the value at i |
| Dicts.PutSpec | _stations.py:260-262 | After `d[k] = v`: `d[k]` is `v`, other keys are unchanged, a new key goes last, keys stay distinct |
| Dicts.PutAt | _stations.py:135 | Assigning to an existing key replaces its entry in place |
| Dicts.PutNew | _stations.py:131 | Assigning to a new key appends it |
| PyJson.In | _stations.py:134 | `key in v` raises unless `v` is a dict, list or string, and for a dict tests the keys |
| PyJson.Index | _stations.py:232 | `v[key]` succeeds exactly on a dict holding the key, and returns that key's value |
| StationInfo.ParsedName | _stations.py:39-43 | `info['properties']['name'].rstrip()`, or the exception that makes the lookup give up |
| StationInfo.ParsedGeometry | _stations.py:35-38 | `info['geometry']`, with an exception or a null meaning no geometry |
| StationInfo.ParseInfo | _stations.py:33-49 | The metadata is empty exactly when `properties.name` cannot be read; otherwise it holds the rstripped name and a non-null geometry |
| StationInfo.FreshInfo | _stations.py:24-49 | A lookup after a miss: a raising request propagates, a falsy response gives `{}`, an undecodable body raises, otherwise the parsed metadata |
| StationInfo.LookupInfo | _stations.py:15-49 | `get_station_info`: a non-empty cached entry is returned; otherwise the fresh lookup, stored when it is named |
| StationInfo.LookupCoherent | _stations.py:15-49 | Against a coherent cache, a lookup answers and raises exactly as a fresh lookup, and leaves the cache coherent |
| StationInfo.LookupCaches | _stations.py:21-48 | A non-empty cached entry is returned without asking the endpoint; a miss stores only a named result, under its ID, keeps every other entry and keeps the ID if it was there; an unnamed result leaves the cache as it was |
| StationInfo.StationInfoCache.constructor | _stations.py:13 | The module-level cache starts empty, which satisfies the only-named-metadata invariant |
| StationInfo.StationInfoCache.GetStationInfo | _stations.py:15-49 | The method returns what the lookup function returns and leaves the cache it describes; only named metadata is ever cached |
| Registry.StationsParam | _stations.py:129 | `pipe.parameters.get('noaa', {}).get('stations', {})`, raising when `noaa` is not a dict |
| Registry.ListToRegistry | _stations.py:130-131 | `{stationID: {} for stationID in ids}`, keys in order of first appearance |
| Registry.RegistryFromParameters | _stations.py:129-133 | The registry the loop iterates: a converted list, a dict's items, or the exception `.items()` raises |
| Registry.FillEntryStep | _stations.py:134-136 | One loop step: an entry without `name` is replaced in place by its cached lookup and the edit recorded |
| Registry.FillNames | _stations.py:133-136 | The loop over a snapshot of the registry, stopping at the first exception |
| Registry.FillEntry | _stations.py:134-135 | Reference step without a cache: a named entry is kept, another becomes its fresh lookup |
| Registry.NameFill | _stations.py:133-136 | Reference pass without a cache, entry by entry |
| Registry.ListToRegistryOk | _stations.py:130-131 | Converting a list of IDs succeeds exactly when every element is a string |
| Registry.ListToRegistrySpec | _stations.py:130-131 | The converted dict has distinct keys, exactly the listed IDs, each mapped to `{}` |
| Registry.ListToRegistryInOrder | _stations.py:130-131 | Without repeated IDs, the dict lists them in order |
| Registry.NameFillSpec | _stations.py:133-136 | The reference pass keeps keys and order, leaves named entries alone, replaces each unnamed one by its fresh lookup, and succeeds exactly when every entry does |
| Registry.FillNamesPrefix | _stations.py:133-136 | After k entries, the cached loop agrees with the reference pass on the first k entries and keeps the rest, and it reports an edit exactly when one of them was unnamed |
| Registry.FillNamesMatchesNameFill | _stations.py:133-140 | Over the whole registry the cached loop yields the reference registry, raises exactly the reference's exception, keeps the cache coherent, and edits exactly when some entry was unnamed |
| Registry.FillMissingNames | _stations.py:133-136 | The loop method returns the registry, edit flag, exception and cache given by the spec function |
| Registry.GetStations | _stations.py:124-145 | `get_stations` reads the registry (raising as the source does on a non-dict `noaa`), then fills names; the result, whether it was written back, and the exception raised are those of the name-filling pass |
| StateStations.ParseFeature | _stations.py:166-173 | The per-feature `try`: the last piece of `f['id'].split('/stations/')`, `f.get('geometry', None)`, the stripped name, or the exception that skips the feature |
| StateStations.Entry | _stations.py:174-176 | The dict stored per station: its name, then its geometry |
| StateStations.Collect | _stations.py:164-176 | The stations dict after the loop; an ID seen again has its entry replaced in place |
| StateStations.StateStationsSpec | _stations.py:157-177 | `get_state_stations`: request and decode errors propagate, no `features` gives `{}`, else the collected features |
| StateStations.StationIdSpec | _stations.py:167 | `id.split('/stations/')[-1]` has no `/stations/`, ends `id`, and is all of `id` or directly follows a `/stations/` |
| StateStations.StripSpec | _stations.py:169 | `n.lstrip().rstrip()` is a slice `n[a..b]` with only whitespace outside it, and it neither starts nor ends with whitespace |
| StateStations.ParseFeatureSpec | _stations.py:166-169 | A parsed station ID is a suffix of the feature's `id` with no `/stations/` in it, either all of `id` or directly after an occurrence of `/stations/`; the name is the listed name without surrounding whitespace; the entry holds both |
| StateStations.CollectKeys | _stations.py:164-176 | The listing's dict has distinct keys, which are exactly the IDs of the features that parse |
| StateStations.CollectLast | _stations.py:174-176 | Each station's entry comes from the last feature with that ID |
| StateStations.StateStationsShape | _stations.py:160-163 | A failed request or an undecodable body propagates; a body without `features` gives `{}`; a non-empty result needs a dict body with `features` |
| StateStations.ParseStateStations | _stations.py:148-177 | The loop method computes the listing's stations as specified |
| Observations.InitialTable | _stations.py:224 | The table before any record: empty `location`, `geometry` and `cloudLayers` |
| Observations.Unit | _stations.py:253 | A unit code with every `wmoUnit:` removed |
| Observations.PropertyStep | _stations.py:236-256 | What one property adds: nothing for `@` keys, else the column name (with unit) and the value |
| Observations.PropertiesEmit | _stations.py:236-262 | The additions of a record's properties, in order, or the first exception |
| Observations.RecordEmit | _stations.py:232-262 | A record's additions: the station name and geometry, then its properties |
| Observations.Emits | _stations.py:232-262 | The additions of all records in turn, or the first exception |
| Observations.Append | _stations.py:260-262 | `d[col]` created empty when missing, then `val` appended |
| Observations.Grow | _stations.py:258-262 | Every addition appended in turn |
| Observations.FlattenSpec | _stations.py:224-262 | The table built from all feature records, before normalisation |
| Observations.FetchSpec | _stations.py:204-279 | `fetch_station_data` after the lookup: KeyError without a name, None on a failed request, undecodable body or no `features`, else the normalised table |
| Observations.StepName | _stations.py:236-253 | A property's column never begins with `@`, and it is the property's key unless a unit suffix ending in `)` was added |
| Observations.AtKeysSkipped | _stations.py:237-238 | Keys beginning with `@` contribute nothing |
| Observations.StationValue | _stations.py:244-245 | The `station` column gets the last `/`-segment of the URL: no `/`, a suffix of the URL, all of it or following a `/` |
| Observations.StationNotString | _stations.py:244-245 | A non-string `station` value raises AttributeError |
| Observations.UnwrapEnvelope | _stations.py:246-253 | An envelope with `value` is unwrapped; a string `unitCode` adds ` (unit)` to the column name; a non-string unit code raises |
| Observations.UnitOfCode | _stations.py:253 | The `wmoUnit:` prefix is dropped from a unit code, and a code without it is kept |
| Observations.CloudLayersNull | _stations.py:255-256 | A null `cloudLayers` is stored as an empty list |
| Observations.PropertiesEmitNames | _stations.py:236-262 | Every value a record's properties add goes under a non-`@` name that is a property key or carries a unit suffix |
| Observations.GrowColumn | _stations.py:260-262 | A column's list is its old list followed by the values added to it; a column exists when it existed or got a value; keys stay distinct |
| Observations.HeadColumn | _stations.py:232-234 | When no record has such a property itself, `location` and `geometry` hold exactly one entry per feature, from the station metadata |
| Observations.FlattenShape | _stations.py:224-262 | The flattened table is not empty, has distinct columns and none beginning with `@` |
| Observations.AppendProperties | _stations.py:236-262 | The inner loop grows the table by exactly what the properties add, or raises as the spec says |
| Observations.Flatten | _stations.py:224-262 | The outer loop computes the flattened table of the spec function |
| Observations.FetchStationData | _stations.py:180-279 | The method returns the spec function's result: KeyError without a name, None for a failed request or a body without `features`, else the normalised table |
| Observations.FetchWithoutFeatures | _stations.py:208-230 | No name raises KeyError; a failed request, an undecodable body, or a dict body without `features` gives None |
| Observations.FetchResult | _stations.py:264-279 | A returned table is not empty, has distinct columns and none beginning with `@` |
| Normalise.Lengths | _stations.py:265-267 | `klens`: the length of each column, in column order |
| Normalise.Tally | _stations.py:268-271 | `lens`: each length once, in first-seen order, with its number of columns |
| Normalise.MaxEntry | _stations.py:272-276 | The running maximum over `lens` with strict `>`, from `(0, 0)` |
| Normalise.ModalLength | _stations.py:265-276 | `max_l` |
| Normalise.KeepLength | _stations.py:277-278 | `norm_d`: the columns of length `l`, in column order |
| Normalise.CountIn | _stations.py:268-271 | A length is counted at least once exactly when some column has it |
| Normalise.TallyCounts | _stations.py:268-271 | `lens` maps every length to the number of columns with that length |
| Normalise.TallyOrder | _stations.py:268-271 | `lens` lists lengths in order of first appearance |
| Normalise.ModalLengthSpec | _stations.py:272-276 | `max_l` is a column length; no length is more common; every length first seen before it is strictly less common |
| Normalise.KeepLengthSpec | _stations.py:277-278 | The kept columns are exactly the columns of that length, with their values; keys stay distinct and `norm[k]` is `d[k]` exactly when that has the length |
| Normalise.KeepLengthOrder | _stations.py:277-278 | The kept columns sit at strictly increasing positions of `d`, so they keep their order in `d`; with `KeepLengthSpec`, `norm_d` is the columns of that length in column order |
| Normalise.NormalizeSpec | _stations.py:264-279 | The normalised table is not empty, has distinct keys, has every column of length `max_l`, and `norm[k]` is `d[k]` exactly when `d[k]` has that length |
| Normalise.Normalize | _stations.py:265-278 | The three loops and the comprehension compute the columns of the modal length |
| Fetch.SyncTimes | __init__.py:30-33 | `station_sync_times`: the explicit begin or the station's sync time, per station |
| Fetch.Backtracked | __init__.py:34-41 | A sync time less the backtrack interval, None kept |
| Fetch.Plan | __init__.py:30-44 | The calls `fetch_station_data(station, begin=start, end=end)` in `station_starts` order |
| Fetch.CallStep | __init__.py:43-44 | One yield: the station look-up through the cache, then its observations |
| Fetch.Outputs | __init__.py:43-44 | What the generator yields, and the cache after it, up to the first exception |
| Fetch.FreshCall | __init__.py:43-44 | Reference call with fresh station metadata |
| Fetch.OutputsRef | __init__.py:43-44 | Reference generator without a cache |
| Fetch.FetchRun | __init__.py:18-44 | `fetch`: get_stations, then the plan's calls through the cache |
| Fetch.FetchRunRef | __init__.py:18-44 | `fetch` with no cache anywhere |
| Fetch.SyncTimesSpec | __init__.py:30-33 | For distinct stations, the sync-time dict lists each station with the explicit begin, or else its own sync time |
| Fetch.PlanSpec | __init__.py:30-44 | One call per registered station in registry order, each up to `end`, starting one backtrack interval before the explicit begin or the sync time; a station never synced starts at None |
| Fetch.OutputsRefOk | __init__.py:43-44 | Without a cache, the generator completes exactly when every call succeeds |
| Fetch.OutputsRefValues | __init__.py:43-44 | Without a cache, it yields one result per call, each with the station's fresh metadata |
| Fetch.OutputsMatchRef | __init__.py:43-44 | Against a coherent cache, the yielded tables and the exception raised are those of the cache-less reference, and the cache stays coherent |
| Fetch.FetchRunTransparent | __init__.py:18-44 | End to end, `fetch` with a coherent cache yields, or raises, what it yields or raises with no cache |
| Fetch.FetchAll | __init__.py:18-44 | The method reads the stations, fetches in plan order through the cache, and returns the spec's tables and cache, or raises the spec's exception |
| Register.Converted | _register.py:18-20 | A list registry becomes `{stationID: {}}`, anything else is kept |
| Register.RegisterSpec | _register.py:18-40 | `register`: a falsy registry gives the user's stations, otherwise its unnamed entries are looked up; the parameters dict around the result |
| Register.RegistrationParameters | _register.py:29-40 | The parameters have `columns.datetime = timestamp`, `columns.id = station`, the stations under `noaa.stations`, and `verify.chunk_minutes = 20160` |
| Register.RegisteredRegistry | _register.py:34-36 | What `register` writes under `noaa.stations` is read back unchanged by `get_stations` |
| Register.AllNamedUnchanged | _register.py:23-25 | When every entry has a name, the name-filling pass changes nothing and reports no edit |
| Register.RegisterThenGetStations | _register.py:18-40 | Registering a fully named registry and reading it back neither looks anything up nor edits |
| Register.RegisterAsks | _register.py:22-27 | A missing, empty or falsy registry (an empty list too) gives the stations the user chose |
| Register.RegisterNotDict | _register.py:22-23 | A truthy registry that is neither a dict nor a list raises AttributeError |
| Register.RegisterFills | _register.py:22-25 | A non-empty registry is filled in by the name-filling pass, and what it yields (or raises) is what is registered |
| Register.RegisterTransparent | _register.py:22-25 | Against a coherent cache, registering a non-empty registry yields the reference pass's stations or raises its exception |
| Register.RegisterPipe | _register.py:14-40 | The method returns the specified parameters, exception and cache |

## Left out

- HTTP requests, `response.json()` and `json.loads` are the `Reply` oracles. A non-JSON body is `None`, and the exception types are the names `RequestException` and `JSONDecodeError`.
- `ask_for_stations` is interactive (prompts and a state listing the user picks from). Registration takes its result as the input `asked`; the function never touches the station-information cache.
- Datetimes, `pytz` time zones and `isoformat` request parameters are modelled as integer instants in `FetchCall`. The pipe's `get_sync_time` and `get_backtrack_interval` are inputs.
- Printing, warnings, pandas imports and `pipe.edit()` are left out. `GetStations` reports whether the registry would be written back.
- JSON floats become integers, because no modelled operation does arithmetic on observation values. Objects do not repeat keys, as `json.loads` keeps one.
- Registry.ListToRegistry: raises TypeError on a non-string element. Python raises only for unhashable elements, or later when the ID is used as a string.
- Registry.GetStations: returns the filled registry as a dict. The source returns `pipe.parameters['noaa']['stations']`, which differs only for an empty list: the source returns `[]`, the model the empty dict.
- Fetch.FetchAll: an exception during the generator returns only the exception, not the tables yielded before it. The generator's laziness, which delays requests until consumed, is not modelled.
- Strings.IsSpace: follows Python's `str.isspace` code points. Other Unicode details are not modelled.
- After an exception, the methods do not state what the cache holds. Like the source, they may have stored lookups made before the exception.
- The cache's dicts are shared with the registry in Python (aliasing); in the model they are values.
- Pipe syncing, column reconciliation and thread pools belong to the host framework and are not part of this model.
