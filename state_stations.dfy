/** get_state_stations: the stations the weather service lists for one state. */
module StateStations {
  import opened Wrappers
  import opened Dicts
  import opened Strings
  import opened PyJson
  import opened StationInfo

  /** What one listed feature yields: its station ID, its geometry and its name. */
  datatype Parsed = Parsed(id: string, geometry: Json, name: string)

  /** `s.lstrip().rstrip()`. */
  function Strip(s: string): string {
    RStrip(LStrip(s))
  }

  /** The body of the per-feature `try`: the ID is the last piece of
      `f['id'].split('/stations/')`, the geometry is `f.get('geometry', None)`, the name is `f['properties']['name']`
      stripped of surrounding whitespace; any of these raising skips the feature. */
  function ParseFeature(f: Json): Outcome<Parsed> {
    var id :- Index(f, "id");
    if !id.JStr? then Raised("AttributeError")
    else
      var props :- Index(f, "properties");
      var name :- Index(props, "name");
      if !name.JStr? then Raised("AttributeError")
      else Ok(Parsed(LastPiece(id.s, "/stations/"), GetOr(f.fields, "geometry", JNull), Strip(name.s)))
  }

  /** The dict stored for a parsed station. */
  function Entry(p: Parsed): Json {
    JObj([("name", JStr(p.name)), ("geometry", p.geometry)])
  }

  /** The stations dict after visiting the features in order; a later feature with an ID seen
      before replaces the earlier entry in its place. */
  function Collect(feats: seq<Json>): Obj
    decreases |feats|
  {
    if feats == [] then []
    else
      var pre := Collect(feats[..|feats| - 1]);
      match ParseFeature(feats[|feats| - 1])
      case Ok(p) => Put(pre, p.id, Entry(p))
      case Raised(_) => pre
  }

  /** get_state_stations as a value. `reply` is the listing request: the request raising, or
      a body that is not JSON, propagates; a body without `features` gives the empty dict.
      The response status is not looked at. */
  function StateStationsSpec(reply: Reply): Outcome<Obj> {
    match reply
    case NoReply => Raised("RequestException")
    case Reply(_, body) =>
      if body.None? then Raised("JSONDecodeError")
      else
        var has :- In("features", body.value);
        if !has then Ok([])
        else
          var fs :- Index(body.value, "features");
          var feats :- Iterate(fs);
          Ok(Collect(feats))
  }

  /** The last piece of `id.split('/stations/')`: a suffix of `id` holding no `/stations/`, either all
      of `id` or directly after an occurrence of `/stations/`. */
  lemma StationIdSpec(id: string)
    ensures var t := LastPiece(id, "/stations/");
      && !Contains(t, "/stations/")
      && |t| <= |id| && id[|id| - |t|..] == t
      && (|t| == |id| || (10 <= |id| - |t| && id[|id| - |t| - 10..|id| - |t|] == "/stations/"))
  {
    LastPieceSpec(id, "/stations/");
  }

  /** `n.lstrip().rstrip()` is `n[a..b]`, where everything before `a` and from `b` on is
      whitespace, and it neither starts nor ends with whitespace. */
  lemma StripSpec(n: string) returns (a: nat, b: nat)
    ensures a <= b <= |n| && Strip(n) == n[a..b]
    ensures forall i :: 0 <= i < a ==> IsSpace(n[i])
    ensures forall i :: b <= i < |n| ==> IsSpace(n[i])
    ensures var r := Strip(n); r == [] || (!IsSpace(r[0]) && !IsSpace(r[|r| - 1]))
  {
    LStripSpec(n);
    var m := LStrip(n);
    RStripSpec(m);
    var r := Strip(n);
    if r != [] {
      assert r[0] == m[0];
    }
    a := |n| - |m|;
    b := a + |r|;
    InnerSlice(n, m, r);
  }

  /** A prefix `r` of a suffix `m` of `n` is the slice of `n` where it sits. */
  lemma InnerSlice(n: string, m: string, r: string)
    requires |m| <= |n| && n[|n| - |m|..] == m && |r| <= |m| && m[..|r|] == r
    ensures n[|n| - |m|..|n| - |m| + |r|] == r
    ensures forall i :: |n| - |m| <= i < |n| ==> n[i] == m[i - (|n| - |m|)]
  {
    var a := |n| - |m|;
    forall i | a <= i < |n| ensures n[i] == m[i - a] {
      assert n[a..][i - a] == n[i];
    }
  }

  /** A parsed ID is a suffix of the feature's `id` holding no `/stations/`, either all of it
      or directly after an occurrence of `/stations/`; a parsed name is the listed name without the whitespace at either end. */
  lemma ParseFeatureSpec(f: Json)
    requires ParseFeature(f).Ok?
    ensures var p, id := ParseFeature(f).value, Index(f, "id").value.s;
      && !Contains(p.id, "/stations/")
      && |p.id| <= |id| && id[|id| - |p.id|..] == p.id
      && (|p.id| == |id| || (10 <= |id| - |p.id| && id[|id| - |p.id| - 10..|id| - |p.id|] == "/stations/"))
    ensures var p, n := ParseFeature(f).value, Index(Index(f, "properties").value, "name").value.s;
      exists a, b :: 0 <= a <= b <= |n| && p.name == n[a..b]
        && (forall i :: 0 <= i < a ==> IsSpace(n[i]))
        && (forall i :: b <= i < |n| ==> IsSpace(n[i]))
    ensures var p := ParseFeature(f).value;
      p.name == [] || (!IsSpace(p.name[0]) && !IsSpace(p.name[|p.name| - 1]))
    ensures var p := ParseFeature(f).value;
      Get(Entry(p).fields, "name") == Some(JStr(p.name)) && Get(Entry(p).fields, "geometry") == Some(p.geometry)
  {
    var p := ParseFeature(f).value;
    var id := Index(f, "id").value.s;
    var n := Index(Index(f, "properties").value, "name").value.s;
    assert p.id == LastPiece(id, "/stations/") && p.name == Strip(n);
    StationIdSpec(id);
    var a, b := StripSpec(n);
  }

  /** Feature `f` parses to station ID `k`. */
  predicate ListsId(f: Json, k: string) {
    ParseFeature(f).Ok? && ParseFeature(f).value.id == k
  }

  /** The IDs of the features that parse, in listing order. */
  function ParsedIds(feats: seq<Json>): seq<string>
    decreases |feats|
  {
    if feats == [] then []
    else
      var pre := ParsedIds(feats[..|feats| - 1]);
      match ParseFeature(feats[|feats| - 1])
      case Ok(p) => pre + [p.id]
      case Raised(_) => pre
  }

  lemma {:induction false} ParsedIdsWitness(feats: seq<Json>, k: string) returns (i: nat)
    requires k in ParsedIds(feats)
    ensures i < |feats| && ListsId(feats[i], k)
    decreases |feats|
  {
    var pre, f := feats[..|feats| - 1], feats[|feats| - 1];
    if ParseFeature(f).Ok? && ParseFeature(f).value.id == k {
      i := |feats| - 1;
    } else {
      assert k in ParsedIds(pre);
      i := ParsedIdsWitness(pre, k);
      assert pre[i] == feats[i];
    }
  }

  lemma {:induction false} ParsedIdsListed(feats: seq<Json>, i: nat, k: string)
    requires i < |feats| && ListsId(feats[i], k)
    ensures k in ParsedIds(feats)
    decreases |feats|
  {
    var pre, f := feats[..|feats| - 1], feats[|feats| - 1];
    if i == |feats| - 1 {
      assert ParsedIds(feats) == ParsedIds(pre) + [k];
    } else {
      assert pre[i] == feats[i];
      ParsedIdsListed(pre, i, k);
      assert ParsedIds(pre) <= ParsedIds(feats);
    }
  }

  lemma ParsedIdsSpec(feats: seq<Json>, k: string)
    ensures k in ParsedIds(feats) <==>
      exists i :: 0 <= i < |feats| && ListsId(feats[i], k)
  {
    if k in ParsedIds(feats) {
      var i := ParsedIdsWitness(feats, k);
    }
    forall i | 0 <= i < |feats| && ListsId(feats[i], k) ensures k in ParsedIds(feats) {
      ParsedIdsListed(feats, i, k);
    }
  }

  lemma {:induction false} CollectIds(feats: seq<Json>)
    ensures Distinct(Collect(feats))
    ensures forall k :: HasKey(Collect(feats), k) <==> k in ParsedIds(feats)
    decreases |feats|
  {
    if feats != [] {
      var pre := feats[..|feats| - 1];
      var f := feats[|feats| - 1];
      CollectIds(pre);
      if ParseFeature(f).Ok? {
        var p := ParseFeature(f).value;
        PutSpec(Collect(pre), p.id, Entry(p));
      }
    }
  }

  /** The stations collected are keyed without repetition, exactly by the IDs of the features
      that parse. */
  lemma CollectKeys(feats: seq<Json>, k: string)
    ensures Distinct(Collect(feats))
    ensures HasKey(Collect(feats), k) <==>
      exists i :: 0 <= i < |feats| && ListsId(feats[i], k)
  {
    CollectIds(feats);
    ParsedIdsSpec(feats, k);
  }

  /** Each station's entry comes from the last feature listing that ID. */
  lemma {:induction false} CollectLast(feats: seq<Json>, i: nat)
    requires i < |feats| && ParseFeature(feats[i]).Ok?
    requires forall j :: i < j < |feats| && ParseFeature(feats[j]).Ok? ==>
      ParseFeature(feats[j]).value.id != ParseFeature(feats[i]).value.id
    ensures Get(Collect(feats), ParseFeature(feats[i]).value.id) == Some(Entry(ParseFeature(feats[i]).value))
    decreases |feats|
  {
    var pre := feats[..|feats| - 1];
    var f := feats[|feats| - 1];
    var p := ParseFeature(feats[i]).value;
    if i == |feats| - 1 {
      PutSpec(Collect(pre), p.id, Entry(p));
    } else {
      assert pre[i] == feats[i];
      assert forall j :: i < j < |pre| ==> pre[j] == feats[j];
      CollectLast(pre, i);
      if ParseFeature(f).Ok? {
        PutSpec(Collect(pre), ParseFeature(f).value.id, Entry(ParseFeature(f).value));
      }
    }
  }

  /** Without `features` the result is the empty dict; a listing that is itself a dict of
      features, a list or a string reaches the loop only when it is a dict. */
  lemma StateStationsShape(reply: Reply)
    ensures reply.NoReply? ==> StateStationsSpec(reply) == Raised("RequestException")
    ensures reply.Reply? && reply.body.None? ==> StateStationsSpec(reply) == Raised("JSONDecodeError")
    ensures reply.Reply? && reply.body.Some? && reply.body.value.JObj? && !HasKey(reply.body.value.fields, "features")
      ==> StateStationsSpec(reply) == Ok([])
    ensures StateStationsSpec(reply).Ok? && StateStationsSpec(reply).value != [] ==>
      reply.Reply? && reply.body.Some? && reply.body.value.JObj? && HasKey(reply.body.value.fields, "features")
  {
  }

  lemma CollectNext(feats: seq<Json>, i: nat)
    requires i < |feats|
    ensures Collect(feats[..i + 1]) ==
      match ParseFeature(feats[i])
      case Ok(p) => Put(Collect(feats[..i]), p.id, Entry(p))
      case Raised(_) => Collect(feats[..i])
  {
    assert feats[..i + 1][..i] == feats[..i];
    assert feats[..i + 1][i] == feats[i];
  }

  /** The loop of get_state_stations over the listed features. */
  method ParseStateStations(reply: Reply) returns (r: Outcome<Obj>)
    ensures r == StateStationsSpec(reply)
  {
    if reply.NoReply? {
      return Raised("RequestException");
    }
    if reply.body.None? {
      return Raised("JSONDecodeError");
    }
    var d := reply.body.value;
    var has :- In("features", d);
    if !has {
      return Ok([]);
    }
    var fs :- Index(d, "features");
    var feats :- Iterate(fs);
    var stations: Obj := [];
    var i := 0;
    while i < |feats|
      invariant 0 <= i <= |feats|
      invariant stations == Collect(feats[..i])
    {
      CollectNext(feats, i);
      var p := ParseFeature(feats[i]);
      if p.Ok? {
        stations := Put(stations, p.value.id, Entry(p.value));
      }
      i := i + 1;
    }
    assert feats[..i] == feats;
    return Ok(stations);
  }
}
