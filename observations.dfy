/** fetch_station_data: flattening an observations reply into one list per column, then
    normalising the lengths. */
module Observations {
  import opened Wrappers
  import opened Dicts
  import opened Strings
  import opened PyJson
  import opened StationInfo
  import opened Normalise

  /** `d` before any record: three empty columns. */
  function InitialTable(): Table {
    [("location", []), ("geometry", []), ("cloudLayers", [])]
  }

  /** A unit code without its `wmoUnit:` prefix. */
  function Unit(code: string): string {
    RemoveAll(code, "wmoUnit:")
  }

  /** What one property `col: v` of a record contributes: nothing for a key starting with `@`,
      otherwise a column name and the value to append to it. */
  function PropertyStep(col: string, v: Json): Outcome<Option<(string, Json)>> {
    if StartsWith(col, "@") then Ok(None)
    else
      var val :-
        if col == "timestamp" then Ok(v)
        else if col == "station" then (if v.JStr? then Ok(JStr(LastPiece(v.s, "/"))) else Raised("AttributeError"))
        else if v.JObj? && HasKey(v.fields, "value") then Ok(GetOr(v.fields, "value", JNull))
        else Ok(v);
      var name :-
        if v.JObj? && HasKey(v.fields, "unitCode") then
          (match GetOr(v.fields, "unitCode", JNull)
           case JStr(u) => Ok(col + " (" + Unit(u) + ")")
           case _ => Raised("AttributeError"))
        else Ok(col);
      Ok(Some((name, if name == "cloudLayers" && val == JNull then JList([]) else val)))
  }

  /** The contributions of a record's properties, in order. */
  function PropertiesEmit(props: Obj): Outcome<seq<(string, Json)>>
    decreases |props|
  {
    if props == [] then Ok([])
    else
      var pre :- PropertiesEmit(props[..|props| - 1]);
      var step :- PropertyStep(props[|props| - 1].0, props[|props| - 1].1);
      Ok(pre + if step.Some? then [step.value] else [])
  }

  /** The contributions of one feature record: the station's name and geometry, then its properties. */
  function RecordEmit(rec: Json, loc: Json, geo: Json): Outcome<seq<(string, Json)>> {
    if !rec.JObj? then Raised("AttributeError")
    else
      var props :- Items(GetOr(rec.fields, "properties", JObj([])));
      var pe :- PropertiesEmit(props);
      Ok([("location", loc), ("geometry", geo)] + pe)
  }

  function Emits(recs: seq<Json>, loc: Json, geo: Json): Outcome<seq<(string, Json)>>
    decreases |recs|
  {
    if recs == [] then Ok([])
    else
      var pre :- Emits(recs[..|recs| - 1], loc, geo);
      var e :- RecordEmit(recs[|recs| - 1], loc, geo);
      Ok(pre + e)
  }

  /** `if col not in d: d[col] = []` then `d[col].append(val)`. */
  function Append(d: Table, col: string, val: Json): Table {
    Put(d, col, GetOr(d, col, []) + [val])
  }

  /** Appending every contribution in turn. */
  function Grow(d: Table, pairs: seq<(string, Json)>): Table
    decreases |pairs|
  {
    if pairs == [] then d
    else Append(Grow(d, pairs[..|pairs| - 1]), pairs[|pairs| - 1].0, pairs[|pairs| - 1].1)
  }

  /** The values contributed to column `c`, in order. */
  function ValuesNamed(pairs: seq<(string, Json)>, c: string): seq<Json>
    decreases |pairs|
  {
    if pairs == [] then []
    else ValuesNamed(pairs[..|pairs| - 1], c) + if pairs[|pairs| - 1].0 == c then [pairs[|pairs| - 1].1] else []
  }

  /** The table built from the feature records, before normalisation. */
  function FlattenSpec(recs: seq<Json>, loc: Json, geo: Json): Outcome<Table> {
    var pairs :- Emits(recs, loc, geo);
    Ok(Grow(InitialTable(), pairs))
  }

  /** fetch_station_data after the station lookup. `info` is the lookup's result; `reply` the
      observations request. A failed request or an undecodable body gives None, like a body
      without `features`. */
  function FetchSpec(info: Obj, reply: Reply): Outcome<Option<Table>> {
    if !HasKey(info, "name") then Raised("KeyError")
    else if reply.NoReply? || reply.body.None? then Ok(None)
    else
      var data := reply.body.value;
      var has :- In("features", data);
      if !has then Ok(None)
      else
        var features :- Index(data, "features");
        var recs :- Iterate(features);
        var flat :- FlattenSpec(recs, GetOr(info, "name", JNull), GetOr(info, "geometry", JObj([])));
        Ok(Some(KeepLength(flat, ModalLength(flat))))
  }

  lemma {:induction false} PropertiesEmitRaisedPrefix(props: Obj, k: nat)
    requires k <= |props| && PropertiesEmit(props[..k]).Raised?
    ensures PropertiesEmit(props) == PropertiesEmit(props[..k])
    decreases |props|
  {
    if k < |props| {
      var pre := props[..|props| - 1];
      assert pre[..k] == props[..k];
      PropertiesEmitRaisedPrefix(pre, k);
    } else {
      assert props[..k] == props;
    }
  }

  lemma {:induction false} EmitsRaisedPrefix(recs: seq<Json>, k: nat, loc: Json, geo: Json)
    requires k <= |recs| && Emits(recs[..k], loc, geo).Raised?
    ensures Emits(recs, loc, geo) == Emits(recs[..k], loc, geo)
    decreases |recs|
  {
    if k < |recs| {
      var pre := recs[..|recs| - 1];
      assert pre[..k] == recs[..k];
      EmitsRaisedPrefix(pre, k, loc, geo);
    } else {
      assert recs[..k] == recs;
    }
  }

  /** Growing by two batches is growing by their concatenation. */
  lemma {:induction false} GrowConcat(d: Table, a: seq<(string, Json)>, b: seq<(string, Json)>)
    ensures Grow(d, a + b) == Grow(Grow(d, a), b)
    decreases |b|
  {
    if b == [] {
      assert a + b == a;
    } else {
      var b' := b[..|b| - 1];
      GrowConcat(d, a, b');
      assert (a + b)[..|a + b| - 1] == a + b';
    }
  }

  /** The inner loop over one record's properties. */
  method AppendProperties(d: Table, props: Obj) returns (r: Outcome<Table>)
    ensures PropertiesEmit(props).Raised? ==> r == Raised(PropertiesEmit(props).exception)
    ensures PropertiesEmit(props).Ok? ==> r == Ok(Grow(d, PropertiesEmit(props).value))
  {
    var t := d;
    ghost var pe: seq<(string, Json)> := [];
    var j := 0;
    while j < |props|
      invariant 0 <= j <= |props|
      invariant PropertiesEmit(props[..j]) == Ok(pe)
      invariant t == Grow(d, pe)
    {
      var (col, v) := props[j];
      assert props[..j + 1][..j] == props[..j];
      var step := PropertyStep(col, v);
      if step.Raised? {
        PropertiesEmitRaisedPrefix(props, j + 1);
        return Raised(step.exception);
      }
      if step.value.Some? {
        var (name, val) := step.value.value;
        t := Append(t, name, val);
        assert (pe + [(name, val)])[..|pe|] == pe;
        pe := pe + [(name, val)];
      } else {
        assert pe + [] == pe;
      }
      j := j + 1;
    }
    assert props[..|props|] == props;
    r := Ok(t);
  }

  /** One more record: the prefix's contributions extend by the record's, or its exception is the result. */
  lemma EmitsStep(recs: seq<Json>, i: nat, loc: Json, geo: Json, e: seq<(string, Json)>)
    requires i < |recs| && Emits(recs[..i], loc, geo) == Ok(e)
    ensures RecordEmit(recs[i], loc, geo).Ok? ==> Emits(recs[..i + 1], loc, geo) == Ok(e + RecordEmit(recs[i], loc, geo).value)
    ensures RecordEmit(recs[i], loc, geo).Raised? ==> Emits(recs, loc, geo) == Raised(RecordEmit(recs[i], loc, geo).exception)
  {
    assert recs[..i + 1][..i] == recs[..i];
    if RecordEmit(recs[i], loc, geo).Raised? {
      EmitsRaisedPrefix(recs, i + 1, loc, geo);
    }
  }

  /** A record's own columns first: its name and geometry, then what `AppendProperties` adds. */
  lemma RecordGrow(d: Table, e: seq<(string, Json)>, loc: Json, geo: Json, pe: seq<(string, Json)>)
    requires d == Grow(InitialTable(), e)
    ensures Grow(Append(Append(d, "location", loc), "geometry", geo), pe)
      == Grow(InitialTable(), e + ([("location", loc), ("geometry", geo)] + pe))
  {
    var head := [("location", loc), ("geometry", geo)];
    assert (e + head)[..|e| + 1] == e + [head[0]];
    assert (e + [head[0]])[..|e|] == e;
    assert Append(Append(d, "location", loc), "geometry", geo) == Grow(InitialTable(), e + head);
    GrowConcat(InitialTable(), e + head, pe);
    assert e + head + pe == e + (head + pe);
  }

  /** The ways one record's contributions can end: a record that is not a dict, properties
      without `items`, a property that raises, or the record's name, geometry and properties. */
  lemma RecordEmitCases(rec: Json, loc: Json, geo: Json)
    ensures !rec.JObj? ==> RecordEmit(rec, loc, geo) == Raised("AttributeError")
    ensures rec.JObj? ==> var props := Items(GetOr(rec.fields, "properties", JObj([])));
      && (props.Raised? ==> RecordEmit(rec, loc, geo) == Raised(props.exception))
      && (props.Ok? ==> var pe := PropertiesEmit(props.value);
            && (pe.Raised? ==> RecordEmit(rec, loc, geo) == Raised(pe.exception))
            && (pe.Ok? ==> RecordEmit(rec, loc, geo) == Ok([("location", loc), ("geometry", geo)] + pe.value)))
  {
  }

  /** How record `i` ends the loop: with the exception that ends the whole flattening, or by
      extending the contributions so far with its own. */
  lemma RecordOutcome(recs: seq<Json>, i: nat, loc: Json, geo: Json, e: seq<(string, Json)>)
    requires i < |recs| && Emits(recs[..i], loc, geo) == Ok(e)
    ensures !recs[i].JObj? ==> FlattenSpec(recs, loc, geo) == Raised("AttributeError")
    ensures recs[i].JObj? ==> var props := Items(GetOr(recs[i].fields, "properties", JObj([])));
      && (props.Raised? ==> FlattenSpec(recs, loc, geo) == Raised(props.exception))
      && (props.Ok? ==> var pe := PropertiesEmit(props.value);
            && (pe.Raised? ==> FlattenSpec(recs, loc, geo) == Raised(pe.exception))
            && (pe.Ok? ==> Emits(recs[..i + 1], loc, geo) == Ok(e + ([("location", loc), ("geometry", geo)] + pe.value))))
  {
    EmitsStep(recs, i, loc, geo, e);
    RecordEmitCases(recs[i], loc, geo);
  }

  /** The nested loop over records and their properties that grows the columns. */
  method Flatten(records: seq<Json>, loc: Json, geo: Json) returns (r: Outcome<Table>)
    ensures r == FlattenSpec(records, loc, geo)
  {
    var d := InitialTable();
    ghost var e: seq<(string, Json)> := [];
    var i := 0;
    while i < |records|
      invariant 0 <= i <= |records|
      invariant Emits(records[..i], loc, geo) == Ok(e)
      invariant d == Grow(InitialTable(), e)
    {
      var rec := records[i];
      RecordOutcome(records, i, loc, geo, e);
      if !rec.JObj? {
        return Raised("AttributeError");
      }
      ghost var before := d;
      d := Append(d, "location", loc);
      d := Append(d, "geometry", geo);
      var props := Items(GetOr(rec.fields, "properties", JObj([])));
      if props.Raised? {
        return Raised(props.exception);
      }
      var grown := AppendProperties(d, props.value);
      if grown.Raised? {
        return Raised(grown.exception);
      }
      ghost var pe := PropertiesEmit(props.value).value;
      RecordGrow(before, e, loc, geo, pe);
      d := grown.value;
      e := e + ([("location", loc), ("geometry", geo)] + pe);
      i := i + 1;
    }
    assert records[..|records|] == records;
    r := Ok(d);
  }

  method FetchStationData(info: Obj, reply: Reply) returns (r: Outcome<Option<Table>>)
    ensures r == FetchSpec(info, reply)
  {
    if !HasKey(info, "name") {
      return Raised("KeyError");
    }
    if reply.NoReply? || reply.body.None? {
      return Ok(None);
    }
    var data := reply.body.value;
    var has :- In("features", data);
    if !has {
      return Ok(None);
    }
    var features :- Index(data, "features");
    var recs :- Iterate(features);
    var flat :- Flatten(recs, GetOr(info, "name", JNull), GetOr(info, "geometry", JObj([])));
    var norm := Normalize(flat);
    r := Ok(Some(norm));
  }

  /** A name whose first character is not `@`. */
  lemma NotAtPrefix(s: string)
    requires s != [] && s[0] != '@'
    ensures !StartsWith(s, "@")
  {
    assert s[..1][0] == s[0];
  }

  /** A column name ends in `)` when a unit suffix was added. */
  predicate EndsParen(s: string) {
    s != [] && s[|s| - 1] == ')'
  }

  /** A property's column is never `@`-prefixed, and is its own key unless a unit suffix was added. */
  lemma StepName(col: string, v: Json)
    requires PropertyStep(col, v).Ok? && PropertyStep(col, v).value.Some?
    ensures var name := PropertyStep(col, v).value.value.0;
      && !StartsWith(name, "@")
      && (name == col || EndsParen(name))
  {
    var name := PropertyStep(col, v).value.value.0;
    if name != col {
      assert name[0] == (if col == [] then ' ' else col[0]);
    }
  }

  /** Keys beginning with `@` contribute nothing. */
  lemma AtKeysSkipped(col: string, v: Json)
    requires StartsWith(col, "@")
    ensures PropertyStep(col, v) == Ok(None)
  {
  }

  lemma StationStep(url: string)
    ensures PropertyStep("station", JStr(url)) == Ok(Some(("station", JStr(LastPiece(url, "/")))))
  {
    NotAtPrefix("station");
    assert "station" != "timestamp" && "station" != "cloudLayers";
  }

  /** The `station` column receives the last `/`-separated segment of the station URL: it holds
      no `/`, ends the URL, and is either the whole URL or follows a `/`. */
  lemma StationValue(url: string)
    ensures PropertyStep("station", JStr(url)) == Ok(Some(("station", JStr(LastPiece(url, "/")))))
    ensures var t := LastPiece(url, "/");
      && !Contains(t, "/")
      && |t| <= |url| && url[|url| - |t|..] == t
      && (|t| == |url| || url[|url| - |t| - 1] == '/')
  {
    StationStep(url);
    LastPieceSpec(url, "/");
    var t := LastPiece(url, "/");
    if |t| < |url| {
      assert url[|url| - |t| - 1..|url| - |t|] == "/";
    }
  }

  /** A non-string station value has no `split`. */
  lemma StationNotString(v: Json)
    requires !v.JStr?
    ensures PropertyStep("station", v) == Raised("AttributeError")
  {
    NotAtPrefix("station");
    assert "station" != "timestamp";
  }

  /** A `{value, unitCode}` envelope is unwrapped to its value, and the unit, without `wmoUnit:`,
      is appended to the column name; a non-string unit code has no `replace`. */
  lemma UnwrapEnvelope(col: string, fs: Obj)
    requires !StartsWith(col, "@") && col != "timestamp" && col != "station"
    requires HasKey(fs, "value")
    ensures var r, val := PropertyStep(col, JObj(fs)), GetOr(fs, "value", JNull);
      && (!HasKey(fs, "unitCode") ==>
            r == Ok(Some((col, if col == "cloudLayers" && val == JNull then JList([]) else val))))
      && (HasKey(fs, "unitCode") && GetOr(fs, "unitCode", JNull).JStr? ==>
            r == Ok(Some((col + " (" + Unit(GetOr(fs, "unitCode", JNull).s) + ")", val))))
      && (HasKey(fs, "unitCode") && !GetOr(fs, "unitCode", JNull).JStr? ==> r == Raised("AttributeError"))
  {
    if HasKey(fs, "unitCode") && GetOr(fs, "unitCode", JNull).JStr? {
      var name := col + " (" + Unit(GetOr(fs, "unitCode", JNull).s) + ")";
      assert name[|name| - 1] == ')';
      assert name != "cloudLayers";
    }
  }

  /** A `wmoUnit:` prefix is dropped from a unit code, and a code without it is kept. */
  lemma UnitOfCode(x: string)
    requires !Contains(x, "wmoUnit:")
    ensures Unit("wmoUnit:" + x) == x
    ensures Unit(x) == x
  {
    assert StartsWith("wmoUnit:" + x, "wmoUnit:");
    assert ("wmoUnit:" + x)[|"wmoUnit:"|..] == x;
    RemoveAllAbsent(x, "wmoUnit:");
  }

  /** A null `cloudLayers` is stored as an empty list. */
  lemma CloudLayersNull()
    ensures PropertyStep("cloudLayers", JNull) == Ok(Some(("cloudLayers", JList([]))))
  {
    NotAtPrefix("cloudLayers");
    assert "cloudLayers" != "timestamp" && "cloudLayers" != "station";
  }

  /** Everything a record's properties contribute goes under a non-`@` name that is one of the
      property keys or carries a unit suffix. */
  lemma {:induction false} PropertiesEmitNames(props: Obj)
    requires PropertiesEmit(props).Ok?
    ensures var pe := PropertiesEmit(props).value;
      forall i :: 0 <= i < |pe| ==> !StartsWith(pe[i].0, "@") && (HasKey(props, pe[i].0) || EndsParen(pe[i].0))
    decreases |props|
  {
    if props != [] {
      var pre := props[..|props| - 1];
      var last := props[|props| - 1];
      PropertiesEmitNames(pre);
      assert forall k :: HasKey(pre, k) ==> HasKey(props, k) by {
        assert Keys(props) == Keys(pre) + [last.0];
      }
      assert Keys(props)[|props| - 1] == last.0;
      var step := PropertyStep(last.0, last.1);
      if step.value.Some? {
        StepName(last.0, last.1);
      }
    }
  }

  /** Everything the records contribute goes under a non-`@` name. */
  lemma {:induction false} EmitsNames(recs: seq<Json>, loc: Json, geo: Json)
    requires Emits(recs, loc, geo).Ok?
    ensures var e := Emits(recs, loc, geo).value;
      forall i :: 0 <= i < |e| ==> !StartsWith(e[i].0, "@")
    decreases |recs|
  {
    if recs != [] {
      EmitsNames(recs[..|recs| - 1], loc, geo);
      var rec := recs[|recs| - 1];
      var props := Items(GetOr(rec.fields, "properties", JObj([]))).value;
      PropertiesEmitNames(props);
      var pre := Emits(recs[..|recs| - 1], loc, geo).value;
      var pe := PropertiesEmit(props).value;
      assert Emits(recs, loc, geo).value == pre + ([("location", loc), ("geometry", geo)] + pe);
      NotAtPrefix("location");
      NotAtPrefix("geometry");
    }
  }

  lemma {:induction false} GrowGet(d: Table, pairs: seq<(string, Json)>, c: string)
    ensures GetOr(Grow(d, pairs), c, []) == GetOr(d, c, []) + ValuesNamed(pairs, c)
    decreases |pairs|
  {
    if pairs != [] {
      var pre := pairs[..|pairs| - 1];
      var (k, v) := pairs[|pairs| - 1];
      GrowGet(d, pre, c);
      var g := Grow(d, pre);
      PutGet(g, k, GetOr(g, k, []) + [v]);
    }
  }

  lemma {:induction false} GrowHasKey(d: Table, pairs: seq<(string, Json)>, c: string)
    ensures HasKey(Grow(d, pairs), c) <==> HasKey(d, c) || exists i :: 0 <= i < |pairs| && pairs[i].0 == c
    decreases |pairs|
  {
    if pairs != [] {
      var pre := pairs[..|pairs| - 1];
      var (k, v) := pairs[|pairs| - 1];
      GrowHasKey(d, pre, c);
      var g := Grow(d, pre);
      PutKeys(g, k, GetOr(g, k, []) + [v]);
      assert HasKey(Grow(d, pairs), c) <==> HasKey(g, c) || k == c;
      if exists i :: 0 <= i < |pairs| && pairs[i].0 == c {
        var i :| 0 <= i < |pairs| && pairs[i].0 == c;
        if i < |pre| { assert pre[i].0 == c; }
      }
      if exists i :: 0 <= i < |pre| && pre[i].0 == c {
        var i :| 0 <= i < |pre| && pre[i].0 == c;
        assert pairs[i].0 == c;
      }
    }
  }

  lemma {:induction false} GrowDistinct(d: Table, pairs: seq<(string, Json)>)
    requires Distinct(d)
    ensures Distinct(Grow(d, pairs)) && |Grow(d, pairs)| >= |d|
    decreases |pairs|
  {
    if pairs != [] {
      var pre := pairs[..|pairs| - 1];
      var (k, v) := pairs[|pairs| - 1];
      GrowDistinct(d, pre);
      var g := Grow(d, pre);
      PutDistinct(g, k, GetOr(g, k, []) + [v]);
      PutKeys(g, k, GetOr(g, k, []) + [v]);
      assert |Keys(Grow(d, pairs))| >= |Keys(g)|;
    }
  }

  /** Growing appends each contribution to the list of its column: a column's list is its old
      list followed by the values contributed to it, a column exists when it existed or received
      a value, and keys stay distinct. */
  lemma GrowColumn(d: Table, pairs: seq<(string, Json)>, c: string)
    requires Distinct(d)
    ensures GetOr(Grow(d, pairs), c, []) == GetOr(d, c, []) + ValuesNamed(pairs, c)
    ensures HasKey(Grow(d, pairs), c) <==> HasKey(d, c) || exists i :: 0 <= i < |pairs| && pairs[i].0 == c
    ensures Distinct(Grow(d, pairs)) && |Grow(d, pairs)| >= |d|
  {
    GrowGet(d, pairs, c);
    GrowHasKey(d, pairs, c);
    GrowDistinct(d, pairs);
  }

  lemma {:induction false} ValuesNamedConcat(a: seq<(string, Json)>, b: seq<(string, Json)>, c: string)
    ensures ValuesNamed(a + b, c) == ValuesNamed(a, c) + ValuesNamed(b, c)
    decreases |b|
  {
    if b == [] {
      assert a + b == a;
    } else {
      ValuesNamedConcat(a, b[..|b| - 1], c);
      assert (a + b)[..|a + b| - 1] == a + b[..|b| - 1];
    }
  }

  lemma {:induction false} ValuesNamedAbsent(pairs: seq<(string, Json)>, c: string)
    requires forall i :: 0 <= i < |pairs| ==> pairs[i].0 != c
    ensures ValuesNamed(pairs, c) == []
    decreases |pairs|
  {
    if pairs != [] {
      ValuesNamedAbsent(pairs[..|pairs| - 1], c);
    }
  }

  /** The record has no property with this key. */
  predicate LacksProperty(rec: Json, key: string) {
    rec.JObj? && GetOr(rec.fields, "properties", JObj([])).JObj? ==>
      !HasKey(GetOr(rec.fields, "properties", JObj([])).fields, key)
  }

  /** One record contributes exactly one value to the `location` (or `geometry`) column. */
  lemma RecordValues(rec: Json, loc: Json, geo: Json, c: string)
    requires c == "location" || c == "geometry"
    requires RecordEmit(rec, loc, geo).Ok?
    requires LacksProperty(rec, c)
    ensures ValuesNamed(RecordEmit(rec, loc, geo).value, c) == [if c == "location" then loc else geo]
  {
    var props := Items(GetOr(rec.fields, "properties", JObj([]))).value;
    var pe := PropertiesEmit(props).value;
    PropertiesEmitNames(props);
    assert forall i :: 0 <= i < |pe| ==> pe[i].0 != c by {
      assert !HasKey(props, c);
      assert !EndsParen(c);
    }
    ValuesNamedAbsent(pe, c);
    var head := [("location", loc), ("geometry", geo)];
    ValuesNamedConcat(head, pe, c);
    assert ValuesNamed(head, c) == [if c == "location" then loc else geo] by {
      var one := [("location", loc)];
      assert head[..1] == one && one[..0] == [];
      assert ValuesNamed(one, c) == ValuesNamed([], c) + if c == "location" then [loc] else [];
      assert ValuesNamed(head, c) == ValuesNamed(one, c) + if c == "geometry" then [geo] else [];
      assert "location" != "geometry";
    }
  }

  lemma {:induction false} HeadValues(recs: seq<Json>, loc: Json, geo: Json, c: string)
    requires c == "location" || c == "geometry"
    requires Emits(recs, loc, geo).Ok?
    requires forall i :: 0 <= i < |recs| ==> LacksProperty(recs[i], c)
    ensures ValuesNamed(Emits(recs, loc, geo).value, c) == seq(|recs|, _ => if c == "location" then loc else geo)
    decreases |recs|
  {
    if recs != [] {
      var pre := recs[..|recs| - 1];
      var rec := recs[|recs| - 1];
      assert forall i :: 0 <= i < |pre| ==> pre[i] == recs[i];
      HeadValues(pre, loc, geo, c);
      RecordValues(rec, loc, geo, c);
      var a, b := Emits(pre, loc, geo).value, RecordEmit(rec, loc, geo).value;
      assert Emits(recs, loc, geo).value == a + b;
      ValuesNamedConcat(a, b, c);
      var x := if c == "location" then loc else geo;
      assert seq(|recs|, _ => x) == seq(|pre|, _ => x) + [x];
    }
  }

  /** When no record has a `location` (or `geometry`) property of its own, that column holds
      exactly one entry per feature record, taken from the station info. */
  lemma HeadColumn(recs: seq<Json>, loc: Json, geo: Json, c: string)
    requires c == "location" || c == "geometry"
    requires FlattenSpec(recs, loc, geo).Ok?
    requires forall i :: 0 <= i < |recs| ==> LacksProperty(recs[i], c)
    ensures GetOr(FlattenSpec(recs, loc, geo).value, c, []) == seq(|recs|, _ => if c == "location" then loc else geo)
  {
    HeadValues(recs, loc, geo, c);
    GrowColumn(InitialTable(), Emits(recs, loc, geo).value, c);
  }

  /** The flattened table is a proper dict, never empty, and has no `@`-prefixed column. */
  lemma FlattenShape(recs: seq<Json>, loc: Json, geo: Json)
    requires FlattenSpec(recs, loc, geo).Ok?
    ensures var t := FlattenSpec(recs, loc, geo).value;
      && t != [] && Distinct(t)
      && forall i :: 0 <= i < |t| ==> !StartsWith(t[i].0, "@")
  {
    var e := Emits(recs, loc, geo).value;
    var t := Grow(InitialTable(), e);
    EmitsNames(recs, loc, geo);
    GrowDistinct(InitialTable(), e);
    forall i | 0 <= i < |t| ensures !StartsWith(t[i].0, "@") {
      assert Keys(t)[i] == t[i].0;
      GrowHasKey(InitialTable(), e, t[i].0);
      if HasKey(InitialTable(), t[i].0) {
        assert Keys(InitialTable()) == ["location", "geometry", "cloudLayers"];
        NotAtPrefix("location");
        NotAtPrefix("geometry");
        NotAtPrefix("cloudLayers");
      } else {
        var j :| 0 <= j < |e| && e[j].0 == t[i].0;
      }
    }
  }

  /** With a named station info, a reply without `features` gives None, a failed request or an
      undecodable body gives None too, and an info without a name raises KeyError first. */
  lemma FetchWithoutFeatures(info: Obj, reply: Reply)
    ensures !HasKey(info, "name") ==> FetchSpec(info, reply) == Raised("KeyError")
    ensures HasKey(info, "name") && (reply.NoReply? || reply.body.None?) ==> FetchSpec(info, reply) == Ok(None)
    ensures HasKey(info, "name") && reply.Reply? && reply.body.Some? && reply.body.value.JObj?
      && !HasKey(reply.body.value.fields, "features")
      ==> FetchSpec(info, reply) == Ok(None)
  {
  }

  /** A table returned by fetch_station_data is not empty, has distinct columns, and has no
      `@` column. */
  lemma FetchResult(info: Obj, reply: Reply)
    requires FetchSpec(info, reply).Ok? && FetchSpec(info, reply).value.Some?
    ensures var t := FetchSpec(info, reply).value.value;
      && t != [] && Distinct(t)
      && forall i :: 0 <= i < |t| ==> !StartsWith(t[i].0, "@")
  {
    var data := reply.body.value;
    var recs := Iterate(Index(data, "features").value).value;
    var loc, geo := GetOr(info, "name", JNull), GetOr(info, "geometry", JObj([]));
    var flat := FlattenSpec(recs, loc, geo).value;
    FlattenShape(recs, loc, geo);
    NormalizeSpec(flat);
    var t := KeepLength(flat, ModalLength(flat));
    KeepLengthSpec(flat, ModalLength(flat));
    forall i | 0 <= i < |t| ensures !StartsWith(t[i].0, "@") {
      assert t[i] in t;
      var j :| 0 <= j < |flat| && flat[j] == t[i];
    }
  }
}
