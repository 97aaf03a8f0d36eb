/** Length normalisation of a flattened station table: only the columns whose length is the most
    common one survive; on a tie the length seen first wins. */
module Normalise {
  import opened Wrappers
  import opened Dicts
  import opened PyJson

  /** A table of columns: column name to its list of values, in insertion order. */
  type Table = ODict<string, seq<Json>>

  /** The length of every column, in column order (`klens`). */
  function Lengths(d: Table): seq<nat> {
    seq(|d|, i requires 0 <= i < |d| => |d[i].1|)
  }

  /** How often `l` occurs in `ls`. */
  function Count(ls: seq<nat>, l: nat): nat
    decreases |ls|
  {
    if ls == [] then 0 else Count(ls[..|ls| - 1], l) + (if ls[|ls| - 1] == l then 1 else 0)
  }

  /** `if l not in lens: lens[l] = 0` then `lens[l] += 1`. */
  function Bump(lens: ODict<nat, nat>, l: nat): ODict<nat, nat> {
    Put(lens, l, GetOr(lens, l, 0) + 1)
  }

  /** The `lens` dict: every length with its number of columns, in order of first appearance. */
  function Tally(ls: seq<nat>): ODict<nat, nat>
    decreases |ls|
  {
    if ls == [] then [] else Bump(Tally(ls[..|ls| - 1]), ls[|ls| - 1])
  }

  /** The running maximum over `lens` with a strict `>`, starting from `(0, 0)`. */
  function MaxEntry(lens: ODict<nat, nat>): (nat, nat)
    decreases |lens|
  {
    if lens == [] then (0, 0)
    else
      var best := MaxEntry(lens[..|lens| - 1]);
      var last := lens[|lens| - 1];
      if last.1 > best.1 then last else best
  }

  /** `max_l`: the length kept. */
  function ModalLength(d: Table): nat {
    MaxEntry(Tally(Lengths(d))).0
  }

  /** `{k: d[k] for k in norm_keys}`: the columns of length `l`, in order. */
  function KeepLength(d: Table, l: nat): Table
    decreases |d|
  {
    if d == [] then [] else (if |d[0].1| == l then [d[0]] else []) + KeepLength(d[1..], l)
  }

  lemma {:induction false} CountIn(ls: seq<nat>, l: nat)
    ensures Count(ls, l) > 0 <==> l in ls
    decreases |ls|
  {
    if ls != [] {
      CountIn(ls[..|ls| - 1], l);
      assert ls == ls[..|ls| - 1] + [ls[|ls| - 1]];
    }
  }

  lemma {:induction false} TallyDistinct(ls: seq<nat>)
    ensures Distinct(Tally(ls))
    decreases |ls|
  {
    if ls != [] {
      var pre, x := ls[..|ls| - 1], ls[|ls| - 1];
      TallyDistinct(pre);
      PutDistinct(Tally(pre), x, GetOr(Tally(pre), x, 0) + 1);
    }
  }

  lemma {:induction false} TallyGet(ls: seq<nat>)
    ensures forall l :: Get(Tally(ls), l) == if l in ls then Some(Count(ls, l)) else None
    decreases |ls|
  {
    if ls != [] {
      var pre, x := ls[..|ls| - 1], ls[|ls| - 1];
      assert ls == pre + [x];
      TallyGet(pre);
      CountIn(pre, x);
      var t := Tally(pre);
      PutGet(t, x, GetOr(t, x, 0) + 1);
      forall l ensures Get(Tally(ls), l) == if l in ls then Some(Count(ls, l)) else None {
        assert (l in ls) == (l in pre || l == x);
        assert Count(ls, l) == Count(pre, l) + if x == l then 1 else 0;
      }
    }
  }

  lemma {:induction false} TallyPositive(ls: seq<nat>)
    ensures forall j :: 0 <= j < |Tally(ls)| ==> Tally(ls)[j].1 > 0
    decreases |ls|
  {
    if ls != [] {
      var pre, x := ls[..|ls| - 1], ls[|ls| - 1];
      TallyPositive(pre);
      var t := Tally(pre);
      PutElems(t, x, GetOr(t, x, 0) + 1);
      var t' := Tally(ls);
      forall j | 0 <= j < |t'| ensures t'[j].1 > 0 {
        assert t'[j] in t';
        if t'[j] in t {
          var m :| 0 <= m < |t| && t[m] == t'[j];
        }
      }
    }
  }

  /** `lens` holds each length once, with the number of columns of that length, and only positive counts. */
  lemma TallyCounts(ls: seq<nat>)
    ensures Distinct(Tally(ls))
    ensures forall l :: Get(Tally(ls), l) == if l in ls then Some(Count(ls, l)) else None
    ensures forall j :: 0 <= j < |Tally(ls)| ==> Tally(ls)[j].1 > 0
  {
    TallyDistinct(ls);
    TallyGet(ls);
    TallyPositive(ls);
  }

  /** New lengths are appended to `lens`; a length already there keeps its place. */
  lemma TallyKeys(ls: seq<nat>)
    requires ls != []
    ensures var pre, x := ls[..|ls| - 1], ls[|ls| - 1];
      Keys(Tally(ls)) == if x in pre then Keys(Tally(pre)) else Keys(Tally(pre)) + [x]
  {
    var pre, x := ls[..|ls| - 1], ls[|ls| - 1];
    TallyGet(pre);
    GetSpec(Tally(pre), x);
    PutKeys(Tally(pre), x, GetOr(Tally(pre), x, 0) + 1);
  }

  /** The keys of `lens` are in order of first appearance in `ls`. */
  lemma {:induction false} TallyOrder(ls: seq<nat>, i: nat, m: nat)
    requires m in ls && i < Pos(ls, m)
    ensures ls[i] in Keys(Tally(ls)) && m in Keys(Tally(ls))
    ensures Pos(Keys(Tally(ls)), ls[i]) < Pos(Keys(Tally(ls)), m)
    decreases |ls|
  {
    var pre, x := ls[..|ls| - 1], ls[|ls| - 1];
    assert ls == pre + [x];
    TallyKeys(ls);
    TallyCounts(pre);
    var kp := Keys(Tally(pre));
    GetSpec(Tally(pre), ls[i]);
    if m in pre {
      PosAppend(pre, [x], m);
      assert ls[i] == pre[i];
      TallyOrder(pre, i, m);
      GetSpec(Tally(pre), m);
      if x !in pre {
        PosAppend(kp, [x], ls[i]);
        PosAppend(kp, [x], m);
      }
    } else {
      assert m == x;
      PosLast(pre, x);
      assert ls[i] == pre[i];
      GetSpec(Tally(pre), x);
      PosLast(kp, x);
      PosAppend(kp, [x], ls[i]);
    }
  }

  /** The running maximum picks the first entry whose count is strictly maximal. */
  lemma {:induction false} MaxEntryFirst(lens: ODict<nat, nat>) returns (idx: nat)
    requires lens != []
    requires forall j :: 0 <= j < |lens| ==> lens[j].1 > 0
    ensures idx < |lens| && lens[idx] == MaxEntry(lens)
    ensures forall j :: 0 <= j < |lens| ==> lens[j].1 <= lens[idx].1
    ensures forall j :: 0 <= j < idx ==> lens[j].1 < lens[idx].1
    decreases |lens|
  {
    var pre := lens[..|lens| - 1];
    if pre == [] {
      assert MaxEntry(pre) == (0, 0);
      idx := 0;
    } else {
      assert forall j :: 0 <= j < |pre| ==> pre[j] == lens[j];
      var k := MaxEntryFirst(pre);
      var last := lens[|lens| - 1];
      if last.1 > MaxEntry(pre).1 {
        idx := |lens| - 1;
      } else {
        idx := k;
      }
    }
  }

  /** The entry the running maximum picks out of `lens`, as an index into it. */
  lemma TallyMaxIndex(ls: seq<nat>) returns (idx: nat)
    requires ls != []
    ensures var t := Tally(ls);
      && Distinct(t)
      && idx < |t| && t[idx] == MaxEntry(t)
      && (forall j :: 0 <= j < |t| ==> t[j].1 <= t[idx].1)
      && (forall j :: 0 <= j < idx ==> t[j].1 < t[idx].1)
      && t[idx].0 in ls && t[idx].1 == Count(ls, t[idx].0)
  {
    var t := Tally(ls);
    assert ls[0] in ls;
    TallyCounts(ls);
    GetSpec(t, ls[0]);
    idx := MaxEntryFirst(t);
    GetAt(t, idx);
    GetSpec(t, t[idx].0);
  }

  /** No length is more common than the one the running maximum picks. */
  lemma TallyMaxMost(ls: seq<nat>, l: nat)
    requires ls != []
    ensures var m := MaxEntry(Tally(ls)).0; m in ls && Count(ls, l) <= Count(ls, m)
  {
    var t := Tally(ls);
    var idx := TallyMaxIndex(ls);
    CountIn(ls, l);
    if l in ls {
      TallyCounts(ls);
      GetSpec(t, l);
      var j :| 0 <= j < |t| && t[j] == (l, Count(ls, l));
    }
  }

  /** Every length first seen before the picked one is strictly less common. */
  lemma TallyMaxFirst(ls: seq<nat>, i: nat)
    requires ls != []
    requires MaxEntry(Tally(ls)).0 in ls && i < Pos(ls, MaxEntry(Tally(ls)).0)
    ensures Count(ls, ls[i]) < Count(ls, MaxEntry(Tally(ls)).0)
  {
    var t := Tally(ls);
    var idx := TallyMaxIndex(ls);
    var m := t[idx].0;
    TallyOrder(ls, i, m);
    PosDistinct(t, idx);
    var j := Pos(Keys(t), ls[i]);
    assert Keys(t)[j] == t[j].0;
    TallyCounts(ls);
    GetAt(t, j);
  }

  /** `max_l` is a length some column has; no length is more common; and every length that
      appears before `max_l` first does is strictly less common (ties go to the first length seen). */
  lemma ModalLengthSpec(d: Table)
    requires d != []
    ensures var ls, m := Lengths(d), ModalLength(d);
      && m in ls
      && (forall l :: Count(ls, l) <= Count(ls, m))
      && (forall i :: 0 <= i < Pos(ls, m) ==> Count(ls, ls[i]) < Count(ls, m))
  {
    var ls := Lengths(d);
    assert ls != [];
    TallyMaxMost(ls, 0);
    forall l ensures Count(ls, l) <= Count(ls, ModalLength(d)) {
      TallyMaxMost(ls, l);
    }
    forall i | 0 <= i < Pos(ls, ModalLength(d)) ensures Count(ls, ls[i]) < Count(ls, ModalLength(d)) {
      TallyMaxFirst(ls, i);
    }
  }

  /** The kept columns are exactly the columns of `d` of length `l`, with their values, in order. */
  lemma {:induction false} KeepLengthSpec(d: Table, l: nat)
    ensures forall i :: 0 <= i < |KeepLength(d, l)| ==> |KeepLength(d, l)[i].1| == l
    ensures forall kv :: kv in KeepLength(d, l) <==> kv in d && |kv.1| == l
    ensures Distinct(d) ==> Distinct(KeepLength(d, l))
    ensures Distinct(d) ==> forall k ::
      Get(KeepLength(d, l), k) == if Get(d, k).Some? && |Get(d, k).value| == l then Get(d, k) else None
    decreases |d|
  {
    if d != [] {
      assert Distinct(d) ==> Distinct(d[1..]) by {
        if Distinct(d) {
          forall i, j | 0 <= i < j < |d| - 1 ensures d[1..][i].0 != d[1..][j].0 {
            assert d[1..][i] == d[i + 1] && d[1..][j] == d[j + 1];
          }
        }
      }
      KeepLengthSpec(d[1..], l);
      var rest := KeepLength(d[1..], l);
      assert d == [d[0]] + d[1..];
      if Distinct(d) {
        var r := KeepLength(d, l);
        forall i, j | 0 <= i < j < |r| ensures r[i].0 != r[j].0 {
          if |d[0].1| == l && i == 0 {
            assert r[j] in rest;
            var m :| 0 <= m < |d| - 1 && d[1..][m] == r[j];
          }
        }
        forall k ensures Get(r, k) == (if Get(d, k).Some? && |Get(d, k).value| == l then Get(d, k) else None) {
          KeepLengthGet(d, l, k);
        }
      }
    }
  }

  /** `idx` places the items of `r` at strictly increasing positions of `d`: `r` is `d` with
      some items left out, the rest in order. */
  predicate PlacesInOrder<T(==)>(idx: seq<nat>, r: seq<T>, d: seq<T>) {
    && |idx| == |r|
    && (forall i :: 0 <= i < |idx| ==> idx[i] < |d| && r[i] == d[idx[i]])
    && (forall i, j :: 0 <= i < j < |idx| ==> idx[i] < idx[j])
  }

  /** Positions in the tail, one up, place the same items inside `[x] + tail`. */
  lemma ShiftPlaces<T>(x: T, tail: seq<T>, k: seq<T>, rest: seq<nat>) returns (sh: seq<nat>)
    requires PlacesInOrder(rest, k, tail)
    ensures PlacesInOrder(sh, k, [x] + tail)
    ensures forall i :: 0 <= i < |sh| ==> sh[i] >= 1
  {
    var d := [x] + tail;
    sh := seq(|rest|, i requires 0 <= i < |rest| => rest[i] + 1);
    forall i | 0 <= i < |sh| ensures sh[i] < |d| && k[i] == d[sh[i]] {
      assert d[rest[i] + 1] == tail[rest[i]];
    }
  }

  /** Keeping the head too: its own position, then the shifted ones. */
  lemma ConsPlaces<T>(x: T, tail: seq<T>, k: seq<T>, sh: seq<nat>) returns (idx: seq<nat>)
    requires PlacesInOrder(sh, k, [x] + tail)
    requires forall i :: 0 <= i < |sh| ==> sh[i] >= 1
    ensures PlacesInOrder(idx, [x] + k, [x] + tail)
  {
    idx := [0] + sh;
    var r, d := [x] + k, [x] + tail;
    forall i | 0 <= i < |idx| ensures idx[i] < |d| && r[i] == d[idx[i]] {
      if i > 0 { assert idx[i] == sh[i - 1] && r[i] == k[i - 1]; }
    }
    forall i, j | 0 <= i < j < |idx| ensures idx[i] < idx[j] {
      assert idx[j] == sh[j - 1];
      if i > 0 { assert idx[i] == sh[i - 1]; }
    }
  }

  /** The kept columns come in their order in `d` (and `KeepLengthSpec` says every column of
      length `l` is among them). */
  lemma {:induction false} KeepLengthOrder(d: Table, l: nat) returns (idx: seq<nat>)
    ensures PlacesInOrder(idx, KeepLength(d, l), d)
    decreases |d|
  {
    if d != [] {
      var rest := KeepLengthOrder(d[1..], l);
      var k := KeepLength(d[1..], l);
      assert d == [d[0]] + d[1..];
      var sh := ShiftPlaces(d[0], d[1..], k, rest);
      if |d[0].1| == l {
        assert KeepLength(d, l) == [d[0]] + k;
        idx := ConsPlaces(d[0], d[1..], k, sh);
      } else {
        assert KeepLength(d, l) == k;
        idx := sh;
      }
    } else {
      idx := [];
    }
  }

  lemma KeepLengthGet(d: Table, l: nat, k: string)
    requires d != [] && Distinct(d) && Distinct(d[1..])
    requires forall k ::
      Get(KeepLength(d[1..], l), k) == if Get(d[1..], k).Some? && |Get(d[1..], k).value| == l then Get(d[1..], k) else None
    ensures Get(KeepLength(d, l), k) == (if Get(d, k).Some? && |Get(d, k).value| == l then Get(d, k) else None)
  {
    var rest := KeepLength(d[1..], l);
    var r := KeepLength(d, l);
    if |d[0].1| == l {
      assert r == [d[0]] + rest;
    } else {
      assert r == rest;
      if d[0].0 == k {
        DistinctTail(d);
        GetSpec(d[1..], k);
      }
    }
  }

  /** The three loops of the normalisation, and the comprehension that filters the columns. */
  method Normalize(d: Table) returns (norm: Table)
    ensures norm == KeepLength(d, ModalLength(d))
  {
    // klens: d is a dict, so its keys are distinct and klens lists them in d's order
    var klens: seq<(string, nat)> := [];
    var i := 0;
    while i < |d|
      invariant 0 <= i <= |d| && |klens| == i
      invariant forall j :: 0 <= j < i ==> klens[j] == (d[j].0, |d[j].1|)
    {
      klens := klens + [(d[i].0, |d[i].1|)];
      i := i + 1;
    }
    ghost var ls := Lengths(d);
    var lens: ODict<nat, nat> := [];
    i := 0;
    while i < |klens|
      invariant 0 <= i <= |klens|
      invariant lens == Tally(ls[..i])
    {
      assert ls[..i + 1][..i] == ls[..i];
      lens := Bump(lens, klens[i].1);
      i := i + 1;
    }
    assert ls[..|klens|] == ls;
    var maxL, maxC := 0, 0;
    i := 0;
    while i < |lens|
      invariant 0 <= i <= |lens|
      invariant (maxL, maxC) == MaxEntry(lens[..i])
    {
      assert lens[..i + 1][..i] == lens[..i];
      if lens[i].1 > maxC {
        maxL, maxC := lens[i].0, lens[i].1;
      }
      i := i + 1;
    }
    assert lens[..|lens|] == lens;
    norm := KeepLength(d, maxL);
  }

  /** The normalised table: every column has length `max_l`, which some column of `d` has, and
      its columns are exactly those of `d` with that length, values unchanged. */
  lemma NormalizeSpec(d: Table)
    requires d != [] && Distinct(d)
    ensures var m, norm := ModalLength(d), KeepLength(d, ModalLength(d));
      && norm != []
      && Distinct(norm)
      && (forall i :: 0 <= i < |norm| ==> |norm[i].1| == m)
      && (forall k :: Get(norm, k) == (if Get(d, k).Some? && |Get(d, k).value| == m then Get(d, k) else None))
  {
    var m := ModalLength(d);
    ModalLengthSpec(d);
    KeepLengthSpec(d, m);
    var i := Pos(Lengths(d), m);
    assert d[i] in d;
  }
}
