/** Python dicts: a sequence of items in insertion order, looked up by key. */
module Dicts {
  import opened Wrappers

  type ODict<K, V> = seq<(K, V)>

  function Keys<K, V>(d: ODict<K, V>): seq<K> {
    seq(|d|, i requires 0 <= i < |d| => d[i].0)
  }

  /** No key occurs twice (the shape of every Python dict). */
  predicate Distinct<K(==), V>(d: ODict<K, V>) {
    forall i, j :: 0 <= i < j < |d| ==> d[i].0 != d[j].0
  }

  /** `d.get(k)`: the value stored under `k`, if any. */
  function Get<K(==), V>(d: ODict<K, V>, k: K): Option<V> {
    if d == [] then None
    else if d[0].0 == k then Some(d[0].1)
    else Get(d[1..], k)
  }

  /** `d.get(k, default)`. */
  function GetOr<K(==), V>(d: ODict<K, V>, k: K, default: V): V {
    match Get(d, k)
    case Some(v) => v
    case None => default
  }

  predicate HasKey<K(==), V>(d: ODict<K, V>, k: K) {
    k in Keys(d)
  }

  /** `d[k] = v`: an existing key keeps its position, a new one goes last. */
  function Put<K(==), V>(d: ODict<K, V>, k: K, v: V): ODict<K, V> {
    if d == [] then [(k, v)]
    else if d[0].0 == k then [(k, v)] + d[1..]
    else [d[0]] + Put(d[1..], k, v)
  }

  /** The first index at which `x` occurs in `s`. */
  function Pos<T(==)>(s: seq<T>, x: T): (i: nat)
    requires x in s
    ensures i < |s| && s[i] == x && forall j :: 0 <= j < i ==> s[j] != x
  {
    if s[0] == x then 0 else 1 + Pos(s[1..], x)
  }

  lemma {:induction false} GetSpec<K, V>(d: ODict<K, V>, k: K)
    ensures Get(d, k).Some? <==> HasKey(d, k)
    ensures Get(d, k).Some? ==> (k, Get(d, k).value) in d
    decreases |d|
  {
    if d != [] {
      assert Keys(d) == [d[0].0] + Keys(d[1..]);
      if d[0].0 != k {
        GetSpec(d[1..], k);
      }
    }
  }

  lemma {:induction false} GetAt<K, V>(d: ODict<K, V>, i: nat)
    requires Distinct(d) && i < |d|
    ensures Get(d, d[i].0) == Some(d[i].1)
    decreases i
  {
    if i > 0 {
      GetAt(d[1..], i - 1);
    }
  }

  /** The tail of a dict with distinct keys has distinct keys and lacks the head's key. */
  lemma DistinctTail<K, V>(d: ODict<K, V>)
    requires d != [] && Distinct(d)
    ensures Distinct(d[1..]) && !HasKey(d[1..], d[0].0)
  {
    forall m | 0 <= m < |d| - 1 ensures Keys(d[1..])[m] != d[0].0 {
      assert d[m + 1].0 == Keys(d[1..])[m];
    }
  }

  lemma {:induction false} PutGet<K, V>(d: ODict<K, V>, k: K, v: V)
    ensures Get(Put(d, k, v), k) == Some(v)
    ensures forall k' :: k' != k ==> Get(Put(d, k, v), k') == Get(d, k')
    decreases |d|
  {
    if d != [] && d[0].0 != k {
      PutGet(d[1..], k, v);
    }
  }

  lemma KeysPrepend<K, V>(x: (K, V), d: ODict<K, V>)
    ensures Keys([x] + d) == [x.0] + Keys(d)
  {
  }

  lemma {:induction false} PutKeys<K, V>(d: ODict<K, V>, k: K, v: V)
    ensures Keys(Put(d, k, v)) == if HasKey(d, k) then Keys(d) else Keys(d) + [k]
    decreases |d|
  {
    if d != [] {
      KeysPrepend(d[0], d[1..]);
      assert d == [d[0]] + d[1..];
      if d[0].0 != k {
        PutKeys(d[1..], k, v);
        KeysPrepend(d[0], Put(d[1..], k, v));
      } else {
        KeysPrepend((k, v), d[1..]);
      }
    }
  }

  lemma {:induction false} PutElems<K, V>(d: ODict<K, V>, k: K, v: V)
    ensures forall e :: e in Put(d, k, v) ==> e in d || e == (k, v)
    decreases |d|
  {
    if d != [] && d[0].0 != k {
      PutElems(d[1..], k, v);
    }
  }

  lemma {:induction false} PutDistinct<K, V>(d: ODict<K, V>, k: K, v: V)
    requires Distinct(d)
    ensures Distinct(Put(d, k, v))
    decreases |d|
  {
    if d != [] {
      DistinctTail(d);
      if d[0].0 != k {
        PutDistinct(d[1..], k, v);
        var q := Put(d[1..], k, v);
        PutKeys(d[1..], k, v);
        assert !(d[0].0 in Keys(q));
        var p := Put(d, k, v);
        assert p == [d[0]] + q;
        forall i, j | 0 <= i < j < |p| ensures p[i].0 != p[j].0 {
          if i == 0 {
            assert p[j] == q[j - 1];
            assert Keys(q)[j - 1] == p[j].0;
          } else {
            assert p[i] == q[i - 1] && p[j] == q[j - 1];
          }
        }
      } else {
        var p := Put(d, k, v);
        forall i, j | 0 <= i < j < |p| ensures p[i].0 != p[j].0 {
          assert p[j].0 == d[j].0;
          if i > 0 {
            assert p[i].0 == d[i].0;
          }
        }
      }
    }
  }

  /** What `d[k] = v` does: `k` now maps to `v`, every other lookup is unchanged, keys stay distinct. */
  lemma PutSpec<K, V>(d: ODict<K, V>, k: K, v: V)
    ensures Get(Put(d, k, v), k) == Some(v)
    ensures forall k' :: k' != k ==> Get(Put(d, k, v), k') == Get(d, k')
    ensures Keys(Put(d, k, v)) == if HasKey(d, k) then Keys(d) else Keys(d) + [k]
    ensures Distinct(d) ==> Distinct(Put(d, k, v))
    ensures forall e :: e in Put(d, k, v) ==> e in d || e == (k, v)
  {
    PutGet(d, k, v);
    PutKeys(d, k, v);
    PutElems(d, k, v);
    if Distinct(d) {
      PutDistinct(d, k, v);
    }
  }

  /** In a dict, writing an existing key replaces its item in place. */
  lemma {:induction false} PutAt<K, V>(d: ODict<K, V>, i: nat, v: V)
    requires Distinct(d) && i < |d|
    ensures Put(d, d[i].0, v) == d[i := (d[i].0, v)]
    decreases i
  {
    var k := d[i].0;
    if i > 0 {
      DistinctTail(d);
      assert d[1..][i - 1] == d[i];
      PutAt(d[1..], i - 1, v);
      assert d[0].0 != k;
      assert Put(d, k, v) == [d[0]] + d[1..][i - 1 := (k, v)];
      assert [d[0]] + d[1..][i - 1 := (k, v)] == d[i := (k, v)];
    } else {
      assert Put(d, k, v) == [(k, v)] + d[1..];
    }
  }

  /** Writing a new key appends an item. */
  lemma {:induction false} PutNew<K, V>(d: ODict<K, V>, k: K, v: V)
    requires !HasKey(d, k)
    ensures Put(d, k, v) == d + [(k, v)]
    decreases |d|
  {
    if d != [] {
      assert Keys(d) == [d[0].0] + Keys(d[1..]);
      PutNew(d[1..], k, v);
    }
  }

  lemma PosAppend<T>(s: seq<T>, t: seq<T>, x: T)
    requires x in s
    ensures x in s + t && Pos(s + t, x) == Pos(s, x)
  {
    var i := Pos(s, x);
    assert (s + t)[i] == x;
  }

  lemma PosLast<T>(s: seq<T>, x: T)
    requires x !in s
    ensures x in s + [x] && Pos(s + [x], x) == |s|
  {
    assert (s + [x])[|s|] == x;
  }

  lemma PosDistinct<K, V>(d: ODict<K, V>, i: nat)
    requires Distinct(d) && i < |d|
    ensures d[i].0 in Keys(d) && Pos(Keys(d), d[i].0) == i
  {
    assert Keys(d)[i] == d[i].0;
  }
}
