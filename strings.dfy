/** The Python string operations the plugin uses: startswith, `in`, split, join, replace and strip. */
module Strings {

  predicate StartsWith(s: string, p: string) {
    |p| <= |s| && s[..|p|] == p
  }

  /** Python `p in s`: `p` occurs somewhere in `s`. */
  predicate Contains(s: string, p: string)
    decreases |s|
  {
    StartsWith(s, p) || (s != [] && Contains(s[1..], p))
  }

  /** Python `s.split(sep)`: the pieces between the occurrences of `sep` found scanning left to right. */
  function Split(s: string, sep: string): (r: seq<string>)
    requires sep != []
    ensures |r| >= 1
    decreases |s|
  {
    if StartsWith(s, sep) then [""] + Split(s[|sep|..], sep)
    else if s == [] then [""]
    else
      var rest := Split(s[1..], sep);
      [[s[0]] + rest[0]] + rest[1..]
  }

  /** Python `sep.join(pieces)`. */
  function Join(pieces: seq<string>, sep: string): string
  {
    if |pieces| == 0 then ""
    else if |pieces| == 1 then pieces[0]
    else pieces[0] + sep + Join(pieces[1..], sep)
  }

  /** Python `s.split(sep)[-1]`. */
  function LastPiece(s: string, sep: string): string
    requires sep != []
  {
    var ps := Split(s, sep);
    ps[|ps| - 1]
  }

  /** Python `s.replace(p, '')`: every occurrence of `p` found scanning left to right is removed. */
  function RemoveAll(s: string, p: string): string
    requires p != []
    decreases |s|
  {
    if StartsWith(s, p) then RemoveAll(s[|p|..], p)
    else if s == [] then []
    else [s[0]] + RemoveAll(s[1..], p)
  }

  /** Python `str.isspace` on one character. */
  predicate IsSpace(c: char) {
    var n := c as int;
    || 0x09 <= n <= 0x0D || 0x1C <= n <= 0x20 || n == 0x85 || n == 0xA0 || n == 0x1680
    || 0x2000 <= n <= 0x200A || n == 0x2028 || n == 0x2029 || n == 0x202F || n == 0x205F || n == 0x3000
  }

  /** Python `s.rstrip()`. */
  function RStrip(s: string): string
    decreases |s|
  {
    if s != [] && IsSpace(s[|s| - 1]) then RStrip(s[..|s| - 1]) else s
  }

  /** Python `s.lstrip()`. */
  function LStrip(s: string): string
    decreases |s|
  {
    if s != [] && IsSpace(s[0]) then LStrip(s[1..]) else s
  }

  lemma {:induction false} JoinCons(x: string, y: string, t: seq<string>, sep: string)
    ensures Join([x + y] + t, sep) == x + Join([y] + t, sep)
  {
    if |t| > 0 {
      assert ([x + y] + t)[1..] == t;
      assert ([y] + t)[1..] == t;
    }
  }

  lemma {:induction false} JoinSnoc(ps: seq<string>, sep: string)
    requires |ps| > 1
    ensures Join(ps, sep) == Join(ps[..|ps| - 1], sep) + sep + ps[|ps| - 1]
    decreases |ps|
  {
    if |ps| > 2 {
      JoinSnoc(ps[1..], sep);
      assert ps[1..][..|ps| - 2] == ps[..|ps| - 1][1..];
    }
  }

  lemma JoinHead(x: string, rest: seq<string>, sep: string)
    requires rest != []
    ensures Join([x] + rest, sep) == x + sep + Join(rest, sep)
  {
    assert ([x] + rest)[1..] == rest;
  }

  lemma JoinAfterSep(s: string, sep: string, rest: seq<string>)
    requires StartsWith(s, sep) && rest != [] && Join(rest, sep) == s[|sep|..]
    ensures Join([""] + rest, sep) == s
  {
    var t := s[|sep|..];
    assert ([""] + rest)[1..] == rest;
    assert Join([""] + rest, sep) == "" + sep + t;
    assert "" + sep + t == sep + t;
    assert s == s[..|sep|] + t;
  }

  lemma SplitJoinAtSep(s: string, sep: string)
    requires sep != [] && StartsWith(s, sep)
    requires Join(Split(s[|sep|..], sep), sep) == s[|sep|..]
    ensures Join(Split(s, sep), sep) == s
  {
    JoinAfterSep(s, sep, Split(s[|sep|..], sep));
  }

  lemma SplitJoinAtChar(s: string, sep: string)
    requires sep != [] && !StartsWith(s, sep) && s != []
    requires Join(Split(s[1..], sep), sep) == s[1..]
    ensures Join(Split(s, sep), sep) == s
  {
    var rest := Split(s[1..], sep);
    assert Split(s, sep) == [[s[0]] + rest[0]] + rest[1..];
    assert rest == [rest[0]] + rest[1..];
    JoinCons([s[0]], rest[0], rest[1..], sep);
    assert s == [s[0]] + s[1..];
  }

  /** Splitting and joining with the same separator gives the string back. */
  lemma {:induction false} SplitJoin(s: string, sep: string)
    requires sep != []
    ensures Join(Split(s, sep), sep) == s
    decreases |s|
  {
    if StartsWith(s, sep) {
      SplitJoin(s[|sep|..], sep);
      SplitJoinAtSep(s, sep);
    } else if s != [] {
      SplitJoin(s[1..], sep);
      SplitJoinAtChar(s, sep);
    }
  }

  lemma {:induction false} ContainsLonger(a: string, p: string)
    requires Contains(a, p)
    ensures |p| <= |a|
    decreases |a|
  {
    if !StartsWith(a, p) {
      ContainsLonger(a[1..], p);
    }
  }

  /** A prefix of a string that does not start with `sep` does not start with it either. */
  lemma PrefixNotStarting(h: string, t: string, sep: string)
    requires !StartsWith(h + t, sep)
    ensures !StartsWith(h, sep)
  {
    if |sep| <= |h| {
      assert (h + t)[..|sep|] == h[..|sep|];
    }
  }

  /** The first piece of a split is a prefix of the string. */
  lemma FirstPiecePrefix(s: string, sep: string)
    requires sep != []
    ensures var r := Split(s, sep); s == r[0] + Join([""] + r[1..], sep)
  {
    var r := Split(s, sep);
    SplitJoin(s, sep);
    assert r == [r[0]] + r[1..];
    JoinCons(r[0], "", r[1..], sep);
    assert r[0] + "" == r[0];
  }

  lemma NotContainsCons(c: char, x: string, sep: string)
    requires !StartsWith([c] + x, sep) && !Contains(x, sep)
    ensures !Contains([c] + x, sep)
  {
    assert ([c] + x)[1..] == x;
  }

  /** When `s` does not start with `sep`, neither does the first piece of its split. */
  lemma FirstPieceNotStarting(s: string, sep: string)
    requires sep != [] && !StartsWith(s, sep) && s != []
    ensures !StartsWith([s[0]] + Split(s[1..], sep)[0], sep)
  {
    var rest := Split(s[1..], sep);
    var h := [s[0]] + rest[0];
    FirstPiecePrefix(s[1..], sep);
    var t := Join([""] + rest[1..], sep);
    assert s == [s[0]] + s[1..];
    assert s == h + t;
    PrefixNotStarting(h, t, sep);
  }

  lemma PiecesFreeCons(h: string, rest: seq<string>, sep: string)
    requires rest != [] && !Contains(h, sep)
    requires forall i :: 0 <= i < |rest| ==> !Contains(rest[i], sep)
    ensures forall i :: 0 <= i < |[h] + rest[1..]| ==> !Contains(([h] + rest[1..])[i], sep)
  {
    var r := [h] + rest[1..];
    forall i | 0 <= i < |r| ensures !Contains(r[i], sep) {
      if i > 0 { assert r[i] == rest[i]; }
    }
  }

  lemma SplitPiecesFreeAtChar(s: string, sep: string)
    requires sep != [] && !StartsWith(s, sep) && s != []
    requires forall i :: 0 <= i < |Split(s[1..], sep)| ==> !Contains(Split(s[1..], sep)[i], sep)
    ensures forall i :: 0 <= i < |Split(s, sep)| ==> !Contains(Split(s, sep)[i], sep)
  {
    var rest := Split(s[1..], sep);
    assert Split(s, sep) == [[s[0]] + rest[0]] + rest[1..];
    FirstPieceNotStarting(s, sep);
    NotContainsCons(s[0], rest[0], sep);
    PiecesFreeCons([s[0]] + rest[0], rest, sep);
  }

  /** No piece of a split contains the separator. */
  lemma {:induction false} SplitPiecesFree(s: string, sep: string)
    requires sep != []
    ensures forall i :: 0 <= i < |Split(s, sep)| ==> !Contains(Split(s, sep)[i], sep)
    decreases |s|
  {
    var r := Split(s, sep);
    if StartsWith(s, sep) {
      SplitPiecesFree(s[|sep|..], sep);
      assert !Contains("", sep);
      forall i | 0 <= i < |r| ensures !Contains(r[i], sep) {
        if i > 0 { assert r[i] == Split(s[|sep|..], sep)[i - 1]; }
      }
    } else if s == [] {
      assert !Contains("", sep);
    } else {
      SplitPiecesFree(s[1..], sep);
      SplitPiecesFreeAtChar(s, sep);
    }
  }

  /** `s.split(sep)[-1]` holds no separator, ends `s`, and is either all of `s` or follows an occurrence of `sep`. */
  lemma LastPieceSpec(s: string, sep: string)
    requires sep != []
    ensures var t := LastPiece(s, sep);
      && !Contains(t, sep)
      && |t| <= |s| && s[|s| - |t|..] == t
      && (|t| == |s| || (|sep| <= |s| - |t| && s[|s| - |t| - |sep|..|s| - |t|] == sep))
  {
    var ps := Split(s, sep);
    SplitPiecesFree(s, sep);
    SplitJoin(s, sep);
    if |ps| > 1 {
      JoinSnoc(ps, sep);
      var pre := Join(ps[..|ps| - 1], sep);
      assert s == pre + sep + ps[|ps| - 1];
    }
  }

  /** Python's `s.replace(p, '')` equals `''.join(s.split(p))`. */
  lemma {:induction false} RemoveAllIsJoinSplit(s: string, p: string)
    requires p != []
    ensures RemoveAll(s, p) == Join(Split(s, p), "")
    decreases |s|
  {
    if StartsWith(s, p) {
      RemoveAllIsJoinSplit(s[|p|..], p);
      var rest := Split(s[|p|..], p);
      assert ([""] + rest)[1..] == rest;
    } else if s == [] {
    } else {
      RemoveAllIsJoinSplit(s[1..], p);
      var rest := Split(s[1..], p);
      assert rest == [rest[0]] + rest[1..];
      JoinCons([s[0]], rest[0], rest[1..], "");
    }
  }

  /** Removing a pattern that does not occur leaves the string alone. */
  lemma {:induction false} RemoveAllAbsent(s: string, p: string)
    requires p != [] && !Contains(s, p)
    ensures RemoveAll(s, p) == s
    decreases |s|
  {
    if s != [] {
      RemoveAllAbsent(s[1..], p);
    }
  }

  /** `s.rstrip()` is a prefix of `s`, everything it drops is whitespace, and it does not end in whitespace. */
  lemma {:induction false} RStripSpec(s: string)
    ensures var r := RStrip(s);
      && |r| <= |s| && s[..|r|] == r
      && (forall i :: |r| <= i < |s| ==> IsSpace(s[i]))
      && (r == [] || !IsSpace(r[|r| - 1]))
    decreases |s|
  {
    if s != [] && IsSpace(s[|s| - 1]) {
      RStripSpec(s[..|s| - 1]);
    }
  }

  /** `s.lstrip()` is a suffix of `s`, everything it drops is whitespace, and it does not start with whitespace. */
  lemma {:induction false} LStripSpec(s: string)
    ensures var r := LStrip(s);
      && |r| <= |s| && s[|s| - |r|..] == r
      && (forall i :: 0 <= i < |s| - |r| ==> IsSpace(s[i]))
      && (r == [] || !IsSpace(r[0]))
    decreases |s|
  {
    if s != [] && IsSpace(s[0]) {
      LStripSpec(s[1..]);
    }
  }
}
