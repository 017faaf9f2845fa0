/**
  The few functions of Go's `strings` package that the znode mock and the
  metric renaming rely on, for a separator of one character.  A Go string is
  a sequence of bytes; here it is a sequence of characters, one per byte.
 */
module GoStrings {

  /** A run of `n` slashes. */
  function Slashes(n: nat): (s: string)
    ensures |s| == n && forall k :: 0 <= k < n ==> s[k] == '/'
  {
    seq(n, _ => '/')
  }

  /** `strings.TrimLeft(s, "/")`: drops every leading slash. */
  function TrimLeftSlashes(s: string): (r: string)
    ensures |r| <= |s| && r == s[|s| - |r|..]
    ensures r == [] || r[0] != '/'
    ensures forall k :: 0 <= k < |s| - |r| ==> s[k] == '/'
  {
    if s != [] && s[0] == '/' then TrimLeftSlashes(s[1..]) else s
  }

  /** `strings.TrimRight(s, "/")`: drops every trailing slash. */
  function TrimRightSlashes(s: string): (r: string)
    ensures |r| <= |s| && r == s[..|r|]
    ensures r == [] || r[|r| - 1] != '/'
    ensures forall k :: |r| <= k < |s| ==> s[k] == '/'
  {
    if s != [] && s[|s| - 1] == '/' then TrimRightSlashes(s[..|s| - 1]) else s
  }

  /** A string of nothing but slashes is a run of slashes. */
  lemma OnlySlashes(t: string)
    requires forall k :: 0 <= k < |t| ==> t[k] == '/'
    ensures t == Slashes(|t|)
  {
  }

  /**
    A suffix `l` of `s` after nothing but slashes, and a prefix `r` of `l`
    before nothing but slashes: `s` is `r` with a run of slashes on each side.
   */
  lemma SlashesAround(s: string, l: string, r: string)
    requires |l| <= |s| && l == s[|s| - |l|..] && forall k :: 0 <= k < |s| - |l| ==> s[k] == '/'
    requires |r| <= |l| && r == l[..|r|] && forall k :: |r| <= k < |l| ==> l[k] == '/'
    ensures s == Slashes(|s| - |l|) + r + Slashes(|l| - |r|)
  {
    var front, back := s[..|s| - |l|], l[|r|..];
    assert front == Slashes(|s| - |l|) by {
      OnlySlashes(front);
    }
    assert back == Slashes(|l| - |r|) by {
      OnlySlashes(back);
    }
    assert s == front + r + back by {
      assert s == front + l;
      assert l == r + back;
    }
  }

  /** `strings.Trim(s, "/")`: what is left once every leading and trailing slash is gone. */
  function Trim(s: string): (r: string)
    ensures |r| <= |s|
    ensures r == [] || (r[0] != '/' && r[|r| - 1] != '/')
    ensures exists i: nat, j: nat :: s == Slashes(i) + r + Slashes(j)
  {
    var l := TrimLeftSlashes(s);
    var r := TrimRightSlashes(l);
    SlashesAround(s, l, r);
    r
  }

  /** The position of the first `c` in `s`. */
  function FirstIndex(s: string, c: char): (i: nat)
    requires c in s
    ensures i < |s| && s[i] == c && c !in s[..i]
  {
    if s[0] == c then 0
    else
      var j := FirstIndex(s[1..], c);
      assert s[..j + 1] == [s[0]] + s[1..][..j];
      1 + j
  }

  /** The first `c` in `a + [c] + b` is the one after `a` when `a` has none. */
  lemma FirstIndexConcat(a: string, c: char, b: string)
    requires c !in a
    ensures c in a + [c] + b && FirstIndex(a + [c] + b, c) == |a|
  {
    var s := a + [c] + b;
    assert s[|a|] == c;
    assert s[..|a|] == a;
    var i := FirstIndex(s, c);
    assert i == |a|;
  }

  /** `strings.Split(s, sep)`: the pieces of `s` between consecutive separators. */
  function Split(s: string, sep: char): (parts: seq<string>)
    ensures |parts| >= 1
    ensures forall k :: 0 <= k < |parts| ==> sep !in parts[k]
    decreases |s|
  {
    if sep !in s then [s]
    else
      var i := FirstIndex(s, sep);
      [s[..i]] + Split(s[i + 1..], sep)
  }

  /**
    `strings.SplitN(s, sep, n)` for `n > 0`: at most `n` pieces, split at the
    first `n - 1` separators; the last piece keeps the rest of `s` unsplit.
   */
  function SplitN(s: string, sep: char, n: nat): (parts: seq<string>)
    requires n >= 1
    ensures 1 <= |parts| <= n
    ensures forall k :: 0 <= k < |parts| - 1 ==> sep !in parts[k]
    ensures |parts| < n ==> sep !in parts[|parts| - 1]
    ensures n > 1 && sep in s ==> |parts| >= 2
    decreases n
  {
    if n == 1 || sep !in s then [s]
    else
      var i := FirstIndex(s, sep);
      [s[..i]] + SplitN(s[i + 1..], sep, n - 1)
  }

  /**
    `strings.Join(parts, sep)`: a single piece is returned as it is; with more,
    the first piece comes first, followed by a separator.
   */
  function Join(parts: seq<string>, sep: char): (r: string)
    ensures |parts| == 1 ==> r == parts[0]
    ensures |parts| > 1 ==> parts[0] + [sep] <= r
  {
    if parts == [] then []
    else if |parts| == 1 then parts[0]
    else parts[0] + [sep] + Join(parts[1..], sep)
  }

  /** Joining a piece in front of at least one more puts one separator between them. */
  lemma JoinCons(x: string, parts: seq<string>, sep: char)
    requires parts != []
    ensures Join([x] + parts, sep) == x + [sep] + Join(parts, sep)
  {
    assert ([x] + parts)[1..] == parts;
  }

  /** Joining the pieces of `Split` with the same separator gives back the input. */
  lemma {:induction false} JoinSplit(s: string, sep: char)
    ensures Join(Split(s, sep), sep) == s
    decreases |s|
  {
    if sep in s {
      var i := FirstIndex(s, sep);
      var rest := Split(s[i + 1..], sep);
      assert Join(Split(s, sep), sep) == s[..i] + [sep] + Join(rest, sep) by {
        assert Split(s, sep) == [s[..i]] + rest;
        JoinCons(s[..i], rest, sep);
      }
      JoinSplit(s[i + 1..], sep);
      assert s == s[..i] + [sep] + s[i + 1..];
    }
  }

  /** Splitting a join of separator-free pieces gives back the pieces. */
  lemma {:induction false} SplitJoin(parts: seq<string>, sep: char)
    requires |parts| >= 1
    requires forall k :: 0 <= k < |parts| ==> sep !in parts[k]
    ensures Split(Join(parts, sep), sep) == parts
  {
    if |parts| > 1 {
      var s := Join(parts, sep);
      var rest := Join(parts[1..], sep);
      assert s == parts[0] + [sep] + rest;
      FirstIndexConcat(parts[0], sep, rest);
      assert s[..|parts[0]|] == parts[0];
      assert s[|parts[0]| + 1..] == rest;
      SplitJoin(parts[1..], sep);
    }
  }

  /** Joining the pieces of `SplitN` with the same separator gives back the input. */
  lemma {:induction false} JoinSplitN(s: string, sep: char, n: nat)
    requires n >= 1
    ensures Join(SplitN(s, sep, n), sep) == s
    decreases n
  {
    if n > 1 && sep in s {
      var i := FirstIndex(s, sep);
      var tail := SplitN(s[i + 1..], sep, n - 1);
      JoinSplitN(s[i + 1..], sep, n - 1);
      assert SplitN(s, sep, n) == [s[..i]] + tail;
      assert Join([s[..i]] + tail, sep) == s[..i] + [sep] + Join(tail, sep);
      assert s == s[..i] + [sep] + s[i + 1..];
    }
  }

  /** `SplitN` cuts at the first separator, which follows a separator-free prefix. */
  lemma SplitNConcat(a: string, sep: char, b: string, n: nat)
    requires n > 1 && sep !in a
    ensures SplitN(a + [sep] + b, sep, n) == [a] + SplitN(b, sep, n - 1)
  {
    var s := a + [sep] + b;
    FirstIndexConcat(a, sep, b);
    assert s[..|a|] == a;
    assert s[|a| + 1..] == b;
  }
  /** `SplitN` with room for three pieces or more cuts at the first two separators and goes on with the rest. */
  lemma SplitNTwoCuts(a: string, sep: char, b: string, c: string, n: nat)
    requires n > 2 && sep !in a && sep !in b
    ensures SplitN(a + [sep] + (b + [sep] + c), sep, n) == [a, b] + SplitN(c, sep, n - 2)
  {
    SplitNConcat(a, sep, b + [sep] + c, n);
    SplitNConcat(b, sep, c, n - 1);
  }


  /** Slashes in front of `s` make no difference to `strings.TrimLeft`. */
  lemma {:induction false} TrimLeftPrefix(a: nat, s: string)
    ensures TrimLeftSlashes(Slashes(a) + s) == TrimLeftSlashes(s)
  {
    if a > 0 {
      var x := Slashes(a) + s;
      assert x[0] == '/';
      assert x[1..] == Slashes(a - 1) + s;
      TrimLeftPrefix(a - 1, s);
      assert TrimLeftSlashes(x) == TrimLeftSlashes(x[1..]);
    } else {
      assert Slashes(a) + s == s;
    }
  }

  /** Slashes after `s` make no difference to `strings.TrimRight`. */
  lemma {:induction false} TrimRightSuffix(s: string, b: nat)
    ensures TrimRightSlashes(s + Slashes(b)) == TrimRightSlashes(s)
  {
    if b > 0 {
      var x := s + Slashes(b);
      assert x[|x| - 1] == '/';
      assert x[..|x| - 1] == s + Slashes(b - 1);
      TrimRightSuffix(s, b - 1);
      assert TrimRightSlashes(x) == TrimRightSlashes(x[..|x| - 1]);
    } else {
      assert s + Slashes(b) == s;
    }
  }

  /** Trimming the left of `s + t` keeps `t` whole when `s` holds more than slashes. */
  lemma {:induction false} TrimLeftAppend(s: string, t: string)
    ensures TrimLeftSlashes(s) != [] ==> TrimLeftSlashes(s + t) == TrimLeftSlashes(s) + t
    ensures TrimLeftSlashes(s) == [] ==> TrimLeftSlashes(s + t) == TrimLeftSlashes(t)
  {
    if s != [] {
      assert (s + t)[0] == s[0];
      if s[0] == '/' {
        assert (s + t)[1..] == s[1..] + t;
        TrimLeftAppend(s[1..], t);
      }
    } else {
      assert s + t == t;
    }
  }

  /**
    Paths that differ only in their leading and trailing slashes trim to the
    same text, so every znode operation treats them alike.
   */
  lemma TrimOuterSlashes(a: nat, s: string, b: nat)
    ensures Trim(Slashes(a) + s + Slashes(b)) == Trim(s)
  {
    assert Slashes(a) + s + Slashes(b) == Slashes(a) + (s + Slashes(b));
    TrimLeftPrefix(a, s + Slashes(b));
    TrimLeftAppend(s, Slashes(b));
    if TrimLeftSlashes(s) != [] {
      TrimRightSuffix(TrimLeftSlashes(s), b);
    } else {
      assert Slashes(b) == Slashes(b) + [];
      TrimLeftPrefix(b, []);
    }
  }
}
