/**
  The in-memory ZooKeeper mock (`Mock` of kafkazk): a map of top-level znodes
  that its methods walk and update, plus the two of its canned cluster queries
  that hold logic, the topic pattern union and the broker metrics merge.
 */
module ZooKeeperMock {
  import opened GoStrings
  import opened Znode

  /** errNotExist, "znode doesn't exist": the only error the mock returns. */
  datatype Error = NotExist

  /** A Go `(value, error)` pair: Ok when the error is nil. */
  datatype Result<T> = Ok(value: T) | Err(error: Error)

  /** No element of `s` occurs twice. */
  predicate Distinct<T(==)>(s: seq<T>)
  {
    forall i, j :: 0 <= i < j < |s| ==> s[i] != s[j]
  }

  /**
    The segments every operation walks: `p` without its leading and trailing
    slashes, cut at each remaining slash.  There is always at least one, and
    empty ones (from "a//b", or "" for "/") are kept.
   */
  function Segments(p: string): (segs: seq<string>)
    ensures |segs| >= 1
    ensures forall k :: 0 <= k < |segs| ==> '/' !in segs[k]
    ensures Join(segs, '/') == Trim(p)
  {
    JoinSplit(Trim(p), '/');
    Split(Trim(p), '/')
  }

  /** Paths that differ only in leading and trailing slashes name the same znode. */
  lemma SegmentsIgnoreOuterSlashes(a: nat, p: string, b: nat)
    ensures Segments(Slashes(a) + p + Slashes(b)) == Segments(p)
  {
    TrimOuterSlashes(a, p, b);
  }

  /**
    Round trip of Set and Get: once `d` is written at `p`, the znode at any
    spelling `q` of the same path holds exactly `d`.
   */
  lemma SetThenGet(m: Tree, p: string, d: string, a: nat, b: nat)
    ensures var q := Slashes(a) + p + Slashes(b);
      Lookup(Write(m, Segments(p), d), Segments(q)).Some? &&
      Lookup(Write(m, Segments(p), d), Segments(q)).value.value == d
  {
    SegmentsIgnoreOuterSlashes(a, p, b);
    WriteTarget(m, Segments(p), d);
  }

  /**
    The keys of `m`, each exactly once, in whichever order the loop happens to
    visit them (a Go range over a map has no fixed order).
   */
  method Keys<V>(m: map<string, V>) returns (ks: seq<string>)
    ensures Distinct(ks)
    ensures forall k :: k in ks <==> k in m
  {
    ks := [];
    var rest := m.Keys;
    while rest != {}
      invariant rest <= m.Keys
      invariant forall k :: k in ks <==> k in m && k !in rest
      invariant Distinct(ks)
      decreases rest
    {
      var k :| k in rest;
      ks := ks + [k];
      rest := rest - {k};
    }
  }

  /** The first step of a walk over `path`: the top-level node named by its first segment. */
  lemma LookupFirst(m: Tree, path: seq<string>)
    requires path != []
    ensures Lookup(m, path[..1]) == if path[0] in m then Some(m[path[0]]) else None
  {
  }

  /** Step `i` of a walk over `path` that stops at a missing segment. */
  lemma LookupNext(m: Tree, path: seq<string>, i: nat)
    requires 0 < i < |path|
    ensures Lookup(m, path[..i + 1]) ==
      if Lookup(m, path[..i]).Some? && path[i] in Lookup(m, path[..i]).value.children
      then Some(Lookup(m, path[..i]).value.children[path[i]]) else None
  {
    assert path[..i + 1] == path[..i] + [path[i]];
    WalkStep(m, path[..i], path[i]);
  }

  /** Step `i` of a walk over `path` that creates what is missing. */
  lemma ReachNext(m: Tree, path: seq<string>, i: nat)
    requires 0 < i < |path|
    ensures Reach(m, path[..i + 1]) == Child(Reach(m, path[..i]).children, path[i])
  {
    assert Parent(path[..i + 1]) == path[..i] && Last(path[..i + 1]) == path[i];
    ReachStep(m, path[..i + 1]);
    MapAtReach(m, path[..i]);
  }

  /**
    At the end of a walk that recorded the node at each prefix of `path`, the
    last node is the one at `path`, and the map it sits in is the top-level
    map or the children of the node before it.
   */
  lemma TrailEnd(m: Tree, path: seq<string>, trail: seq<Node>)
    requires path != [] && |trail| == |path|
    requires forall k :: 0 <= k < |path| ==> trail[k] == Reach(m, path[..k + 1])
    ensures trail[|path| - 1] == Reach(m, path)
    ensures (if |path| == 1 then m else trail[|path| - 2].children) == MapAt(m, Parent(path))
  {
    var n := |path| - 1;
    assert path[..n + 1] == path;
    if n > 0 {
      MapAtReach(m, path[..n]);
    } else {
      assert Parent(path) == [];
    }
  }

  /**
    Makes the nodes rebuilt by a walk visible from the top: `sub` becomes the
    children of the node at `path`, whose ancestors the walk recorded in
    `trail`, and each ancestor is linked back into its parent, bottom-up.  With
    shared mutable nodes this is implicit; with nodes as values it is this loop.
   */
  method Relink(m: Tree, path: seq<string>, n: nat, trail: seq<Node>, sub: Tree) returns (r: Tree)
    requires n <= |path| && n <= |trail|
    requires forall k :: 0 <= k < n ==> trail[k] == Reach(m, path[..k + 1])
    ensures r == Graft(m, path[..n], sub)
  {
    r := sub;
    var j := n;
    while j > 0
      invariant 0 <= j <= n
      invariant r == Graft(MapAt(m, path[..j]), path[j..n], sub)
    {
      j := j - 1;
      var level := if j == 0 then m else trail[j - 1].children;
      if j > 0 {
        MapAtReach(m, path[..j]);
      }
      assert Parent(path[..j + 1]) == path[..j] && Last(path[..j + 1]) == path[j];
      ReachStep(m, path[..j + 1]);
      MapAtReach(m, path[..j + 1]);
      assert path[j..n][1..] == path[j + 1..n];
      r := level[path[j] := trail[j].(children := r)];
    }
    assert path[0..n] == path[..n];
  }

  /** The tree Set leaves: the last node of the walk, rewritten, put among its siblings. */
  lemma WriteBySiblings(m: Tree, path: seq<string>, siblings: Tree, n: Node, d: string)
    requires path != [] && siblings == MapAt(m, Parent(path)) && n == Reach(m, path)
    ensures Write(m, path, d) ==
      Graft(m, Parent(path), siblings[Last(path) := n.(value := d, version := n.version + 1)])
  {
  }

  /** The tree NextInt leaves: the last node of the walk, one version up, put among its siblings. */
  lemma BumpBySiblings(m: Tree, path: seq<string>, siblings: Tree, n: Node)
    requires Lookup(m, path).Some? && siblings == MapAt(m, Parent(path)) && n == Reach(m, path)
    ensures Bump(m, path) == Graft(m, Parent(path), siblings[Last(path) := n.(version := n.version + 1)])
  {
  }

  /** The tree Delete leaves: the last node of the walk taken out of its siblings. */
  lemma UnlinkBySiblings(m: Tree, path: seq<string>, siblings: Tree)
    requires Lookup(m, path).Some? && siblings == MapAt(m, Parent(path))
    ensures Unlink(m, path) == Graft(m, Parent(path), siblings - {Last(path)})
  {
  }

  /**
    The walk of Set over `paths`: each missing node on the way is created empty
    with version 0, the last one takes `d` and one more version, and the
    rebuilt nodes are linked back up to the top.
   */
  method WriteWalk(m: Tree, paths: seq<string>, d: string) returns (r: Tree)
    requires paths != []
    ensures r == Write(m, paths, d)
  {
    var current := Child(m, paths[0]);
    assert current == Reach(m, paths[..1]) by {
      LookupFirst(m, paths);
    }
    var trail := [current];
    for i := 1 to |paths|
      invariant |trail| == i && current == trail[i - 1]
      invariant forall k :: 0 <= k < i ==> trail[k] == Reach(m, paths[..k + 1])
    {
      assert Child(current.children, paths[i]) == Reach(m, paths[..i + 1]) by {
        ReachNext(m, paths, i);
      }
      current := Child(current.children, paths[i]);
      trail := trail + [current];
    }
    var n := |paths| - 1;
    var siblings := if n == 0 then m else trail[n - 1].children;
    var updated := current.(value := d, version := current.version + 1);
    assert Write(m, paths, d) == Graft(m, paths[..n], siblings[paths[n] := updated]) by {
      TrailEnd(m, paths, trail);
      WriteBySiblings(m, paths, siblings, current, d);
    }
    r := Relink(m, paths, n, trail, siblings[paths[n] := updated]);
  }

  /**
    The walk of NextInt over `paths`: NotExist, and `m` as it was, at the first
    missing segment; otherwise the version the last node had, and the tree in
    which that version is one higher.
   */
  method BumpWalk(m: Tree, paths: seq<string>) returns (r: Result<int>, m': Tree)
    requires paths != []
    ensures Lookup(m, paths).None? ==> r == Err(NotExist) && m' == m
    ensures Lookup(m, paths).Some? ==> r == Ok(Lookup(m, paths).value.version) && m' == Bump(m, paths)
  {
    if paths[0] !in m {
      assert Lookup(m, paths).None? by {
        LookupFirst(m, paths);
        LookupPrefixMissing(m, paths, 1);
      }
      return Err(NotExist), m;
    }
    var current := m[paths[0]];
    assert Lookup(m, paths[..1]) == Some(current) by {
      LookupFirst(m, paths);
    }
    var trail := [current];
    for i := 1 to |paths|
      invariant Lookup(m, paths[..i]) == Some(current)
      invariant |trail| == i && current == trail[i - 1]
      invariant forall k :: 0 <= k < i ==> trail[k] == Reach(m, paths[..k + 1])
    {
      if paths[i] !in current.children {
        assert Lookup(m, paths).None? by {
          LookupNext(m, paths, i);
          LookupPrefixMissing(m, paths, i + 1);
        }
        return Err(NotExist), m;
      }
      assert Lookup(m, paths[..i + 1]) == Some(current.children[paths[i]]) by {
        LookupNext(m, paths, i);
      }
      current := current.children[paths[i]];
      trail := trail + [current];
    }
    var n := |paths| - 1;
    var siblings := if n == 0 then m else trail[n - 1].children;
    var updated := current.(version := current.version + 1);
    assert Lookup(m, paths) == Some(current) && Bump(m, paths) == Graft(m, paths[..n], siblings[paths[n] := updated]) by {
      assert paths[..n + 1] == paths;
      TrailEnd(m, paths, trail);
      BumpBySiblings(m, paths, siblings, current);
    }
    m' := Relink(m, paths, n, trail, siblings[paths[n] := updated]);
    r := Ok(current.version);
  }

  /**
    The walk of Delete over `paths`: NotExist, and `m` as it was, at the first
    missing segment; otherwise the tree without the last node, except that a
    single segment is never unlinked.
   */
  method UnlinkWalk(m: Tree, paths: seq<string>) returns (r: Result<()>, m': Tree)
    requires paths != []
    ensures Lookup(m, paths).None? ==> r == Err(NotExist) && m' == m
    ensures Lookup(m, paths).Some? ==> r == Ok(()) && m' == if |paths| == 1 then m else Unlink(m, paths)
  {
    if paths[0] !in m {
      assert Lookup(m, paths).None? by {
        LookupFirst(m, paths);
        LookupPrefixMissing(m, paths, 1);
      }
      return Err(NotExist), m;
    }
    var current := m[paths[0]];
    assert Lookup(m, paths[..1]) == Some(current) by {
      LookupFirst(m, paths);
    }
    var trail := [current];
    for i := 1 to |paths|
      invariant Lookup(m, paths[..i]) == Some(current)
      invariant |trail| == i && current == trail[i - 1]
      invariant forall k :: 0 <= k < i ==> trail[k] == Reach(m, paths[..k + 1])
      invariant |paths| == 1 || i < |paths|
    {
      if paths[i] !in current.children {
        assert Lookup(m, paths).None? by {
          LookupNext(m, paths, i);
          LookupPrefixMissing(m, paths, i + 1);
        }
        return Err(NotExist), m;
      }
      assert Lookup(m, paths[..i + 1]) == Some(current.children[paths[i]]) by {
        LookupNext(m, paths, i);
      }
      if i == |paths| - 1 {
        assert Lookup(m, paths).Some? && Unlink(m, paths) == Graft(m, paths[..i], current.children - {paths[i]}) by {
          assert paths[..i + 1] == paths;
          MapAtReach(m, paths[..i]);
          UnlinkBySiblings(m, paths, current.children);
        }
        m' := Relink(m, paths, i, trail, current.children - {paths[i]});
        return Ok(()), m';
      }
      current := current.children[paths[i]];
      trail := trail + [current];
    }
    assert paths[..1] == paths;
    return Ok(()), m;
  }

  /** The walk of Get over `paths`: the data of the node it names, or NotExist at the first missing segment. */
  method GetWalk(m: Tree, paths: seq<string>) returns (r: Result<string>)
    requires paths != []
    ensures Lookup(m, paths).None? ==> r == Err(NotExist)
    ensures Lookup(m, paths).Some? ==> r == Ok(Lookup(m, paths).value.value)
  {
    if paths[0] !in m {
      assert Lookup(m, paths).None? by {
        LookupFirst(m, paths);
        LookupPrefixMissing(m, paths, 1);
      }
      return Err(NotExist);
    }
    var current := m[paths[0]];
    assert Lookup(m, paths[..1]) == Some(current) by {
      LookupFirst(m, paths);
    }
    for i := 1 to |paths|
      invariant Lookup(m, paths[..i]) == Some(current)
    {
      if paths[i] !in current.children {
        assert Lookup(m, paths).None? by {
          LookupNext(m, paths, i);
          LookupPrefixMissing(m, paths, i + 1);
        }
        return Err(NotExist);
      }
      assert Lookup(m, paths[..i + 1]) == Some(current.children[paths[i]]) by {
        LookupNext(m, paths, i);
      }
      current := current.children[paths[i]];
    }
    assert paths[..|paths|] == paths;
    return Ok(current.value);
  }

  /**
    The walk of Children over `paths`: the names of the children of the node
    it names, found at the last step of the walk over the segments after the
    first; NotExist at a missing segment or when there is no such step.
   */
  method ChildrenWalk(m: Tree, paths: seq<string>) returns (r: Result<seq<string>>)
    requires paths != []
    ensures |paths| == 1 || Lookup(m, paths).None? ==> r == Err(NotExist)
    ensures |paths| > 1 && Lookup(m, paths).Some? ==>
      && r.Ok? && Distinct(r.value)
      && forall k :: k in r.value <==> k in Lookup(m, paths).value.children
  {
    if paths[0] !in m {
      assert Lookup(m, paths).None? by {
        LookupFirst(m, paths);
        LookupPrefixMissing(m, paths, 1);
      }
      return Err(NotExist);
    }
    var current := m[paths[0]];
    assert Lookup(m, paths[..1]) == Some(current) by {
      LookupFirst(m, paths);
    }
    for i := 1 to |paths|
      invariant Lookup(m, paths[..i]) == Some(current)
      invariant |paths| == 1 || i < |paths|
    {
      if paths[i] !in current.children {
        assert Lookup(m, paths).None? by {
          LookupNext(m, paths, i);
          LookupPrefixMissing(m, paths, i + 1);
        }
        return Err(NotExist);
      }
      assert Lookup(m, paths[..i + 1]) == Some(current.children[paths[i]]) by {
        LookupNext(m, paths, i);
      }
      var next := current.children[paths[i]];
      if i == |paths| - 1 {
        assert paths[..i + 1] == paths;
        var children := Keys(next.children);
        return Ok(children);
      }
      current := next;
    }
    return Err(NotExist);
  }

  /** The canned topics GetTopics matches against. */
  const MockTopics: seq<string> := ["test_topic", "test_topic2"]

  /** Some pattern of `ts` matches `topic`. */
  predicate MatchesAny<R>(ts: seq<R>, matchString: (R, string) -> bool, topic: string)
  {
    exists i :: 0 <= i < |ts| && matchString(ts[i], topic)
  }

  /** Per-broker metadata; only the fields the mock sets. */
  datatype BrokerMeta = BrokerMeta(rack: string, storageFree: real)

  /** Per-broker metrics; storage free is a float64 the mock only copies. */
  datatype BrokerMetrics = BrokerMetrics(storageFree: real)

  /** The canned broker metadata: racks, and storage free at its zero value. */
  const MockBrokerMeta: map<int, BrokerMeta> := map[
    1001 := BrokerMeta("a", 0.0), 1002 := BrokerMeta("b", 0.0), 1003 := BrokerMeta("", 0.0),
    1004 := BrokerMeta("a", 0.0), 1005 := BrokerMeta("b", 0.0), 1007 := BrokerMeta("", 0.0)]

  /** The canned broker metrics. */
  const MockBrokerMetrics: map<int, BrokerMetrics> := map[
    1001 := BrokerMetrics(2000.0), 1002 := BrokerMetrics(4000.0), 1003 := BrokerMetrics(6000.0),
    1004 := BrokerMetrics(8000.0), 1005 := BrokerMetrics(10000.0), 1007 := BrokerMetrics(12000.0)]

  class Mock {
    /** The top-level znodes, by the first segment of their path. */
    var data: Tree

    /** NewZooKeeperMock: a mock with no znodes. */
    constructor ()
      ensures data == map[]
    {
      data := map[];
    }

    /**
      Set: walks the segments of `p`, creating each missing node empty with
      version 0, then stores `d` in the last one and raises its version by one.
     */
    method Set(p: string, d: string) returns (r: Result<()>)
      modifies this
      ensures r == Ok(())
      ensures data == Write(old(data), Segments(p), d)
    {
      data := WriteWalk(data, Segments(p), d);
      r := Ok(());
    }

    /** Create: the same as Set. */
    method Create(p: string, d: string) returns (r: Result<()>)
      modifies this
      ensures r == Ok(())
      ensures data == Write(old(data), Segments(p), d)
    {
      r := Set(p, d);
    }

    /** CreateSequential: allocates nothing and always succeeds. */
    method CreateSequential(a: string, b: string) returns (r: Result<()>)
      ensures r == Ok(())
    {
      r := Ok(());
    }

    /** Get: the data of the znode at `p`, or NotExist when a segment does not resolve. */
    method Get(p: string) returns (r: Result<string>)
      ensures Lookup(data, Segments(p)).None? ==> r == Err(NotExist)
      ensures Lookup(data, Segments(p)).Some? ==> r == Ok(Lookup(data, Segments(p)).value.value)
    {
      r := GetWalk(data, Segments(p));
    }

    /** Exists: whether Get finds a znode at `p`; never an error. */
    method Exists(p: string) returns (r: Result<bool>)
      ensures r == Ok(Lookup(data, Segments(p)).Some?)
    {
      var g := Get(p);
      if g.Err? && g.error == NotExist {
        return Ok(false);
      }
      return Ok(true);
    }

    /**
      NextInt: the current version of the znode at `p`, which it then raises by
      one; NotExist, changing nothing, when a segment does not resolve.
     */
    method NextInt(p: string) returns (r: Result<int>)
      modifies this
      ensures Lookup(old(data), Segments(p)).None? ==> r == Err(NotExist) && data == old(data)
      ensures Lookup(old(data), Segments(p)).Some? ==>
        && r == Ok(Lookup(old(data), Segments(p)).value.version)
        && data == Bump(old(data), Segments(p))
    {
      r, data := BumpWalk(data, Segments(p));
    }

    /**
      Delete: unlinks the znode at `p`, with its subtree, from its parent's
      children.  NotExist, changing nothing, when a segment does not resolve.
      An existing znode at a path of one segment is never unlinked: the walk
      over the segments after the first is then empty, and Delete reports
      success without changing anything.
     */
    method Delete(p: string) returns (r: Result<()>)
      modifies this
      ensures Lookup(old(data), Segments(p)).None? ==> r == Err(NotExist) && data == old(data)
      ensures Lookup(old(data), Segments(p)).Some? ==>
        && r == Ok(())
        && data == if |Segments(p)| == 1 then old(data) else Unlink(old(data), Segments(p))
    {
      r, data := UnlinkWalk(data, Segments(p));
    }

    /**
      Children: the names of the children of the znode at `p`, each once, in
      no particular order.  A path of one segment always gives NotExist, even
      for a znode that exists: the walk over the segments after the first is
      then empty and reaches the failure after it.
     */
    method Children(p: string) returns (r: Result<seq<string>>)
      ensures |Segments(p)| == 1 || Lookup(data, Segments(p)).None? ==> r == Err(NotExist)
      ensures |Segments(p)| > 1 && Lookup(data, Segments(p)).Some? ==>
        && r.Ok? && Distinct(r.value)
        && forall k :: k in r.value <==> k in Lookup(data, Segments(p)).value.children
    {
      r := ChildrenWalk(data, Segments(p));
    }

    /**
      GetTopics: the canned topics matched by at least one of the patterns
      `ts`, each once, in no particular order.  `matchString` stands for the
      patterns' regular expression matching.
     */
    method GetTopics<R>(ts: seq<R>, matchString: (R, string) -> bool) returns (r: Result<seq<string>>)
      ensures r.Ok? && Distinct(r.value)
      ensures forall topic :: topic in r.value <==> topic in MockTopics && MatchesAny(ts, matchString, topic)
    {
      var t := MockTopics;
      var found: map<string, bool> := map[];
      for i := 0 to |ts|
        invariant forall topic :: topic in found <==> topic in t && MatchesAny(ts[..i], matchString, topic)
      {
        for j := 0 to |t|
          invariant forall topic :: topic in found <==>
            topic in t && (MatchesAny(ts[..i], matchString, topic) || (topic in t[..j] && matchString(ts[i], topic)))
        {
          if matchString(ts[i], t[j]) {
            found := found[t[j] := true];
          }
        }
        forall topic
          ensures MatchesAny(ts[..i + 1], matchString, topic) <==>
            MatchesAny(ts[..i], matchString, topic) || matchString(ts[i], topic)
        {
          assert ts[..i + 1][i] == ts[i];
          if MatchesAny(ts[..i + 1], matchString, topic) {
            var a :| 0 <= a < i + 1 && matchString(ts[..i + 1][a], topic);
            if a < i {
              assert ts[..i][a] == ts[..i + 1][a];
            }
          }
          if MatchesAny(ts[..i], matchString, topic) {
            var a :| 0 <= a < i && matchString(ts[..i][a], topic);
            assert ts[..i + 1][a] == ts[..i][a];
          }
        }
        assert t[..|t|] == t;
      }
      assert ts[..|ts|] == ts;
      var matched := Keys(found);
      return Ok(matched);
    }

    /** GetBrokerMetrics: the canned metrics. */
    method GetBrokerMetrics() returns (r: Result<map<int, BrokerMetrics>>)
      ensures r == Ok(MockBrokerMetrics)
    {
      return Ok(MockBrokerMetrics);
    }

    /**
      GetAllBrokerMeta: the canned brokers; with `withMetrics`, each broker
      takes the storage free reported for its own ID and keeps its rack.  The
      list of errors is always empty.
     */
    method GetAllBrokerMeta(withMetrics: bool) returns (b: map<int, BrokerMeta>, errs: seq<Error>)
      ensures errs == []
      ensures b.Keys == MockBrokerMeta.Keys && MockBrokerMeta.Keys <= MockBrokerMetrics.Keys
      ensures withMetrics ==> forall id :: id in b ==>
        b[id] == MockBrokerMeta[id].(storageFree := MockBrokerMetrics[id].storageFree)
      ensures !withMetrics ==> b == MockBrokerMeta
    {
      b := MockBrokerMeta;
      assert MockBrokerMeta.Keys == {1001, 1002, 1003, 1004, 1005, 1007} == MockBrokerMetrics.Keys;
      if withMetrics {
        var m := GetBrokerMetrics();
        var metrics := m.value;
        var rest := b.Keys;
        while rest != {}
          invariant rest <= b.Keys && b.Keys == MockBrokerMeta.Keys
          invariant forall id :: id in b && id !in rest ==>
            b[id] == MockBrokerMeta[id].(storageFree := metrics[id].storageFree)
          invariant forall id :: id in rest ==> b[id] == MockBrokerMeta[id]
          decreases rest
        {
          var bid :| bid in rest;
          b := b[bid := b[bid].(storageFree := metrics[bid].storageFree)];
          rest := rest - {bid};
        }
      }
      errs := [];
    }
  }
}
