/**
  The znode tree of the in-memory ZooKeeper mock, as values.

  The mock's nodes are never shared: each one is allocated on its own and
  linked from exactly one map.  So a node is a value holding its data, its
  version and the map of its children, and the mock's top-level map is a
  `Tree` like any node's children.  Paths are sequences of segments, already
  split; `Lookup` resolves one, and `Write`, `Bump` and `Unlink` give the
  tree after Set, NextInt and Delete.
 */
module Znode {

  datatype Option<T> = None | Some(value: T)

  /** A znode: its data, its version counter and its children by name. */
  datatype Node = Node(value: string, version: int, children: map<string, Node>)

  /** The map from a segment to the node it names: the mock's top level, or the children of a node. */
  type Tree = map<string, Node>

  /** The node that Set allocates for a missing segment: no data, version 0, no children. */
  const Fresh: Node := Node("", 0, map[])

  /** The path of the parent of the node at `path` (empty for a top-level node). */
  function Parent(path: seq<string>): seq<string>
    requires path != []
  {
    path[..|path| - 1]
  }

  /** The name of the node at `path` within its parent's map. */
  function Last(path: seq<string>): string
    requires path != []
  {
    path[|path| - 1]
  }

  /** The node named `seg` in `m`, or a Fresh one where there is none. */
  function Child(m: Tree, seg: string): Node
  {
    if seg in m then m[seg] else Fresh
  }

  /** The node at `path`, resolving one segment per level; None as soon as a segment is missing. */
  function Lookup(m: Tree, path: seq<string>): (r: Option<Node>)
    ensures r.Some? ==> path != [] && path[0] in m
    decreases |path|
  {
    if path == [] || path[0] !in m then None
    else if |path| == 1 then Some(m[path[0]])
    else Lookup(m[path[0]].children, path[1..])
  }

  /** The node a walk that creates what is missing reaches at `path`: the existing node, or Fresh. */
  function Reach(m: Tree, path: seq<string>): Node
  {
    match Lookup(m, path)
    case Some(n) => n
    case None => Fresh
  }

  /**
    The map in which the walk looks up the segment after `path`: `m` itself for
    the empty path, otherwise the children of the node reached at `path`.
   */
  function MapAt(m: Tree, path: seq<string>): Tree
    decreases |path|
  {
    if path == [] then m else MapAt(Child(m, path[0]).children, path[1..])
  }

  /**
    `m` with the children map of the node at `path` replaced by `sub`, every
    missing node on the way created Fresh; `sub` itself for the empty path.
   */
  function Graft(m: Tree, path: seq<string>, sub: Tree): (r: Tree)
    ensures path != [] ==> r.Keys == m.Keys + {path[0]}
    decreases |path|
  {
    if path == [] then sub
    else
      var n := Child(m, path[0]);
      m[path[0] := n.(children := Graft(n.children, path[1..], sub))]
  }

  /** `m` with the node at `path` replaced by `n`, every missing ancestor created Fresh. */
  function Put(m: Tree, path: seq<string>, n: Node): Tree
    requires path != []
  {
    Graft(m, Parent(path), MapAt(m, Parent(path))[Last(path) := n])
  }

  /** The tree after Set(path, d): the target holds `d` and its version is one higher. */
  function Write(m: Tree, path: seq<string>, d: string): (r: Tree)
    requires path != []
    ensures r.Keys == m.Keys + {path[0]}
  {
    var n := Reach(m, path);
    Put(m, path, n.(value := d, version := n.version + 1))
  }

  /** The tree after NextInt(path) on an existing node: its version is one higher. */
  function Bump(m: Tree, path: seq<string>): (r: Tree)
    requires Lookup(m, path).Some?
    ensures r.Keys == m.Keys
  {
    var n := Reach(m, path);
    Put(m, path, n.(version := n.version + 1))
  }

  /** The tree once the node at `path` is deleted from its parent's map, with all of its subtree. */
  function Unlink(m: Tree, path: seq<string>): (r: Tree)
    requires Lookup(m, path).Some?
    ensures r.Keys == if |path| == 1 then m.Keys - {path[0]} else m.Keys
  {
    Graft(m, Parent(path), MapAt(m, Parent(path)) - {Last(path)})
  }

  // ---------------------------------------------------------------------------
  // Walking the tree

  /** Below a missing node the walk only sees empty maps. */
  lemma {:induction false} MapAtEmpty(path: seq<string>)
    ensures MapAt(map[], path) == map[]
    decreases |path|
  {
    if path != [] {
      MapAtEmpty(path[1..]);
    }
  }

  /** Resolving `q + t` is resolving `t` in the map reached at `q`. */
  lemma {:induction false} LookupAppend(m: Tree, q: seq<string>, t: seq<string>)
    requires t != []
    ensures Lookup(m, q + t) == Lookup(MapAt(m, q), t)
    decreases |q|
  {
    if q != [] {
      assert (q + t)[0] == q[0] && (q + t)[1..] == q[1..] + t;
      if q[0] in m {
        LookupAppend(m[q[0]].children, q[1..], t);
      } else {
        MapAtEmpty(q[1..]);
      }
    } else {
      assert q + t == t;
    }
  }

  /** The map the walk searches below `q` is the children of the node reached at `q`. */
  lemma {:induction false} MapAtReach(m: Tree, q: seq<string>)
    requires q != []
    ensures MapAt(m, q) == Reach(m, q).children
    decreases |q|
  {
    if |q| > 1 {
      if q[0] in m {
        MapAtReach(m[q[0]].children, q[1..]);
      } else {
        MapAtEmpty(q[1..]);
      }
    }
  }

  /** The node reached at `q` is the child named `Last(q)` of the map at its parent. */
  lemma ReachStep(m: Tree, q: seq<string>)
    requires q != []
    ensures Reach(m, q) == Child(MapAt(m, Parent(q)), Last(q))
  {
    assert q == Parent(q) + [Last(q)];
    LookupAppend(m, Parent(q), [Last(q)]);
  }

  /** One step of a walk that stops at a missing segment. */
  lemma WalkStep(m: Tree, q: seq<string>, s: string)
    requires q != []
    ensures Lookup(m, q + [s]) ==
      if Lookup(m, q).Some? && s in Lookup(m, q).value.children
      then Some(Lookup(m, q).value.children[s]) else None
  {
    LookupAppend(m, q, [s]);
    MapAtReach(m, q);
  }

  /**
    A node is reachable only if all of its ancestors are, and each of them
    lists the next segment among its children.
   */
  lemma {:induction false} LookupAncestor(m: Tree, path: seq<string>, k: nat)
    requires Lookup(m, path).Some? && 0 < k < |path|
    ensures Lookup(m, path[..k]).Some?
    ensures path[k] in Lookup(m, path[..k]).value.children
  {
    assert path == path[..k] + path[k..];
    LookupAppend(m, path[..k], path[k..]);
    MapAtReach(m, path[..k]);
  }

  /** A walk that stops at a missing segment has found that the whole path is missing. */
  lemma LookupPrefixMissing(m: Tree, path: seq<string>, k: nat)
    requires 0 < k <= |path| && Lookup(m, path[..k]).None?
    ensures Lookup(m, path).None?
  {
    if k == |path| {
      assert path[..k] == path;
    } else if Lookup(m, path).Some? {
      LookupAncestor(m, path, k);
    }
  }

  // ---------------------------------------------------------------------------
  // Grafting a map in place

  /** A graft leaves every path that leaves the grafted path untouched. */
  lemma {:induction false} GraftAside(m: Tree, path: seq<string>, sub: Tree, q: seq<string>)
    requires !(q <= path) && !(path <= q)
    ensures Lookup(Graft(m, path, sub), q) == Lookup(m, q)
    decreases |path|
  {
    var g := Graft(m, path, sub);
    if q[0] == path[0] {
      var n := Child(m, path[0]);
      assert |q| > 1;
      assert !(q[1..] <= path[1..]) && !(path[1..] <= q[1..]);
      GraftAside(n.children, path[1..], sub, q[1..]);
      assert Lookup(g, q) == Lookup(n.children, q[1..]);
    } else {
      assert q[0] in g <==> q[0] in m;
    }
  }

  /** The map the walk reaches at a prefix of the grafted path is itself grafted. */
  lemma {:induction false} MapAtGraft(m: Tree, path: seq<string>, sub: Tree, k: nat)
    requires k <= |path|
    ensures MapAt(Graft(m, path, sub), path[..k]) == Graft(MapAt(m, path[..k]), path[k..], sub)
    decreases k
  {
    if k > 0 {
      var n := Child(m, path[0]);
      assert path[..k][1..] == path[1..][..k - 1];
      assert path[k..] == path[1..][k - 1..];
      MapAtGraft(n.children, path[1..], sub, k - 1);
    }
  }

  /** Below the grafted path, the tree is `sub`. */
  lemma GraftBelow(m: Tree, path: seq<string>, sub: Tree, t: seq<string>)
    requires t != []
    ensures Lookup(Graft(m, path, sub), path + t) == Lookup(sub, t)
  {
    LookupAppend(Graft(m, path, sub), path, t);
    MapAtGraft(m, path, sub, |path|);
    assert path[..|path|] == path;
  }

  /**
    Along the grafted path every node exists afterwards; it keeps the data and
    version of the node reached before, and its children are grafted in turn.
   */
  lemma GraftAlong(m: Tree, path: seq<string>, sub: Tree, k: nat)
    requires 0 < k <= |path|
    ensures Lookup(Graft(m, path, sub), path[..k]) ==
      Some(Reach(m, path[..k]).(children := Graft(Reach(m, path[..k]).children, path[k..], sub)))
  {
    var g := Graft(m, path, sub);
    var q := path[..k];
    assert Parent(q) == path[..k - 1] && Last(q) == path[k - 1];
    assert q == path[..k - 1] + [path[k - 1]];
    LookupAppend(g, path[..k - 1], [path[k - 1]]);
    MapAtGraft(m, path, sub, k - 1);
    assert path[k - 1..] == [path[k - 1]] + path[k..];
    ReachStep(m, q);
  }

  // ---------------------------------------------------------------------------
  // Replacing one node

  /** After `Put`, the node at `path` is the one put there. */
  lemma PutTarget(m: Tree, path: seq<string>, n: Node)
    requires path != []
    ensures Lookup(Put(m, path, n), path) == Some(n)
  {
    assert path == Parent(path) + [Last(path)];
    GraftBelow(m, Parent(path), MapAt(m, Parent(path))[Last(path) := n], [Last(path)]);
  }

  /**
    After `Put`, each ancestor of `path` exists, keeps the data and version it
    had (Fresh ones: none and 0), and lists the next segment among its children.
   */
  lemma PutAncestor(m: Tree, path: seq<string>, n: Node, k: nat)
    requires 0 < k < |path|
    ensures Lookup(Put(m, path, n), path[..k]).Some?
    ensures var a := Lookup(Put(m, path, n), path[..k]).value;
      && a.value == Reach(m, path[..k]).value
      && a.version == Reach(m, path[..k]).version
      && a.children.Keys == Reach(m, path[..k]).children.Keys + {path[k]}
  {
    var p := Parent(path);
    var sub := MapAt(m, p)[Last(path) := n];
    assert p[..k] == path[..k];
    GraftAlong(m, p, sub, k);
    if k == |p| {
      MapAtReach(m, p);
      assert p == path[..k];
    } else {
      assert p[k..][0] == path[k];
    }
  }

  /** `Put` of a node with the same children changes nothing off the path to it. */
  lemma PutFrame(m: Tree, path: seq<string>, n: Node, q: seq<string>)
    requires path != [] && n.children == Reach(m, path).children
    requires !(q <= path)
    ensures Lookup(Put(m, path, n), q) == Lookup(m, q)
  {
    var p := Parent(path);
    var s := MapAt(m, p);
    var sub := s[Last(path) := n];
    assert path == p + [Last(path)];
    if !(q <= p) && !(p <= q) {
      GraftAside(m, p, sub, q);
    } else {
      assert p <= q && q != p;
      var t := q[|p|..];
      assert q == p + t && t != [];
      GraftBelow(m, p, sub, t);
      LookupAppend(m, p, t);
      if t[0] == Last(path) {
        assert |t| > 1;
        ReachStep(m, path);
        assert Lookup(sub, t) == Lookup(n.children, t[1..]);
      } else {
        assert t[0] in sub <==> t[0] in s;
      }
    }
  }

  // ---------------------------------------------------------------------------
  // Set

  /**
    Set round trip: afterwards the target holds `d` and its version is one
    higher than before, keeping its children; a target that did not exist is
    new, with no children and version 1.
   */
  lemma WriteTarget(m: Tree, path: seq<string>, d: string)
    requires path != []
    ensures Lookup(Write(m, path, d), path) ==
      Some(match Lookup(m, path)
           case Some(n) => n.(value := d, version := n.version + 1)
           case None => Node(d, 1, map[]))
  {
    var n := Reach(m, path);
    PutTarget(m, path, n.(value := d, version := n.version + 1));
  }

  /**
    Set creates the missing ancestors of the target with no data and version
    0; the ancestors that existed keep their data and version.  Either way each
    one exists afterwards and has the next segment among its children.
   */
  lemma WriteAncestor(m: Tree, path: seq<string>, d: string, k: nat)
    requires 0 < k < |path|
    ensures Lookup(Write(m, path, d), path[..k]).Some?
    ensures var a := Lookup(Write(m, path, d), path[..k]).value;
      match Lookup(m, path[..k])
      case Some(n) =>
        a.value == n.value && a.version == n.version && a.children.Keys == n.children.Keys + {path[k]}
      case None =>
        a.value == "" && a.version == 0 && a.children.Keys == {path[k]}
  {
    var n := Reach(m, path);
    PutAncestor(m, path, n.(value := d, version := n.version + 1), k);
  }

  /** Set changes no node other than the target and its ancestors. */
  lemma WriteFrame(m: Tree, path: seq<string>, d: string, q: seq<string>)
    requires path != [] && !(q <= path)
    ensures Lookup(Write(m, path, d), q) == Lookup(m, q)
  {
    var n := Reach(m, path);
    PutFrame(m, path, n.(value := d, version := n.version + 1), q);
  }

  // ---------------------------------------------------------------------------
  // NextInt

  /** NextInt raises the version of an existing node by one and keeps its data and children. */
  lemma BumpTarget(m: Tree, path: seq<string>)
    requires Lookup(m, path).Some?
    ensures Lookup(Bump(m, path), path) ==
      Some(Lookup(m, path).value.(version := Lookup(m, path).value.version + 1))
  {
    var n := Lookup(m, path).value;
    var bumped := n.(version := n.version + 1);
    assert Bump(m, path) == Put(m, path, bumped);
    PutTarget(m, path, bumped);
  }

  /** The ancestors of the node NextInt counts on keep their data, versions and child names. */
  lemma BumpAncestor(m: Tree, path: seq<string>, k: nat)
    requires Lookup(m, path).Some? && 0 < k < |path|
    ensures Lookup(m, path[..k]).Some? && Lookup(Bump(m, path), path[..k]).Some?
    ensures var a := Lookup(Bump(m, path), path[..k]).value;
      var n := Lookup(m, path[..k]).value;
      a.value == n.value && a.version == n.version && a.children.Keys == n.children.Keys
  {
    var n := Reach(m, path);
    LookupAncestor(m, path, k);
    PutAncestor(m, path, n.(version := n.version + 1), k);
  }

  /** NextInt changes no node other than its target and that node's ancestors. */
  lemma BumpFrame(m: Tree, path: seq<string>, q: seq<string>)
    requires Lookup(m, path).Some? && !(q <= path)
    ensures Lookup(Bump(m, path), q) == Lookup(m, q)
  {
    var n := Reach(m, path);
    PutFrame(m, path, n.(version := n.version + 1), q);
  }

  // ---------------------------------------------------------------------------
  // Delete

  /** Once a node is unlinked, neither it nor anything below it can be reached. */
  lemma UnlinkSubtree(m: Tree, path: seq<string>, t: seq<string>)
    requires Lookup(m, path).Some?
    ensures Lookup(Unlink(m, path), path + t) == None
  {
    var p := Parent(path);
    assert path + t == p + ([Last(path)] + t);
    GraftBelow(m, p, MapAt(m, p) - {Last(path)}, [Last(path)] + t);
  }

  /** Unlinking leaves every node that is neither on the path nor below it as it was, siblings included. */
  lemma UnlinkFrame(m: Tree, path: seq<string>, q: seq<string>)
    requires Lookup(m, path).Some?
    requires !(q <= path) && !(path <= q)
    ensures Lookup(Unlink(m, path), q) == Lookup(m, q)
  {
    var p := Parent(path);
    var s := MapAt(m, p);
    var sub := s - {Last(path)};
    assert path == p + [Last(path)];
    if !(q <= p) && !(p <= q) {
      GraftAside(m, p, sub, q);
    } else {
      assert p <= q && q != p;
      var t := q[|p|..];
      assert q == p + t && t != [];
      GraftBelow(m, p, sub, t);
      LookupAppend(m, p, t);
      assert t[0] != Last(path);
      assert t[0] in sub <==> t[0] in s;
    }
  }

  /**
    The ancestors of an unlinked node keep their data and versions; its parent
    loses exactly the unlinked name, and the others keep all their child names.
   */
  lemma UnlinkAncestor(m: Tree, path: seq<string>, k: nat)
    requires Lookup(m, path).Some? && 0 < k < |path|
    ensures Lookup(m, path[..k]).Some? && Lookup(Unlink(m, path), path[..k]).Some?
    ensures var a := Lookup(Unlink(m, path), path[..k]).value;
      var n := Lookup(m, path[..k]).value;
      && a.value == n.value && a.version == n.version
      && a.children.Keys == if k == |path| - 1 then n.children.Keys - {path[k]} else n.children.Keys
  {
    var p := Parent(path);
    var sub := MapAt(m, p) - {Last(path)};
    LookupAncestor(m, path, k);
    assert p[..k] == path[..k];
    GraftAlong(m, p, sub, k);
    if k == |p| {
      MapAtReach(m, p);
      assert p == path[..k];
    } else {
      LookupAncestor(m, path, k);
      assert p[k..][0] == path[k];
    }
  }
}
