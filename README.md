# kafka-kit: the ZooKeeper mock and autothrottle's metric names, in Dafny

This project models two sequential pieces of kafka-kit and proves what they
promise.

**The in-memory ZooKeeper mock** (`kafkazk/zookeeper_mocks.go`). A `Mock`
keeps a map from a path's first segment to a znode. Each znode has a value, a
version and a map of named children. Every operation normalises its path the
same way:

- `strings.Trim(p, "/")` strips all leading and trailing slashes;
- `strings.Split` on `/` then gives the segments.

The operations walk those segments. `Set` and `Create` write, creating missing
ancestors. `Get` and `Exists` read. `NextInt` returns a version and then bumps
it. `Delete` unlinks a node from its parent. `Children` lists child names. The
same file also holds `GetTopics`, which takes the union of the canned topics
that match any pattern, and `GetAllBrokerMeta`, which merges broker metrics
into broker metadata by ID.

**Autothrottle's own metrics** (`cmd/autothrottle/app_metrics.go`).
`initAppMetrics` registers one gauge per broker ID and replication role, named
`broker.<id>.<role>.replication.throttled.rate`. Its `transformFn` rewrites
such a name before reporting: the text after the second dot goes under the
`autothrottle.` namespace, and the ID becomes a `broker_id:<id>` tag.

Files:

- `go_strings.dfy` (module `GoStrings`): the Go string functions the code relies on.
  - `strings.Trim` with a cutset of `/`;
  - `strings.Split`;
  - `strings.SplitN`;
  - `strings.Join`.
- `znode.dfy` (module `Znode`): znodes as values, `Node(value, version, children)`.
  - A tree is a `map<string, Node>`, with `Lookup` along a path of segments.
  - `Write`, `Bump` and `Unlink` state the new tree after `Set`, `NextInt` and `Delete`.
  - Lemmas about each of them: the target, the ancestors, and everything else.
- `zookeeper_mock.dfy` (module `ZooKeeperMock`): class `Mock`, whose field `data` its methods update.
  - Each tree operation walks the segments in a loop, as the Go code does. The walk records the nodes it passes.
  - The changed spine is then re-linked bottom-up (`Relink`).
  - Each walk is proved equal to the `Znode` function that specifies it.
- `app_metrics.dfy` (module `AppMetrics`):
  - `%d` formatting of an `int`, proved injective;
  - the gauge names;
  - the registration loop;
  - `transformFn`.

Znodes are modelled as values rather than pointers. This is faithful because
the mock never shares a node: each one is freshly allocated (lines 79 and 87)
and stored in exactly one map.

The model follows the code as written, including three quirks:

- `Delete` of an existing one-segment path succeeds and removes nothing, because its loop over the later segments is empty. A missing one-segment path still gives `NotExist`.
- `Children` of a one-segment path fails with `NotExist`, even when the node exists.
- A freshly written target ends at version 1, while the ancestors created on the way stay at version 0.

Two comments in the source disagree with the code; the model follows the code:

- `kafkazk/zookeeper_mocks.go:257-258` says topics must match *all* patterns, but the loop keeps a topic that matches *any* one.
- The example at `cmd/autothrottle/app_metrics.go:46-47` gives the result name without its prefix. The code prepends `MetricsNamespace`, so the name is `autothrottle.leader.replication.throttled.rate`.

## Model

| member | source | states |
|---|---|---|
| ZooKeeperMock.Mock.constructor | kafkazk/zookeeper_mocks.go:27-31 | a new mock holds an empty tree |
| ZooKeeperMock.Segments | kafkazk/zookeeper_mocks.go:73-74 | the normalised path has at least one segment; no segment contains `/`; joining the segments with `/` gives back the trimmed path |
| ZooKeeperMock.SegmentsIgnoreOuterSlashes | kafkazk/zookeeper_mocks.go:73-74 | any number of leading or trailing slashes gives the same segments |
| GoStrings.TrimOuterSlashes | kafkazk/zookeeper_mocks.go:73 | `Trim(p, "/")` ignores extra slashes added at either end |
| GoStrings.Trim | kafkazk/zookeeper_mocks.go:73 | the input is the result with a run of slashes (possibly none) on each side, and the result neither starts nor ends with `/`: exactly the outer slashes are removed |
| GoStrings.Split | kafkazk/zookeeper_mocks.go:74 | `strings.Split` on one separator: at least one part, and no part contains the separator (`JoinSplit` shows the parts are exactly the text between separators) |
| GoStrings.JoinSplit | kafkazk/zookeeper_mocks.go:74 | `Split` loses nothing: joining its parts with the separator gives back the input |
| GoStrings.SplitJoin | kafkazk/zookeeper_mocks.go:74 | splitting a join of separator-free parts gives back the parts |
| Znode.Lookup | kafkazk/zookeeper_mocks.go:105-117 | the node reached by resolving one segment per level, the first in the top-level map; a path only resolves when its first segment is a top-level name |
| Znode.Write | kafkazk/zookeeper_mocks.go:77-94 | the tree after `Set`: the node at the path, created with its missing ancestors, gets the new value and one more version. The top-level names gain exactly the first segment |
| Znode.Bump | kafkazk/zookeeper_mocks.go:195-196 | the tree after `NextInt` on an existing node: its version is one higher. The top-level names are unchanged |
| Znode.Unlink | kafkazk/zookeeper_mocks.go:136-138 | the tree with the node at the path removed from its parent's children. The top-level names are unchanged unless the path has one segment |
| ZooKeeperMock.Mock.Set | kafkazk/zookeeper_mocks.go:72-97 | always succeeds; the new tree is `Write` of the old tree at the path's segments |
| ZooKeeperMock.WriteWalk | kafkazk/zookeeper_mocks.go:77-94 | the loop that walks, creates missing nodes, then writes the value and bumps the version yields exactly `Write(m, segments, d)` |
| ZooKeeperMock.Relink | kafkazk/zookeeper_mocks.go:77-91 | linking the rebuilt node back into each ancestor on the walk, bottom-up, gives the tree with that subtree grafted at the path |
| Znode.WriteTarget | kafkazk/zookeeper_mocks.go:77-94 | after `Set` the target holds `d`. An existing target's version rises by exactly 1 and it keeps its children. A new target has version 1 and no children |
| Znode.WriteAncestor | kafkazk/zookeeper_mocks.go:77-91 | after `Set` every proper prefix exists and has the next segment as a child. A created ancestor has an empty value and version 0. An existing one keeps its value and version |
| Znode.WriteFrame | kafkazk/zookeeper_mocks.go:72-97 | `Set` leaves every path that is not a prefix of the target exactly as it was (value, version, children) |
| ZooKeeperMock.SetThenGet | kafkazk/zookeeper_mocks.go:72-118 | round trip: after `Set(p, d)`, reading any spelling of `p` with extra outer slashes finds `d` |
| ZooKeeperMock.Mock.Create | kafkazk/zookeeper_mocks.go:51-53 | exactly the same result and new tree as `Set` |
| ZooKeeperMock.Mock.CreateSequential | kafkazk/zookeeper_mocks.go:56-59 | always succeeds and changes nothing (no `modifies`) |
| ZooKeeperMock.Mock.Get | kafkazk/zookeeper_mocks.go:100-118 | `NotExist` exactly when some segment does not resolve; otherwise the value of the znode at the path |
| ZooKeeperMock.GetWalk | kafkazk/zookeeper_mocks.go:105-117 | the read-only walk returns `NotExist` iff the path is missing, else the node's value |
| Znode.LookupPrefixMissing | kafkazk/zookeeper_mocks.go:105-113 | once one segment fails to resolve, the whole path is missing, so the walks may stop early |
| Znode.LookupAncestor | kafkazk/zookeeper_mocks.go:109-115 | on an existing path every proper prefix exists and holds the next segment among its children |
| ZooKeeperMock.Mock.Exists | kafkazk/zookeeper_mocks.go:62-69 | never an error; true iff the path resolves |
| ZooKeeperMock.Mock.NextInt | kafkazk/zookeeper_mocks.go:178-199 | missing path: `NotExist` with the tree unchanged; otherwise the node's current version, and the new tree is `Bump` of the old |
| ZooKeeperMock.BumpWalk | kafkazk/zookeeper_mocks.go:179-198 | the walk returns the old version and `Bump(m, path)` when the path exists, else `NotExist` and `m` |
| Znode.BumpTarget | kafkazk/zookeeper_mocks.go:195-196 | after `NextInt` the node's version is exactly one higher and its value and children are unchanged, so successive calls count up by one |
| Znode.BumpAncestor | kafkazk/zookeeper_mocks.go:187-196 | the ancestors keep their values, versions and child names |
| Znode.BumpFrame | kafkazk/zookeeper_mocks.go:178-199 | no path other than the target and its prefixes changes |
| ZooKeeperMock.Mock.Delete | kafkazk/zookeeper_mocks.go:121-145 | missing path: `NotExist`, tree unchanged. Existing one-segment path: success, tree unchanged. Otherwise success and the new tree is `Unlink` of the old |
| ZooKeeperMock.UnlinkWalk | kafkazk/zookeeper_mocks.go:122-144 | the walk yields those three outcomes, including the one-segment no-op |
| Znode.UnlinkSubtree | kafkazk/zookeeper_mocks.go:136-138 | after unlinking, neither the node nor anything below it resolves |
| Znode.UnlinkFrame | kafkazk/zookeeper_mocks.go:136-138 | every path that is neither a prefix nor an extension of the deleted one, siblings included, is unchanged |
| Znode.UnlinkAncestor | kafkazk/zookeeper_mocks.go:130-138 | the ancestors keep values and versions. The parent loses exactly the deleted name; the other ancestors keep all child names |
| ZooKeeperMock.Mock.Children | kafkazk/zookeeper_mocks.go:148-176 | `NotExist` for a one-segment path or a missing one; otherwise exactly the node's child names, each once |
| ZooKeeperMock.ChildrenWalk | kafkazk/zookeeper_mocks.go:149-175 | the same outcomes, produced by the segment walk |
| ZooKeeperMock.Keys | kafkazk/zookeeper_mocks.go:165-167 | ranging over a map and appending each key yields each key exactly once and nothing else |
| ZooKeeperMock.Mock.GetTopics | kafkazk/zookeeper_mocks.go:253-274 | never an error; each canned topic appears once iff at least one pattern matches it (none for an empty pattern list) |
| ZooKeeperMock.Mock.GetBrokerMetrics | kafkazk/zookeeper_mocks.go:316-327 | the canned metrics for brokers 1001-1005 and 1007 |
| ZooKeeperMock.Mock.GetAllBrokerMeta | kafkazk/zookeeper_mocks.go:294-313 | no errors; the same six brokers. With metrics each keeps its rack and takes the storage free of its own ID; without, the canned metadata unchanged |
| AppMetrics.Digits | cmd/autothrottle/app_metrics.go:36 | `%d` digits are non-empty decimal digits with no leading zero (except `0` itself), one digit exactly for values below 10; with `ParseDigitsOfDigits` this fixes the text |
| AppMetrics.Decimal | cmd/autothrottle/app_metrics.go:36 | `%d` output is non-empty, has no dot, and starts with `-` iff the value is negative |
| AppMetrics.ParseDecimalOfDecimal | cmd/autothrottle/app_metrics.go:36 | `%d` is lossless: its text parses back to the integer |
| AppMetrics.DecimalInjective | cmd/autothrottle/app_metrics.go:36 | different IDs print differently |
| AppMetrics.GaugeName | cmd/autothrottle/app_metrics.go:36 | defines the gauge name `broker.<id>.<role>.replication.throttled.rate`, with the ID in `%d`; its meaning is pinned by `GaugeNameInjective` and `TransformGaugeName` |
| AppMetrics.GaugeAmongStep | cmd/autothrottle/app_metrics.go:34-39 | one outer iteration adds exactly the gauges of one more ID |
| AppMetrics.InitAppMetrics | cmd/autothrottle/app_metrics.go:28-44 | the registry afterwards holds exactly what it held plus one gauge per broker ID and role, whatever `reportEnable` is. Reporting starts iff `reportEnable` holds and the reporter could be built |
| AppMetrics.BrokerGauges | cmd/autothrottle/app_metrics.go:34-39 | each broker ID gets exactly two gauges, one per role, and the two differ |
| AppMetrics.GaugeNameInjective | cmd/autothrottle/app_metrics.go:36 | two gauge names coincide only for the same ID and role (for roles without a dot) |
| GoStrings.SplitN | cmd/autothrottle/app_metrics.go:49 | at most `n` parts; all but the last are free of the separator; with `n > 1` and a separator present there are at least two parts |
| GoStrings.Join | cmd/autothrottle/app_metrics.go:51 | `strings.Join`: a single part is returned as it is; with more, the first part comes first, followed by the separator (`JoinSplit`, `SplitJoin` and `JoinSplitN` make it the inverse of the splits) |
| GoStrings.JoinSplitN | cmd/autothrottle/app_metrics.go:49-51 | joining the pieces of `SplitN` with the separator gives back the input, for any limit |
| GoStrings.SplitNConcat | cmd/autothrottle/app_metrics.go:49 | `SplitN` cuts at the first separator and goes on with the remainder and one less piece |
| GoStrings.SplitNTwoCuts | cmd/autothrottle/app_metrics.go:49-50 | with room for three pieces or more, `SplitN` cuts at the first two separators and goes on with the rest |
| AppMetrics.TransformFn | cmd/autothrottle/app_metrics.go:48-54 | needs a dot; the returned tags are the input tags, in order, followed by exactly one more |
| AppMetrics.TransformTwoParts | cmd/autothrottle/app_metrics.go:49-52 | with exactly one dot, the name is just `autothrottle.` and the tag carries everything after the dot |
| AppMetrics.TransformThreeParts | cmd/autothrottle/app_metrics.go:49-52 | with two or more dots, the name is `autothrottle.` plus the exact suffix after the second dot, and the tag is `broker_id:` plus the text between the first two dots |
| AppMetrics.TransformGaugeName | cmd/autothrottle/app_metrics.go:36-54 | round trip: a gauge name of line 36 becomes `autothrottle.<role>.replication.throttled.rate`, tagged `broker_id:<decimal id>` |
| AppMetrics.RegisteredGaugeReport | cmd/autothrottle/app_metrics.go:34-54 | every registered gauge is a valid input to `transformFn` and is reported under one role's name, tagged with one of the broker IDs |
| AppMetrics.BrokerTagReadsBack | cmd/autothrottle/app_metrics.go:52 | the tag of a gauge is `broker_id:` followed by text that parses back to the broker ID |
| AppMetrics.BrokerTag | cmd/autothrottle/app_metrics.go:52 | defines the tag `broker_id:<id>`; `BrokerTagInjective` and `BrokerTagReadsBack` state what it keeps |
| AppMetrics.BrokerTagInjective | cmd/autothrottle/app_metrics.go:52 | different IDs give different tags |
| AppMetrics.ReportedNameInjective | cmd/autothrottle/app_metrics.go:51 | different roles are reported under different names |

## Left out

- ZooKeeperMock.Mock.Set: the `int32` version is an unbounded integer, so wrap-around past 2^31-1 is not modelled. The same goes for `ZooKeeperMock.WriteWalk` and `Znode.WriteTarget`.
- ZooKeeperMock.Mock.NextInt: the `int32` version is an unbounded integer, so wrap-around past 2^31-1 is not modelled. The same goes for `ZooKeeperMock.BumpWalk` and `Znode.BumpTarget`.
- Values are strings of characters, one per byte; `[]byte(d)` is the identity.
- Znodes are values, not pointers. No node is ever shared, so no aliasing is lost, but the model does not capture the identity of node objects.
- Regular expressions in `GetTopics` are an abstract predicate `matchString`. A nil pattern, which panics in Go, is not modelled.
- `float64` storage figures are `real` values that are only copied, never computed with.
- Map iteration order is unspecified in Go. The results of `Children` and `GetTopics` are stated as sets of distinct elements. In `GetAllBrokerMeta` the order only decides the order of the update loop, and the resulting map is stated per broker ID.
- `CreateSequential` is modelled as the no-op it is. Sequential node naming and cross-process atomicity exist only in the real ZooKeeper client.
- The canned getters with no logic are not modelled: `GetReassignments`, `GetPendingDeletion`, `GetTopicState`, `GetTopicStateISR`, `Close`, `Ready`, `InitRawClient`, `UpdateKafkaConfig`, `GetTopicConfig`, `GetBrokerIDs`, `GetAllPartitionMeta` and `GetPartitionMap`. `GetBrokerMetrics` is modelled because `GetAllBrokerMeta` uses it.
- `MaxMetaAge` reads the wall clock and is left out.
- AppMetrics.InitAppMetrics: several parts of `initAppMetrics` are left out.
  - The broker IDs are a parameter. Fetching them and logging a fetch error (lines 29-32) are not modelled. After an error the loop runs over whatever list came back with it, which the parameter covers.
  - The process-wide registry is a set of names, passed in and returned.
  - Past the early return taken when `reportEnable` is false, building the reporter options, selecting the backend, `reporter.NewReporter` and the `PeriodicFlush` goroutine (lines 56-73) are I/O. Whether `reporter.NewReporter` succeeds is the parameter `reporterBuilt`; it fails for a backend other than datadog or when the statsd client cannot be created. Starting the flush goroutine is represented only by the `reporting` result.
- AppMetrics.TransformFn: the Go function panics on a name without a dot. Here a precondition excludes that input instead.
- AppMetrics.TransformFn: `append(tags, …)` may write into the caller's backing array. The model returns a new sequence, so slice aliasing is not modelled.
- The datadog reporter, which calls `transformFn` (`reporter/datadog/datadog.go` and `reporter/reporter.go`), is not part of this model.
