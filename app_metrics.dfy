/**
  The metrics autothrottle registers about itself: one throttled-rate gauge per
  broker and replication role, and the rename that turns a gauge's name into a
  namespaced metric name plus a broker_id tag before it is reported.
 */
module AppMetrics {
  import opened GoStrings

  /** The prefix of every reported metric name. */
  const MetricsNamespace: string := "autothrottle."

  /** The replication roles a broker is throttled in, in registration order. */
  const Roles: seq<string> := ["leader", "follower"]

  /** The name every gauge ends with. */
  const GaugeMetric: string := "replication.throttled.rate"

  // ---------------------------------------------------------------------------
  // `%d`: integers in decimal

  /** The character of the decimal digit `d`. */
  function DigitChar(d: nat): (c: char)
    requires d < 10
    ensures '0' <= c <= '9'
  {
    ('0' as int + d) as char
  }

  /** The value of the decimal digit character `c`. */
  function DigitValue(c: char): (d: nat)
    requires '0' <= c <= '9'
    ensures d < 10
  {
    c as int - '0' as int
  }

  /** Every character of `s` is a decimal digit. */
  predicate AllDigits(s: string)
  {
    forall k :: 0 <= k < |s| ==> '0' <= s[k] <= '9'
  }

  /** The decimal digits of `n`, most significant first, with no leading zero. */
  function Digits(n: nat): (s: string)
    ensures s != [] && AllDigits(s)
    ensures |s| == 1 <==> n < 10
    ensures s[0] != '0' || n == 0
    decreases n
  {
    if n < 10 then [DigitChar(n)] else Digits(n / 10) + [DigitChar(n % 10)]
  }

  /** The number a non-empty run of decimal digits stands for. */
  function ParseDigits(s: string): (n: nat)
    requires s != [] && AllDigits(s)
    decreases |s|
  {
    if |s| == 1 then DigitValue(s[0])
    else ParseDigits(s[..|s| - 1]) * 10 + DigitValue(s[|s| - 1])
  }

  /** `fmt.Sprintf("%d", i)`: a minus sign for a negative `i`, then the digits of its magnitude. */
  function Decimal(i: int): (s: string)
    ensures s != [] && '.' !in s
    ensures s[0] == '-' <==> i < 0
  {
    if i < 0 then "-" + Digits(-i) else Digits(i)
  }

  /** Text of the form Decimal produces: digits, after a minus sign or not. */
  predicate IsDecimal(s: string)
  {
    s != [] && if s[0] == '-' then |s| > 1 && AllDigits(s[1..]) else AllDigits(s)
  }

  /** The integer written in decimal in `s`. */
  function ParseDecimal(s: string): int
    requires IsDecimal(s)
  {
    if s[0] == '-' then -(ParseDigits(s[1..]) as int) else ParseDigits(s)
  }

  /** Reading back the digits of `n` gives `n`. */
  lemma {:induction false} ParseDigitsOfDigits(n: nat)
    ensures ParseDigits(Digits(n)) == n
    decreases n
  {
    if n >= 10 {
      var s := Digits(n);
      assert s[..|s| - 1] == Digits(n / 10);
      ParseDigitsOfDigits(n / 10);
    }
  }

  /** Decimal loses nothing: reading its text back gives the integer it was made from. */
  lemma ParseDecimalOfDecimal(i: int)
    ensures IsDecimal(Decimal(i)) && ParseDecimal(Decimal(i)) == i
  {
    var s := Decimal(i);
    if i < 0 {
      var d := Digits(-i);
      assert s == ['-'] + d;
      assert s[1..] == d;
      ParseDigitsOfDigits(-i);
    } else {
      assert s == Digits(i);
      ParseDigitsOfDigits(i);
    }
  }

  // ---------------------------------------------------------------------------
  // Gauge registration

  /** The name of the gauge for broker `id` in `role`: broker.<id>.<role>.replication.throttled.rate */
  function GaugeName(id: int, role: string): string
  {
    "broker" + "." + Decimal(id) + "." + role + "." + GaugeMetric
  }

  /** `name` is the gauge of one of the first `n` IDs of `ids` in one of the Roles. */
  predicate GaugeAmong(ids: seq<int>, n: nat, name: string)
    requires n <= |ids|
  {
    exists k, x :: 0 <= k < n && 0 <= x < |Roles| && name == GaugeName(ids[k], Roles[x])
  }

  /** `name` is the gauge of one of `ids` in one of the Roles. */
  predicate IsGauge(ids: seq<int>, name: string)
  {
    GaugeAmong(ids, |ids|, name)
  }

  /** The gauges of the first `n + 1` IDs are those of the first `n` and those of `ids[n]`. */
  lemma GaugeAmongStep(ids: seq<int>, n: nat, name: string)
    requires n < |ids|
    ensures GaugeAmong(ids, n + 1, name) <==>
      GaugeAmong(ids, n, name) || exists x :: 0 <= x < |Roles| && name == GaugeName(ids[n], Roles[x])
  {
    if GaugeAmong(ids, n + 1, name) {
      var k, x :| 0 <= k < n + 1 && 0 <= x < |Roles| && name == GaugeName(ids[k], Roles[x]);
      if k == n {
        assert 0 <= x < |Roles| && name == GaugeName(ids[n], Roles[x]);
      } else {
        assert GaugeAmong(ids, n, name);
      }
    }
    if GaugeAmong(ids, n, name) {
      var k, x :| 0 <= k < n && 0 <= x < |Roles| && name == GaugeName(ids[k], Roles[x]);
      assert 0 <= k < n + 1;
    }
    if exists x :: 0 <= x < |Roles| && name == GaugeName(ids[n], Roles[x]) {
      var x :| 0 <= x < |Roles| && name == GaugeName(ids[n], Roles[x]);
      assert 0 <= n < n + 1;
    }
  }

  /**
    initAppMetrics without its I/O: get-or-register one gauge per broker ID and
    role in `registry`, which keeps what it held already, and only then decide
    whether a reporter is started.  The registered set does not depend on
    `reportEnable`.  `reporterBuilt` stands for the outcome of building the
    reporter (reporter.NewReporter), which fails for an unknown backend or a
    statsd client that cannot be created; reporting starts only when reporting
    is enabled and the reporter was built.
   */
  method InitAppMetrics(registry: set<string>, brokerIDs: seq<int>, reportEnable: bool, reporterBuilt: bool)
    returns (r: set<string>, reporting: bool)
    ensures forall name :: name in r <==> name in registry || IsGauge(brokerIDs, name)
    ensures reporting <==> reportEnable && reporterBuilt
  {
    r := registry;
    for k := 0 to |brokerIDs|
      invariant forall name :: name in r <==> name in registry || GaugeAmong(brokerIDs, k, name)
    {
      var id := brokerIDs[k];
      for j := 0 to |Roles|
        invariant forall name :: name in r <==>
          name in registry || GaugeAmong(brokerIDs, k, name) || exists x :: 0 <= x < j && name == GaugeName(id, Roles[x])
      {
        r := r + {GaugeName(id, Roles[j])};
      }
      forall name
        ensures GaugeAmong(brokerIDs, k + 1, name) <==>
          GaugeAmong(brokerIDs, k, name) || exists x :: 0 <= x < |Roles| && name == GaugeName(id, Roles[x])
      {
        GaugeAmongStep(brokerIDs, k, name);
      }
    }
    reporting := false;
    if !reportEnable {
      return;
    }
    if !reporterBuilt {
      return;
    }
    reporting := true;
  }

  /** The text between a common prefix and a common suffix is determined by the whole. */
  lemma SameMiddle(p: string, x: string, y: string, q: string)
    requires p + x + q == p + y + q
    ensures x == y
  {
    assert |x| == |y|;
    assert x == (p + x + q)[|p|..|p| + |x|];
    assert y == (p + y + q)[|p|..|p| + |y|];
  }

  /** Different integers never print alike. */
  lemma DecimalInjective(a: int, b: int)
    requires Decimal(a) == Decimal(b)
    ensures a == b
  {
    ParseDecimalOfDecimal(a);
    ParseDecimalOfDecimal(b);
  }

  /** The tag transformFn attaches: broker_id:<id>. */
  function BrokerTag(id: string): string
  {
    "broker_id:" + id
  }

  /** The broker_id tag determines the text after its key. */
  lemma BrokerTagInjective(x: string, y: string)
    requires BrokerTag(x) == BrokerTag(y)
    ensures x == y
  {
    assert x == BrokerTag(x)[10..];
    assert y == BrokerTag(y)[10..];
  }

  /** The tag of a broker ID printed in decimal reads back as that ID. */
  lemma BrokerTagReadsBack(id: int)
    ensures var tag := BrokerTag(Decimal(id));
      |tag| > 10 && tag[..10] == "broker_id:" && IsDecimal(tag[10..]) && ParseDecimal(tag[10..]) == id
  {
    var tag := BrokerTag(Decimal(id));
    assert tag[10..] == Decimal(id);
    ParseDecimalOfDecimal(id);
  }

  /** Two gauges with role names free of dots are the same gauge only for the same broker and role. */
  lemma GaugeNameInjective(a: int, r1: string, b: int, r2: string)
    requires '.' !in r1 && '.' !in r2
    requires GaugeName(a, r1) == GaugeName(b, r2)
    ensures a == b && r1 == r2
  {
    TransformGaugeName(a, r1, []);
    TransformGaugeName(b, r2, []);
    var t := TransformFn(GaugeName(a, r1), []);
    assert t.0 == ReportedName(r1) == ReportedName(r2);
    ReportedNameInjective(r1, r2);
    assert t.1 == [BrokerTag(Decimal(a))] == [BrokerTag(Decimal(b))];
    BrokerTagInjective(Decimal(a), Decimal(b));
    DecimalInjective(a, b);
  }

  /** No role name holds a dot. */
  lemma RoleHasNoDot(x: nat)
    requires x < |Roles|
    ensures '.' !in Roles[x]
  {
    assert Roles[x] == "leader" || Roles[x] == "follower";
  }

  /** A registered gauge of `id` whose role has no dot is the gauge of one of the Roles. */
  lemma RegisteredRole(ids: seq<int>, id: int, role: string)
    requires '.' !in role && IsGauge(ids, GaugeName(id, role))
    ensures role in Roles
  {
    var k, x :| 0 <= k < |ids| && 0 <= x < |Roles| && GaugeName(id, role) == GaugeName(ids[k], Roles[x]);
    assert role == Roles[x] by {
      RoleHasNoDot(x);
      GaugeNameInjective(id, role, ids[k], Roles[x]);
    }
  }

  /** Every broker ID has a gauge in each of the Roles. */
  lemma RoleRegistered(ids: seq<int>, id: int, role: string)
    requires id in ids && role in Roles
    ensures IsGauge(ids, GaugeName(id, role))
  {
    var k :| 0 <= k < |ids| && ids[k] == id;
    var x :| 0 <= x < |Roles| && Roles[x] == role;
    assert GaugeName(id, role) == GaugeName(ids[k], Roles[x]);
  }

  /**
    Each broker ID has exactly two gauges, one per role, and they differ: among
    role names free of dots, the gauge of `id` in `role` is registered exactly
    when `role` is one of the Roles.
   */
  lemma BrokerGauges(ids: seq<int>, id: int, role: string)
    requires id in ids && '.' !in role
    ensures GaugeName(id, Roles[0]) != GaugeName(id, Roles[1])
    ensures IsGauge(ids, GaugeName(id, role)) <==> role in Roles
  {
    assert GaugeName(id, Roles[0]) != GaugeName(id, Roles[1]) by {
      assert |GaugeName(id, Roles[0])| + 2 == |GaugeName(id, Roles[1])|;
    }
    if IsGauge(ids, GaugeName(id, role)) {
      RegisteredRole(ids, id, role);
    }
    if role in Roles {
      RoleRegistered(ids, id, role);
    }
  }

  // ---------------------------------------------------------------------------
  // Reporting

  /** The name the gauge of `role` is reported under: autothrottle.<role>.replication.throttled.rate */
  function ReportedName(role: string): string
  {
    MetricsNamespace + role + "." + GaugeMetric
  }

  /** Different roles are reported under different names. */
  lemma ReportedNameInjective(r1: string, r2: string)
    requires ReportedName(r1) == ReportedName(r2)
    ensures r1 == r2
  {
    var suffix := "." + GaugeMetric;
    assert ReportedName(r1) == MetricsNamespace + r1 + suffix;
    assert ReportedName(r2) == MetricsNamespace + r2 + suffix;
    SameMiddle(MetricsNamespace, r1, r2, suffix);
  }

  /**
    transformFn: splits `name` at its first five dots, reports the broker's
    segment (the second) as a broker_id tag appended to `tags`, and names the
    metric by the rest (the third segment on) under MetricsNamespace.  A name
    without a dot has no second segment and makes the Go code panic.
   */
  function TransformFn(name: string, tags: seq<string>): (r: (string, seq<string>))
    requires '.' in name
    ensures |r.1| == |tags| + 1 && r.1[..|tags|] == tags
  {
    var parts := SplitN(name, '.', 6);
    (MetricsNamespace + Join(parts[2..], '.'), tags + [BrokerTag(parts[1])])
  }

  /** A name of three dotted parts is its first part, a dot, and the rest, which starts with the second part and a dot. */
  lemma DottedName3(a: string, b: string, tail: string)
    ensures a + "." + b + "." + tail == a + ['.'] + (b + ['.'] + tail)
  {
  }

  /** Prefixing a namespace to `b.c` gives the namespaced `b` followed by `.c`. */
  lemma NamespacedName(a: string, b: string, c: string)
    ensures a + (b + "." + c) == a + b + "." + c
  {
  }

  /**
    A name with exactly one dot: the metric is named by the bare namespace and
    the tag carries everything after the dot.
   */
  lemma TransformTwoParts(a: string, b: string, tags: seq<string>)
    requires '.' !in a && '.' !in b
    ensures '.' in a + ['.'] + b
    ensures TransformFn(a + ['.'] + b, tags) == (MetricsNamespace, tags + [BrokerTag(b)])
  {
    assert (a + ['.'] + b)[|a|] == '.';
    SplitNConcat(a, '.', b, 6);
    assert SplitN(a + ['.'] + b, '.', 6) == [a, b];
    assert MetricsNamespace + [] == MetricsNamespace;
  }

  /**
    A name with two dots or more: the text between the first two dots becomes
    the broker_id tag, and everything after the second dot is kept whole under
    the namespace, however many dots it holds (the limit of six pieces makes
    no difference to the result).
   */
  lemma TransformThreeParts(a: string, b: string, c: string, tags: seq<string>)
    requires '.' !in a && '.' !in b
    ensures '.' in a + ['.'] + (b + ['.'] + c)
    ensures TransformFn(a + ['.'] + (b + ['.'] + c), tags) == (MetricsNamespace + c, tags + [BrokerTag(b)])
  {
    var name := a + ['.'] + (b + ['.'] + c);
    assert '.' in name by {
      assert name[|a|] == '.';
    }
    var parts := SplitN(name, '.', 6);
    SplitNTwoCuts(a, '.', b, c, 6);
    assert parts[1] == b;
    assert parts[2..] == SplitN(c, '.', 4);
    JoinSplitN(c, '.', 4);
  }

  /**
    The gauge of broker `id` in `role` is reported as
    autothrottle.<role>.replication.throttled.rate, tagged broker_id:<id>.
   */
  lemma TransformGaugeName(id: int, role: string, tags: seq<string>)
    requires '.' !in role
    ensures '.' in GaugeName(id, role)
    ensures TransformFn(GaugeName(id, role), tags) == (ReportedName(role), tags + [BrokerTag(Decimal(id))])
  {
    var tail := role + "." + GaugeMetric;
    assert GaugeName(id, role) == "broker" + ['.'] + (Decimal(id) + ['.'] + tail) by {
      DottedName3("broker", Decimal(id), tail);
    }
    assert '.' !in "broker";
    TransformThreeParts("broker", Decimal(id), tail, tags);
    assert MetricsNamespace + tail == ReportedName(role) by {
      NamespacedName(MetricsNamespace, role, GaugeMetric);
    }
  }

  /**
    Every gauge InitAppMetrics registers is reported under the name of one of
    the two roles, tagged with one of the broker IDs.
   */
  lemma RegisteredGaugeReport(ids: seq<int>, name: string, tags: seq<string>)
    requires IsGauge(ids, name)
    ensures '.' in name
    ensures exists k, x ::
      && 0 <= k < |ids| && 0 <= x < |Roles|
      && TransformFn(name, tags) == (ReportedName(Roles[x]), tags + [BrokerTag(Decimal(ids[k]))])
  {
    var k, x :| 0 <= k < |ids| && 0 <= x < |Roles| && name == GaugeName(ids[k], Roles[x]);
    assert TransformFn(name, tags) == (ReportedName(Roles[x]), tags + [BrokerTag(Decimal(ids[k]))]) by {
      RoleHasNoDot(x);
      TransformGaugeName(ids[k], Roles[x], tags);
    }
  }
}
