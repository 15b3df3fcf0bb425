/**
 The Istio watcher: extracting the labels of a metric name in a loop, and keeping the connections
 that new metrics describe until they are flushed.
 */
module IstioWatcher {
  import opened Basics
  import opened Clock
  import opened MetricName
  import opened IstioSpec
  import opened IstioRuns

  datatype Extraction = Connection(connection: ConnectionWithPath) | UnknownGroupName(groupName: string)

  /** Set the field of a label. */
  function WithField(c: ConnectionWithPath, g: string, v: string): (r: ConnectionWithPath)
    requires Known(g)
    ensures forall h | Known(h) :: Field(r, h) == if h == g then v else Field(c, h)
  {
    if g == SOURCE_WORKLOAD then c.(sourceWorkload := v)
    else if g == SOURCE_NAMESPACE then c.(sourceNamespace := v)
    else if g == DESTINATION_WORKLOAD then c.(destinationWorkload := v)
    else if g == DESTINATION_SERVICE_NAME then c.(destinationServiceName := v)
    else if g == DESTINATION_NAMESPACE then c.(destinationNamespace := v)
    else if g == REQUEST_METHOD then c.(requestMethod := v)
    else c.(requestPath := v)
  }

  /** These labels have been read: none of them that is in the name is unknown. */
  ghost predicate HasRead(inputString: string, groupNames: seq<string>, c: ConnectionWithPath) {
    && (forall g | g in groupNames && !Known(g) :: Extract(inputString, g).None?)
    && (forall g | Known(g) :: Field(c, g) == if g in groupNames then ValueOrEmpty(Extract(inputString, g)) else "")
  }

  lemma FoundAt(inputString: string, groupName: string, groupKey: string, i: int)
    requires groupKey == groupName + "." && i == Index(inputString, groupKey)
    ensures i == -1 ==> Extract(inputString, groupName) == None
    ensures i != -1 ==>
              && 0 <= i + |groupKey| <= |inputString|
              && Extract(inputString, groupName) == Some(UpToDot(inputString[i + |groupKey|..]))
  {
  }

  lemma ReadNone(inputString: string)
    ensures HasRead(inputString, [], EMPTY_CONNECTION)
  {
  }

  lemma ReadAbsent(inputString: string, groupNames: seq<string>, n: nat, c: ConnectionWithPath)
    requires n < |groupNames| && HasRead(inputString, groupNames[..n], c)
    requires Extract(inputString, groupNames[n]).None?
    ensures HasRead(inputString, groupNames[..n + 1], c)
  {
    TakeOneMore([], groupNames, n);
  }

  lemma ReadPresent(inputString: string, groupNames: seq<string>, n: nat, c: ConnectionWithPath, v: string)
    requires n < |groupNames| && HasRead(inputString, groupNames[..n], c)
    requires Known(groupNames[n]) && Extract(inputString, groupNames[n]) == Some(v)
    ensures HasRead(inputString, groupNames[..n + 1], WithField(c, groupNames[n], v))
  {
    TakeOneMore([], groupNames, n);
    var groupName, all := groupNames[n], groupNames[..n + 1];
    forall g | Known(g)
      ensures Field(WithField(c, groupName, v), g) == if g in all then ValueOrEmpty(Extract(inputString, g)) else ""
    {
      assert g in all <==> g in groupNames[..n] || g == groupName;
    }
  }

  lemma ReadAll(inputString: string, groupNames: seq<string>, c: ConnectionWithPath)
    requires HasRead(inputString, groupNames[..|groupNames|], c)
    ensures HasRead(inputString, groupNames, c)
  {
    assert groupNames[..|groupNames|] == groupNames;
  }

  /** Read the given labels; a label the watcher has no field for is an error, if it is there. */
  method ExtractRegexGroups(inputString: string, groupNames: seq<string>) returns (r: Extraction)
    ensures r.UnknownGroupName? <==> exists g :: g in groupNames && !Known(g) && Extract(inputString, g).Some?
    ensures r.Connection? ==> forall g | Known(g) ::
              Field(r.connection, g) == if g in groupNames then ValueOrEmpty(Extract(inputString, g)) else ""
  {
    var connection := EMPTY_CONNECTION;
    ReadNone(inputString);
    for n := 0 to |groupNames|
      invariant HasRead(inputString, groupNames[..n], connection)
    {
      var groupName := groupNames[n];
      var groupKey := groupName + ".";
      var groupIndex := Index(inputString, groupKey);
      FoundAt(inputString, groupName, groupKey, groupIndex);
      if groupIndex == -1 {
        ReadAbsent(inputString, groupNames, n, connection);
        continue;
      }
      var groupValue := UpToDot(inputString[groupIndex + |groupKey|..]);
      if !Known(groupName) {
        assert groupName in groupNames;
        return UnknownGroupName(groupName);
      }
      ReadPresent(inputString, groupNames, n, connection, groupValue);
      connection := WithField(connection, groupName, groupValue);
    }
    ReadAll(inputString, groupNames, connection);
    return Connection(connection);
  }

  method HasMissingInfo(c: ConnectionWithPath) returns (missing: bool)
    ensures missing == MissingInfo(c)
  {
    var fields := [c.sourceWorkload, c.sourceNamespace, c.destinationWorkload, c.destinationNamespace];
    for n := 0 to |fields|
      invariant forall i | 0 <= i < n :: !Missing(fields[i])
    {
      if Missing(fields[n]) {
        return true;
      }
    }
    assert !Missing(fields[0]) && !Missing(fields[1]) && !Missing(fields[2]) && !Missing(fields[3]);
    return c.requestPath == "" || c.requestPath == "unknown";
  }

  lemma GroupNamesAreKnown()
    ensures forall g :: g in GROUP_NAMES <==> Known(g)
  {
    var gs := GROUP_NAMES;
    assert gs[0] == SOURCE_WORKLOAD && gs[1] == SOURCE_NAMESPACE && gs[2] == DESTINATION_WORKLOAD;
    assert gs[3] == DESTINATION_SERVICE_NAME && gs[4] == DESTINATION_NAMESPACE && gs[5] == REQUEST_METHOD &&
        gs[6] == REQUEST_PATH;
  }

  /** For the groups the watcher asks for, the only failure is missing information. */
  method BuildConnectionFromMetric(metric: Metric) returns (r: Option<ConnectionWithPath>)
    ensures r == Built(metric.name)
  {
    GroupNamesAreKnown();
    var conn := ExtractRegexGroups(metric.name, GROUP_NAMES);
    assert Describes(metric.name, conn.connection);
    DescribesParsed(metric.name, conn.connection);
    var missing := HasMissingInfo(conn.connection);
    return if missing then None else Some(conn.connection);
  }

  ghost function Flat(batches: seq<seq<Metric>>): seq<Metric> {
    if batches == [] then [] else Flat(Before(batches)) + Last(batches)
  }

  /** The log is `base` and then these metrics, in this order. */
  ghost predicate Sees(log: seq<Event<ConnectionWithPath>>, base: seq<Event<ConnectionWithPath>>, metrics: seq<Metric>)
    decreases |metrics|
  {
    if metrics == [] then log == base
    else log != [] && Last(log).Seen? && Last(log).metric == Last(metrics) && Sees(Before(log), base, Before(metrics))
  }

  lemma SeesNext(log: seq<Event<ConnectionWithPath>>, base: seq<Event<ConnectionWithPath>>, metrics: seq<Metric>,
                 m: Metric)
    requires log != [] && Sees(Before(log), base, metrics) && Last(log).Seen? && Last(log).metric == m
    ensures Sees(log, base, metrics + [m])
  {
    assert Before(metrics + [m]) == metrics;
  }

  /** Every metric in the log says what its name spells out. */
  ghost predicate Truthful(log: seq<Event<ConnectionWithPath>>) {
    forall e | e in log && e.Seen? :: e.built == Built(e.metric.name)
  }

  /** Kept is the last value of every metric ever seen. */
  ghost predicate Remembers(metricsCount: map<string, int>, log: seq<Event<ConnectionWithPath>>) {
    forall name :: At(metricsCount, name) == LastValue(log, name)
  }

  lemma RemembersNext(metricsCount: map<string, int>, log: seq<Event<ConnectionWithPath>>, metric: Metric,
                      built: Option<ConnectionWithPath>, at: int)
    requires Remembers(metricsCount, log)
    ensures Remembers(metricsCount[metric.name := metric.value], log + [Seen(metric, built, at)])
  {
    NextSeen(log, metric, built, at);
  }

  lemma TruthfulFlush(log: seq<Event<ConnectionWithPath>>)
    requires Truthful(log)
    ensures Truthful(log + [Flushed])
  {
  }

  lemma TruthfulNext(log: seq<Event<ConnectionWithPath>>, metric: Metric, at: int)
    requires Truthful(log)
    ensures Truthful(log + [Seen(metric, Built(metric.name), at)])
  {
  }

  class IstioWatcher {
    const clock: WallClock
    var connections: map<ConnectionWithPath, int>
    /** Keyed in the original by a hash of the name. */
    var metricsCount: map<string, int>
    ghost var log: seq<Event<ConnectionWithPath>>

    ghost predicate Valid()
      reads this
    {
      && Truthful(log)
      && connections == Pending(log)
      && Remembers(metricsCount, log)
    }

    constructor (clock: WallClock)
      ensures Valid() && log == [] && this.clock == clock
    {
      this.clock, connections, metricsCount, log := clock, map[], map[], [];
    }

    /** Hand over what is pending; the values of the metrics are kept. */
    method Flush() returns (r: map<ConnectionWithPath, int>)
      requires Valid()
      modifies this
      ensures Valid() && log == old(log) + [Flushed]
      ensures r == Pending(old(log)) && connections == map[]
    {
      r := connections;
      connections := map[];
      log := log + [Flushed];
      assert Before(log) == old(log);
      TruthfulFlush(old(log));
    }

    method IsMetricNew(metric: Metric) returns (isNew: bool)
      requires Valid()
      modifies this`metricsCount
      ensures isNew == IsNew(log, metric)
      ensures isNew <==> old(metric.name !in metricsCount || metricsCount[metric.name] != metric.value)
      ensures metricsCount == old(metricsCount)[metric.name := metric.value]
    {
      assert At(metricsCount, metric.name) == LastValue(log, metric.name);
      if metric.name !in metricsCount || metricsCount[metric.name] != metric.value {
        metricsCount := metricsCount[metric.name := metric.value];
        return true;
      }
      return false;
    }

    method ConvertMetric(metric: Metric)
      requires Valid()
      modifies this, clock
      ensures Valid()
      ensures log != [] && Before(log) == old(log) && Last(log).Seen? && Last(log).metric == metric
      ensures old(clock.now) <= Last(log).at == clock.now
    {
      ghost var h, built := log, Built(metric.name);
      var isNew := IsMetricNew(metric);
      if isNew {
        var conn := BuildConnectionFromMetric(metric);
        if conn.Some? {
          var now := clock.Read();
          connections := connections[conn.value := now];
        }
      }
      log := log + [Seen(metric, built, clock.now)];
      NextSeen(h, metric, built, clock.now);
      RemembersNext(old(metricsCount), h, metric, built, clock.now);
      TruthfulNext(h, metric, clock.now);
    }

    /** Take every batch the sidecars send, until the channel is closed. */
    method ConvertMetricsToConnections(batches: seq<seq<Metric>>)
      requires Valid()
      modifies this, clock
      ensures Valid() && Sees(log, old(log), Flat(batches))
    {
      for n := 0 to |batches|
        invariant Valid() && Sees(log, old(log), Flat(batches[..n]))
      {
        assert Before(batches[..n + 1]) == batches[..n];
        ConvertBatch(batches[n], old(log), Flat(batches[..n]));
      }
      assert batches[..|batches|] == batches;
    }

    method ConvertBatch(stats: seq<Metric>, ghost base: seq<Event<ConnectionWithPath>>, ghost earlier: seq<Metric>)
      requires Valid() && Sees(log, base, earlier)
      modifies this, clock
      ensures Valid() && Sees(log, base, earlier + stats)
    {
      assert earlier + stats[..0] == earlier;
      for n := 0 to |stats|
        invariant Valid() && Sees(log, base, earlier + stats[..n])
      {
        ConvertMetric(stats[n]);
        SeesNext(log, base, earlier + stats[..n], stats[n]);
        TakeOneMore(earlier, stats, n);
      }
      assert stats[..|stats|] == stats;
    }
  }
}
