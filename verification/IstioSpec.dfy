/** The connection that the name of a metric describes. */
module IstioSpec {
  import opened Basics
  import opened MetricName

  const SOURCE_WORKLOAD := "source_workload"
  const SOURCE_NAMESPACE := "source_workload_namespace"
  const DESTINATION_WORKLOAD := "destination_workload"
  const DESTINATION_SERVICE_NAME := "destination_service_name"
  const DESTINATION_NAMESPACE := "destination_workload_namespace"
  const REQUEST_METHOD := "request_method"
  const REQUEST_PATH := "request_path"

  const GROUP_NAMES := [SOURCE_WORKLOAD, SOURCE_NAMESPACE, DESTINATION_WORKLOAD, DESTINATION_SERVICE_NAME,
                       DESTINATION_NAMESPACE, REQUEST_METHOD, REQUEST_PATH]

  datatype ConnectionWithPath = ConnectionWithPath(
    sourceWorkload: string, sourceNamespace: string,
    destinationWorkload: string, destinationServiceName: string, destinationNamespace: string,
    requestPath: string, requestMethod: string)

  const EMPTY_CONNECTION := ConnectionWithPath("", "", "", "", "", "", "")

  predicate Known(g: string) {
    || g == SOURCE_WORKLOAD || g == SOURCE_NAMESPACE
    || g == DESTINATION_WORKLOAD || g == DESTINATION_SERVICE_NAME || g == DESTINATION_NAMESPACE
    || g == REQUEST_METHOD || g == REQUEST_PATH
  }

  ghost function Field(c: ConnectionWithPath, g: string): string
    requires Known(g)
  {
    if g == SOURCE_WORKLOAD then c.sourceWorkload
    else if g == SOURCE_NAMESPACE then c.sourceNamespace
    else if g == DESTINATION_WORKLOAD then c.destinationWorkload
    else if g == DESTINATION_SERVICE_NAME then c.destinationServiceName
    else if g == DESTINATION_NAMESPACE then c.destinationNamespace
    else if g == REQUEST_METHOD then c.requestMethod
    else c.requestPath
  }

  ghost function ValueOrEmpty(o: Option<string>): string {
    if o.Some? then o.value else ""
  }

  /** Every field holds what the metric name says under its label, or is empty. */
  ghost predicate Describes(name: string, c: ConnectionWithPath) {
    forall g | Known(g) :: Field(c, g) == ValueOrEmpty(Extract(name, g))
  }

  /** The connection that the labels of a metric name spell out. */
  ghost function Parsed(name: string): ConnectionWithPath {
    ConnectionWithPath(
      ValueOrEmpty(Extract(name, SOURCE_WORKLOAD)), ValueOrEmpty(Extract(name, SOURCE_NAMESPACE)),
      ValueOrEmpty(Extract(name, DESTINATION_WORKLOAD)), ValueOrEmpty(Extract(name, DESTINATION_SERVICE_NAME)),
      ValueOrEmpty(Extract(name, DESTINATION_NAMESPACE)), ValueOrEmpty(Extract(name, REQUEST_PATH)),
      ValueOrEmpty(Extract(name, REQUEST_METHOD)))
  }

  /** Each field holds what the name says under the label of that field, or is empty. */
  lemma ParsedExactly(name: string)
    ensures var c := Parsed(name);
            && c.sourceWorkload == ValueOrEmpty(Extract(name, "source_workload"))
            && c.sourceNamespace == ValueOrEmpty(Extract(name, "source_workload_namespace"))
            && c.destinationWorkload == ValueOrEmpty(Extract(name, "destination_workload"))
            && c.destinationServiceName == ValueOrEmpty(Extract(name, "destination_service_name"))
            && c.destinationNamespace == ValueOrEmpty(Extract(name, "destination_workload_namespace"))
            && c.requestMethod == ValueOrEmpty(Extract(name, "request_method"))
            && c.requestPath == ValueOrEmpty(Extract(name, "request_path"))
  {
  }

  lemma GroupsDiffer()
    ensures forall i, j | 0 <= i < j < |GROUP_NAMES| :: GROUP_NAMES[i] != GROUP_NAMES[j]
  {
    assert |SOURCE_WORKLOAD| == 15 && |SOURCE_NAMESPACE| == 25 && |DESTINATION_WORKLOAD| == 20;
    assert |DESTINATION_SERVICE_NAME| == 24 && |DESTINATION_NAMESPACE| == 30;
    assert |REQUEST_METHOD| == 14 && |REQUEST_PATH| == 12;
  }

  lemma FieldsAreAll(c: ConnectionWithPath, d: ConnectionWithPath)
    requires forall g | Known(g) :: Field(c, g) == Field(d, g)
    ensures c == d
  {
    GroupsDiffer();
    var gs := GROUP_NAMES;
    assert gs[0] == SOURCE_WORKLOAD && gs[1] == SOURCE_NAMESPACE && gs[2] == DESTINATION_WORKLOAD;
    assert gs[3] == DESTINATION_SERVICE_NAME && gs[4] == DESTINATION_NAMESPACE && gs[5] == REQUEST_METHOD &&
        gs[6] == REQUEST_PATH;
    assert forall i | 0 <= i < 7 :: Known(gs[i]);
    assert forall i | 0 <= i < 7 :: Field(c, gs[i]) == Field(d, gs[i]);
  }

  lemma DescribesParsed(name: string, c: ConnectionWithPath)
    ensures Describes(name, c) <==> c == Parsed(name)
  {
    GroupsDiffer();
    var gs := GROUP_NAMES;
    assert gs[0] == SOURCE_WORKLOAD && gs[1] == SOURCE_NAMESPACE && gs[2] == DESTINATION_WORKLOAD;
    assert gs[3] == DESTINATION_SERVICE_NAME && gs[4] == DESTINATION_NAMESPACE && gs[5] == REQUEST_METHOD &&
        gs[6] == REQUEST_PATH;
    assert Describes(name, Parsed(name));
    if Describes(name, c) {
      FieldsAreAll(c, Parsed(name));
    }
  }

  /** A metric name that lists each of the seven groups once, as a label whose value is one token,
      and in which nothing else ends with the name of a group. */
  ghost predicate WellFormed(prefix: seq<string>, labels: seq<Label>, c: ConnectionWithPath) {
    && AllDotFree(Tokens(prefix, labels))
    && (forall g | Known(g) :: Label(g, [Field(c, g)]) in labels)
    && (forall i, j | 0 <= i < j < |labels| :: labels[i].name != labels[j].name)
    && (forall l, g | l in labels && Known(g) :: NoneEndsWith(l.value, g) && (EndsWith(l.name, g) ==> l.name == g))
    && (forall g | Known(g) :: NoneEndsWith(prefix, g))
  }

  lemma {:induction false} EarlierLabelsDiffer(prefix: seq<string>, labels: seq<Label>, g: string)
    requires NoneEndsWith(prefix, g)
    requires forall l | l in labels :: NoneEndsWith(l.value, g) && !EndsWith(l.name, g)
    ensures NoneEndsWith(Tokens(prefix, labels), g)
  {
    if labels != [] {
      assert Last(labels) in labels && forall l | l in Before(labels) :: l in labels;
      EarlierLabelsDiffer(prefix, Before(labels), g);
    }
  }

  /** Well-formed metric names are read back exactly. */
  lemma RoundTrip(prefix: seq<string>, labels: seq<Label>, c: ConnectionWithPath)
    requires WellFormed(prefix, labels, c)
    ensures Parsed(Join(Tokens(prefix, labels))) == c
  {
    var name := Join(Tokens(prefix, labels));
    forall g | Known(g) ensures Extract(name, g) == Some(Field(c, g)) {
      var k :| 0 <= k < |labels| && labels[k] == Label(g, [Field(c, g)]);
      forall l | l in labels[..k] ensures NoneEndsWith(l.value, g) && !EndsWith(l.name, g) {
        var i :| 0 <= i < k && labels[i] == l;
        assert labels[i].name != labels[k].name;
      }
      EarlierLabelsDiffer(prefix, labels[..k], g);
      ReadsUpToTheFirstDot(prefix, labels, k);
    }
    DescribesParsed(name, c);
  }

  predicate Missing(field: string) {
    field == "" || Contains(field, "unknown")
  }

  ghost predicate MissingInfo(c: ConnectionWithPath) {
    || Missing(c.sourceWorkload) || Missing(c.sourceNamespace)
    || Missing(c.destinationWorkload) || Missing(c.destinationNamespace)
    || c.requestPath == "" || c.requestPath == "unknown"
  }

  /** Empty, or with the word in it. */
  ghost predicate Lacking(field: string) {
    field == "" || exists a, b :: field == a + "unknown" + b
  }

  /** Information is missing if this is so of a workload or a namespace, or the path is empty or is the word. */
  lemma MissingInfoExactly(c: ConnectionWithPath)
    ensures MissingInfo(c) <==>
            || Lacking(c.sourceWorkload) || Lacking(c.sourceNamespace)
            || Lacking(c.destinationWorkload) || Lacking(c.destinationNamespace)
            || c.requestPath == "" || c.requestPath == "unknown"
  {
    ContainsIff(c.sourceWorkload, "unknown");
    ContainsIff(c.sourceNamespace, "unknown");
    ContainsIff(c.destinationWorkload, "unknown");
    ContainsIff(c.destinationNamespace, "unknown");
  }

  /** The connection a metric reports, if it has all it needs. */
  ghost function Built(name: string): Option<ConnectionWithPath> {
    if MissingInfo(Parsed(name)) then None else Some(Parsed(name))
  }

  /** Nothing is reported exactly if a value the name gives for a workload or a namespace is lacking, or the path
      is empty or the word. */
  lemma BuiltExactly(name: string)
    ensures Built(name).None? <==>
            || Lacking(ValueOrEmpty(Extract(name, "source_workload")))
            || Lacking(ValueOrEmpty(Extract(name, "source_workload_namespace")))
            || Lacking(ValueOrEmpty(Extract(name, "destination_workload")))
            || Lacking(ValueOrEmpty(Extract(name, "destination_workload_namespace")))
            || ValueOrEmpty(Extract(name, "request_path")) in {"", "unknown"}
    ensures Built(name).Some? ==> Built(name).value == Parsed(name)
  {
    ParsedExactly(name);
    MissingInfoExactly(Parsed(name));
  }
}
