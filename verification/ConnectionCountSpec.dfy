/**
 Counting concurrent connections as values: one counter fed by the intents of a window, and the
 difference between two windows.
 */
module ConnectionCountSpec {
  import opened Basics

  const SOCKET_SCAN_SERVICE_INTENT_RESOLUTION := "addSocketScanServiceIntent"
  const SOCKET_SCAN_POD_INTENT_RESOLUTION := "addSocketScanPodIntent"
  const TCP_TRAFFIC_INTENT_RESOLUTION := "handleInternalTrafficTCPResult"
  const DNS_TRAFFIC_INTENT_RESOLUTION := "handleDNSCaptureResultsAsKubernetesPods"

  predicate ShouldCountUsingSrcPortMethod(resolution: Option<string>) {
    resolution.Some? &&
    (resolution.value == SOCKET_SCAN_SERVICE_INTENT_RESOLUTION ||
     resolution.value == SOCKET_SCAN_POD_INTENT_RESOLUTION ||
     resolution.value == TCP_TRAFFIC_INTENT_RESOLUTION)
  }

  predicate ShouldCountUsingDNSMethod(resolution: Option<string>) {
    resolution.Some? && resolution.value == DNS_TRAFFIC_INTENT_RESOLUTION
  }

  /** An intent as its counter sees it: how it asks to be counted, and its source ports. */
  datatype Input = Input(bySrcPort: bool, byDns: bool, sourcePorts: seq<int>)

  datatype CountMethod = Unset | DNS | SourcePort

  datatype Counter = Counter(sourcePorts: set<int>, dnsCounter: nat, countMethod: CountMethod)

  const NEW_COUNTER := Counter({}, 0, Unset)

  ghost function AfterAdd(c: Counter, i: Input): Counter {
    if i.bySrcPort then c.(countMethod := SourcePort, sourcePorts := c.sourcePorts + Members(i.sourcePorts))
    else if c.countMethod != SourcePort && i.byDns then c.(countMethod := DNS, dnsCounter := c.dnsCounter + 1)
    else c
  }

  ghost function Counted(inputs: seq<Input>): Counter {
    if inputs == [] then NEW_COUNTER else AfterAdd(Counted(Before(inputs)), Last(inputs))
  }

  function Count(c: Counter): Option<nat> {
    match c.countMethod
    case SourcePort => Some(|c.sourcePorts|)
    case DNS => Some(c.dnsCounter)
    case Unset => None
  }

  // ----- One counter, whatever the order of its inputs -----

  ghost function AllPorts(inputs: seq<Input>): set<int> {
    set i, p | 0 <= i < |inputs| && inputs[i].bySrcPort && p in inputs[i].sourcePorts :: p
  }

  ghost predicate AnyBySrcPort(inputs: seq<Input>) {
    exists i :: i in inputs && i.bySrcPort
  }

  ghost function DnsInputs(inputs: seq<Input>): nat {
    if inputs == [] then 0 else DnsInputs(Before(inputs)) + if Last(inputs).byDns then 1 else 0
  }

  lemma AllPortsGrow(inputs: seq<Input>, i: Input)
    ensures AllPorts(inputs + [i]) == AllPorts(inputs) + if i.bySrcPort then Members(i.sourcePorts) else {}
  {
    var all := inputs + [i];
    forall p | p in AllPorts(all) ensures p in AllPorts(inputs) + if i.bySrcPort then Members(i.sourcePorts) else {} {
      var j :| 0 <= j < |all| && all[j].bySrcPort && p in all[j].sourcePorts;
      assert j < |inputs| ==> inputs[j] == all[j];
    }
    forall p | p in AllPorts(inputs) ensures p in AllPorts(all) {
      var j :| 0 <= j < |inputs| && inputs[j].bySrcPort && p in inputs[j].sourcePorts;
      assert all[j] == inputs[j];
    }
    if i.bySrcPort {
      forall p | p in Members(i.sourcePorts) ensures p in AllPorts(all) {
        assert all[|inputs|] == i && p in all[|inputs|].sourcePorts;
      }
    }
  }

  /** What a counter holds, without reference to the order of its inputs: source ports win over
      DNS, and only the count of the method in force matters. */
  lemma {:induction false} CountedExactly(inputs: seq<Input>)
    ensures var c := Counted(inputs);
            && c.sourcePorts == AllPorts(inputs)
            && (c.countMethod == SourcePort <==> AnyBySrcPort(inputs))
            && (c.countMethod == Unset <==> !AnyBySrcPort(inputs) && DnsInputs(inputs) == 0)
            && (c.countMethod != SourcePort ==> c.dnsCounter == DnsInputs(inputs))
  {
    if inputs == [] {
      assert AllPorts(inputs) == {};
    } else {
      CountedExactly(Before(inputs));
      AllPortsGrow(Before(inputs), Last(inputs));
      assert inputs == Before(inputs) + [Last(inputs)];
      assert Last(inputs) in inputs;
      assert forall i | i in inputs :: i in Before(inputs) || i == Last(inputs);
      assert forall i | i in Before(inputs) :: i in inputs;
      assert AnyBySrcPort(inputs) <==> AnyBySrcPort(Before(inputs)) || Last(inputs).bySrcPort;
    }
  }

  /** So what is counted is the number of distinct source ports if any intent counts by them, and otherwise
      the number of DNS intents, if there are any. */
  lemma CountExactly(inputs: seq<Input>)
    ensures Count(Counted(inputs)) ==
              if AnyBySrcPort(inputs) then Some(|AllPorts(inputs)|)
              else if DnsInputs(inputs) > 0 then Some(DnsInputs(inputs))
              else None
  {
    CountedExactly(inputs);
  }

  function Rank(m: CountMethod): nat {
    match m
    case Unset => 0
    case DNS => 1
    case SourcePort => 2
  }

  /** Over any sequence of inputs, the method of a counter only moves from Unset to DNS to SourcePort. */
  lemma {:induction false} MethodOnlyAdvances(inputs: seq<Input>, more: seq<Input>)
    ensures Rank(Counted(inputs).countMethod) <= Rank(Counted(inputs + more).countMethod)
  {
    if more == [] {
      assert inputs + more == inputs;
    } else {
      assert Before(inputs + more) == inputs + Before(more);
      MethodOnlyAdvances(inputs, Before(more));
    }
  }

  lemma {:induction false} DnsInputsWithout(inputs: seq<Input>, k: nat)
    requires k < |inputs|
    ensures DnsInputs(inputs) == DnsInputs(inputs[..k] + inputs[k + 1..]) + if inputs[k].byDns then 1 else 0
  {
    if k == |inputs| - 1 {
      assert inputs[..k] + inputs[k + 1..] == Before(inputs);
    } else {
      DnsInputsWithout(Before(inputs), k);
      assert Before(inputs)[..k] + Before(inputs)[k + 1..] == Before(inputs[..k] + inputs[k + 1..]);
      assert Last(inputs[..k] + inputs[k + 1..]) == Last(inputs);
    }
  }

  lemma {:induction false} DnsInputsOfPermutation(inputs: seq<Input>, other: seq<Input>)
    requires multiset(inputs) == multiset(other)
    ensures DnsInputs(inputs) == DnsInputs(other)
  {
    if inputs == [] {
      assert |other| == |multiset(other)| == 0;
    } else {
      var k := PositionOfLast(inputs, other);
      DnsInputsOfPermutation(Before(inputs), other[..k] + other[k + 1..]);
      DnsInputsWithout(other, k);
    }
  }

  /** The part of a counter that anything reported depends on. */
  ghost predicate SameCount(c: Counter, d: Counter) {
    && c.countMethod == d.countMethod
    && c.sourcePorts == d.sourcePorts
    && (c.countMethod == DNS ==> c.dnsCounter == d.dnsCounter)
  }

  /** Inputs may arrive in any order. */
  lemma OrderDoesNotMatter(inputs: seq<Input>, other: seq<Input>)
    requires multiset(inputs) == multiset(other)
    ensures SameCount(Counted(inputs), Counted(other))
    ensures Count(Counted(inputs)) == Count(Counted(other))
  {
    CountedExactly(inputs);
    CountedExactly(other);
    DnsInputsOfPermutation(inputs, other);
    assert forall i :: i in inputs <==> i in multiset(inputs);
    assert forall i :: i in other <==> i in multiset(other);
    PortsByMembership(inputs, other);
    PortsByMembership(other, inputs);
  }

  lemma PortsByMembership(inputs: seq<Input>, other: seq<Input>)
    requires forall i | i in inputs :: i in other
    ensures AllPorts(inputs) <= AllPorts(other)
  {
    forall p | p in AllPorts(inputs) ensures p in AllPorts(other) {
      var j :| 0 <= j < |inputs| && inputs[j].bySrcPort && p in inputs[j].sourcePorts;
      assert inputs[j] in other;
    }
  }

  // ----- The difference between two windows -----

  datatype ConnectionsCount = ConnectionsCount(current: int, added: int, removed: int)

  function CounterDiff(cur: Counter, prev: Counter): Option<ConnectionsCount> {
    if cur.countMethod == Unset || prev.countMethod == Unset then None
    else if cur.countMethod != prev.countMethod || cur.countMethod == DNS then
      Some(ConnectionsCount(Count(cur).value, Count(cur).value, Count(prev).value))
    else
      Some(ConnectionsCount(|cur.sourcePorts|, |cur.sourcePorts - prev.sourcePorts|,
                            |prev.sourcePorts - cur.sourcePorts|))
  }

  /** The difference for one key; an absent counter stands for a window without it. */
  function Diff(cur: Option<Counter>, prev: Option<Counter>): Option<ConnectionsCount> {
    if cur.Some? && prev.None? then
      if Count(cur.value).Some? then Some(ConnectionsCount(Count(cur.value).value, Count(cur.value).value, 0)) else None
    else if cur.None? && prev.Some? then
      if Count(prev.value).Some? then Some(ConnectionsCount(0, 0, Count(prev.value).value)) else None
    else if cur.Some? && prev.Some? then CounterDiff(cur.value, prev.value)
    else None
  }

  ghost predicate Countable(c: Option<Counter>) {
    c.Some? ==> Count(c.value).Some?
  }

  ghost function CountIn(c: Option<Counter>): nat {
    if c.Some? && Count(c.value).Some? then Count(c.value).value else 0
  }

  /** A difference is reported exactly when some window has the key and each that has it counts;
      it then accounts for the change, and between windows that both count ports it is the exact
      number of ports gained and lost. */
  lemma DiffConserves(cur: Option<Counter>, prev: Option<Counter>)
    ensures Diff(cur, prev).Some? <==> (cur.Some? || prev.Some?) && Countable(cur) && Countable(prev)
    ensures Diff(cur, prev).Some? ==>
              var d := Diff(cur, prev).value;
              && d.current == CountIn(cur)
              && CountIn(prev) + d.added - d.removed == d.current
              && 0 <= d.added <= d.current && 0 <= d.removed <= CountIn(prev)
    ensures Diff(cur, prev).Some? && cur.Some? && prev.Some? &&
              cur.value.countMethod == SourcePort && prev.value.countMethod == SourcePort ==>
              && Diff(cur, prev).value.added == |cur.value.sourcePorts - prev.value.sourcePorts|
              && Diff(cur, prev).value.removed == |prev.value.sourcePorts - cur.value.sourcePorts|
  {
    if cur.Some? && prev.Some? {
      SetSizes(cur.value.sourcePorts, prev.value.sourcePorts);
    }
  }

  /** The counter of a window that was fed with these inputs; there is none if there were no inputs. */
  ghost function Fed(inputs: seq<Input>): Option<Counter> {
    if inputs == [] then None else Some(Counted(inputs))
  }

  /** There are intents in the window, and none of them counts. */
  ghost predicate NoneCounts(inputs: seq<Input>) {
    inputs != [] && !AnyBySrcPort(inputs) && DnsInputs(inputs) == 0
  }

  /** Distinct source ports, or else DNS intents. */
  ghost function Connections(inputs: seq<Input>): nat {
    if AnyBySrcPort(inputs) then |AllPorts(inputs)| else DnsInputs(inputs)
  }

  /** The difference between two windows in terms of their inputs, for every pair of methods. */
  lemma DiffExactly(inputs: seq<Input>, before: seq<Input>)
    ensures Diff(Fed(inputs), Fed(before)) ==
              if (inputs == [] && before == []) || NoneCounts(inputs) || NoneCounts(before) then None
              else if AnyBySrcPort(inputs) && AnyBySrcPort(before) then
                var now, earlier := AllPorts(inputs), AllPorts(before);
                Some(ConnectionsCount(|now|, |now - earlier|, |earlier - now|))
              else Some(ConnectionsCount(Connections(inputs), Connections(inputs), Connections(before)))
  {
    CountedExactly(inputs);
    CountedExactly(before);
  }

  lemma SetSizes(a: set<int>, b: set<int>)
    ensures |a - b| + |a * b| == |a| && |b - a| + |a * b| == |b|
  {
    assert (a - b) + a * b == a && (b - a) + a * b == b;
  }

  // ----- Sums over windows -----

  ghost function Change(cur: Option<Counter>, prev: Option<Counter>): int {
    if Diff(cur, prev).Some? then Diff(cur, prev).value.added - Diff(cur, prev).value.removed else 0
  }

  ghost function LastOr(windows: seq<Option<Counter>>): Option<Counter> {
    if windows == [] then None else Last(windows)
  }

  /** The running sum when the key is diffed at the end of every window. */
  ghost function RunningSum(windows: seq<Option<Counter>>): int {
    if windows == [] then 0 else RunningSum(Before(windows)) + Change(Last(windows), LastOr(Before(windows)))
  }

  /** The running sum of what the intents holder reports: it only asks for keys that have an
      intent in the current window. */
  ghost function ReportedSum(windows: seq<Option<Counter>>): int {
    if windows == [] then 0
    else ReportedSum(Before(windows)) +
         if Last(windows).Some? then Change(Last(windows), LastOr(Before(windows))) else 0
  }

  /** The connections of windows whose next window does not count the key, or does not have it. */
  ghost function Unreported(windows: seq<Option<Counter>>): nat {
    if windows == [] then 0
    else Unreported(Before(windows)) + if Counts(Last(windows)) then 0 else CountIn(LastOr(Before(windows)))
  }

  /** The connections of windows that follow one which has the key and does not count it. */
  ghost function Unannounced(windows: seq<Option<Counter>>): nat {
    if windows == [] then 0
    else Unannounced(Before(windows)) + if Countable(LastOr(Before(windows))) then 0 else CountIn(Last(windows))
  }

  ghost predicate Counts(c: Option<Counter>) {
    c.Some? && Count(c.value).Some?
  }

  ghost predicate AllCountable(windows: seq<Option<Counter>>) {
    forall i | 0 <= i < |windows| :: Countable(windows[i])
  }

  /** Diffed every window, the changes add up to the current count. */
  lemma {:induction false} RunningSumIsCurrent(windows: seq<Option<Counter>>)
    requires AllCountable(windows)
    ensures RunningSum(windows) == CountIn(LastOr(windows))
  {
    if windows != [] {
      RunningSumIsCurrent(Before(windows));
      assert Countable(windows[|windows| - 1]);
      assert Before(windows) != [] ==> Countable(windows[|windows| - 2]);
      DiffConserves(Last(windows), LastOr(Before(windows)));
    }
  }

  /** What the holder reports adds up to the current count, plus every connection it never reported
      as removed, less every one it never reported as added. */
  lemma {:induction false} ReportedSumExactly(windows: seq<Option<Counter>>)
    ensures ReportedSum(windows) == CountIn(LastOr(windows)) + Unreported(windows) - Unannounced(windows)
  {
    if windows != [] {
      ReportedSumExactly(Before(windows));
      DiffConserves(Last(windows), LastOr(Before(windows)));
    }
  }

  /** So the reported changes add up to the current count exactly when these two are equal. */
  lemma ReportedSumIsCurrentIff(windows: seq<Option<Counter>>)
    ensures ReportedSum(windows) == CountIn(LastOr(windows)) <==> Unreported(windows) == Unannounced(windows)
  {
    ReportedSumExactly(windows);
  }

  /** At the end of every window the reported changes have added up to its count. */
  ghost predicate AlwaysCurrent(windows: seq<Option<Counter>>) {
    forall n | 0 <= n <= |windows| :: ReportedSum(windows[..n]) == CountIn(LastOr(windows[..n]))
  }

  /** No window with connections is followed by one that does not count the key, and none that has the key
      without counting it by one with connections. */
  ghost predicate NoGaps(windows: seq<Option<Counter>>) {
    forall i | 0 < i < |windows| :: Continues(windows[i - 1], windows[i])
  }

  ghost predicate Continues(prev: Option<Counter>, cur: Option<Counter>) {
    (Counts(cur) || CountIn(prev) == 0) && (Countable(prev) || CountIn(cur) == 0)
  }

  lemma AlwaysCurrentMore(windows: seq<Option<Counter>>)
    requires windows != []
    ensures AlwaysCurrent(windows)
            <==> AlwaysCurrent(Before(windows)) && ReportedSum(windows) == CountIn(LastOr(windows))
  {
    assert forall n | 0 <= n <= |windows| - 1 :: Before(windows)[..n] == windows[..n];
    assert windows[..|windows|] == windows;
  }

  lemma NoGapsMore(windows: seq<Option<Counter>>)
    requires windows != []
    ensures NoGaps(windows) <==> NoGaps(Before(windows)) && Continues(LastOr(Before(windows)), Last(windows))
  {
    var n := |windows| - 1;
    assert forall i | 0 <= i < n :: Before(windows)[i] == windows[i];
    if NoGaps(windows) && n > 0 {
      assert Continues(windows[n - 1], windows[n]);
    }
  }

  /** This is so exactly if no two consecutive windows leave a gap. */
  lemma {:induction false} AlwaysCurrentIff(windows: seq<Option<Counter>>)
    ensures AlwaysCurrent(windows) <==> NoGaps(windows)
  {
    if windows != [] {
      AlwaysCurrentIff(Before(windows));
      AlwaysCurrentMore(windows);
      NoGapsMore(windows);
      ReportedSumExactly(Before(windows));
      ReportedSumExactly(windows);
      assert Before(windows)[..|windows| - 1] == Before(windows);
    }
  }

  lemma {:induction false} UnreportedExactly(windows: seq<Option<Counter>>)
    ensures Unreported(windows) == 0 <==>
            forall i | 0 < i < |windows| && !Counts(windows[i]) :: CountIn(windows[i - 1]) == 0
  {
    if windows != [] {
      var before := Before(windows);
      UnreportedExactly(before);
      assert forall i | 0 <= i < |before| :: windows[i] == before[i];
      assert |windows| > 1 ==> LastOr(before) == windows[|windows| - 2];
    }
  }

  lemma {:induction false} NothingUnannounced(windows: seq<Option<Counter>>)
    requires forall i | 0 < i < |windows| && !Countable(windows[i - 1]) :: CountIn(windows[i]) == 0
    ensures Unannounced(windows) == 0
  {
    if windows != [] {
      var before := Before(windows);
      assert forall i | 0 <= i < |before| :: windows[i] == before[i];
      NothingUnannounced(before);
      if !Countable(LastOr(before)) {
        assert LastOr(before) == windows[|windows| - 2] && CountIn(windows[|windows| - 1]) == 0;
      }
    }
  }

  /** Unless a window that counts directly follows one that has the key and does not count it, the
      sums agree exactly when no window with connections is followed by one that does not count. */
  lemma ReportedSumIsCurrentWhenCounted(windows: seq<Option<Counter>>)
    requires forall i | 0 < i < |windows| && !Countable(windows[i - 1]) :: CountIn(windows[i]) == 0
    ensures ReportedSum(windows) == CountIn(LastOr(windows)) <==>
            forall i | 0 < i < |windows| && !Counts(windows[i]) :: CountIn(windows[i - 1]) == 0
  {
    ReportedSumExactly(windows);
    UnreportedExactly(windows);
    NothingUnannounced(windows);
  }

  /** The condition does fail: a key with three connections, then absent, then back with two. */
  lemma ReportedSumCanDrift()
    ensures var w := [Some(Counter({1, 2, 3}, 0, SourcePort)), None, Some(Counter({1, 2}, 0, SourcePort))];
            AllCountable(w) && CountIn(LastOr(w)) == 2 && ReportedSum(w) == 5
  {
    var a, c := Some(Counter({1, 2, 3}, 0, SourcePort)), Some(Counter({1, 2}, 0, SourcePort));
    var w: seq<Option<Counter>> := [a, None, c];
    assert Before(w) == [a, None] && Before([a, None]) == [a] && Before([a]) == [];
    assert |{1, 2, 3}| == 3 && |{1, 2}| == 2;
    ReportedSumExactly(w);
    assert CountIn(a) == 3 && CountIn(LastOr([a])) == 3;
    assert Unreported([a]) == 0;
    assert Unreported([a, None]) == 3;
    assert Unannounced([a]) == 0 && Unannounced([a, None]) == 0 && Unannounced(w) == 0;
  }
}
