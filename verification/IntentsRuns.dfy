/**
 The intents holder over every run of added intents, resets and drains: what each store holds,
 how the drained windows relate to the accumulating store, and how the connection counters stay
 in step.
 */
module IntentsRuns {
  import opened Basics
  import opened IntentsSpec
  import opened ConnectionCountSpec

  datatype Event =
    | Added(add: Add, sourcePorts: seq<int>)
    | Reset
    | Drained

  type Store = map<StoreKey, Summary>

  datatype Holder = Holder(accumulating: Store, sinceLastGet: Store,
                           current: map<StoreKey, Counter>, previous: map<StoreKey, Counter>)

  const START := Holder(map[], map[], map[], map[])

  ghost function Stored(s: Store, a: Add): Store {
    s[KeyOf(a.intent) := IntentsSpec.AfterAdd(At(s, KeyOf(a.intent)), a)]
  }

  ghost function InputOf(intent: Intent, sourcePorts: seq<int>): Input {
    Input(ShouldCountUsingSrcPortMethod(intent.resolutionData), ShouldCountUsingDNSMethod(intent.resolutionData),
          sourcePorts)
  }

  ghost function Incremented(m: map<StoreKey, Counter>, k: StoreKey, i: Input): map<StoreKey, Counter> {
    m[k := ConnectionCountSpec.AfterAdd(if k in m then m[k] else NEW_COUNTER, i)]
  }

  ghost function Next(h: Holder, e: Event): Holder {
    match e
    case Added(a, ports) =>
      Holder(Stored(h.accumulating, a), Stored(h.sinceLastGet, a),
             Incremented(h.current, KeyOf(a.intent), InputOf(a.intent, ports)), h.previous)
    case Reset => h.(accumulating := map[])
    case Drained => Holder(h.accumulating, map[], map[], h.current)
  }

  ghost function After(events: seq<Event>): Holder {
    if events == [] then START else Next(After(Before(events)), Last(events))
  }

  // ----- What each store holds -----

  ghost predicate IsFor(e: Event, k: StoreKey) {
    e.Added? && KeyOf(e.add.intent) == k
  }

  /** The intents for `k` added since the last Reset. */
  ghost function SinceReset(events: seq<Event>, k: StoreKey): seq<Add> {
    if events == [] || Last(events).Reset? then []
    else SinceReset(Before(events), k) + if IsFor(Last(events), k) then [Last(events).add] else []
  }

  /** The intents for `k` added since the last drain. */
  ghost function SinceDrain(events: seq<Event>, k: StoreKey): seq<Add> {
    if events == [] || Last(events).Drained? then []
    else SinceDrain(Before(events), k) + if IsFor(Last(events), k) then [Last(events).add] else []
  }

  ghost function InputsSinceDrain(events: seq<Event>, k: StoreKey): seq<Input> {
    if events == [] || Last(events).Drained? then []
    else InputsSinceDrain(Before(events), k) +
         if IsFor(Last(events), k) then [InputOf(Last(events).add.intent, Last(events).sourcePorts)] else []
  }

  lemma FoldedMore(adds: seq<Add>, a: Add)
    ensures Folded(adds + [a]) == Some(IntentsSpec.AfterAdd(Folded(adds), a))
  {
    assert Before(adds + [a]) == adds;
  }

  lemma StoredAt(s: Store, a: Add, k: StoreKey)
    ensures At(Stored(s, a), k) == if KeyOf(a.intent) == k then Some(IntentsSpec.AfterAdd(At(s, k), a)) else At(s, k)
  {
  }

  lemma {:induction false} AccumulatingIsFold(events: seq<Event>, k: StoreKey)
    ensures At(After(events).accumulating, k) == Folded(SinceReset(events, k))
  {
    if events != [] {
      var before, e, adds := Before(events), Last(events), SinceReset(Before(events), k);
      AccumulatingIsFold(before, k);
      assert adds + [] == adds;
      if e.Added? {
        StoredAt(After(before).accumulating, e.add, k);
        FoldedMore(adds, e.add);
      }
    }
  }

  lemma {:induction false} SinceLastGetIsFold(events: seq<Event>, k: StoreKey)
    ensures At(After(events).sinceLastGet, k) == Folded(SinceDrain(events, k))
  {
    if events != [] {
      var before, e, adds := Before(events), Last(events), SinceDrain(Before(events), k);
      SinceLastGetIsFold(before, k);
      assert adds + [] == adds;
      if e.Added? {
        StoredAt(After(before).sinceLastGet, e.add, k);
        FoldedMore(adds, e.add);
      }
    }
  }

  /** Each store holds, for each key, the fold of the intents added since it was last emptied. */
  lemma StoresAreFolds(events: seq<Event>, k: StoreKey)
    ensures At(After(events).accumulating, k) == Folded(SinceReset(events, k))
    ensures At(After(events).sinceLastGet, k) == Folded(SinceDrain(events, k))
  {
    AccumulatingIsFold(events, k);
    SinceLastGetIsFold(events, k);
  }

  /** The store handed out by the next drain and the current counters have the same keys. */
  lemma {:induction false} StoreAndCountersAgree(events: seq<Event>)
    ensures After(events).sinceLastGet.Keys == After(events).current.Keys
  {
    if events != [] {
      StoreAndCountersAgree(Before(events));
    }
  }

  // ----- The open window -----

  /** The intents added since the last drain, for whatever key. */
  ghost function Window(events: seq<Event>): (w: seq<Event>)
    ensures forall e | e in w :: e.Added?
  {
    if events == [] || Last(events).Drained? then []
    else Window(Before(events)) + if Last(events).Added? then [Last(events)] else []
  }

  /** Those of the window closed by the last drain. */
  ghost function LastWindow(events: seq<Event>): seq<Event> {
    if events == [] then []
    else if Last(events).Drained? then Window(Before(events))
    else LastWindow(Before(events))
  }

  ghost predicate Joins(e: Event, k: StoreKey) {
    e.Added? && Between(e.add.intent, k)
  }

  /** A key is waiting to be handed out exactly if an intent from its client to its server, of its type, was
      added since the last drain. */
  lemma {:induction false} PendingKeysExactly(events: seq<Event>, k: StoreKey)
    ensures k in After(events).sinceLastGet <==> exists e :: e in Window(events) && Joins(e, k)
  {
    if events != [] {
      PendingKeysExactly(Before(events), k);
      var w, e := Window(Before(events)), Last(events);
      if e.Added? {
        assert KeyOf(e.add.intent) == k <==> Joins(e, k);
        JoinedMore(w, k, e);
      } else {
        assert w + [] == w;
      }
    }
  }

  lemma JoinedMore(w: seq<Event>, k: StoreKey, e: Event)
    ensures (exists x :: x in w + [e] && Joins(x, k)) <==> (exists x :: x in w && Joins(x, k)) || Joins(e, k)
  {
    assert e in w + [e] && forall x | x in w :: x in w + [e];
  }

  // ----- Drained windows -----

  /** What the drains so far have handed out for `k`. */
  ghost function DrainedFor(events: seq<Event>, k: StoreKey): seq<Content> {
    if events == [] then []
    else DrainedFor(Before(events), k) +
         if Last(events).Drained? && k in After(Before(events)).sinceLastGet
         then [After(Before(events)).sinceLastGet[k].content] else []
  }

  ghost predicate NeverReset(events: seq<Event>) {
    forall e | e in events :: !e.Reset?
  }

  /** Every intent that opens an entry of a store names each topic once. */
  ghost predicate OpenersUnique(events: seq<Event>) {
    events == [] ||
    (&& OpenersUnique(Before(events))
     && (Last(events).Added? ==>
           var h, intent := After(Before(events)), Last(events).add.intent;
           (KeyOf(intent) in h.accumulating && KeyOf(intent) in h.sinceLastGet) || UniqueTopics(intent.kafkaTopics)))
  }

  lemma {:induction false} OpenedUnique(events: seq<Event>, k: StoreKey)
    requires OpenersUnique(events)
    ensures OpensUnique(SinceReset(events, k)) && OpensUnique(SinceDrain(events, k))
  {
    if events != [] {
      OpenedUnique(Before(events), k);
      StoresAreFolds(Before(events), k);
      var r, d := SinceReset(Before(events), k), SinceDrain(Before(events), k);
      assert r != [] ==> SinceReset(events, k) == [] || SinceReset(events, k)[0] == r[0];
      assert d != [] ==> SinceDrain(events, k) == [] || SinceDrain(events, k)[0] == d[0];
    }
  }

  /** Without a reset, what is accumulated for a key is the join of everything handed out for it
      and what is still waiting. */
  lemma {:induction false} AccumulatedIsDrainedPlusPending(events: seq<Event>, k: StoreKey)
    requires NeverReset(events) && OpenersUnique(events)
    ensures ContentOr(At(After(events).accumulating, k))
         == JoinOpt(JoinAll(DrainedFor(events, k)), ContentOr(At(After(events).sinceLastGet, k)))
  {
    if events != [] {
      var before, e := Before(events), Last(events);
      assert forall x | x in before :: x in events;
      assert e in events;
      AccumulatedIsDrainedPlusPending(before, k);
      var h, drained := After(before), JoinAll(DrainedFor(before, k));
      match e
      case Added(a, _) =>
        assert DrainedFor(before, k) + [] == DrainedFor(before, k);
        if KeyOf(a.intent) == k {
          AddIsJoin(At(h.accumulating, k), a);
          AddIsJoin(At(h.sinceLastGet, k), a);
          JoinLaws(drained, ContentOr(At(h.sinceLastGet, k)), Some(ContentOf(a)));
        }
      case Drained =>
        if k in h.sinceLastGet {
          assert Before(DrainedFor(events, k)) == DrainedFor(before, k);
        } else {
          assert DrainedFor(before, k) + [] == DrainedFor(before, k);
        }
      case Reset =>
        assert false;
    }
  }

  /** And it does not depend on the order in which the intents for the key were added. */
  lemma AccumulatedWhateverTheOrder(events: seq<Event>, others: seq<Event>, k: StoreKey)
    requires OpenersUnique(events) && OpenersUnique(others)
    requires multiset(SinceReset(events, k)) == multiset(SinceReset(others, k))
    ensures ContentOr(At(After(events).accumulating, k)) == ContentOr(At(After(others).accumulating, k))
  {
    var s, t := SinceReset(events, k), SinceReset(others, k);
    StoresAreFolds(events, k);
    StoresAreFolds(others, k);
    OpenedUnique(events, k);
    OpenedUnique(others, k);
    FoldIsJoin(s);
    FoldIsJoin(t);
    ContentsOfPermutation(s, t);
    JoinAllOfPermutation(Contents(s), Contents(t));
  }

  lemma {:induction false} ContentsWithout(t: seq<Add>, k: nat)
    requires k < |t|
    ensures multiset(Contents(t)) == multiset(Contents(t[..k] + t[k + 1..])) + multiset{ContentOf(t[k])}
  {
    var front, back := t[..k], t[k + 1..];
    assert t == front + [t[k]] + back;
    ContentsConcat(front + [t[k]], back);
    ContentsConcat(front, back);
    assert Before(front + [t[k]]) == front;
  }

  lemma {:induction false} ContentsOfPermutation(s: seq<Add>, t: seq<Add>)
    requires multiset(s) == multiset(t)
    ensures multiset(Contents(s)) == multiset(Contents(t))
  {
    if s == [] {
      assert |t| == |multiset(t)| == 0;
    } else {
      var k := PositionOfLast(s, t);
      ContentsOfPermutation(Before(s), t[..k] + t[k + 1..]);
      ContentsWithout(t, k);
    }
  }

  // ----- The counters -----

  /** The counter of `k` in each window closed so far. */
  ghost function Closed(events: seq<Event>, k: StoreKey): seq<Option<Counter>> {
    if events == [] then []
    else Closed(Before(events), k) + if Last(events).Drained? then [At(After(Before(events)).current, k)] else []
  }

  lemma FedMore(inputs: seq<Input>, i: Input)
    ensures Fed(inputs + [i])
            == Some(ConnectionCountSpec.AfterAdd(if Fed(inputs).Some? then Fed(inputs).value else NEW_COUNTER, i))
  {
    assert Before(inputs + [i]) == inputs && Last(inputs + [i]) == i;
    assert inputs == [] ==> Counted(inputs) == NEW_COUNTER;
  }

  lemma {:induction false} CurrentIsOpenWindow(events: seq<Event>, k: StoreKey)
    ensures At(After(events).current, k) == Fed(InputsSinceDrain(events, k))
  {
    if events != [] {
      var before, e, inputs := Before(events), Last(events), InputsSinceDrain(Before(events), k);
      CurrentIsOpenWindow(before, k);
      assert inputs + [] == inputs;
      if e.Added? {
        FedMore(inputs, InputOf(e.add.intent, e.sourcePorts));
      }
    }
  }

  /** The inputs of the window closed by the last drain. */
  ghost function InputsOfLastWindow(events: seq<Event>, k: StoreKey): seq<Input> {
    if events == [] then []
    else if Last(events).Drained? then InputsSinceDrain(Before(events), k)
    else InputsOfLastWindow(Before(events), k)
  }

  lemma {:induction false} PreviousIsLastWindow(events: seq<Event>, k: StoreKey)
    ensures At(After(events).previous, k) == Fed(InputsOfLastWindow(events, k))
  {
    if events != [] {
      PreviousIsLastWindow(Before(events), k);
      CurrentIsOpenWindow(Before(events), k);
    }
  }

  /** What the holder reports for a key in a run: none if some intent of either window came without any that
      counts; the exact change between windows that both count ports; and otherwise all new for all old. */
  lemma RunDiffExactly(events: seq<Event>, k: StoreKey)
    ensures var now, before := InputsSinceDrain(events, k), InputsOfLastWindow(events, k);
            Diff(At(After(events).current, k), At(After(events).previous, k)) ==
              if (now == [] && before == []) || NoneCounts(now) || NoneCounts(before) then None
              else if AnyBySrcPort(now) && AnyBySrcPort(before) then
                Some(ConnectionsCount(|AllPorts(now)|, |AllPorts(now) - AllPorts(before)|,
                                      |AllPorts(before) - AllPorts(now)|))
              else Some(ConnectionsCount(Connections(now), Connections(now), Connections(before)))
  {
    CurrentIsOpenWindow(events, k);
    PreviousIsLastWindow(events, k);
    DiffExactly(InputsSinceDrain(events, k), InputsOfLastWindow(events, k));
  }

  // ----- What counts in a window -----

  /** Found by scanning sockets or in TCP traffic, so that its source ports count. */
  ghost predicate ByPorts(e: Event) {
    e.Added? && e.add.intent.resolutionData in
      {Some("addSocketScanServiceIntent"), Some("addSocketScanPodIntent"), Some("handleInternalTrafficTCPResult")}
  }

  /** Found in DNS answers, so that it counts itself. */
  ghost predicate ByDns(e: Event) {
    e.Added? && e.add.intent.resolutionData == Some("handleDNSCaptureResultsAsKubernetesPods")
  }

  ghost function PortsIn(w: seq<Event>, k: StoreKey): set<int> {
    set e, p | e in w && Joins(e, k) && ByPorts(e) && p in e.sourcePorts :: p
  }

  ghost function DnsIn(w: seq<Event>, k: StoreKey): set<int> {
    set i | 0 <= i < |w| && Joins(w[i], k) && ByDns(w[i])
  }

  /** The inputs of a key's counter in terms of the intents of the window: their client, server and type, how
      they were found, and their ports. */
  ghost predicate Describes(inputs: seq<Input>, w: seq<Event>, k: StoreKey) {
    && (inputs == [] <==> forall e | e in w :: !Joins(e, k))
    && (AnyBySrcPort(inputs) <==> exists e :: e in w && Joins(e, k) && ByPorts(e))
    && AllPorts(inputs) == PortsIn(w, k)
    && DnsInputs(inputs) == |DnsIn(w, k)|
  }

  lemma InputOfExactly(e: Event, k: StoreKey)
    ensures IsFor(e, k) <==> Joins(e, k)
    ensures e.Added? ==>
              var i := InputOf(e.add.intent, e.sourcePorts);
              i.bySrcPort == ByPorts(e) && i.byDns == ByDns(e) && i.sourcePorts == e.sourcePorts
  {
  }

  lemma DescribesMore(inputs: seq<Input>, w: seq<Event>, k: StoreKey, e: Event)
    requires Describes(inputs, w, k) && e.Added?
    ensures Describes(inputs + if IsFor(e, k) then [InputOf(e.add.intent, e.sourcePorts)] else [], w + [e], k)
  {
    var all := w + [e];
    InputOfExactly(e, k);
    PortsInMore(w, k, e);
    DnsInMore(w, k, e);
    assert e in all && forall x :: x in all <==> x in w || x == e;
    if IsFor(e, k) {
      var i := InputOf(e.add.intent, e.sourcePorts);
      AllPortsGrow(inputs, i);
      AnyBySrcPortMore(inputs, i);
      assert Before(inputs + [i]) == inputs && Last(inputs + [i]) == i;
    } else {
      assert inputs + [] == inputs;
    }
  }

  lemma AnyBySrcPortMore(inputs: seq<Input>, i: Input)
    ensures AnyBySrcPort(inputs + [i]) <==> AnyBySrcPort(inputs) || i.bySrcPort
  {
    assert forall j :: j in inputs + [i] <==> j in inputs || j == i;
  }

  lemma PortsInMore(w: seq<Event>, k: StoreKey, e: Event)
    ensures PortsIn(w + [e], k)
         == PortsIn(w, k) + if Joins(e, k) && ByPorts(e) then Members(e.sourcePorts) else {}
  {
    var more := if Joins(e, k) && ByPorts(e) then Members(e.sourcePorts) else {};
    assert e in w + [e];
    forall p ensures p in PortsIn(w + [e], k) <==> p in PortsIn(w, k) || p in more {
      if p in PortsIn(w + [e], k) {
        var x :| x in w + [e] && Joins(x, k) && ByPorts(x) && p in x.sourcePorts;
        assert x in w || x == e;
      }
      if p in PortsIn(w, k) {
        var x :| x in w && Joins(x, k) && ByPorts(x) && p in x.sourcePorts;
        assert x in w + [e];
      }
    }
  }

  lemma DnsInMore(w: seq<Event>, k: StoreKey, e: Event)
    ensures |DnsIn(w + [e], k)| == |DnsIn(w, k)| + if Joins(e, k) && ByDns(e) then 1 else 0
  {
    var all, before := w + [e], DnsIn(w, k);
    assert forall i | 0 <= i < |w| :: all[i] == w[i];
    assert DnsIn(all, k) == before + if Joins(e, k) && ByDns(e) then {|w|} else {};
  }

  /** In every run this holds of both windows the differ compares. */
  lemma {:induction false} WindowsDescribed(events: seq<Event>, k: StoreKey)
    ensures Describes(InputsSinceDrain(events, k), Window(events), k)
    ensures Describes(InputsOfLastWindow(events, k), LastWindow(events), k)
  {
    if events == [] || Last(events).Drained? {
      assert DnsIn([], k) == {} && PortsIn([], k) == {} && AllPorts([]) == {};
    }
    if events != [] {
      WindowsDescribed(Before(events), k);
      var inputs, w := InputsSinceDrain(Before(events), k), Window(Before(events));
      if Last(events).Added? {
        DescribesMore(inputs, w, k, Last(events));
      } else {
        assert inputs + [] == inputs && w + [] == w;
      }
    }
  }

  /** What there is to say about a key between the intents of one window and those of the window before: nothing
      if neither has any for it, or one has only such as do not count; the exact change if both count ports; and
      otherwise all new for all old. */
  ghost function Changed(w: seq<Event>, before: seq<Event>, k: StoreKey): Option<ConnectionsCount> {
    if (!Came(w, k) && !Came(before, k)) || CountsNothing(w, k) || CountsNothing(before, k) then None
    else if CountsPorts(w, k) && CountsPorts(before, k) then
      var now, earlier := PortsIn(w, k), PortsIn(before, k);
      Some(ConnectionsCount(|now|, |now - earlier|, |earlier - now|))
    else Some(ConnectionsCount(Total(w, k), Total(w, k), Total(before, k)))
  }

  ghost predicate Came(w: seq<Event>, k: StoreKey) {
    exists e :: e in w && Joins(e, k)
  }

  ghost predicate CountsPorts(w: seq<Event>, k: StoreKey) {
    exists e :: e in w && Joins(e, k) && ByPorts(e)
  }

  ghost predicate CountsNothing(w: seq<Event>, k: StoreKey) {
    Came(w, k) && !CountsPorts(w, k) && DnsIn(w, k) == {}
  }

  ghost function Total(w: seq<Event>, k: StoreKey): nat {
    if CountsPorts(w, k) then |PortsIn(w, k)| else |DnsIn(w, k)|
  }

  /** This is what the holder reports for a key in a run. */
  lemma RunReportsChanged(events: seq<Event>, k: StoreKey)
    ensures Diff(At(After(events).current, k), At(After(events).previous, k)) ==
            Changed(Window(events), LastWindow(events), k)
  {
    RunDiffExactly(events, k);
    WindowsDescribed(events, k);
    DescribedCounts(InputsSinceDrain(events, k), Window(events), k);
    DescribedCounts(InputsOfLastWindow(events, k), LastWindow(events), k);
  }

  lemma DescribedCounts(inputs: seq<Input>, w: seq<Event>, k: StoreKey)
    requires Describes(inputs, w, k)
    ensures inputs == [] <==> !Came(w, k)
    ensures NoneCounts(inputs) <==> CountsNothing(w, k)
    ensures Connections(inputs) == Total(w, k)
    ensures AnyBySrcPort(inputs) <==> CountsPorts(w, k)
  {
  }

  /** The differ compares exactly the open window with the last closed one. */
  lemma {:induction false} DifferHoldsLastTwoWindows(events: seq<Event>, k: StoreKey)
    ensures At(After(events).current, k) == Fed(InputsSinceDrain(events, k))
    ensures At(After(events).previous, k) == LastOr(Closed(events, k))
  {
    CurrentIsOpenWindow(events, k);
    if events != [] {
      DifferHoldsLastTwoWindows(Before(events), k);
      assert Closed(Before(events), k) + [] == Closed(Before(events), k);
    }
  }

  /** What the drains so far have reported as connections gained less connections lost. */
  ghost function ReportedFor(events: seq<Event>, k: StoreKey): int {
    if events == [] then 0
    else ReportedFor(Before(events), k) +
         if Last(events).Drained? && k in After(Before(events)).sinceLastGet
         then Change(At(After(Before(events)).current, k), At(After(Before(events)).previous, k)) else 0
  }

  lemma {:induction false} ReportedForIsReportedSum(events: seq<Event>, k: StoreKey)
    ensures ReportedFor(events, k) == ReportedSum(Closed(events, k))
  {
    if events != [] {
      var before := Before(events);
      ReportedForIsReportedSum(before, k);
      DifferHoldsLastTwoWindows(before, k);
      StoreAndCountersAgree(before);
      assert Closed(before, k) + [] == Closed(before, k);
      if Last(events).Drained? {
        assert Before(Closed(events, k)) == Closed(before, k);
      }
    }
  }

  /** The reported changes of a key add up to its latest count exactly when as many connections were
      never reported as removed as were never reported as added. */
  lemma ReportedChangesAddUpIff(events: seq<Event>, k: StoreKey)
    ensures var w := Closed(events, k);
            ReportedFor(events, k) == CountIn(LastOr(w)) <==> Unreported(w) == Unannounced(w)
  {
    ReportedForIsReportedSum(events, k);
    ReportedSumIsCurrentIff(Closed(events, k));
  }

  /** If no window that counts follows one that has the key without counting it, this is exactly when
      the key never went from having connections to having none that count. */
  lemma ReportedChangesAddUpWhenCounted(events: seq<Event>, k: StoreKey)
    requires var w := Closed(events, k); forall i | 0 < i < |w| && !Countable(w[i - 1]) :: CountIn(w[i]) == 0
    ensures var w := Closed(events, k);
            ReportedFor(events, k) == CountIn(LastOr(w)) <==>
            forall i | 0 < i < |w| && !ConnectionCountSpec.Counts(w[i]) :: CountIn(w[i - 1]) == 0
  {
    ReportedForIsReportedSum(events, k);
    ReportedSumIsCurrentWhenCounted(Closed(events, k));
  }

  /** After every event the reported changes of the key have added up to its latest count. */
  ghost predicate AlwaysAddUp(events: seq<Event>, k: StoreKey) {
    && ReportedFor(events, k) == CountIn(LastOr(Closed(events, k)))
    && (events != [] ==> AlwaysAddUp(Before(events), k))
  }

  /** This is so exactly if no window with connections was followed by one that does not count the key, and
      no window that has the key without counting it by one with connections. */
  lemma {:induction false} ReportedChangesAlwaysAddUpIff(events: seq<Event>, k: StoreKey)
    ensures AlwaysAddUp(events, k) <==> NoGaps(Closed(events, k))
  {
    ReportedForIsReportedSum(events, k);
    if events == [] {
      return;
    }
    var before, w := Closed(Before(events), k), Closed(events, k);
    ReportedChangesAlwaysAddUpIff(Before(events), k);
    if Last(events).Drained? {
      assert Before(w) == before;
      AlwaysCurrentIff(before);
      AlwaysCurrentIff(w);
      AlwaysCurrentMore(w);
    } else {
      assert w == before;
      AlwaysCurrentIff(w);
      assert w[..|w|] == w;
    }
  }
}
