/**
 The intents holder: two stores and a connection differ fed by the same intents, each emptied by
 different calls. The ghost log records the calls; the state is always where that run leads.
 */
module IntentsHolder {
  import opened Basics
  import opened IntentsSpec
  import opened IntentsMerge
  import opened IntentsRuns
  import CountSpec = ConnectionCountSpec
  import opened ConnectionCount

  datatype TimestampedIntent = TimestampedIntent(timestamp: int, connectionsCount: Option<CountSpec.ConnectionsCount>,
                                                 intent: Intent)

  type IntentsStore = map<StoreKey, TimestampedIntent>

  ghost function SummaryOf(t: TimestampedIntent): Summary {
    Summary(Content(t.timestamp, TopicsOf(t.intent.kafkaTopics), ResourcesOf(t.intent.httpResources)),
            t.intent.client.labels, t.intent.server.labels, t.intent.server.resolutionData, t.intent.resolutionData)
  }

  ghost function Summaries(s: IntentsStore): Store {
    map k | k in s :: SummaryOf(s[k])
  }

  /** Stored intents carry no count; it is filled in when they are handed out. */
  ghost predicate Uncounted(s: IntentsStore) {
    forall k | k in s :: s[k].connectionsCount.None?
  }

  /** Every entry holds an intent from the client of its key to the server of its key, of its type. */
  ghost predicate Keyed(s: IntentsStore) {
    forall k | k in s :: Between(s[k].intent, k)
  }

  ghost predicate Proper(s: IntentsStore) {
    Uncounted(s) && Keyed(s)
  }

  /** The same client, the same server and the same type, where no type and the empty one are the same. */
  ghost predicate SameEnds(i: Intent, j: Intent) {
    && i.client.id == j.client.id && i.server.id == j.server.id
    && (i.kind == j.kind || (i.kind in {None, Some("")} && j.kind in {None, Some("")}))
  }

  method AddIntentToStore(store: IntentsStore, newTimestamp: int, intent: Intent) returns (r: IntentsStore)
    requires Proper(store)
    ensures Proper(r) && Summaries(r) == Stored(Summaries(store), Add(newTimestamp, intent))
    ensures KeyOf(intent) in r && (KeyOf(intent) !in store ==> r[KeyOf(intent)].intent == intent)
    ensures exists t :: t in r.Values && SameEnds(t.intent, intent)
    ensures forall k | k in store && !SameEnds(store[k].intent, intent) :: k in r && r[k] == store[k]
  {
    var key := KeyOf(intent);
    var entry: TimestampedIntent;
    if key !in store {
      entry := TimestampedIntent(newTimestamp, None, intent);
    } else {
      entry := MergeInto(store[key], newTimestamp, intent);
    }
    r := store[key := entry];
    assert r[key] == entry && SameEnds(entry.intent, intent);
    SummariesUpdated(store, key, entry);
  }

  method TakeIn(store: IntentsStore, newTimestamp: int, intent: Intent) returns (r: IntentsStore)
    requires Proper(store)
    ensures Proper(r) && Summaries(r) == Stored(Summaries(store), Add(newTimestamp, intent))
  {
    r := AddIntentToStore(store, newTimestamp, intent);
  }

  lemma SummariesUpdated(store: IntentsStore, key: StoreKey, entry: TimestampedIntent)
    ensures Summaries(store[key := entry]) == Summaries(store)[key := SummaryOf(entry)]
  {
  }

  method MergeInto(existing: TimestampedIntent, newTimestamp: int, intent: Intent) returns (merged: TimestampedIntent)
    ensures SummaryOf(merged) == Merged(SummaryOf(existing), Add(newTimestamp, intent))
    ensures merged.connectionsCount == existing.connectionsCount
    ensures merged.intent.client == existing.intent.client.(labels := intent.client.labels)
    ensures merged.intent.server ==
              var resolution := existing.intent.server.resolutionData;
              existing.intent.server.(
                labels := intent.server.labels,
                resolutionData :=
                  if resolution.Some? && intent.server.resolutionData.Some? &&
                     intent.server.resolutionData.value.tcpDestResolveFixData.None?
                  then Some(resolution.value.(tcpDestResolveFixData := None)) else resolution)
    ensures merged.intent.kind == existing.intent.kind
    ensures merged.intent.resolutionData == existing.intent.resolutionData
    ensures merged.timestamp == if newTimestamp > existing.timestamp then newTimestamp else existing.timestamp
  {
    merged := existing;
    if newTimestamp > existing.timestamp {
      merged := merged.(timestamp := newTimestamp);
    }
    var topics := MergeKafkaTopics(existing.intent.kafkaTopics, intent.kafkaTopics);
    var resources := MergeHTTPResources(existing.intent.httpResources, intent.httpResources);
    var client := existing.intent.client.(labels := intent.client.labels);
    var server := existing.intent.server.(labels := intent.server.labels);
    if WithoutFix(server.resolutionData) || WithoutFix(intent.server.resolutionData) {
      if server.resolutionData.Some? {
        server := server.(resolutionData := Some(server.resolutionData.value.(tcpDestResolveFixData := None)));
      }
    }
    merged := merged.(intent :=
                      existing.intent.(kafkaTopics := topics, httpResources := resources, client := client,
                                       server := server));
  }

  // ----- Selection -----

  predicate HasExcludedLabel(labels: seq<PodLabel>, excluded: map<string, string>) {
    exists l :: l in labels && l.key in excluded && excluded[l.key] == l.value
  }

  predicate ContainsExcludedLabels(t: TimestampedIntent, excluded: map<string, string>) {
    HasExcludedLabel(t.intent.client.labels, excluded) || HasExcludedLabel(t.intent.server.labels, excluded)
  }

  /** The clients with an intent towards the server. */
  function ClientsCalling(store: IntentsStore, server: NamespacedName): set<NamespacedName> {
    set k | k in store && k.destination == server :: k.source
  }

  predicate Selects(store: IntentsStore, k: StoreKey, namespaces: set<string>, excluded: map<string, string>,
                    serverFilter: Option<NamespacedName>)
    requires k in store
  {
    && !(|excluded| != 0 && ContainsExcludedLabels(store[k], excluded))
    && (namespaces == {} || k.source.namespace in namespaces)
    && (serverFilter.Some? ==> k.source in ClientsCalling(store, serverFilter.value))
  }

  class IntentsHolder {
    var accumulatingStore: IntentsStore
    var sinceLastGetStore: IntentsStore
    const connectionsCountDiffer: ConnectionCountDiffer<StoreKey>
    ghost var events: seq<Event>

    ghost function View(): Holder
      reads this, connectionsCountDiffer, connectionsCountDiffer.currentCounters.Values,
            connectionsCountDiffer.previousCounters.Values
    {
      Holder(Summaries(accumulatingStore), Summaries(sinceLastGetStore),
             connectionsCountDiffer.Current(), connectionsCountDiffer.Previous())
    }

    /** The counters of the open window and of the last closed one. */
    ghost predicate Counts(current: map<StoreKey, CountSpec.Counter>, previous: map<StoreKey, CountSpec.Counter>)
      reads connectionsCountDiffer, connectionsCountDiffer.currentCounters.Values,
            connectionsCountDiffer.previousCounters.Values
    {
      && connectionsCountDiffer.Valid()
      && connectionsCountDiffer.Current() == current && connectionsCountDiffer.Previous() == previous
    }

    ghost predicate Valid()
      reads this, connectionsCountDiffer, connectionsCountDiffer.currentCounters.Values,
            connectionsCountDiffer.previousCounters.Values
    {
      && connectionsCountDiffer.Valid()
      && Proper(accumulatingStore) && Proper(sinceLastGetStore)
      && View() == After(events)
    }

    constructor ()
      ensures Valid() && events == [] && fresh(connectionsCountDiffer)
      ensures connectionsCountDiffer.currentCounters == map[]
    {
      accumulatingStore, sinceLastGetStore, events := map[], map[], [];
      connectionsCountDiffer := new ConnectionCountDiffer();
    }

    /** Forget what was accumulated; the pending window and the counters stay. */
    method Reset()
      requires Valid()
      modifies this`accumulatingStore, this`events
      ensures Valid() && events != [] && Before(events) == old(events) && Last(events) == Event.Reset
    {
      accumulatingStore := map[];
      Log(Event.Reset);
    }

    /** Add one intent to both stores and to the counters, unless a namespace is excluded. */
    method AddIntent(excludedNamespaces: set<string>, newTimestamp: int, intent: Intent, sourcePorts: seq<int>)
      requires Valid()
      modifies this`accumulatingStore, this`sinceLastGetStore, this`events
      modifies connectionsCountDiffer`currentCounters, connectionsCountDiffer.currentCounters.Values
      ensures Valid()
      ensures fresh(connectionsCountDiffer.currentCounters.Values - old(connectionsCountDiffer.currentCounters.Values))
      ensures if intent.client.id.namespace in excludedNamespaces || intent.server.id.namespace in excludedNamespaces
              then events == old(events)
              else events != [] && Before(events) == old(events) &&
                   Last(events) == Added(Add(newTimestamp, intent), sourcePorts)
    {
      if intent.client.id.namespace in excludedNamespaces || intent.server.id.namespace in excludedNamespaces {
        return;
      }
      AddIncluded(newTimestamp, intent, sourcePorts);
    }

    method AddIncluded(newTimestamp: int, intent: Intent, sourcePorts: seq<int>)
      requires Valid()
      modifies this`accumulatingStore, this`sinceLastGetStore, this`events
      modifies connectionsCountDiffer`currentCounters, connectionsCountDiffer.currentCounters.Values
      ensures Valid()
      ensures fresh(connectionsCountDiffer.currentCounters.Values - old(connectionsCountDiffer.currentCounters.Values))
      ensures events != [] && Before(events) == old(events) &&
              Last(events) == Added(Add(newTimestamp, intent), sourcePorts)
    {
      ghost var before := View();
      AddToStores(newTimestamp, intent, before.current, before.previous);
      CountAndLog(newTimestamp, intent, sourcePorts, before);
    }

    method CountAndLog(newTimestamp: int, intent: Intent, sourcePorts: seq<int>, ghost before: Holder)
      requires Proper(accumulatingStore) && Proper(sinceLastGetStore)
      requires before == After(events) && Counts(before.current, before.previous)
      requires Summaries(accumulatingStore) == Stored(before.accumulating, Add(newTimestamp, intent))
      requires Summaries(sinceLastGetStore) == Stored(before.sinceLastGet, Add(newTimestamp, intent))
      modifies this`events, connectionsCountDiffer`currentCounters, connectionsCountDiffer.currentCounters.Values
      ensures Valid()
      ensures fresh(connectionsCountDiffer.currentCounters.Values - old(connectionsCountDiffer.currentCounters.Values))
      ensures events != [] && Before(events) == old(events) &&
              Last(events) == Added(Add(newTimestamp, intent), sourcePorts)
    {
      AddUniqueCount(intent, sourcePorts, before.current, before.previous);
      LogAdded(before, Add(newTimestamp, intent), sourcePorts);
    }

    ghost method LogAdded(before: Holder, a: Add, sourcePorts: seq<int>)
      requires Proper(accumulatingStore) && Proper(sinceLastGetStore)
      requires before == After(events)
      requires Summaries(accumulatingStore) == Stored(before.accumulating, a)
      requires Summaries(sinceLastGetStore) == Stored(before.sinceLastGet, a)
      requires Counts(Incremented(before.current, KeyOf(a.intent), InputOf(a.intent, sourcePorts)), before.previous)
      modifies this`events
      ensures Valid() && events != [] && Before(events) == old(events) && Last(events) == Added(a, sourcePorts)
    {
      Log(Added(a, sourcePorts));
    }

    ghost method Log(e: Event)
      requires connectionsCountDiffer.Valid() && Proper(accumulatingStore) && Proper(sinceLastGetStore)
      requires View() == Next(After(events), e)
      modifies this`events
      ensures Valid() && events != [] && Before(events) == old(events) && Last(events) == e
    {
      assert Before(events + [e]) == events;
      events := events + [e];
    }

    /** The counters, given as ghost parameters, are not touched. */
    method AddToStores(newTimestamp: int, intent: Intent, ghost current: map<StoreKey, CountSpec.Counter>,
                       ghost previous: map<StoreKey, CountSpec.Counter>)
      requires Proper(accumulatingStore) && Proper(sinceLastGetStore)
      requires Counts(current, previous)
      modifies this`accumulatingStore, this`sinceLastGetStore
      ensures Counts(current, previous) &&
              connectionsCountDiffer.currentCounters == old(connectionsCountDiffer.currentCounters)
      ensures Proper(accumulatingStore) && Proper(sinceLastGetStore)
      ensures Summaries(accumulatingStore) == Stored(old(Summaries(accumulatingStore)), Add(newTimestamp, intent))
      ensures Summaries(sinceLastGetStore) == Stored(old(Summaries(sinceLastGetStore)), Add(newTimestamp, intent))
    {
      var accumulating := TakeIn(accumulatingStore, newTimestamp, intent);
      var sinceLastGet := TakeIn(sinceLastGetStore, newTimestamp, intent);
      SetStores(accumulating, sinceLastGet, current, previous);
    }

    method SetStores(accumulating: IntentsStore, sinceLastGet: IntentsStore,
                     ghost current: map<StoreKey, CountSpec.Counter>,
                     ghost previous: map<StoreKey, CountSpec.Counter>)
      requires Counts(current, previous)
      modifies this`accumulatingStore, this`sinceLastGetStore
      ensures Counts(current, previous) &&
              connectionsCountDiffer.currentCounters == old(connectionsCountDiffer.currentCounters)
      ensures accumulatingStore == accumulating && sinceLastGetStore == sinceLastGet
    {
      accumulatingStore, sinceLastGetStore := accumulating, sinceLastGet;
    }

    method AddUniqueCount(intent: Intent, sourcePorts: seq<int>, ghost current: map<StoreKey, CountSpec.Counter>,
                          ghost previous: map<StoreKey, CountSpec.Counter>)
      requires Counts(current, previous)
      modifies connectionsCountDiffer`currentCounters, connectionsCountDiffer.currentCounters.Values
      ensures Counts(Incremented(current, KeyOf(intent), InputOf(intent, sourcePorts)), previous)
      ensures fresh(connectionsCountDiffer.currentCounters.Values - old(connectionsCountDiffer.currentCounters.Values))
    {
      var input := CountSpec.Input(CountSpec.ShouldCountUsingSrcPortMethod(intent.resolutionData),
                                   CountSpec.ShouldCountUsingDNSMethod(intent.resolutionData), sourcePorts);
      connectionsCountDiffer.Increment(KeyOf(intent), input);
    }

    /** The intents accumulated since the last Reset that pass the filters, with their counts. */
    method GetIntents(namespaces: set<string>, excluded: map<string, string>, serverFilter: Option<NamespacedName>)
      returns (result: seq<TimestampedIntent>, ghost keys: seq<StoreKey>)
      requires Valid()
      ensures HandedOut(accumulatingStore, namespaces, excluded, serverFilter, View(), keys, result)
      ensures IsSelection(accumulatingStore, namespaces, excluded, serverFilter, View(), result)
      ensures forall t | t in result :: exists u :: u in accumulatingStore.Values && Kept(t, u)
      ensures forall u | u in accumulatingStore.Values ::
                (exists t :: t in result && Kept(t, u)) <==>
                Passes(u, accumulatingStore.Values, namespaces, excluded, serverFilter)
      ensures forall i, j | 0 <= i < j < |result| :: !SameEnds(result[i].intent, result[j].intent)
      ensures Counting(result, events)
    {
      result, keys := GetIntentsFromStore(accumulatingStore, namespaces, excluded, serverFilter);
      HandedOutCounted(accumulatingStore, namespaces, excluded, serverFilter, events, keys, result);
      HandedOutExactly(accumulatingStore, namespaces, excluded, serverFilter, View(), keys, result);
    }

    /** All intents since the previous call, with their counts; starts a new window. */
    method GetNewIntentsSinceLastGet() returns (result: seq<TimestampedIntent>, ghost keys: seq<StoreKey>)
      requires Valid()
      modifies this`sinceLastGetStore, this`events, connectionsCountDiffer
      ensures Valid() && events != [] && Before(events) == old(events) && Last(events) == Drained
      ensures HandedOut(old(sinceLastGetStore), {}, map[], None, old(View()), keys, result)
      ensures Represents(result, Window(old(events))) && Counting(result, old(events))
    {
      result, keys := GetIntentsFromStore(sinceLastGetStore, {}, map[], None);
      HandedOutCounted(sinceLastGetStore, {}, map[], None, events, keys, result);
      DrainedRepresents(sinceLastGetStore, events, View(), keys, result);
      StartWindow();
    }

    method StartWindow()
      requires Valid()
      modifies this`sinceLastGetStore, this`events, connectionsCountDiffer
      ensures Valid() && events != [] && Before(events) == old(events) && Last(events) == Drained
    {
      sinceLastGetStore := map[];
      connectionsCountDiffer.Reset();
      Log(Drained);
    }

    method GetIntentsFromStore(store: IntentsStore, namespaces: set<string>, excluded: map<string, string>,
                               serverFilter: Option<NamespacedName>)
      returns (result: seq<TimestampedIntent>, ghost keys: seq<StoreKey>)
      requires connectionsCountDiffer.Valid() && Uncounted(store)
      ensures HandedOut(store, namespaces, excluded, serverFilter, View(), keys, result)
      ensures IsSelection(store, namespaces, excluded, serverFilter, View(), result)
    {
      result, keys := [], [];
      var targetedServerClients := {};
      if serverFilter.Some? {
        targetedServerClients := ClientsCalling(store, serverFilter.value);
      }
      var remaining := store.Keys;
      while |remaining| > 0
        invariant remaining <= store.Keys
        invariant Walked(store, store.Keys - remaining, namespaces, excluded, serverFilter, View(), keys, result)
      {
        assert exists k :: k in remaining by {
          var k := Pick(remaining);
        }
        var pair :| pair in remaining;
        result, keys := VisitPair(store, pair, namespaces, excluded, serverFilter, targetedServerClients,
                                  store.Keys - remaining, result, keys);
        assert store.Keys - remaining + {pair} == store.Keys - (remaining - {pair});
        remaining := remaining - {pair};
      }
      assert store.Keys - remaining == store.Keys;
      HandedOutIsSelection(store, namespaces, excluded, serverFilter, View(), keys, result);
    }

    method VisitPair(store: IntentsStore, pair: StoreKey, namespaces: set<string>, excluded: map<string, string>,
                     serverFilter: Option<NamespacedName>, targetedServerClients: set<NamespacedName>,
                     ghost done: set<StoreKey>, result: seq<TimestampedIntent>, ghost keys: seq<StoreKey>)
      returns (result': seq<TimestampedIntent>, ghost keys': seq<StoreKey>)
      requires connectionsCountDiffer.Valid() && Uncounted(store) && pair in store && pair !in done
      requires serverFilter.Some? ==> targetedServerClients == ClientsCalling(store, serverFilter.value)
      requires Walked(store, done, namespaces, excluded, serverFilter, View(), keys, result)
      ensures Walked(store, done + {pair}, namespaces, excluded, serverFilter, View(), keys', result')
    {
      result', keys' := result, keys;
      if |excluded| != 0 && ContainsExcludedLabels(store[pair], excluded) {
        WalkedPast(store, done, namespaces, excluded, serverFilter, View(), keys, result, pair);
        return;
      }
      if namespaces != {} && pair.source.namespace !in namespaces {
        WalkedPast(store, done, namespaces, excluded, serverFilter, View(), keys, result, pair);
        return;
      }
      if serverFilter.Some? && pair.source !in targetedServerClients {
        WalkedPast(store, done, namespaces, excluded, serverFilter, View(), keys, result, pair);
        return;
      }
      var connectionsCount := connectionsCountDiffer.GetDiff(pair);
      WalkedOn(store, done, namespaces, excluded, serverFilter, View(), keys, result, pair);
      var intent := store[pair];
      if connectionsCount.Some? {
        intent := intent.(connectionsCount := connectionsCount);
      }
      result' := result + [intent];
      keys' := keys + [pair];
    }
  }

  /** What is handed out for a key: the stored intent with the change since the last window. */
  ghost function Counted(store: IntentsStore, k: StoreKey, h: Holder): TimestampedIntent
    requires k in store
  {
    store[k].(connectionsCount := CountSpec.Diff(At(h.current, k), At(h.previous, k)))
  }

  /** Of the keys `done`, exactly the selected ones are in the result, each once. */
  ghost predicate Walked(store: IntentsStore, done: set<StoreKey>, namespaces: set<string>,
                         excluded: map<string, string>,
                         serverFilter: Option<NamespacedName>, h: Holder, keys: seq<StoreKey>,
                         result: seq<TimestampedIntent>) {
    && NoRepeats(keys) && |keys| == |result|
    && (forall k :: k in keys <==> k in done && k in store && Selects(store, k, namespaces, excluded, serverFilter))
    && (forall i | 0 <= i < |keys| :: keys[i] in store && result[i] == Counted(store, keys[i], h))
  }

  ghost predicate HandedOut(store: IntentsStore, namespaces: set<string>, excluded: map<string, string>,
                            serverFilter: Option<NamespacedName>, h: Holder, keys: seq<StoreKey>,
                            result: seq<TimestampedIntent>) {
    Walked(store, store.Keys, namespaces, excluded, serverFilter, h, keys, result)
  }

  ghost function Selected(store: IntentsStore, namespaces: set<string>, excluded: map<string, string>,
                          serverFilter: Option<NamespacedName>): set<StoreKey> {
    set k | k in store && Selects(store, k, namespaces, excluded, serverFilter)
  }

  /** The result holds the entry of every selected key, counted, and nothing else. */
  ghost predicate IsSelection(store: IntentsStore, namespaces: set<string>, excluded: map<string, string>,
                              serverFilter: Option<NamespacedName>, h: Holder, result: seq<TimestampedIntent>) {
    var selected := Selected(store, namespaces, excluded, serverFilter);
    && |result| == |selected|
    && (forall k | k in selected :: Counted(store, k, h) in result)
    && (forall t | t in result :: exists k :: k in selected && t == Counted(store, k, h))
  }

  lemma {:induction false} MembersCount<T>(s: seq<T>)
    requires NoRepeats(s)
    ensures |Members(s)| == |s|
  {
    if s != [] {
      MembersCount(Before(s));
      MembersRejoin(s);
    }
  }

  lemma HandedOutIsSelection(store: IntentsStore, namespaces: set<string>, excluded: map<string, string>,
                             serverFilter: Option<NamespacedName>, h: Holder, keys: seq<StoreKey>,
                             result: seq<TimestampedIntent>)
    requires HandedOut(store, namespaces, excluded, serverFilter, h, keys, result)
    ensures IsSelection(store, namespaces, excluded, serverFilter, h, result)
  {
    var selected := Selected(store, namespaces, excluded, serverFilter);
    assert Members(keys) == selected;
    MembersCount(keys);
    forall k | k in selected ensures Counted(store, k, h) in result {
      var i :| 0 <= i < |keys| && keys[i] == k;
      assert result[i] in result;
    }
    forall t | t in result ensures exists k :: k in selected && t == Counted(store, k, h) {
      var i :| 0 <= i < |result| && result[i] == t;
      assert keys[i] in selected;
    }
  }

  /** Handed out is the stored intent, whatever its count. */
  ghost predicate Kept(t: TimestampedIntent, u: TimestampedIntent) {
    t.intent == u.intent && t.timestamp == u.timestamp
  }

  /** What the filters ask of an intent among those stored: its client is in one of the namespaces and calls the
      server, and neither it nor its own server has an excluded label. */
  ghost predicate Passes(u: TimestampedIntent, all: set<TimestampedIntent>, namespaces: set<string>,
                         excluded: map<string, string>, serverFilter: Option<NamespacedName>) {
    && (namespaces == {} || u.intent.client.id.namespace in namespaces)
    && (serverFilter.Some? ==>
          exists v :: v in all && v.intent.server.id == serverFilter.value && v.intent.client.id == u.intent.client.id)
    && !(exists l :: (l in u.intent.client.labels || l in u.intent.server.labels) &&
           l.key in excluded && excluded[l.key] == l.value)
  }

  /** An entry is selected exactly if its own intent passes. */
  lemma SelectsIff(store: IntentsStore, k: StoreKey, namespaces: set<string>, excluded: map<string, string>,
                   serverFilter: Option<NamespacedName>)
    requires Keyed(store) && k in store
    ensures Selects(store, k, namespaces, excluded, serverFilter) <==>
            Passes(store[k], store.Values, namespaces, excluded, serverFilter)
  {
    if serverFilter.Some? {
      CallsIff(store, serverFilter.value, k.source);
    }
    ExcludedIff(store[k], excluded);
  }

  lemma CallsIff(store: IntentsStore, server: NamespacedName, client: NamespacedName)
    requires Keyed(store)
    ensures client in ClientsCalling(store, server) <==>
            exists v :: v in store.Values && v.intent.server.id == server && v.intent.client.id == client
  {
    if client in ClientsCalling(store, server) {
      var j :| j in store && j.destination == server && j.source == client;
      assert store[j] in store.Values;
    }
  }

  lemma ExcludedIff(t: TimestampedIntent, excluded: map<string, string>)
    ensures |excluded| != 0 && ContainsExcludedLabels(t, excluded) <==>
            exists l :: (l in t.intent.client.labels || l in t.intent.server.labels) &&
              l.key in excluded && excluded[l.key] == l.value
  {
    if ContainsExcludedLabels(t, excluded) {
      var l :| (l in t.intent.client.labels || l in t.intent.server.labels) &&
               l.key in excluded && excluded[l.key] == l.value;
    }
  }

  /** No two entries have the same ends. */
  lemma KeyedApart(store: IntentsStore, j: StoreKey, k: StoreKey)
    requires Keyed(store) && j in store && k in store && j != k
    ensures !SameEnds(store[j].intent, store[k].intent)
  {
  }

  lemma HandedOutApart(store: IntentsStore, namespaces: set<string>, excluded: map<string, string>,
                       serverFilter: Option<NamespacedName>, h: Holder, keys: seq<StoreKey>,
                       result: seq<TimestampedIntent>)
    requires Keyed(store) && HandedOut(store, namespaces, excluded, serverFilter, h, keys, result)
    ensures forall i, j | 0 <= i < j < |result| :: !SameEnds(result[i].intent, result[j].intent)
    ensures forall t | t in result :: exists u :: u in store.Values && Kept(t, u)
  {
    forall i, j | 0 <= i < j < |result| ensures !SameEnds(result[i].intent, result[j].intent) {
      KeyedApart(store, keys[i], keys[j]);
    }
    forall t | t in result ensures exists u :: u in store.Values && Kept(t, u) {
      var i :| 0 <= i < |result| && result[i] == t;
      assert store[keys[i]] in store.Values && Kept(t, store[keys[i]]);
    }
  }

  /** Each comes with the change between the two last windows for its own client, server and type. */
  ghost predicate Counting(result: seq<TimestampedIntent>, events: seq<Event>) {
    forall t, k | t in result && Between(t.intent, k) ::
      t.connectionsCount == Changed(Window(events), LastWindow(events), k)
  }

  lemma HandedOutCounted(store: IntentsStore, namespaces: set<string>, excluded: map<string, string>,
                         serverFilter: Option<NamespacedName>, events: seq<Event>, keys: seq<StoreKey>,
                         result: seq<TimestampedIntent>)
    requires Keyed(store) && HandedOut(store, namespaces, excluded, serverFilter, After(events), keys, result)
    ensures Counting(result, events)
  {
    forall t, k | t in result && Between(t.intent, k)
      ensures t.connectionsCount == Changed(Window(events), LastWindow(events), k)
    {
      var i :| 0 <= i < |result| && result[i] == t;
      assert Between(store[keys[i]].intent, keys[i]) && keys[i] == k;
      RunReportsChanged(events, k);
    }
  }

  /** A stored intent is handed out exactly if its entry is selected. */
  lemma HandedOutIff(store: IntentsStore, namespaces: set<string>, excluded: map<string, string>,
                     serverFilter: Option<NamespacedName>, h: Holder, keys: seq<StoreKey>,
                     result: seq<TimestampedIntent>, k: StoreKey)
    requires Keyed(store) && HandedOut(store, namespaces, excluded, serverFilter, h, keys, result) && k in store
    ensures (exists t :: t in result && Kept(t, store[k])) <==> Selects(store, k, namespaces, excluded, serverFilter)
  {
    if Selects(store, k, namespaces, excluded, serverFilter) {
      var i :| 0 <= i < |keys| && keys[i] == k;
      assert result[i] in result && Kept(result[i], store[k]);
    }
    if t :| t in result && Kept(t, store[k]) {
      var i :| 0 <= i < |result| && result[i] == t;
      if keys[i] != k {
        KeyedApart(store, keys[i], k);
      }
    }
  }

  /** Handed out are exactly the stored intents that pass the filters themselves, no two with the same ends. */
  lemma HandedOutExactly(store: IntentsStore, namespaces: set<string>, excluded: map<string, string>,
                         serverFilter: Option<NamespacedName>, h: Holder, keys: seq<StoreKey>,
                         result: seq<TimestampedIntent>)
    requires Keyed(store) && HandedOut(store, namespaces, excluded, serverFilter, h, keys, result)
    ensures forall t | t in result :: exists u :: u in store.Values && Kept(t, u)
    ensures forall u | u in store.Values ::
              (exists t :: t in result && Kept(t, u)) <==>
              Passes(u, store.Values, namespaces, excluded, serverFilter)
    ensures forall i, j | 0 <= i < j < |result| :: !SameEnds(result[i].intent, result[j].intent)
  {
    HandedOutApart(store, namespaces, excluded, serverFilter, h, keys, result);
    forall u | u in store.Values
      ensures (exists t :: t in result && Kept(t, u)) <==>
              Passes(u, store.Values, namespaces, excluded, serverFilter)
    {
      var k :| k in store && store[k] == u;
      HandedOutIff(store, namespaces, excluded, serverFilter, h, keys, result, k);
      SelectsIff(store, k, namespaces, excluded, serverFilter);
    }
  }

  /** What is handed out for a client, a server and a type, if anything, is one intent. */
  ghost predicate Holds(result: seq<TimestampedIntent>, k: StoreKey) {
    exists t :: t in result && Between(t.intent, k)
  }

  /** It is handed out for exactly those that an intent of the window has, and no two have the same. */
  ghost predicate Represents(result: seq<TimestampedIntent>, w: seq<Event>) {
    && (forall k :: Holds(result, k) <==> Came(w, k))
    && (forall i, j | 0 <= i < j < |result| :: !SameEnds(result[i].intent, result[j].intent))
  }

  /** What a drain hands out stands so for the intents added since the last one. */
  lemma DrainedRepresents(store: IntentsStore, events: seq<Event>, h: Holder, keys: seq<StoreKey>,
                          result: seq<TimestampedIntent>)
    requires Keyed(store) && store.Keys == After(events).sinceLastGet.Keys
    requires HandedOut(store, {}, map[], None, h, keys, result)
    ensures Represents(result, Window(events))
  {
    HandedOutApart(store, {}, map[], None, h, keys, result);
    forall k ensures Holds(result, k) <==> Came(Window(events), k) {
      PendingKeysExactly(events, k);
      AllAreHeld(store, h, keys, result, k);
    }
  }

  lemma AllAreHeld(store: IntentsStore, h: Holder, keys: seq<StoreKey>, result: seq<TimestampedIntent>, k: StoreKey)
    requires Keyed(store) && HandedOut(store, {}, map[], None, h, keys, result)
    ensures Holds(result, k) <==> k in store
  {
    if Holds(result, k) {
      var t :| t in result && Between(t.intent, k);
      var i :| 0 <= i < |result| && result[i] == t;
      assert Between(store[keys[i]].intent, keys[i]) && keys[i] == k;
    }
    if k in store {
      assert Selects(store, k, {}, map[], None);
      var i :| 0 <= i < |keys| && keys[i] == k;
      assert result[i] in result && Between(result[i].intent, k);
    }
  }

  lemma WalkedPast(store: IntentsStore, done: set<StoreKey>, namespaces: set<string>, excluded: map<string, string>,
                   serverFilter: Option<NamespacedName>, h: Holder, keys: seq<StoreKey>,
                   result: seq<TimestampedIntent>, k: StoreKey)
    requires Walked(store, done, namespaces, excluded, serverFilter, h, keys, result)
    requires k in store && !Selects(store, k, namespaces, excluded, serverFilter)
    ensures Walked(store, done + {k}, namespaces, excluded, serverFilter, h, keys, result)
  {
  }

  lemma WalkedOn(store: IntentsStore, done: set<StoreKey>, namespaces: set<string>, excluded: map<string, string>,
                 serverFilter: Option<NamespacedName>, h: Holder, keys: seq<StoreKey>, result: seq<TimestampedIntent>,
                 k: StoreKey)
    requires Walked(store, done, namespaces, excluded, serverFilter, h, keys, result)
    requires k in store && k !in done && Selects(store, k, namespaces, excluded, serverFilter)
    ensures Walked(store, done + {k}, namespaces, excluded, serverFilter, h, keys + [k],
                   result + [Counted(store, k, h)])
  {
    assert k !in keys;
  }
}
