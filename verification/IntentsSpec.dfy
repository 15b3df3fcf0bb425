/**
 Discovered intents as values: what merging an intent into a stored one keeps. Lists of topics
 and of HTTP resources stand for maps from a name to a set, the form in which merging them is a
 union whatever the order of the lists.
 */
module IntentsSpec {
  import opened Basics

  datatype NamespacedName = NamespacedName(name: string, namespace: string)

  datatype PodLabel = PodLabel(key: string, value: string)

  /** How an identity was resolved; only the marker of the TCP destination fix matters here. */
  datatype ResolutionData = ResolutionData(details: string, tcpDestResolveFixData: Option<string>)

  datatype ServiceIdentity = ServiceIdentity(id: NamespacedName, labels: seq<PodLabel>,
                                             resolutionData: Option<ResolutionData>)

  datatype KafkaConfig = KafkaConfig(name: string, operations: seq<string>)

  datatype HTTPResource = HTTPResource(path: string, methods: seq<string>)

  datatype Intent = Intent(client: ServiceIdentity, server: ServiceIdentity, kind: Option<string>,
                           resolutionData: Option<string>,
                           kafkaTopics: seq<KafkaConfig>, httpResources: seq<HTTPResource>)

  datatype StoreKey = StoreKey(source: NamespacedName, destination: NamespacedName, kind: string)

  function KeyOf(i: Intent): StoreKey {
    StoreKey(i.client.id, i.server.id, if i.kind.Some? then i.kind.value else "")
  }

  /** Two intents share an entry exactly if they have the same client, the same server and the same type,
      where no type and the empty one are the same. */
  lemma SameKeyIff(i: Intent, j: Intent)
    ensures KeyOf(i) == KeyOf(j) <==>
            && i.client.id == j.client.id && i.server.id == j.server.id
            && (i.kind == j.kind || (i.kind in {None, Some("")} && j.kind in {None, Some("")}))
  {
  }

  /** The intent is from this client to this server, of this type. */
  ghost predicate Between(i: Intent, k: StoreKey) {
    && i.client.id == k.source && i.server.id == k.destination
    && (i.kind == Some(k.kind) || (i.kind.None? && k.kind == ""))
  }

  type Relation = map<string, set<string>>

  // ----- Lists as relations -----

  /** The map Go builds from a list: for a repeated name the last element wins. */
  ghost function TopicsOf(ts: seq<KafkaConfig>): Relation {
    if ts == [] then map[] else TopicsOf(Before(ts))[Last(ts).name := Members(Last(ts).operations)]
  }

  ghost function ResourcesOf(rs: seq<HTTPResource>): Relation {
    if rs == [] then map[] else ResourcesOf(Before(rs))[Last(rs).path := Members(Last(rs).methods)]
  }

  ghost function Union(a: Relation, b: Relation): Relation {
    map name | name in a.Keys + b.Keys :: Under(a, name) + Under(b, name)
  }

  /** Merging topics one by one into what is there: repeated new names add up. */
  ghost function TopicsMerged(m: Relation, ts: seq<KafkaConfig>): Relation {
    if ts == [] then m
    else
      var before, t := TopicsMerged(m, Before(ts)), Last(ts);
      before[t.name := Under(before, t.name) + Members(t.operations)]
  }

  ghost predicate UniqueTopics(ts: seq<KafkaConfig>) {
    forall i, j | 0 <= i < j < |ts| :: ts[i].name != ts[j].name
  }

  ghost predicate UniquePaths(rs: seq<HTTPResource>) {
    forall i, j | 0 <= i < j < |rs| :: rs[i].path != rs[j].path
  }

  lemma {:induction false} TopicsOfNames(ts: seq<KafkaConfig>, name: string)
    ensures name in TopicsOf(ts) <==> exists i :: 0 <= i < |ts| && ts[i].name == name
  {
    if ts != [] {
      TopicsOfNames(Before(ts), name);
      assert ts[|ts| - 1] == Last(ts);
      assert forall i | 0 <= i < |ts| - 1 :: ts[i] == Before(ts)[i];
    }
  }

  /** What a list shows, if every occurrence of a name counts. */
  ghost function TopicsShown(ts: seq<KafkaConfig>): Relation {
    TopicsMerged(map[], ts)
  }

  /** Merging a list is a union with everything it shows. */
  lemma {:induction false} MergingIsUnion(m: Relation, ts: seq<KafkaConfig>)
    ensures TopicsMerged(m, ts) == Union(m, TopicsShown(ts))
  {
    if ts == [] {
      UnionIdempotent(m);
    } else {
      MergingIsUnion(m, Before(ts));
      UnionWithMore(m, TopicsShown(Before(ts)), Last(ts).name, Members(Last(ts).operations));
    }
  }

  lemma UnionWithMore(m: Relation, r: Relation, name: string, ops: set<string>)
    ensures Union(m, r[name := Under(r, name) + ops]) == Union(m, r)[name := Under(Union(m, r), name) + ops]
  {
    var r' := r[name := Under(r, name) + ops];
    var l, u := Union(m, r'), Union(m, r)[name := Under(Union(m, r), name) + ops];
    forall n ensures (n in l <==> n in u) && Under(l, n) == Under(u, n) {
      UnionUnder(m, r, n);
      UnionUnder(m, r', n);
    }
    SameRelation(l, u);
  }

  lemma UnionWithNew(m: Relation, r: Relation, name: string, ops: set<string>)
    requires name !in r
    ensures Union(m, r[name := ops]) == Union(m, r)[name := Under(Union(m, r), name) + ops]
  {
    UnionWithMore(m, r, name, ops);
    assert {} + ops == ops;
  }

  lemma {:induction false} ShownWhenUnique(ts: seq<KafkaConfig>)
    requires UniqueTopics(ts)
    ensures TopicsShown(ts) == TopicsOf(ts)
  {
    if ts != [] {
      ShownWhenUnique(Before(ts));
      TopicsOfNames(Before(ts), Last(ts).name);
      assert {} + Members(Last(ts).operations) == Members(Last(ts).operations);
    }
  }

  // ----- What merging accumulates -----

  /** The part of a stored intent that only grows. */
  datatype Content = Content(timestamp: int, topics: Relation, resources: Relation)

  ghost function Join(a: Content, b: Content): Content {
    Content(if a.timestamp < b.timestamp then b.timestamp else a.timestamp,
            Union(a.topics, b.topics), Union(a.resources, b.resources))
  }

  ghost function JoinOpt(a: Option<Content>, b: Option<Content>): Option<Content> {
    if a.None? then b else if b.None? then a else Some(Join(a.value, b.value))
  }

  ghost function JoinAll(cs: seq<Content>): Option<Content> {
    if cs == [] then None else JoinOpt(JoinAll(Before(cs)), Some(Last(cs)))
  }

  lemma SameRelation(a: Relation, b: Relation)
    requires forall n :: (n in a <==> n in b) && Under(a, n) == Under(b, n)
    ensures a == b
  {
    assert forall n | n in a :: a[n] == Under(a, n) && b[n] == Under(b, n);
    assert a.Keys == b.Keys;
  }

  lemma UnionUnder(a: Relation, b: Relation, n: string)
    ensures n in Union(a, b) <==> n in a || n in b
    ensures Under(Union(a, b), n) == Under(a, n) + Under(b, n)
  {
  }

  lemma UnionCommutes(a: Relation, b: Relation)
    ensures Union(a, b) == Union(b, a)
  {
    forall n ensures (n in Union(a, b) <==> n in Union(b, a)) && Under(Union(a, b), n) == Under(Union(b, a), n) {
      UnionUnder(a, b, n);
      UnionUnder(b, a, n);
    }
    SameRelation(Union(a, b), Union(b, a));
  }

  lemma UnionAssociates(a: Relation, b: Relation, c: Relation)
    ensures Union(Union(a, b), c) == Union(a, Union(b, c))
  {
    var l, r := Union(Union(a, b), c), Union(a, Union(b, c));
    forall n ensures (n in l <==> n in r) && Under(l, n) == Under(r, n) {
      UnionUnder(a, b, n);
      UnionUnder(b, c, n);
      UnionUnder(Union(a, b), c, n);
      UnionUnder(a, Union(b, c), n);
    }
    SameRelation(l, r);
  }

  lemma UnionIdempotent(a: Relation)
    ensures Union(a, a) == a && Union(a, map[]) == a
  {
    forall n ensures (n in Union(a, a) <==> n in a) && Under(Union(a, a), n) == Under(a, n) {
      UnionUnder(a, a, n);
    }
    SameRelation(Union(a, a), a);
    forall n ensures (n in Union(a, map[]) <==> n in a) && Under(Union(a, map[]), n) == Under(a, n) {
      UnionUnder(a, map[], n);
    }
    SameRelation(Union(a, map[]), a);
  }

  lemma UnionLaws(a: Relation, b: Relation, c: Relation)
    ensures Union(a, b) == Union(b, a)
    ensures Union(Union(a, b), c) == Union(a, Union(b, c))
    ensures Union(a, a) == a
  {
    UnionCommutes(a, b);
    UnionAssociates(a, b, c);
    UnionIdempotent(a);
  }

  /** Merging is commutative, associative and idempotent. */
  lemma JoinLaws(a: Option<Content>, b: Option<Content>, c: Option<Content>)
    ensures JoinOpt(a, b) == JoinOpt(b, a)
    ensures JoinOpt(JoinOpt(a, b), c) == JoinOpt(a, JoinOpt(b, c))
    ensures JoinOpt(a, a) == a
  {
    if a.Some? {
      UnionLaws(a.value.topics, a.value.topics, a.value.topics);
      UnionLaws(a.value.resources, a.value.resources, a.value.resources);
    }
    if a.Some? && b.Some? {
      UnionLaws(a.value.topics, b.value.topics, a.value.topics);
      UnionLaws(a.value.resources, b.value.resources, a.value.resources);
    }
    if a.Some? && b.Some? && c.Some? {
      UnionLaws(a.value.topics, b.value.topics, c.value.topics);
      UnionLaws(a.value.resources, b.value.resources, c.value.resources);
    }
  }

  lemma JoinAssociates(a: Option<Content>, b: Option<Content>, c: Option<Content>)
    ensures JoinOpt(JoinOpt(a, b), c) == JoinOpt(a, JoinOpt(b, c))
  {
    JoinLaws(a, b, c);
  }

  lemma {:induction false} JoinAllConcat(s: seq<Content>, t: seq<Content>)
    ensures JoinAll(s + t) == JoinOpt(JoinAll(s), JoinAll(t))
  {
    if t == [] {
      assert s + t == s;
    } else {
      assert Before(s + t) == s + Before(t) && Last(s + t) == Last(t);
      JoinAllConcat(s, Before(t));
      JoinAssociates(JoinAll(s), JoinAll(Before(t)), Some(Last(t)));
    }
  }

  lemma JoinAllWithout(t: seq<Content>, k: nat)
    requires k < |t|
    ensures JoinAll(t) == JoinOpt(JoinAll(t[..k] + t[k + 1..]), Some(t[k]))
  {
    var front, back, here := t[..k], t[k + 1..], t[..k + 1];
    assert t == here + back && Before(here) == front && Last(here) == t[k];
    JoinAllConcat(front, back);
    JoinAllConcat(here, back);
    JoinLaws(JoinAll(front), JoinAll(back), Some(t[k]));
    JoinLaws(JoinAll(front), Some(t[k]), JoinAll(back));
    JoinLaws(Some(t[k]), JoinAll(back), None);
  }

  lemma {:induction false} JoinAllOfPermutation(s: seq<Content>, t: seq<Content>)
    requires multiset(s) == multiset(t)
    ensures JoinAll(s) == JoinAll(t)
  {
    if s == [] {
      assert |t| == |multiset(t)| == 0;
    } else {
      var k := PositionOfLast(s, t);
      JoinAllOfPermutation(Before(s), t[..k] + t[k + 1..]);
      JoinAllWithout(t, k);
    }
  }

  // ----- A stored entry -----

  datatype Add = Add(timestamp: int, intent: Intent)

  /** An entry of a store, with its lists read as relations. */
  datatype Summary = Summary(content: Content, clientLabels: seq<PodLabel>, serverLabels: seq<PodLabel>,
                             serverResolution: Option<ResolutionData>, resolutionData: Option<string>)

  /** What an intent adds to an entry it is merged into. */
  ghost function ContentOf(a: Add): Content {
    Content(a.timestamp, TopicsShown(a.intent.kafkaTopics), ResourcesOf(a.intent.httpResources))
  }

  /** The entry an intent opens, its lists as the next merge reads them. */
  ghost function First(a: Add): Summary {
    Summary(Content(a.timestamp, TopicsOf(a.intent.kafkaTopics), ResourcesOf(a.intent.httpResources)),
            a.intent.client.labels, a.intent.server.labels, a.intent.server.resolutionData, a.intent.resolutionData)
  }

  /** An intent that was resolved without the fix. */
  predicate WithoutFix(r: Option<ResolutionData>) {
    r.Some? && r.value.tcpDestResolveFixData.None?
  }

  function ResolutionMerged(existing: Option<ResolutionData>,
                            incoming: Option<ResolutionData>): Option<ResolutionData> {
    if (WithoutFix(existing) || WithoutFix(incoming)) && existing.Some?
    then Some(existing.value.(tcpDestResolveFixData := None))
    else existing
  }

  ghost function Merged(e: Summary, a: Add): Summary {
    Summary(Content(if a.timestamp > e.content.timestamp then a.timestamp else e.content.timestamp,
                    TopicsMerged(e.content.topics, a.intent.kafkaTopics),
                    Union(e.content.resources, ResourcesOf(a.intent.httpResources))),
            a.intent.client.labels, a.intent.server.labels,
            ResolutionMerged(e.serverResolution, a.intent.server.resolutionData), e.resolutionData)
  }

  ghost function AfterAdd(e: Option<Summary>, a: Add): Summary {
    if e.None? then First(a) else Merged(e.value, a)
  }

  /** The entry a list of intents for one key leads to. */
  ghost function Folded(adds: seq<Add>): Option<Summary> {
    if adds == [] then None else Some(AfterAdd(Folded(Before(adds)), Last(adds)))
  }

  /** The intent that opens the entry names each topic once. */
  ghost predicate OpensUnique(adds: seq<Add>) {
    adds != [] ==> UniqueTopics(adds[0].intent.kafkaTopics)
  }

  ghost function Contents(adds: seq<Add>): seq<Content> {
    if adds == [] then [] else Contents(Before(adds)) + [ContentOf(Last(adds))]
  }

  ghost function ContentOr(e: Option<Summary>): Option<Content> {
    if e.Some? then Some(e.value.content) else None
  }

  /** A stored entry holds exactly the join of the intents merged into it. */
  lemma {:induction false} FoldIsJoin(adds: seq<Add>)
    requires OpensUnique(adds)
    ensures ContentOr(Folded(adds)) == JoinAll(Contents(adds))
  {
    if adds != [] {
      FoldIsJoin(Before(adds));
      AddIsJoin(Folded(Before(adds)), Last(adds));
      assert Before(Contents(adds)) == Contents(Before(adds));
    }
  }

  lemma AddIsJoin(e: Option<Summary>, a: Add)
    requires e.None? ==> UniqueTopics(a.intent.kafkaTopics)
    ensures Some(AfterAdd(e, a).content) == JoinOpt(ContentOr(e), Some(ContentOf(a)))
  {
    if e.Some? {
      MergingIsUnion(e.value.content.topics, a.intent.kafkaTopics);
    } else {
      ShownWhenUnique(a.intent.kafkaTopics);
    }
  }

  /** Some intent of the list showed this topic, and this operation on it. */
  ghost predicate ShowsTopic(a: Add, name: string) {
    exists t :: t in a.intent.kafkaTopics && t.name == name
  }

  ghost predicate ShowsOperation(a: Add, name: string, op: string) {
    exists t :: t in a.intent.kafkaTopics && t.name == name && op in t.operations
  }

  ghost predicate ShowsPath(a: Add, path: string) {
    exists r :: r in a.intent.httpResources && r.path == path
  }

  ghost predicate ShowsMethod(a: Add, path: string, verb: string) {
    exists r :: r in a.intent.httpResources && r.path == path && verb in r.methods
  }

  /** The last element of the list that has this name has this operation. */
  ghost predicate ListedLast(ts: seq<KafkaConfig>, name: string, op: string) {
    exists i :: 0 <= i < |ts| && ts[i].name == name && op in ts[i].operations &&
        forall j | i < j < |ts| :: ts[j].name != name
  }

  ghost predicate Repeats(ts: seq<KafkaConfig>, name: string) {
    exists i, j :: 0 <= i < j < |ts| && ts[i].name == name && ts[j].name == name
  }

  lemma {:induction false} TopicsOfIsLast(ts: seq<KafkaConfig>, name: string, op: string)
    ensures op in Under(TopicsOf(ts), name) <==> ListedLast(ts, name, op)
  {
    if ts != [] {
      var n := |ts| - 1;
      TopicsOfIsLast(Before(ts), name, op);
      assert forall i | 0 <= i < n :: Before(ts)[i] == ts[i];
      if ts[n].name != name && ListedLast(Before(ts), name, op) {
        var i :| 0 <= i < n && Before(ts)[i].name == name && op in Before(ts)[i].operations &&
                 forall j | i < j < n :: Before(ts)[j].name != name;
        assert ts[i].name == name && forall j | i < j < |ts| :: ts[j].name != name;
      }
    }
  }

  lemma {:induction false} TopicsShownExactly(ts: seq<KafkaConfig>, name: string, op: string)
    ensures name in TopicsShown(ts) <==> exists t :: t in ts && t.name == name
    ensures op in Under(TopicsShown(ts), name) <==> exists t :: t in ts && t.name == name && op in t.operations
  {
    if ts != [] {
      TopicsShownExactly(Before(ts), name, op);
      Rejoin(ts);
    }
  }

  /** What an entry holds of a topic: the operations that the intent which opened it has under the
      last occurrence of the name, and all that any later intent shows. */
  lemma {:induction false} EntryTopics(adds: seq<Add>, name: string, op: string)
    requires adds != []
    ensures var topics, first := Folded(adds).value.content.topics, adds[0].intent.kafkaTopics;
            && (name in topics <==> exists a :: a in adds && ShowsTopic(a, name))
            && (op in Under(topics, name) <==>
                ListedLast(first, name, op) || exists i :: 0 < i < |adds| && ShowsOperation(adds[i], name, op))
  {
    var before, last := Before(adds), Last(adds);
    Rejoin(adds);
    TopicsShownExactly(last.intent.kafkaTopics, name, op);
    if before == [] {
      TopicsOfIsLast(last.intent.kafkaTopics, name, op);
      TopicsOfNames(last.intent.kafkaTopics, name);
      assert adds == [last];
    } else {
      var topics := Folded(before).value.content.topics;
      EntryTopics(before, name, op);
      MergingIsUnion(topics, last.intent.kafkaTopics);
      UnionUnder(topics, TopicsShown(last.intent.kafkaTopics), name);
      assert adds[|adds| - 1] == last && forall i | 0 <= i < |before| :: before[i] == adds[i];
    }
  }

  lemma ListedWhenUnique(ts: seq<KafkaConfig>, name: string, op: string)
    ensures (exists t :: t in ts && t.name == name && op in t.operations) ==>
            Repeats(ts, name) || ListedLast(ts, name, op)
    ensures ListedLast(ts, name, op) ==> exists t :: t in ts && t.name == name && op in t.operations
  {
    if t :| t in ts && t.name == name && op in t.operations {
      var i :| 0 <= i < |ts| && ts[i] == t;
      if !Repeats(ts, name) {
        assert forall j | i < j < |ts| :: ts[j].name != name;
      }
    }
  }

  /** So, if the intent that opened the entry names each topic once, the entry holds exactly the
      topics and operations that some merged intent showed. */
  lemma EntryTopicsExactly(adds: seq<Add>, name: string, op: string)
    requires adds != [] && OpensUnique(adds)
    ensures var topics := Folded(adds).value.content.topics;
            && (name in topics <==> exists a :: a in adds && ShowsTopic(a, name))
            && (op in Under(topics, name) <==> exists a :: a in adds && ShowsOperation(a, name, op))
  {
    EntryTopics(adds, name, op);
    ListedWhenUnique(adds[0].intent.kafkaTopics, name, op);
    ShownSomewhere(adds, name, op);
  }

  lemma ShownSomewhere(adds: seq<Add>, name: string, op: string)
    requires adds != []
    ensures (exists a :: a in adds && ShowsOperation(a, name, op)) <==>
            ShowsOperation(adds[0], name, op) || exists i :: 0 < i < |adds| && ShowsOperation(adds[i], name, op)
  {
    if a :| a in adds && ShowsOperation(a, name, op) {
      var i :| 0 <= i < |adds| && adds[i] == a;
    }
    if i :| 0 < i < |adds| && ShowsOperation(adds[i], name, op) {
      assert adds[i] in adds;
    }
    assert adds[0] in adds;
  }

  /** An operation that some intent showed is missing from the entry exactly if the intent that
      opened it repeats the topic, and has the operation only before the last occurrence, and no
      later intent shows it. */
  lemma OperationIsLostIff(adds: seq<Add>, name: string, op: string)
    requires adds != []
    ensures var topics, first := Folded(adds).value.content.topics, adds[0].intent.kafkaTopics;
            (exists a :: a in adds && ShowsOperation(a, name, op)) && op !in Under(topics, name) <==>
            && Repeats(first, name) && ShowsOperation(adds[0], name, op) && !ListedLast(first, name, op)
            && forall i | 0 < i < |adds| :: !ShowsOperation(adds[i], name, op)
  {
    EntryTopics(adds, name, op);
    ListedWhenUnique(adds[0].intent.kafkaTopics, name, op);
    ShownSomewhere(adds, name, op);
  }

  /** For instance: of a topic listed for reading and then for writing, only writing is left once
      another intent is merged into the entry. */
  lemma RepeatedTopicLosesOperations(first: Add, second: Add)
    requires first.intent.kafkaTopics == [KafkaConfig("t", ["read"]), KafkaConfig("t", ["write"])]
    requires second.intent.kafkaTopics == []
    ensures ShowsOperation(first, "t", "read")
    ensures var topics := Folded([first, second]).value.content.topics;
            "read" !in Under(topics, "t") && "write" in Under(topics, "t")
  {
    var ts, adds := first.intent.kafkaTopics, [first, second];
    assert ts[0] in ts && ts[0].operations[0] == "read" && ts[1].operations[0] == "write";
    assert !ShowsOperation(second, "t", "read");
    assert ts[1].name == "t" && "read" !in ts[1].operations && "write" in ts[1].operations;
    EntryTopics(adds, "t", "read");
    EntryTopics(adds, "t", "write");
    assert forall i | 0 < i < |adds| :: adds[i] == second;
  }

  /** The last element of the list that has this path has this method. */
  ghost predicate MethodListedLast(rs: seq<HTTPResource>, path: string, verb: string) {
    exists i :: 0 <= i < |rs| && rs[i].path == path && verb in rs[i].methods &&
        forall j | i < j < |rs| :: rs[j].path != path
  }

  lemma {:induction false} ResourcesOfIsLast(rs: seq<HTTPResource>, path: string, verb: string)
    ensures path in ResourcesOf(rs) <==> exists r :: r in rs && r.path == path
    ensures verb in Under(ResourcesOf(rs), path) <==> MethodListedLast(rs, path, verb)
  {
    if rs != [] {
      var n := |rs| - 1;
      ResourcesOfIsLast(Before(rs), path, verb);
      Rejoin(rs);
      assert forall i | 0 <= i < n :: Before(rs)[i] == rs[i];
      if rs[n].path != path && MethodListedLast(Before(rs), path, verb) {
        var i :| 0 <= i < n && Before(rs)[i].path == path && verb in Before(rs)[i].methods &&
                 forall j | i < j < n :: Before(rs)[j].path != path;
        assert rs[i].path == path && forall j | i < j < |rs| :: rs[j].path != path;
      }
    }
  }

  /** An entry has exactly the paths some merged intent showed, and of each the methods that some
      intent has under its last occurrence. */
  lemma {:induction false} EntryResourcesExactly(adds: seq<Add>, path: string, verb: string)
    requires adds != []
    ensures var resources := Folded(adds).value.content.resources;
            && (path in resources <==> exists a :: a in adds && ShowsPath(a, path))
            && (verb in Under(resources, path)
                <==> exists a :: a in adds && MethodListedLast(a.intent.httpResources, path, verb))
  {
    var before, last := Before(adds), Last(adds);
    Rejoin(adds);
    ResourcesOfIsLast(last.intent.httpResources, path, verb);
    if before != [] {
      EntryResourcesExactly(before, path, verb);
      UnionUnder(Folded(before).value.content.resources, ResourcesOf(last.intent.httpResources), path);
    }
  }

  /** So a method that some intent showed is missing exactly if every intent has it, if at all,
      only before its last occurrence of the path; none is missing if no intent repeats the path. */
  lemma MethodIsLostIff(adds: seq<Add>, path: string, verb: string)
    requires adds != []
    ensures var resources := Folded(adds).value.content.resources;
            (exists a :: a in adds && ShowsMethod(a, path, verb)) && verb !in Under(resources, path) <==>
            && (exists a :: a in adds && ShowsMethod(a, path, verb))
            && forall a | a in adds && ShowsMethod(a, path, verb) ::
                !MethodListedLast(a.intent.httpResources, path, verb)
    ensures (forall a | a in adds :: UniquePaths(a.intent.httpResources)) ==>
              (verb in Under(Folded(adds).value.content.resources, path)
               <==> exists a :: a in adds && ShowsMethod(a, path, verb))
  {
    EntryResourcesExactly(adds, path, verb);
    forall a | a in adds
      ensures MethodListedLast(a.intent.httpResources, path, verb) ==> ShowsMethod(a, path, verb)
      ensures UniquePaths(a.intent.httpResources) && ShowsMethod(a, path, verb) ==>
              MethodListedLast(a.intent.httpResources, path, verb)
    {
      MethodListedWhenUnique(a, path, verb);
    }
  }

  lemma MethodListedWhenUnique(a: Add, path: string, verb: string)
    ensures MethodListedLast(a.intent.httpResources, path, verb) ==> ShowsMethod(a, path, verb)
    ensures UniquePaths(a.intent.httpResources) && ShowsMethod(a, path, verb) ==>
            MethodListedLast(a.intent.httpResources, path, verb)
  {
    var rs := a.intent.httpResources;
    if UniquePaths(rs) && ShowsMethod(a, path, verb) {
      var r :| r in rs && r.path == path && verb in r.methods;
      var i :| 0 <= i < |rs| && rs[i] == r;
      assert forall j | i < j < |rs| :: rs[j].path != path;
    }
  }

  /** The time of an entry is that of its latest intent. */
  lemma {:induction false} EntryTimeIsLatest(adds: seq<Add>)
    requires adds != []
    ensures forall a | a in adds :: a.timestamp <= Folded(adds).value.content.timestamp
    ensures exists a :: a in adds && a.timestamp == Folded(adds).value.content.timestamp
  {
    var before, last := Before(adds), Last(adds);
    assert adds == before + [last];
    assert last in adds && forall a | a in before :: a in adds;
    assert forall a | a in adds :: a in before || a == last;
    if before != [] {
      EntryTimeIsLatest(before);
    }
  }

  lemma {:induction false} ContentsConcat(s: seq<Add>, t: seq<Add>)
    ensures Contents(s + t) == Contents(s) + Contents(t)
  {
    if t == [] {
      assert s + t == s;
    } else {
      assert Before(s + t) == s + Before(t);
      ContentsConcat(s, Before(t));
    }
  }

  /** The fix marker survives exactly while no merged intent was resolved without it; an entry
      whose first intent had no resolution data never gets any. */
  lemma {:induction false} FixKeptExactly(adds: seq<Add>)
    requires adds != []
    ensures var first := adds[0].intent.server.resolutionData;
            Folded(adds).value.serverResolution ==
              if first.Some? &&
                 exists a :: a in adds && a.intent.server.resolutionData.Some? &&
                   a.intent.server.resolutionData.value.tcpDestResolveFixData.None?
              then Some(first.value.(tcpDestResolveFixData := None)) else first
  {
    var before := Before(adds);
    assert adds == before + [Last(adds)];
    if before != [] {
      FixKeptExactly(before);
      assert before[0] == adds[0];
      assert forall a :: a in adds <==> a in before || a == Last(adds);
    } else {
      assert adds == [adds[0]];
      assert adds[0] in adds;
      assert Last(adds) == adds[0];
    }
  }

  /** Labels are those of the latest intent, and how the intent was resolved is that of the first. */
  lemma {:induction false} LabelsAreLatest(adds: seq<Add>)
    requires adds != []
    ensures var e := Folded(adds).value;
            && e.clientLabels == Last(adds).intent.client.labels && e.serverLabels == Last(adds).intent.server.labels
            && e.resolutionData == adds[0].intent.resolutionData
  {
    if Before(adds) != [] {
      LabelsAreLatest(Before(adds));
    }
  }
}
