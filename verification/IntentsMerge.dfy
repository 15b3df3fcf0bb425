/** The loops that merge topics and HTTP resources through maps, in any map order. */
module IntentsMerge {
  import opened Basics
  import opened IntentsSpec

  /** The distinct elements, each where it first occurs. */
  method Uniq(s: seq<string>) returns (u: seq<string>)
    ensures Members(u) == Members(s) && NoRepeats(u)
  {
    u := [];
    for n := 0 to |s|
      invariant Members(u) == Members(s[..n]) && NoRepeats(u)
    {
      assert s[..n + 1] == s[..n] + [s[n]];
      assert Members(s[..n + 1]) == Members(s[..n]) + {s[n]};
      if s[n] !in u {
        assert Members(u + [s[n]]) == Members(u) + {s[n]};
        u := u + [s[n]];
      }
    }
    assert s[..|s|] == s;
  }

  // ----- Kafka topics -----

  type TopicsByName = map<string, KafkaConfig>

  /** The relation a map of topics stands for. */
  ghost function OperationsByName(m: TopicsByName): Relation {
    map name | name in m :: Members(m[name].operations)
  }

  ghost predicate NamedTopics(m: TopicsByName) {
    forall name | name in m :: m[name].name == name
  }

  method TopicsToMap(topics: seq<KafkaConfig>) returns (m: TopicsByName)
    ensures NamedTopics(m) && OperationsByName(m) == TopicsOf(topics)
  {
    m := map[];
    for n := 0 to |topics|
      invariant NamedTopics(m) && OperationsByName(m) == TopicsOf(topics[..n])
    {
      assert Before(topics[..n + 1]) == topics[..n];
      OperationsUpdated(m, topics[n]);
      m := m[topics[n].name := topics[n]];
    }
    assert topics[..|topics|] == topics;
  }

  lemma OperationsUpdated(m: TopicsByName, t: KafkaConfig)
    ensures OperationsByName(m[t.name := t]) == OperationsByName(m)[t.name := Members(t.operations)]
  {
  }

  /** Merge new topics into the existing ones; a repeated new name merges with the one before it. */
  method MergeKafkaTopics(existingTopics: seq<KafkaConfig>, newTopics: seq<KafkaConfig>) returns (res: seq<KafkaConfig>)
    ensures TopicsOf(res) == TopicsMerged(TopicsOf(existingTopics), newTopics)
    ensures UniqueTopics(res)
  {
    var byName := TopicsToMap(existingTopics);
    for n := 0 to |newTopics|
      invariant NamedTopics(byName)
      invariant OperationsByName(byName) == TopicsMerged(TopicsOf(existingTopics), newTopics[..n])
    {
      assert Before(newTopics[..n + 1]) == newTopics[..n];
      byName := MergeTopic(byName, newTopics[n]);
    }
    assert newTopics[..|newTopics|] == newTopics;
    res := ListTopics(byName);
  }

  method MergeTopic(byName: TopicsByName, newTopic: KafkaConfig) returns (r: TopicsByName)
    requires NamedTopics(byName)
    ensures NamedTopics(r)
    ensures var m := OperationsByName(byName);
            OperationsByName(r) == m[newTopic.name := Under(m, newTopic.name) + Members(newTopic.operations)]
  {
    if newTopic.name in byName {
      var existingTopic := byName[newTopic.name];
      var operations := Uniq(existingTopic.operations + newTopic.operations);
      r := byName[newTopic.name := existingTopic.(operations := operations)];
      OperationsUpdated(byName, existingTopic.(operations := operations));
      assert Members(existingTopic.operations + newTopic.operations)
          == Members(existingTopic.operations) + Members(newTopic.operations);
    } else {
      r := byName[newTopic.name := newTopic];
      OperationsUpdated(byName, newTopic);
      assert {} + Members(newTopic.operations) == Members(newTopic.operations);
    }
  }

  ghost function Restrict<V>(m: map<string, V>, names: set<string>): map<string, V> {
    map name | name in m && name in names :: m[name]
  }

  method ListTopics(byName: TopicsByName) returns (res: seq<KafkaConfig>)
    requires NamedTopics(byName)
    ensures TopicsOf(res) == OperationsByName(byName) && UniqueTopics(res)
  {
    res := [];
    var remaining := byName.Keys;
    ghost var all := OperationsByName(byName);
    assert Restrict(all, byName.Keys - remaining) == map[];
    while |remaining| > 0
      invariant remaining <= byName.Keys && UniqueTopics(res)
      invariant TopicsOf(res) == Restrict(all, byName.Keys - remaining)
    {
      assert exists n :: n in remaining by {
        var n := Pick(remaining);
      }
      var name :| name in remaining;
      ListMoreTopics(byName, remaining, res, name);
      res := res + [byName[name]];
      remaining := remaining - {name};
    }
    assert Restrict(all, byName.Keys - remaining) == all;
  }

  lemma ListMoreTopics(byName: TopicsByName, remaining: set<string>, res: seq<KafkaConfig>, name: string)
    requires NamedTopics(byName) && name in remaining && remaining <= byName.Keys && UniqueTopics(res)
    requires TopicsOf(res) == Restrict(OperationsByName(byName), byName.Keys - remaining)
    ensures UniqueTopics(res + [byName[name]])
    ensures TopicsOf(res + [byName[name]]) == Restrict(OperationsByName(byName), byName.Keys - (remaining - {name}))
  {
    assert Before(res + [byName[name]]) == res;
    forall i | 0 <= i < |res| ensures res[i].name != name {
      TopicsOfNames(res, res[i].name);
    }
  }

  // ----- HTTP resources -----

  type MethodsByPath = map<string, seq<string>>

  ghost function MethodSets(m: MethodsByPath): Relation {
    map path | path in m :: Members(m[path])
  }

  method ResourcesToMap(resources: seq<HTTPResource>) returns (m: MethodsByPath)
    ensures MethodSets(m) == ResourcesOf(resources)
  {
    m := map[];
    for n := 0 to |resources|
      invariant MethodSets(m) == ResourcesOf(resources[..n])
    {
      assert Before(resources[..n + 1]) == resources[..n];
      assert MethodSets(m[resources[n].path := resources[n].methods])
          == MethodSets(m)[resources[n].path := Members(resources[n].methods)];
      m := m[resources[n].path := resources[n].methods];
    }
    assert resources[..|resources|] == resources;
  }

  /** Add the methods not yet listed. */
  method AddMethods(currMethods: seq<string>, methods: seq<string>) returns (r: seq<string>)
    ensures Members(r) == Members(currMethods) + Members(methods)
  {
    r := currMethods;
    for n := 0 to |methods|
      invariant Members(r) == Members(currMethods) + Members(methods[..n])
    {
      assert methods[..n + 1] == methods[..n] + [methods[n]];
      assert Members(methods[..n + 1]) == Members(methods[..n]) + {methods[n]};
      if methods[n] !in r {
        assert Members(r + [methods[n]]) == Members(r) + {methods[n]};
        r := r + [methods[n]];
      }
    }
    assert methods[..|methods|] == methods;
  }

  method MergeHTTPResources(existingResources: seq<HTTPResource>, newResources: seq<HTTPResource>)
    returns (res: seq<HTTPResource>)
    ensures ResourcesOf(res) == Union(ResourcesOf(existingResources), ResourcesOf(newResources))
    ensures UniquePaths(res)
  {
    var existingResourcesMap := ResourcesToMap(existingResources);
    var newResourcesMap := ResourcesToMap(newResources);
    var merged := MergeMaps(existingResourcesMap, newResourcesMap);
    res := ListResources(merged);
  }

  method MergeMaps(existing: MethodsByPath, news: MethodsByPath) returns (r: MethodsByPath)
    ensures MethodSets(r) == Union(MethodSets(existing), MethodSets(news))
  {
    r := existing;
    var remaining := news.Keys;
    ghost var was, all := MethodSets(existing), MethodSets(news);
    NothingMerged(was, all);
    while |remaining| > 0
      invariant remaining <= all.Keys
      invariant MethodSets(r) == Union(was, Restrict(all, all.Keys - remaining))
    {
      assert exists p :: p in remaining by {
        var p := Pick(remaining);
      }
      var path :| path in remaining;
      MergeOneMore(was, all, remaining, path);
      r := MergePath(r, path, news[path]);
      remaining := remaining - {path};
    }
    assert Restrict(all, all.Keys - remaining) == all;
  }

  lemma NothingMerged(m: Relation, all: Relation)
    ensures Union(m, Restrict(all, all.Keys - all.Keys)) == m
  {
    UnionIdempotent(m);
    assert Restrict(all, all.Keys - all.Keys) == map[];
  }

  lemma MergeOneMore(m: Relation, all: Relation, remaining: set<string>, path: string)
    requires path in remaining && remaining <= all.Keys
    ensures var before := Union(m, Restrict(all, all.Keys - remaining));
            before[path := Under(before, path) + all[path]] == Union(m, Restrict(all, all.Keys - (remaining - {path})))
  {
    var before := Restrict(all, all.Keys - remaining);
    UnionWithNew(m, before, path, all[path]);
    assert Restrict(all, all.Keys - (remaining - {path})) == before[path := all[path]];
  }

  method MergePath(m: MethodsByPath, path: string, methods: seq<string>) returns (r: MethodsByPath)
    ensures MethodSets(r) == MethodSets(m)[path := Under(MethodSets(m), path) + Members(methods)]
  {
    if path !in m {
      r := m[path := methods];
      assert {} + Members(methods) == Members(methods);
    } else {
      var currMethods := AddMethods(m[path], methods);
      r := m[path := currMethods];
    }
  }

  method ListResources(byPath: MethodsByPath) returns (res: seq<HTTPResource>)
    ensures ResourcesOf(res) == MethodSets(byPath) && UniquePaths(res)
  {
    res := [];
    var remaining := byPath.Keys;
    ghost var all := MethodSets(byPath);
    assert Restrict(all, byPath.Keys - remaining) == map[];
    while |remaining| > 0
      invariant remaining <= byPath.Keys && UniquePaths(res)
      invariant ResourcesOf(res) == Restrict(all, byPath.Keys - remaining)
    {
      assert exists p :: p in remaining by {
        var p := Pick(remaining);
      }
      var path :| path in remaining;
      ListMoreResources(byPath, remaining, res, path);
      res := res + [HTTPResource(path, byPath[path])];
      remaining := remaining - {path};
    }
    assert Restrict(all, byPath.Keys - remaining) == all;
  }

  lemma {:induction false} ResourcesOfNames(rs: seq<HTTPResource>, i: nat)
    requires i < |rs|
    ensures rs[i].path in ResourcesOf(rs)
  {
    if i < |rs| - 1 {
      ResourcesOfNames(Before(rs), i);
    }
  }

  lemma ListMoreResources(byPath: MethodsByPath, remaining: set<string>, res: seq<HTTPResource>, path: string)
    requires path in remaining && remaining <= byPath.Keys && UniquePaths(res)
    requires ResourcesOf(res) == Restrict(MethodSets(byPath), byPath.Keys - remaining)
    ensures UniquePaths(res + [HTTPResource(path, byPath[path])])
    ensures ResourcesOf(res + [HTTPResource(path, byPath[path])])
            == Restrict(MethodSets(byPath), byPath.Keys - (remaining - {path}))
  {
    assert Before(res + [HTTPResource(path, byPath[path])]) == res;
    forall i | 0 <= i < |res| ensures res[i].path != path {
      ResourcesOfNames(res, i);
    }
  }
}
