/**
 What one round of the publisher leaves in the cache's log, and, while time stands still and
 nothing is evicted, that the round does to the cache and to the client what the frozen model says.
 */
module PublisherTrace {
  import opened Basics
  import opened TtlCacheSpec
  import opened TtlCacheRuns
  import opened PublisherSpec
  import opened DnsCache
  import TtlCache

  const OWN_RESOLUTION_TTL := 120

  type Log = seq<Op<string, string>>

  /** The resolver is asked only about a plain name the cache knows nothing of. */
  ghost predicate Honest(o: Outcome, name: string, lookup: Option<seq<string>>) {
    o.own == if o.cached == {} && !IsWildcard(name) && lookup.Some? then Some(Members(lookup.value)) else None
  }

  ghost function Added(o: Outcome, lookup: Option<seq<string>>): seq<string> {
    if o.own.Some? && lookup.Some? then lookup.value else []
  }

  ghost predicate IsOwnInsert(op: Op<string, string>, name: string, ip: string) {
    op.Insert? && op.entry == Entry(name, ip, op.at + OWN_RESOLUTION_TTL)
  }

  /** For one name: the cache is asked, answers, and stores the resolver's own addresses in turn. */
  ghost predicate NameStep(cap: nat, log: Log, base: Log, name: string, cached: set<string>, added: seq<string>,
                           from: int)
    decreases |added|
  {
    && log != []
    && if added == [] then
         && Before(log) == base
         && Last(log).Lookup? && Last(log).from == from && Last(log).scope == ScopeOf(State(cap, base), name)
         && Addresses(Last(log).hits) == cached
       else
         && IsOwnInsert(Last(log), name, Last(added))
         && NameStep(cap, Before(log), base, name, cached, Before(added), from)
  }

  /** The loop over the resolver's addresses stores one more. */
  lemma StepGrows(cap: nat, log: Log, base: Log, name: string, ips: seq<string>, n: nat, from: int)
    requires n < |ips| && log != [] && IsOwnInsert(Last(log), name, ips[n])
    requires NameStep(cap, Before(log), base, name, {}, ips[..n], from)
    ensures NameStep(cap, log, base, name, {}, ips[..n + 1], from)
    ensures Members(ips[..n + 1]) == Members(ips[..n]) + {ips[n]}
  {
    assert Before(ips[..n + 1]) == ips[..n] && Last(ips[..n + 1]) == ips[n];
    Rejoin(ips[..n + 1]);
  }

  /** The part of the log before the steps of the last name. */
  ghost function Earlier(log: Log, added: seq<string>): Log {
    if |added| < |log| then log[..|log| - 1 - |added|] else []
  }

  ghost predicate RoundRan(cap: nat, log: Log, base: Log, names: seq<string>, lookups: seq<Option<seq<string>>>,
                           os: seq<Outcome>, from: int)
    decreases |names|
  {
    && |os| == |lookups| == |names|
    && if names == [] then log == base
       else
         var added := Added(Last(os), Last(lookups));
         var mid := Earlier(log, added);
         && Honest(Last(os), Last(names), Last(lookups))
         && (exists at :: from <= at && NameStep(cap, log, mid, Last(names), Last(os).cached, added, at))
         && RoundRan(cap, mid, base, Before(names), Before(lookups), Before(os), from)
  }

  lemma {:induction false} StepLength(cap: nat, log: Log, base: Log, name: string, cached: set<string>,
                                      added: seq<string>, from: int)
    requires NameStep(cap, log, base, name, cached, added, from)
    ensures |log| == |base| + 1 + |added| && Earlier(log, added) == base
  {
    if added != [] {
      StepLength(cap, Before(log), base, name, cached, Before(added), from);
    }
  }

  lemma RoundGrows(cap: nat, log: Log, mid: Log, base: Log, names: seq<string>, lookups: seq<Option<seq<string>>>,
                   os: seq<Outcome>, name: string, lookup: Option<seq<string>>, o: Outcome, from: int, at: int)
    requires RoundRan(cap, mid, base, names, lookups, os, from) && from <= at
    requires Honest(o, name, lookup) && NameStep(cap, log, mid, name, o.cached, Added(o, lookup), at)
    ensures RoundRan(cap, log, base, names + [name], lookups + [lookup], os + [o], from)
  {
    assert Before(names + [name]) == names && Before(lookups + [lookup]) == lookups && Before(os + [o]) == os;
    StepLength(cap, log, mid, name, o.cached, Added(o, lookup), at);
  }

  lemma AddressesAreMembers(ips: seq<string>, hits: seq<Entry<string, string>>)
    requires TtlCache.AreValuesOf(ips, hits)
    ensures Addresses(hits) == Members(ips)
  {
    forall ip | ip in Members(ips) ensures ip in Addresses(hits) {
      var i :| 0 <= i < |ips| && ips[i] == ip;
      assert hits[i] in hits;
    }
    forall ip | ip in Addresses(hits) ensures ip in Members(ips) {
      var i :| 0 <= i < |hits| && hits[i].value == ip;
      assert ips[i] in ips;
    }
  }

  // ----- Time standing still -----

  /** The resolver answers as the map says for every name of the round. */
  ghost predicate Consults(r: Resolver, names: seq<string>, lookups: seq<Option<seq<string>>>) {
    && |lookups| == |names|
    && forall i | 0 <= i < |names| ::
         && (lookups[i].Some? <==> names[i] in r)
         && (lookups[i].Some? ==> Members(lookups[i].value) == r[names[i]])
  }

  /** How many addresses the resolver could add in the round. */
  ghost function Offered(lookups: seq<Option<seq<string>>>): nat {
    if lookups == [] then 0
    else Offered(Before(lookups)) + if Last(lookups).Some? then |Last(lookups).value| else 0
  }

  lemma {:induction false} StepIsLegal(cap: nat, log: Log, base: Log, name: string, cached: set<string>,
                                       added: seq<string>, from: int, now: int)
    requires NameStep(cap, log, base, name, cached, added, from)
    requires LegalRun(cap, log) && EndsBy(log, now)
    ensures LegalRun(cap, base) && EndsBy(base, now) && from <= End(Last(log)) <= now
    decreases |added|
  {
    if added != [] {
      StepIsLegal(cap, Before(log), base, name, cached, Before(added), from, now);
    }
  }

  ghost function AllUnder(name: string, ips: seq<string>): Cache {
    set ip | ip in ips :: (name, ip)
  }

  lemma FrozenLookup(cap: nat, log: Log, base: Log, name: string, cached: set<string>, now: int)
    requires NameStep(cap, log, base, name, cached, [], now) && LegalRun(cap, log) && EndsBy(log, now)
    ensures cached == Answer(Frozen(State(cap, base), now), name)
    ensures Frozen(State(cap, log), now) == Frozen(State(cap, base), now)
    ensures |State(cap, log)| <= |State(cap, base)|
  {
    var s, op := State(cap, base), Last(log);
    if IsWildcard(name) {
      FrozenFilter(s, name, op.hits, now);
    } else {
      FrozenGet(s, name, op.hits, now);
    }
    RunKeepsShape(cap, base);
    StepKeepsShape(|s|, s, op);
  }

  /** The step of one name does to the cache what the frozen model says. */
  lemma {:induction false} FrozenStep(cap: nat, log: Log, base: Log, name: string, cached: set<string>,
                                      added: seq<string>, now: int)
    requires NameStep(cap, log, base, name, cached, added, now)
    requires LegalRun(cap, log) && EndsBy(log, now)
    requires |State(cap, base)| + |added| <= cap
    ensures cached == Answer(Frozen(State(cap, base), now), name)
    ensures Frozen(State(cap, log), now) == Frozen(State(cap, base), now) + AllUnder(name, added)
    ensures |State(cap, log)| <= |State(cap, base)| + |added|
    decreases |added|
  {
    if added == [] {
      FrozenLookup(cap, log, base, name, cached, now);
    } else {
      StepIsLegal(cap, Before(log), base, name, cached, Before(added), now, End(Last(log)));
      FrozenStep(cap, Before(log), base, name, cached, Before(added), now);
      FrozenOwnInsert(cap, log, name, Last(added), now);
      AllUnderGrows(name, added);
    }
  }

  lemma FrozenOwnInsert(cap: nat, log: Log, name: string, ip: string, now: int)
    requires log != [] && LegalRun(cap, log) && EndsBy(log, now)
    requires IsOwnInsert(Last(log), name, ip) && now <= Last(log).at && |State(cap, Before(log))| < cap
    ensures Frozen(State(cap, log), now) == Frozen(State(cap, Before(log)), now) + {(name, ip)}
    ensures |State(cap, log)| <= |State(cap, Before(log))| + 1
  {
    var s, e := State(cap, Before(log)), Last(log).entry;
    RunKeepsShape(cap, Before(log));
    WithoutMembers(s, {PairOf(e)});
    FrozenInsert(cap, s, e, now);
  }

  lemma AllUnderGrows(name: string, ips: seq<string>)
    requires ips != []
    ensures AllUnder(name, ips) == AllUnder(name, Before(ips)) + {(name, Last(ips))}
  {
    assert ips == Before(ips) + [Last(ips)];
  }

  lemma FrozenOutcome(c: Cache, r: Resolver, name: string, lookup: Option<seq<string>>, o: Outcome)
    requires Honest(o, name, lookup) && o.cached == Answer(c, name)
    requires (lookup.Some? <==> name in r) && (lookup.Some? ==> Members(lookup.value) == r[name])
    ensures o == OutcomeOf(c, r, name)
    ensures c + AllUnder(name, Added(o, lookup)) == CacheAfter(c, r, name)
  {
    if o.own.Some? {
      assert AllUnder(name, lookup.value) == set ip | ip in r[name] :: (name, ip);
    } else {
      assert AllUnder(name, []) == {};
    }
  }

  lemma FrozenTurn(cap: nat, log: Log, mid: Log, r: Resolver, name: string, lookup: Option<seq<string>>, o: Outcome,
                   at: int, now: int)
    requires NameStep(cap, log, mid, name, o.cached, Added(o, lookup), at) && now <= at
    requires LegalRun(cap, log) && EndsBy(log, now)
    requires |State(cap, mid)| + |Added(o, lookup)| <= cap
    requires Honest(o, name, lookup)
    requires (lookup.Some? <==> name in r) && (lookup.Some? ==> Members(lookup.value) == r[name])
    ensures o == OutcomeOf(Frozen(State(cap, mid), now), r, name)
    ensures Frozen(State(cap, log), now) == CacheAfter(Frozen(State(cap, mid), now), r, name)
    ensures |State(cap, log)| <= |State(cap, mid)| + |Added(o, lookup)|
  {
    StepIsLegal(cap, log, mid, name, o.cached, Added(o, lookup), at, now);
    FrozenStep(cap, log, mid, name, o.cached, Added(o, lookup), now);
    FrozenOutcome(Frozen(State(cap, mid), now), r, name, lookup, o);
  }

  /** While time stands still and everything fits, a round of the publisher sees the outcomes, and
      leaves the cache, of the frozen model. */
  lemma {:induction false} FrozenRound(cap: nat, log: Log, base: Log, names: seq<string>,
                                       lookups: seq<Option<seq<string>>>,
                                       os: seq<Outcome>, r: Resolver, now: int)
    requires RoundRan(cap, log, base, names, lookups, os, now) && Consults(r, names, lookups)
    requires LegalRun(cap, log) && EndsBy(log, now)
    requires |State(cap, base)| + Offered(lookups) <= cap
    ensures os == OutcomesOf(Frozen(State(cap, base), now), r, names)
    ensures Frozen(State(cap, log), now) == CacheAfterNames(Frozen(State(cap, base), now), r, names)
    ensures |State(cap, log)| <= |State(cap, base)| + Offered(lookups)
    decreases |names|
  {
    if names != [] {
      var name, lookup, o := Last(names), Last(lookups), Last(os);
      var mid := Earlier(log, Added(o, lookup));
      var at :| now <= at && NameStep(cap, log, mid, name, o.cached, Added(o, lookup), at);
      StepIsLegal(cap, log, mid, name, o.cached, Added(o, lookup), at, now);
      FrozenRound(cap, mid, base, Before(names), Before(lookups), Before(os), r, now);
      FrozenTurn(cap, log, mid, r, name, lookup, o, at, now);
      Rejoin(os);
    }
  }
}
