/**
 The DNS cache: the TTL cache from names to addresses, asked by name or by wildcard; and what it
 comes to while time stands still and nothing is evicted: a set of pairs that only grows.
 */
module DnsCache {
  import opened Basics
  import opened Clock
  import opened TtlCacheSpec
  import opened TtlCacheRuns
  import opened TtlCacheExpiry
  import opened TtlCacheCleanup
  import opened TtlCache
  import PublisherSpec

  class DNSCache {
    const cache: TTLCache<string, string>

    /** A capacity of zero makes the original panic. */
    constructor (capacity: int, clock: WallClock)
      requires capacity != 0
      ensures cache.Valid() && cache.log == [] && cache.maxSize == capacity && cache.clock == clock && fresh(cache) &&
              fresh(cache.lru)
    {
      cache := new TTLCache(capacity, clock);
    }

    method AddOrUpdateDNSData(dnsName: string, ip: string, ttl: int)
      requires cache.Valid()
      modifies cache, cache.lru, cache.clock
      ensures cache.Valid() && old(cache.clock.now) <= cache.clock.now
      ensures cache.log != [] && Before(cache.log) == old(cache.log)
      ensures Last(cache.log) == Insert(Entry(dnsName, ip, cache.clock.now + ttl), cache.clock.now)
    {
      cache.Insert(dnsName, ip, ttl);
    }

    method GetResolvedIPs(dnsName: string) returns (ips: seq<string>)
      requires cache.Valid()
      modifies cache, cache.lru, cache.clock
      ensures cache.Valid()
      ensures cache.log != [] && Before(cache.log) == old(cache.log)
      ensures LookedUp(Last(cache.log), {dnsName}, old(cache.clock.now), cache.clock.now)
      ensures AreValuesOf(ips, Last(cache.log).hits)
      ensures forall ip | ip in ips :: exists e ::
                e in old(cache.Contents()) && e.key == dnsName && e.value == ip && old(cache.clock.now) <= e.expiration
      ensures forall e | e in old(cache.Contents()) && e.key == dnsName && cache.clock.now <= e.expiration ::
                e.value in ips
    {
      ips := cache.Get(dnsName);
    }

    /** The addresses of every cached name that ends as the wildcard does. */
    method GetResolvedIPsForWildcard(dnsName: string) returns (ips: seq<string>)
      requires cache.Valid()
      modifies cache, cache.lru, cache.clock
      ensures cache.Valid()
      ensures cache.log != [] && Before(cache.log) == old(cache.log)
      ensures LookedUp(Last(cache.log), NamesEndingIn(old(cache.Contents()), PublisherSpec.DnsSuffix(dnsName)),
                       old(cache.clock.now), cache.clock.now)
      ensures AreValuesOf(ips, Last(cache.log).hits)
      ensures forall s | dnsName == "*" + s ::
                && (forall k :: k in Last(cache.log).scope <==>
                      k in KeysOf(old(cache.Contents())) && exists p :: k == p + s)
                && (forall ip | ip in ips :: exists e, p ::
                      e in old(cache.Contents()) && e.key == p + s && e.value == ip &&
                      old(cache.clock.now) <= e.expiration)
                && (forall e, p | e in old(cache.Contents()) && e.key == p + s && cache.clock.now <= e.expiration ::
                      e.value in ips)
    {
      var dnsSuffix := PublisherSpec.DnsSuffix(dnsName);
      ghost var s := cache.Contents();
      var endsAlike := key => PublisherSpec.HasSuffix(key, dnsSuffix);
      assert Matching(s, endsAlike) == NamesEndingIn(s, dnsSuffix);
      ips := cache.Filter(endsAlike);
      forall suffix, k | dnsName == "*" + suffix
        ensures PublisherSpec.HasSuffix(k, dnsSuffix) <==> exists p :: k == p + suffix
      {
        PublisherSpec.WildcardCovers(suffix, k);
      }
    }
  }

  /** A wildcard asks for the names that end in what follows its asterisk, any other name for itself. */
  ghost predicate Covers(name: string, key: string) {
    || (exists suffix, p :: name == "*" + suffix && key == p + suffix)
    || (key == name && forall suffix :: name != "*" + suffix)
  }

  /** The address is in an entry under a name that is asked for, and the entry had not expired at this time. */
  ghost predicate CachedFor(s: seq<Entry<string, string>>, name: string, ip: string, now: int) {
    exists e :: e in s && Covers(name, e.key) && e.value == ip && now <= e.expiration
  }

  /** What a lookup that lasted this long can answer: nothing but cached addresses, and all that lasted. */
  ghost predicate IsAnswer(s: seq<Entry<string, string>>, from: int, to: int, name: string, ips: set<string>) {
    && (forall ip | ip in ips :: CachedFor(s, name, ip, from))
    && (forall ip | CachedFor(s, name, ip, to) :: ip in ips)
  }

  ghost function NamesEndingIn(s: seq<Entry<string, string>>, suffix: string): set<string> {
    set k | k in KeysOf(s) && PublisherSpec.HasSuffix(k, suffix)
  }

  /** The names a lookup of this name asks for. */
  ghost function ScopeOf(s: seq<Entry<string, string>>, dnsName: string): set<string> {
    if PublisherSpec.IsWildcard(dnsName) then NamesEndingIn(s, PublisherSpec.DnsSuffix(dnsName)) else {dnsName}
  }

  // ----- Cleanup -----

  ghost function LongestName(s: seq<Entry<string, string>>): (n: nat)
    ensures forall e | e in s :: |e.key| <= n
  {
    if s == [] then 0
    else
      Rejoin(s);
      var n := LongestName(Before(s));
      if |Last(s).key| > n then |Last(s).key| else n
  }

  ghost function NameOfLength(n: nat): (name: string)
    ensures |name| == n
  {
    seq(n, _ => 'a')
  }

  /** Longer names than any in the cache. */
  lemma NewPairs(s: seq<Entry<string, string>>, n: nat) returns (ps: seq<(string, string)>)
    ensures |ps| == n && NoRepeats(ps) && Members(ps) !! Pairs(s)
  {
    var longest := LongestName(s);
    ps := seq(n, i requires 0 <= i < n => (NameOfLength(longest + 1 + i), ""));
    assert forall i | 0 <= i < n :: ps[i].0 == NameOfLength(longest + 1 + i);
    forall i, j | 0 <= i < j < n ensures ps[i] != ps[j] {
      assert |ps[i].0| == longest + 1 + i && |ps[j].0| == longest + 1 + j;
    }
    forall p | p in ps ensures p !in Pairs(s) {
      var i :| 0 <= i < n && ps[i] == p;
      assert |ps[i].0| == longest + 1 + i;
    }
  }

  /** There are always new names, so in every state a run can lead to, a cleanup changes no later answer
      exactly if it drops nothing in front of a live entry. */
  lemma CleanupChangesNoDNSAnswerIff(cap: nat, log: seq<Op<string, string>>, dropped: set<(string, string)>,
                                     from: int, to: int)
    requires LegalRun(cap, log) && LegalCleanup(State(cap, log), dropped, from, to)
    ensures SameAnswers(cap, State(cap, log), Without(State(cap, log), dropped), to)
       <==> NothingLiveBehind(State(cap, log), dropped, to)
  {
    RunKeepsShape(cap, log);
    var others := NewPairs(State(cap, log), cap);
    CleanupChangesNoAnswerIff(cap, State(cap, log), dropped, from, to, others);
  }

  // ----- While time stands still -----

  /** The live pairs of the cache. */
  ghost function Frozen(s: seq<Entry<string, string>>, now: int): PublisherSpec.Cache {
    Pairs(Live(s, now))
  }

  ghost function Addresses(hits: seq<Entry<string, string>>): set<string> {
    set e | e in hits :: e.value
  }

  /** A lookup by name answers exactly the live addresses of the name, and changes none. */
  lemma FrozenGet(s: seq<Entry<string, string>>, name: string, hits: seq<Entry<string, string>>, now: int)
    requires !PublisherSpec.IsWildcard(name)
    requires LegalLookup(s, {name}, hits, now, now)
    ensures Addresses(hits) == PublisherSpec.Answer(Frozen(s, now), name)
    ensures Frozen(AfterLookup(s, {name}, hits), now) == Frozen(s, now)
  {
    LiveMembers(s, now);
    forall ip | ip in Addresses(hits) ensures ip in PublisherSpec.Answer(Frozen(s, now), name) {
      var e :| e in hits && e.value == ip;
      assert e in Live(s, now) && PairOf(e) == (name, ip);
    }
    forall ip | ip in PublisherSpec.Answer(Frozen(s, now), name) ensures ip in Addresses(hits) {
      assert (name, ip) in Frozen(s, now);
      var e :| e in Live(s, now) && PairOf(e) == (name, ip);
    }
    FrozenLookupKeeps(s, {name}, hits, now);
  }

  /** A lookup by wildcard answers exactly the live addresses of the names that end alike. */
  lemma FrozenFilter(s: seq<Entry<string, string>>, name: string, hits: seq<Entry<string, string>>, now: int)
    requires PublisherSpec.IsWildcard(name)
    requires LegalLookup(s, NamesEndingIn(s, PublisherSpec.DnsSuffix(name)), hits, now, now)
    ensures Addresses(hits) == PublisherSpec.Answer(Frozen(s, now), name)
    ensures Frozen(AfterLookup(s, NamesEndingIn(s, PublisherSpec.DnsSuffix(name)), hits), now) == Frozen(s, now)
  {
    var scope := NamesEndingIn(s, PublisherSpec.DnsSuffix(name));
    LiveMembers(s, now);
    forall ip | ip in Addresses(hits) ensures ip in PublisherSpec.Answer(Frozen(s, now), name) {
      var e :| e in hits && e.value == ip;
      assert e in Live(s, now) && PairOf(e) in Frozen(s, now);
    }
    forall ip | ip in PublisherSpec.Answer(Frozen(s, now), name) ensures ip in Addresses(hits) {
      var p :| p in Frozen(s, now) && PublisherSpec.HasSuffix(p.0, PublisherSpec.DnsSuffix(name)) && p.1 == ip;
      var e :| e in Live(s, now) && PairOf(e) == p;
      assert e.key in KeysOf(s) && e.key in scope;
    }
    FrozenLookupKeeps(s, scope, hits, now);
  }

  lemma FrozenLookupKeeps(s: seq<Entry<string, string>>, scope: set<string>, hits: seq<Entry<string, string>>, now: int)
    requires LegalLookup(s, scope, hits, now, now)
    ensures Frozen(AfterLookup(s, scope, hits), now) == Frozen(s, now)
  {
    var t, rest := AfterLookup(s, scope, hits), Without(s, InScope(s, scope));
    LiveMembers(s, now);
    LiveMembers(t, now);
    ReversedMembers(hits);
    WithoutMembers(s, InScope(s, scope));
    forall e ensures e in Live(s, now) <==> e in Live(t, now) {
      assert e in t <==> e in Reversed(hits) || e in rest;
      if e in Live(s, now) && e !in rest {
        assert PairOf(e) in InScope(s, scope);
        assert e.key in scope;
      }
    }
  }

  /** An insertion that evicts nothing adds its pair. */
  lemma FrozenInsert(cap: nat, s: seq<Entry<string, string>>, e: Entry<string, string>, now: int)
    requires Distinct(s) && |Without(s, {PairOf(e)})| < cap && now <= e.expiration
    ensures Frozen(AfterInsert(cap, s, e), now) == Frozen(s, now) + {PairOf(e)}
  {
    var rest := Without(s, {PairOf(e)});
    var t := [e] + rest;
    assert AfterInsert(cap, s, e) == t;
    LiveMembers(s, now);
    LiveMembers(t, now);
    WithoutMembers(s, {PairOf(e)});
    forall p | p in Frozen(s, now) && p != PairOf(e) ensures p in Frozen(t, now) {
      var x :| x in Live(s, now) && PairOf(x) == p;
      assert x in rest;
      assert x in t;
    }
    forall p | p in Frozen(t, now) ensures p in Frozen(s, now) + {PairOf(e)} {
      var x :| x in Live(t, now) && PairOf(x) == p;
      assert x == e || x in rest;
    }
    assert t[0] in t;
    assert e in Live(t, now);
  }
}
