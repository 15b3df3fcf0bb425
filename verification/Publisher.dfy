/**
 The DNS intents publisher: one round over one client, updating its map of addresses in loops,
 asking the cache and, on a miss, the resolver. What the resolver would answer for each name is a
 parameter.
 */
module Publisher {
  import opened Basics
  import opened PublisherSpec
  import opened DnsCache
  import TtlCacheSpec
  import opened PublisherTrace
  import opened PublisherPasses
  import opened Sorting

  datatype Target = Internet(domains: seq<string>) | Other

  ghost function Domains(targets: seq<Target>): seq<string> {
    if targets == [] then []
    else Domains(Before(targets)) + if Last(targets).Internet? then Last(targets).domains else []
  }

  class ClientIntents {
    const targets: seq<Target>
    var resolvedIPs: seq<ResolvedIPs>

    constructor (targets: seq<Target>)
      ensures this.targets == targets && resolvedIPs == []
    {
      this.targets, resolvedIPs := targets, [];
    }
  }

  ghost function ClientOf(c: ClientIntents): Client
    reads c
  {
    Client(Domains(c.targets), StatusMap(c.resolvedIPs))
  }

  ghost function ClientsOf(cs: seq<ClientIntents>): seq<Client>
    reads cs
  {
    seq(|cs|, i requires 0 <= i < |cs| reads cs => ClientOf(cs[i]))
  }

  /** Each name is listed once, with its addresses in ascending order. */
  ghost predicate Tidy(status: seq<ResolvedIPs>) {
    && (forall i, j | 0 <= i < j < |status| :: status[i].dns != status[j].dns)
    && (forall e | e in status :: Ascending(e.ips))
  }

  method Elements(s: set<string>) returns (e: seq<string>)
    ensures Members(e) == s && NoRepeats(e)
  {
    e := [];
    var remaining := s;
    while |remaining| > 0
      invariant remaining <= s && Members(e) == s - remaining && NoRepeats(e)
    {
      assert exists x :: x in remaining by {
        var x := Pick(remaining);
      }
      var x :| x in remaining;
      assert x !in Members(e) && Members(e + [x]) == Members(e) + {x};
      e := e + [x];
      remaining := remaining - {x};
    }
  }

  class Publisher {
    const dnsCache: DNSCache

    constructor (dnsCache: DNSCache)
      ensures this.dnsCache == dnsCache
    {
      this.dnsCache := dnsCache;
    }

    method AppendResolvedIps(dnsName: string, resolvedIPsMap: map<string, set<string>>, lookup: Option<seq<string>>)
      returns (r: map<string, set<string>>, found: bool, ghost o: Outcome)
      requires dnsCache.cache.Valid()
      modifies dnsCache.cache, dnsCache.cache.lru, dnsCache.cache.clock
      ensures dnsCache.cache.Valid() && old(dnsCache.cache.clock.now) <= dnsCache.cache.clock.now
      ensures Honest(o, dnsName, lookup)
      ensures NameStep(Cap(), dnsCache.cache.log, old(dnsCache.cache.log), dnsName, o.cached, Added(o, lookup),
                       old(dnsCache.cache.clock.now))
      ensures Progress(r, found) == AfterName(resolvedIPsMap, dnsName, o)
      ensures Appended(old(dnsCache.cache.Contents()), old(dnsCache.cache.clock.now), dnsCache.cache.clock.now, dnsName,
                       lookup, resolvedIPsMap, r)
    {
      r, found, o := Append(dnsName, resolvedIPsMap, lookup);
      IsAppended(old(dnsCache.cache.Contents()), old(dnsCache.cache.clock.now), dnsCache.cache.clock.now, dnsName,
                 lookup,
                 resolvedIPsMap, r, found, o);
    }

    method Append(dnsName: string, resolvedIPsMap: map<string, set<string>>, lookup: Option<seq<string>>)
      returns (r: map<string, set<string>>, found: bool, ghost o: Outcome)
      requires dnsCache.cache.Valid()
      modifies dnsCache.cache, dnsCache.cache.lru, dnsCache.cache.clock
      ensures dnsCache.cache.Valid() && old(dnsCache.cache.clock.now) <= dnsCache.cache.clock.now
      ensures Honest(o, dnsName, lookup)
      ensures NameStep(Cap(), dnsCache.cache.log, old(dnsCache.cache.log), dnsName, o.cached, Added(o, lookup),
                       old(dnsCache.cache.clock.now))
      ensures Progress(r, found) == AfterName(resolvedIPsMap, dnsName, o)
      ensures IsAnswer(old(dnsCache.cache.Contents()), old(dnsCache.cache.clock.now), dnsCache.cache.clock.now, dnsName,
                       o.cached)
    {
      var resolvedIPs := LookUp(dnsName);
      ghost var asOf := dnsCache.cache.clock.now;
      ghost var asked := Members(resolvedIPs) == {} && !IsWildcard(dnsName) && lookup.Some?;
      o := Outcome(Members(resolvedIPs), if asked then Some(Members(lookup.value)) else None);
      var ips := if dnsName in resolvedIPsMap then resolvedIPsMap[dnsName] else {};
      MembersEmpty(resolvedIPs);
      if |resolvedIPs| == 0 && !IsWildcard(dnsName) {
        if lookup.None? {
          return resolvedIPsMap, false, o;
        }
        ips := AddOwn(dnsName, ips, lookup.value, old(dnsCache.cache.log), old(dnsCache.cache.clock.now));
        LaterAnswer(old(dnsCache.cache.Contents()), old(dnsCache.cache.clock.now), asOf, dnsCache.cache.clock.now,
                    dnsName,
                    o.cached);
        // The set of a known name is shared with the map; that of a new name is dropped here.
        r := if dnsName in resolvedIPsMap then resolvedIPsMap[dnsName := ips] else resolvedIPsMap;
        return r, false, o;
      }
      r, found := AddCached(dnsName, resolvedIPsMap, ips, resolvedIPs);
    }

    ghost function Cap(): nat {
      TtlCacheSpec.Capacity(dnsCache.cache.maxSize)
    }

    method LookUp(dnsName: string) returns (ips: seq<string>)
      requires dnsCache.cache.Valid()
      modifies dnsCache.cache, dnsCache.cache.lru, dnsCache.cache.clock
      ensures dnsCache.cache.Valid() && old(dnsCache.cache.clock.now) <= dnsCache.cache.clock.now
      ensures NameStep(Cap(), dnsCache.cache.log, old(dnsCache.cache.log), dnsName, Members(ips), [],
                       old(dnsCache.cache.clock.now))
      ensures IsAnswer(old(dnsCache.cache.Contents()), old(dnsCache.cache.clock.now), dnsCache.cache.clock.now, dnsName,
                       Members(ips))
    {
      IsWildcardIff(dnsName);
      if IsWildcard(dnsName) {
        ips := dnsCache.GetResolvedIPsForWildcard(dnsName);
      } else {
        ips := dnsCache.GetResolvedIPs(dnsName);
      }
      AddressesAreMembers(ips, Last(dnsCache.cache.log).hits);
    }

    /** Add what the resolver found to the set, and to the cache for next time. */
    method AddOwn(dnsName: string, ips: set<string>, ipaddrs: seq<string>, ghost base: Log, ghost from: int)
      returns (r: set<string>)
      requires dnsCache.cache.Valid() && NameStep(Cap(), dnsCache.cache.log, base, dnsName, {}, [], from)
      modifies dnsCache.cache, dnsCache.cache.lru, dnsCache.cache.clock
      ensures dnsCache.cache.Valid() && old(dnsCache.cache.clock.now) <= dnsCache.cache.clock.now
      ensures NameStep(Cap(), dnsCache.cache.log, base, dnsName, {}, ipaddrs, from)
      ensures r == ips + Members(ipaddrs)
    {
      r := ips;
      for n := 0 to |ipaddrs|
        invariant dnsCache.cache.Valid() && old(dnsCache.cache.clock.now) <= dnsCache.cache.clock.now
        invariant NameStep(Cap(), dnsCache.cache.log, base, dnsName, {}, ipaddrs[..n], from)
        invariant r == ips + Members(ipaddrs[..n])
      {
        r := AddOne(dnsName, r, ipaddrs[n]);
        StepGrows(Cap(), dnsCache.cache.log, base, dnsName, ipaddrs, n, from);
      }
      assert ipaddrs[..|ipaddrs|] == ipaddrs;
    }

    method AddOne(dnsName: string, ips: set<string>, ip: string) returns (r: set<string>)
      requires dnsCache.cache.Valid()
      modifies dnsCache.cache, dnsCache.cache.lru, dnsCache.cache.clock
      ensures dnsCache.cache.Valid() && old(dnsCache.cache.clock.now) <= dnsCache.cache.clock.now
      ensures dnsCache.cache.log != [] && Before(dnsCache.cache.log) == old(dnsCache.cache.log)
      ensures IsOwnInsert(Last(dnsCache.cache.log), dnsName, ip)
      ensures var op := Last(dnsCache.cache.log); op.entry == TtlCacheSpec.Entry(dnsName, ip, op.at + 120)
      ensures r == ips + {ip}
    {
      r := ips + {ip};
      dnsCache.AddOrUpdateDNSData(dnsName, ip, OWN_RESOLUTION_TTL);
    }

    method CompareIntentsAndStatus(clientIntents: ClientIntents, lookups: seq<Option<seq<string>>>)
      returns (resolvedIPsMap: map<string, set<string>>, shouldUpdate: bool, ghost os: seq<Outcome>)
      requires dnsCache.cache.Valid() && |lookups| == |Domains(clientIntents.targets)|
      modifies dnsCache.cache, dnsCache.cache.lru, dnsCache.cache.clock
      ensures dnsCache.cache.Valid() && old(dnsCache.cache.clock.now) <= dnsCache.cache.clock.now
      ensures RoundRan(Cap(), dnsCache.cache.log, old(dnsCache.cache.log), Domains(clientIntents.targets), lookups, os,
                       old(dnsCache.cache.clock.now))
      ensures Progress(resolvedIPsMap, shouldUpdate)
           == AfterRound(StatusMap(clientIntents.resolvedIPs), Domains(clientIntents.targets), os)
    {
      resolvedIPsMap := ToMap(clientIntents.resolvedIPs);
      var dnsIntents := Targets(clientIntents.targets);
      resolvedIPsMap, shouldUpdate, os := AppendAll(dnsIntents, resolvedIPsMap, lookups);
      var removed;
      resolvedIPsMap, removed := RemoveUnrequested(resolvedIPsMap, dnsIntents);
      shouldUpdate := shouldUpdate || removed;
    }

    method AppendAll(dnsIntents: seq<string>, start: map<string, set<string>>, lookups: seq<Option<seq<string>>>)
      returns (resolvedIPsMap: map<string, set<string>>, shouldUpdate: bool, ghost os: seq<Outcome>)
      requires dnsCache.cache.Valid() && |lookups| == |dnsIntents|
      modifies dnsCache.cache, dnsCache.cache.lru, dnsCache.cache.clock
      ensures dnsCache.cache.Valid() && old(dnsCache.cache.clock.now) <= dnsCache.cache.clock.now
      ensures RoundRan(Cap(), dnsCache.cache.log, old(dnsCache.cache.log), dnsIntents, lookups, os,
                       old(dnsCache.cache.clock.now))
      ensures Progress(resolvedIPsMap, shouldUpdate) == AfterNames(start, dnsIntents, os)
    {
      ghost var base, from := dnsCache.cache.log, dnsCache.cache.clock.now;
      resolvedIPsMap, shouldUpdate, os := start, false, [];
      for n := 0 to |dnsIntents|
        invariant dnsCache.cache.Valid() && from <= dnsCache.cache.clock.now && |os| == n
        invariant RoundRan(Cap(), dnsCache.cache.log, base, dnsIntents[..n], lookups[..n], os, from)
        invariant Progress(resolvedIPsMap, shouldUpdate) == AfterNames(start, dnsIntents[..n], os)
      {
        resolvedIPsMap, shouldUpdate, os :=
          AppendNext(dnsIntents[n], resolvedIPsMap, shouldUpdate, lookups[n], start, base,
                     dnsIntents[..n], lookups[..n], os, from);
        TakeOneMore([], dnsIntents, n);
        TakeOneMore([], lookups, n);
      }
      assert dnsIntents[..|dnsIntents|] == dnsIntents && lookups[..|lookups|] == lookups;
    }

    /** One turn of the loop over the names; the ghost parameters are the turns before. */
    method AppendNext(dnsName: string, m: map<string, set<string>>, shouldUpdate: bool, lookup: Option<seq<string>>,
                      ghost start: map<string, set<string>>, ghost base: Log, ghost names: seq<string>,
                      ghost lookups: seq<Option<seq<string>>>, ghost os: seq<Outcome>, ghost from: int)
      returns (r: map<string, set<string>>, update: bool, ghost os': seq<Outcome>)
      requires dnsCache.cache.Valid() && from <= dnsCache.cache.clock.now
      requires RoundRan(Cap(), dnsCache.cache.log, base, names, lookups, os, from)
      requires Progress(m, shouldUpdate) == AfterNames(start, names, os)
      modifies dnsCache.cache, dnsCache.cache.lru, dnsCache.cache.clock
      ensures dnsCache.cache.Valid() && from <= dnsCache.cache.clock.now
      ensures RoundRan(Cap(), dnsCache.cache.log, base, names + [dnsName], lookups + [lookup], os', from)
      ensures Progress(r, update) == AfterNames(start, names + [dnsName], os')
    {
      var newDnsFound;
      ghost var o;
      r, newDnsFound, o := AppendResolvedIps(dnsName, m, lookup);
      update := shouldUpdate || newDnsFound;
      os' := os + [o];
      RoundGrows(Cap(), dnsCache.cache.log, old(dnsCache.cache.log), base, names, lookups, os, dnsName, lookup, o, from,
                 old(dnsCache.cache.clock.now));
      NextName(start, names, os, dnsName, o);
    }

    /** Publish one client; the status changes only when there is something to update and the
        patch is accepted. */
    method UpdateResolvedIPs(clientIntents: ClientIntents, lookups: seq<Option<seq<string>>>, patchAccepted: bool)
      returns (ok: bool, ghost os: seq<Outcome>)
      requires dnsCache.cache.Valid() && |lookups| == |Domains(clientIntents.targets)|
      modifies dnsCache.cache, dnsCache.cache.lru, dnsCache.cache.clock, clientIntents
      ensures dnsCache.cache.Valid() && old(dnsCache.cache.clock.now) <= dnsCache.cache.clock.now
      ensures RoundRan(Cap(), dnsCache.cache.log, old(dnsCache.cache.log), Domains(clientIntents.targets), lookups, os,
                       old(dnsCache.cache.clock.now))
      ensures var names, before := Domains(clientIntents.targets), StatusMap(old(clientIntents.resolvedIPs));
              && ok == (!AfterRound(before, names, os).found || patchAccepted)
              && StatusMap(clientIntents.resolvedIPs) == (if ok then NextStatus(before, names, os) else before)
              && (AfterRound(before, names, os).found && patchAccepted ==> Tidy(clientIntents.resolvedIPs))
    {
      var resolvedIPsMap, shouldUpdate;
      resolvedIPsMap, shouldUpdate, os := CompareIntentsAndStatus(clientIntents, lookups);
      if !shouldUpdate {
        return true, os;
      }
      var updated := ToStatus(resolvedIPsMap);
      if !patchAccepted {
        return false, os;
      }
      clientIntents.resolvedIPs := updated;
      return true, os;
    }

    /** One pass over the listed clients, up to the first whose patch is refused. `p` is what the
        clients reached met with. */
    method PublishDNSIntents(intentsList: seq<ClientIntents>, lookups: seq<seq<Option<seq<string>>>>,
                             patchAccepted: seq<bool>)
      returns (ok: bool, ghost p: Pass)
      requires dnsCache.cache.Valid() && NoRepeats(intentsList) && |patchAccepted| == |intentsList|
      requires Suits(lookups, ClientsOf(intentsList))
      modifies dnsCache.cache, dnsCache.cache.lru, dnsCache.cache.clock, intentsList
      ensures dnsCache.cache.Valid()
      ensures var xs, reached := old(ClientsOf(intentsList)), |p.outcomes|;
              && PassUpTo(Cap(), dnsCache.cache.log, old(dnsCache.cache.log), xs, ClientsOf(intentsList), lookups,
                          patchAccepted,
                          p, reached, if ok then reached else reached - 1, old(dnsCache.cache.clock.now))
              && (ok ==> reached == |xs|)
              && (!ok ==> reached > 0 && !Patched(xs[reached - 1], p.outcomes[reached - 1], patchAccepted[reached - 1]))
      ensures var xs := old(ClientsOf(intentsList));
              && AttemptRan(Cap(), dnsCache.cache.log, old(dnsCache.cache.log), xs, Attempt(p, ok),
                            old(dnsCache.cache.clock.now))
              && ClientsOf(intentsList) == AfterAttempt(xs, Attempt(p, ok))
    {
      ghost var xs, base, from := ClientsOf(intentsList), dnsCache.cache.log, dnsCache.cache.clock.now;
      p := Pass([], []);
      for n := 0 to |intentsList|
        invariant dnsCache.cache.Valid() && from <= dnsCache.cache.clock.now
        invariant PassUpTo(Cap(), dnsCache.cache.log, base, xs, ClientsOf(intentsList), lookups, patchAccepted, p, n,
                           n, from)
      {
        ok, p := PublishNext(intentsList, n, lookups, patchAccepted, xs, p, base, from);
        if !ok {
          PassUpToIsAttempt(Cap(), dnsCache.cache.log, base, xs, ClientsOf(intentsList), lookups, patchAccepted, p,
                            n + 1, ok, from);
          return;
        }
      }
      ok := true;
      PassUpToIsAttempt(Cap(), dnsCache.cache.log, base, xs, ClientsOf(intentsList), lookups, patchAccepted, p,
                        |p.outcomes|, ok, from);
    }

    /** One turn of the loop over the clients; the ghost parameters are the turns before. */
    method PublishNext(intentsList: seq<ClientIntents>, n: nat, lookups: seq<seq<Option<seq<string>>>>,
                       patchAccepted: seq<bool>,
                       ghost xs: seq<Client>, ghost p: Pass, ghost base: Log, ghost from: int)
      returns (ok: bool, ghost q: Pass)
      requires dnsCache.cache.Valid() && from <= dnsCache.cache.clock.now
      requires NoRepeats(intentsList) && n < |intentsList| && Suits(lookups, xs)
      requires PassUpTo(Cap(), dnsCache.cache.log, base, xs, ClientsOf(intentsList), lookups, patchAccepted, p, n, n,
                        from)
      modifies dnsCache.cache, dnsCache.cache.lru, dnsCache.cache.clock, intentsList
      ensures dnsCache.cache.Valid() && from <= dnsCache.cache.clock.now
      ensures PassUpTo(Cap(), dnsCache.cache.log, base, xs, ClientsOf(intentsList), lookups, patchAccepted, q, n + 1,
                       if ok then n + 1 else n, from)
      ensures ok == Patched(xs[n], q.outcomes[n], patchAccepted[n])
    {
      ghost var os;
      ghost var ys := ClientsOf(intentsList);
      assert ys[n] == xs[n];
      ok, os := UpdateResolvedIPs(intentsList[n], lookups[n], patchAccepted[n]);
      q := PassUpToNext(Cap(), dnsCache.cache.log, old(dnsCache.cache.log), base, xs, ys, ClientsOf(intentsList),
                        lookups,
                        patchAccepted, p, n, os, ok, old(dnsCache.cache.clock.now), from);
    }
  }

  lemma LaterAnswer(s: seq<TtlCacheSpec.Entry<string, string>>, from: int, to: int, later: int, dnsName: string,
                    ips: set<string>)
    requires IsAnswer(s, from, to, dnsName, ips) && to <= later
    ensures IsAnswer(s, from, later, dnsName, ips)
  {
  }

  /** What appending the addresses of a name does: it touches no other name and drops no address. A new one was
      in the cache under a name that this one asks for, or the resolver found it for a name that is no wildcard;
      and everything the cache still had under such a name is there. */
  ghost predicate Appended(s: seq<TtlCacheSpec.Entry<string, string>>, from: int, to: int, dnsName: string,
                           lookup: Option<seq<string>>, m: map<string, set<string>>, r: map<string, set<string>>) {
    && (forall n | n != dnsName :: At(r, n) == At(m, n))
    && Under(m, dnsName) <= Under(r, dnsName)
    && (forall ip | ip in Under(r, dnsName) && ip !in Under(m, dnsName) ::
          || CachedFor(s, dnsName, ip, from)
          || (lookup.Some? && ip in lookup.value && forall suffix :: dnsName != "*" + suffix))
    && (forall ip | CachedFor(s, dnsName, ip, to) :: ip in Under(r, dnsName))
  }

  lemma IsAppended(s: seq<TtlCacheSpec.Entry<string, string>>, from: int, to: int, dnsName: string,
                   lookup: Option<seq<string>>, m: map<string, set<string>>, r: map<string, set<string>>, found: bool,
                   o: Outcome)
    requires Honest(o, dnsName, lookup) && Progress(r, found) == AfterName(m, dnsName, o)
    requires IsAnswer(s, from, to, dnsName, o.cached)
    ensures Appended(s, from, to, dnsName, lookup, m, r)
  {
    IsWildcardIff(dnsName);
  }

  lemma GrewBy(a: set<string>, b: set<string>)
    ensures |a + b| == |a| <==> b <= a
  {
    if b <= a {
      assert a + b == a;
    } else {
      var x :| x in b && x !in a;
      SubsetCount(a + {x}, a + b);
    }
  }

  /** Add the cached addresses of a name; a count that did not change means nothing new. */
  method AddCached(dnsName: string, resolvedIPsMap: map<string, set<string>>, known: set<string>,
                   resolvedIPs: seq<string>)
    returns (r: map<string, set<string>>, found: bool)
    requires known == Under(resolvedIPsMap, dnsName)
    ensures found == !(Members(resolvedIPs) <= known)
    ensures r == if found then resolvedIPsMap[dnsName := known + Members(resolvedIPs)] else resolvedIPsMap
  {
    var ips, prevLen := known, |known|;
    for n := 0 to |resolvedIPs|
      invariant ips == known + Members(resolvedIPs[..n])
    {
      assert resolvedIPs[..n + 1] == resolvedIPs[..n] + [resolvedIPs[n]];
      ips := ips + {resolvedIPs[n]};
    }
    assert resolvedIPs[..|resolvedIPs|] == resolvedIPs;
    GrewBy(known, Members(resolvedIPs));
    if |ips| == prevLen {
      return resolvedIPsMap, false;
    }
    return resolvedIPsMap[dnsName := ips], true;
  }

  /** The domains of the internet targets, target by target. */
  lemma {:induction false} DomainsOfBoth(targets: seq<Target>, more: seq<Target>)
    ensures Domains(targets + more) == Domains(targets) + Domains(more)
  {
    if more == [] {
      assert targets + more == targets;
    } else {
      assert Before(targets + more) == targets + Before(more);
      DomainsOfBoth(targets, Before(more));
    }
  }

  lemma DomainsOfOne(t: Target)
    ensures Domains([t]) == if t.Internet? then t.domains else []
  {
    assert Before([t]) == [];
  }

  lemma {:induction false} DomainsExactly(targets: seq<Target>, name: string)
    ensures name in Domains(targets) <==> exists t :: t in targets && t.Internet? && name in t.domains
  {
    if targets != [] {
      DomainsExactly(Before(targets), name);
      Rejoin(targets);
    }
  }

  /** A status says of each name it lists what its last entry for the name says. */
  lemma {:induction false} StatusMapExactly(status: seq<ResolvedIPs>, name: string, i: int)
    ensures name in StatusMap(status) <==> exists e :: e in status && e.dns == name
    ensures 0 <= i < |status| && status[i].dns == name && (forall j | i < j < |status| :: status[j].dns != name) ==>
              forall ip :: ip in StatusMap(status)[name] <==> ip in status[i].ips
  {
    if status != [] {
      StatusMapExactly(Before(status), name, i);
      Rejoin(status);
      assert forall j | 0 <= j < |status| - 1 :: Before(status)[j] == status[j];
      assert status[|status| - 1] == Last(status);
    }
  }

  method ToMap(status: seq<ResolvedIPs>) returns (m: map<string, set<string>>)
    ensures m == StatusMap(status)
  {
    m := map[];
    for n := 0 to |status|
      invariant m == StatusMap(status[..n])
    {
      assert Before(status[..n + 1]) == status[..n];
      var ips := set ip | ip in status[n].ips;
      assert ips == Members(status[n].ips);
      m := m[status[n].dns := ips];
    }
    assert status[..|status|] == status;
  }

  method Targets(targets: seq<Target>) returns (names: seq<string>)
    ensures names == Domains(targets)
  {
    names := [];
    for n := 0 to |targets|
      invariant names == Domains(targets[..n])
    {
      assert Before(targets[..n + 1]) == targets[..n];
      if targets[n].Internet? {
        names := names + targets[n].domains;
      }
    }
    assert targets[..|targets|] == targets;
  }

  method RemoveUnrequested(m: map<string, set<string>>, names: seq<string>)
    returns (r: map<string, set<string>>, removed: bool)
    ensures r == Requested(m, names) && removed == (r != m)
  {
    r, removed := m, false;
    var remaining := m.Keys;
    while |remaining| > 0
      invariant remaining <= m.Keys
      invariant r == map n | n in m && (n in remaining || n in names) :: m[n]
      invariant removed == exists n :: n in m && n !in remaining && n !in names
    {
      assert exists n :: n in remaining by {
        var n := Pick(remaining);
      }
      var resolvedDNS :| resolvedDNS in remaining;
      remaining := remaining - {resolvedDNS};
      if resolvedDNS !in names {
        r := r - {resolvedDNS};
        removed := true;
      }
    }
    assert r == Requested(m, names);
  }

  lemma TidyNext(status: seq<ResolvedIPs>, e: ResolvedIPs)
    requires Tidy(status) && Ascending(e.ips) && forall d | d in status :: d.dns != e.dns
    ensures Tidy(status + [e])
    ensures StatusMap(status + [e]) == StatusMap(status)[e.dns := Members(e.ips)]
  {
    assert Before(status + [e]) == status;
  }

  method ToStatus(m: map<string, set<string>>) returns (status: seq<ResolvedIPs>)
    ensures StatusMap(status) == m && Tidy(status)
  {
    status := [];
    var remaining := m.Keys;
    while |remaining| > 0
      invariant remaining <= m.Keys && Tidy(status) && (forall e | e in status :: e.dns !in remaining)
      invariant StatusMap(status) == map n | n in m && n !in remaining :: m[n]
    {
      assert exists n :: n in remaining by {
        var n := Pick(remaining);
      }
      var dnsName :| dnsName in remaining;
      var ipSlice := Elements(m[dnsName]);
      ipSlice := Sorted(ipSlice);
      TidyNext(status, ResolvedIPs(dnsName, ipSlice));
      status := status + [ResolvedIPs(dnsName, ipSlice)];
      remaining := remaining - {dnsName};
    }
  }
}
