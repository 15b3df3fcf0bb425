/**
 Publishing resolved addresses as values: what one round does to the published status of a
 client, given what the cache and the resolver answered; and, with time standing still, how fast
 rounds settle.
 */
module PublisherSpec {
  import opened Basics

  /** Addresses by DNS name. */
  type Published = map<string, set<string>>

  datatype ResolvedIPs = ResolvedIPs(dns: string, ips: seq<string>)

  /** What the cache answered for a name and, when it was asked, the resolver. */
  datatype Outcome = Outcome(cached: set<string>, own: Option<set<string>>)

  predicate IsWildcard(dnsName: string) {
    |dnsName| > 0 && dnsName[0] == '*'
  }

  /** The map Go builds from a status; for a repeated name the last entry wins. */
  ghost function StatusMap(status: seq<ResolvedIPs>): Published {
    if status == [] then map[] else StatusMap(Before(status))[Last(status).dns := Members(Last(status).ips)]
  }

  datatype Progress = Progress(published: Published, found: bool)

  /** What one name contributes. Addresses the resolver has just found go into the existing set of
      the name, if it has one, but are not reported as new; the next round finds them in the cache. */
  ghost function AfterName(m: Published, name: string, o: Outcome): Progress {
    var ips := Under(m, name);
    if o.cached == {} && !IsWildcard(name) then
      if o.own.None? || name !in m then Progress(m, false)
      else Progress(m[name := ips + o.own.value], false)
    else if o.cached <= ips then Progress(m, false)
    else Progress(m[name := ips + o.cached], true)
  }

  ghost function AfterNames(m: Published, names: seq<string>, os: seq<Outcome>): Progress
    requires |os| == |names|
  {
    if names == [] then Progress(m, false)
    else
      var p := AfterNames(m, Before(names), Before(os));
      var q := AfterName(p.published, Last(names), Last(os));
      Progress(q.published, p.found || q.found)
  }

  ghost function Requested(m: Published, names: seq<string>): Published {
    map n | n in m && n in names :: m[n]
  }

  /** A round reports an update if it found new addresses or has names to remove. */
  ghost function AfterRound(m: Published, names: seq<string>, os: seq<Outcome>): Progress
    requires |os| == |names|
  {
    var p := AfterNames(m, names, os);
    var kept := Requested(p.published, names);
    Progress(kept, p.found || kept != p.published)
  }

  /** The status after the round: what was computed if there is anything to update. */
  ghost function NextStatus(m: Published, names: seq<string>, os: seq<Outcome>): Published
    requires |os| == |names|
  {
    var r := AfterRound(m, names, os);
    if r.found then r.published else m
  }

  lemma NextName(m: Published, names: seq<string>, os: seq<Outcome>, name: string, o: Outcome)
    requires |os| == |names|
    ensures var p := AfterNames(m, names, os);
            var q := AfterName(p.published, name, o);
            AfterNames(m, names + [name], os + [o]) == Progress(q.published, p.found || q.found)
  {
    assert Before(names + [name]) == names && Before(os + [o]) == os;
  }

  // ----- Any answers -----

  lemma {:induction false} NamesOnlyGrow(m: Published, names: seq<string>, os: seq<Outcome>)
    requires |os| == |names|
    ensures var p := AfterNames(m, names, os).published;
            && (forall n | n in m :: n in p && m[n] <= p[n])
            && (forall n | n in p :: n in m || n in names)
            && (!AfterNames(m, names, os).found ==> p.Keys == m.Keys)
  {
    if names != [] {
      NamesOnlyGrow(m, Before(names), Before(os));
      assert names == Before(names) + [Last(names)];
    }
  }

  /** Whatever the cache and the resolver answer: the addresses of a name still requested never
      shrink, and after the round no unrequested name is published. */
  lemma RoundOnlyGrowsRequested(m: Published, names: seq<string>, os: seq<Outcome>)
    requires |os| == |names|
    ensures var s := NextStatus(m, names, os);
            && (forall n | n in m && n in names :: n in s && m[n] <= s[n])
            && (forall n | n in s :: n in names)
  {
    NamesOnlyGrow(m, names, os);
    var p := AfterNames(m, names, os);
    if !AfterRound(m, names, os).found {
      forall n | n in m ensures n in names {
        assert n in p.published;
        assert n in Requested(p.published, names);
      }
    }
  }

  /** And every address that is published was published before, or answered for that name. */
  lemma {:induction false} NothingInvented(m: Published, names: seq<string>, os: seq<Outcome>, n: string, ip: string)
    requires |os| == |names|
    requires ip in Under(AfterNames(m, names, os).published, n) && ip !in Under(m, n)
    ensures exists i ::
              0 <= i < |names| && names[i] == n && (ip in os[i].cached || (os[i].own.Some? && ip in os[i].own.value))
  {
    var before := AfterNames(m, Before(names), Before(os)).published;
    if ip in Under(before, n) {
      NothingInvented(m, Before(names), Before(os), n, ip);
      var i :| 0 <= i < |names| - 1 && Before(names)[i] == n &&
               (ip in Before(os)[i].cached || (Before(os)[i].own.Some? && ip in Before(os)[i].own.value));
      assert names[i] == n && os[i] == Before(os)[i];
    } else {
      assert names[|names| - 1] == n;
    }
  }

  // ----- Time standing still -----

  /** The live pairs of the cache: while time stands still and nothing is evicted, they only grow. */
  type Cache = set<(string, string)>

  predicate HasSuffix(s: string, suffix: string) {
    |suffix| <= |s| && s[|s| - |suffix|..] == suffix
  }

  function DnsSuffix(dnsName: string): string {
    if IsWildcard(dnsName) then dnsName[1..] else dnsName
  }

  /** A wildcard is an asterisk and a suffix, and covers exactly the names that end in the suffix. */
  lemma WildcardCovers(suffix: string, key: string)
    ensures IsWildcard("*" + suffix)
    ensures HasSuffix(key, DnsSuffix("*" + suffix)) <==> exists p :: key == p + suffix
  {
    assert ("*" + suffix)[1..] == suffix;
    if HasSuffix(key, suffix) {
      assert key == key[..|key| - |suffix|] + suffix;
    }
  }

  lemma IsWildcardIff(name: string)
    ensures IsWildcard(name) <==> exists suffix :: name == "*" + suffix
    ensures IsWildcard(name) ==> name == "*" + DnsSuffix(name)
  {
    if IsWildcard(name) {
      assert name == "*" + name[1..];
    }
  }

  /** So, while time stands still, the answer to a wildcard is what is cached under names that end in its
      suffix, and the answer to any other name is what is cached under it. */
  lemma AnswerExactly(c: Cache, name: string, ip: string)
    ensures forall suffix | name == "*" + suffix :: ip in Answer(c, name) <==> exists p :: (p + suffix, ip) in c
    ensures (forall suffix :: name != "*" + suffix) ==> (ip in Answer(c, name) <==> (name, ip) in c)
  {
    IsWildcardIff(name);
    forall suffix | name == "*" + suffix ensures ip in Answer(c, name) <==> exists p :: (p + suffix, ip) in c {
      if ip in Answer(c, name) {
        var q :| q in c && HasSuffix(q.0, DnsSuffix(name)) && q.1 == ip;
        WildcardCovers(suffix, q.0);
        var p :| q.0 == p + suffix;
        assert (p + suffix, ip) in c;
      }
      if p :| (p + suffix, ip) in c {
        WildcardCovers(suffix, p + suffix);
      }
    }
  }

  ghost function Answer(c: Cache, name: string): set<string> {
    if IsWildcard(name) then set p | p in c && HasSuffix(p.0, DnsSuffix(name)) :: p.1
    else set p | p in c && p.0 == name :: p.1
  }

  /** What the resolver says of each name, always the same; a name it fails on is absent. */
  type Resolver = map<string, set<string>>

  ghost function OutcomeOf(c: Cache, r: Resolver, name: string): Outcome {
    var cached := Answer(c, name);
    Outcome(cached, if cached == {} && !IsWildcard(name) && name in r then Some(r[name]) else None)
  }

  /** The resolver's answer to a miss goes into the cache. */
  ghost function CacheAfter(c: Cache, r: Resolver, name: string): Cache {
    if Answer(c, name) == {} && !IsWildcard(name) && name in r then c + set ip | ip in r[name] :: (name, ip) else c
  }

  ghost function CacheAfterNames(c: Cache, r: Resolver, names: seq<string>): Cache {
    if names == [] then c else CacheAfter(CacheAfterNames(c, r, Before(names)), r, Last(names))
  }

  ghost function OutcomesOf(c: Cache, r: Resolver, names: seq<string>): (os: seq<Outcome>)
    ensures |os| == |names|
  {
    if names == [] then []
    else OutcomesOf(c, r, Before(names)) + [OutcomeOf(CacheAfterNames(c, r, Before(names)), r, Last(names))]
  }

  /** A client: the names it asks for and its published status. */
  datatype Client = Client(names: seq<string>, status: Published)

  ghost function ClientAfter(c: Cache, r: Resolver, x: Client): Client {
    x.(status := NextStatus(x.status, x.names, OutcomesOf(c, r, x.names)))
  }

  ghost predicate Reports(c: Cache, r: Resolver, x: Client) {
    AfterRound(x.status, x.names, OutcomesOf(c, r, x.names)).found
  }

  /** One round over all clients, which share the cache. */
  datatype World = World(cache: Cache, clients: seq<Client>)

  ghost function RoundOver(c: Cache, r: Resolver, xs: seq<Client>): World {
    if xs == [] then World(c, [])
    else
      var w := RoundOver(c, r, Before(xs));
      World(CacheAfterNames(w.cache, r, Last(xs).names), w.clients + [ClientAfter(w.cache, r, Last(xs))])
  }

  ghost function Round(w: World, r: Resolver): World {
    RoundOver(w.cache, r, w.clients)
  }

  ghost predicate AnyReports(c: Cache, r: Resolver, xs: seq<Client>) {
    xs != [] && (AnyReports(c, r, Before(xs)) || Reports(RoundOver(c, r, Before(xs)).cache, r, Last(xs)))
  }

  ghost function Rounds(w: World, r: Resolver, n: nat): World {
    if n == 0 then w else Round(Rounds(w, r, n - 1), r)
  }

  /** The resolver has nothing to add: every plain name is cached or the resolver knows nothing. */
  ghost predicate Stable(c: Cache, r: Resolver, names: seq<string>) {
    forall n | n in names :: IsWildcard(n) || Answer(c, n) != {} || n !in r || r[n] == {}
  }

  /** The client has everything the cache knows of its names, and nothing else. */
  ghost predicate Settled(c: Cache, x: Client) {
    && (forall n | n in x.status :: n in x.names)
    && (forall n | n in x.names :: Answer(c, n) <= Under(x.status, n))
  }

  lemma CacheGrows(c: Cache, r: Resolver, name: string)
    ensures c <= CacheAfter(c, r, name)
    ensures Stable(CacheAfter(c, r, name), r, [name])
  {
    var d := CacheAfter(c, r, name);
    if Answer(c, name) == {} && !IsWildcard(name) && name in r && r[name] != {} {
      var ip :| ip in r[name];
      assert (name, ip) in d;
      assert ip in Answer(d, name);
    }
  }

  lemma StableStays(c: Cache, d: Cache, r: Resolver, names: seq<string>)
    requires Stable(c, r, names) && c <= d
    ensures Stable(d, r, names)
  {
    forall n | n in names && !IsWildcard(n) && Answer(c, n) != {} ensures Answer(d, n) != {} {
      var ip :| ip in Answer(c, n);
      assert ip in Answer(d, n);
    }
  }

  lemma {:induction false} NamesBecomeStable(c: Cache, r: Resolver, names: seq<string>)
    ensures c <= CacheAfterNames(c, r, names)
    ensures Stable(CacheAfterNames(c, r, names), r, names)
  {
    if names != [] {
      var d := CacheAfterNames(c, r, Before(names));
      NamesBecomeStable(c, r, Before(names));
      CacheGrows(d, r, Last(names));
      StableStays(d, CacheAfter(d, r, Last(names)), r, Before(names));
      assert names == Before(names) + [Last(names)];
      assert Last(names) in [Last(names)];
    }
  }

  lemma {:induction false} StableKeepsCache(c: Cache, r: Resolver, names: seq<string>)
    requires Stable(c, r, names)
    ensures CacheAfterNames(c, r, names) == c
  {
    if names != [] {
      assert names == Before(names) + [Last(names)];
      assert forall n | n in Before(names) :: n in names;
      StableKeepsCache(c, r, Before(names));
      assert Last(names) in names;
    }
  }

  /** With a stable cache, the names of a client end up with everything the cache knows. */
  lemma {:induction false} StableNames(c: Cache, r: Resolver, m: Published, names: seq<string>)
    requires Stable(c, r, names)
    ensures var p := AfterNames(m, names, OutcomesOf(c, r, names));
            && (forall n | n in names :: Answer(c, n) <= Under(p.published, n))
            && (!p.found ==> p.published == m)
            && ((forall n | n in names :: Answer(c, n) <= Under(m, n)) ==> !p.found)
  {
    if names != [] {
      var before, name, os := Before(names), Last(names), OutcomesOf(c, r, names);
      assert names == before + [name];
      assert forall n | n in before :: n in names;
      assert name in names;
      StableNames(c, r, m, before);
      StableKeepsCache(c, r, before);
      assert Before(os) == OutcomesOf(c, r, before);
      var p := AfterNames(m, before, Before(os));
      NamesOnlyGrow(m, before, Before(os));
      StableName(c, r, p.published, name);
    }
  }

  lemma StableName(c: Cache, r: Resolver, m: Published, name: string)
    requires Stable(c, r, [name])
    ensures var q := AfterName(m, name, OutcomeOf(c, r, name));
            && (forall n :: Under(m, n) <= Under(q.published, n))
            && Answer(c, name) <= Under(q.published, name)
            && (!q.found ==> q.published == m)
            && (q.found <==> !(Answer(c, name) <= Under(m, name)))
  {
    assert name in [name];
    if Answer(c, name) == {} && name in m {
      assert m[name] + {} == m[name] && m[name := m[name]] == m;
    }
  }

  lemma StableSettles(c: Cache, r: Resolver, x: Client)
    requires Stable(c, r, x.names)
    ensures Settled(c, ClientAfter(c, r, x))
    ensures Settled(c, x) ==> !Reports(c, r, x) && ClientAfter(c, r, x) == x
  {
    var os := OutcomesOf(c, r, x.names);
    StableNames(c, r, x.status, x.names);
    RoundOnlyGrowsRequested(x.status, x.names, os);
    var p := AfterNames(x.status, x.names, os);
    if Settled(c, x) {
      assert Requested(p.published, x.names) == p.published;
    }
  }

  ghost predicate AllStable(c: Cache, r: Resolver, xs: seq<Client>) {
    forall i | 0 <= i < |xs| :: Stable(c, r, xs[i].names)
  }

  ghost predicate AllSettled(c: Cache, xs: seq<Client>) {
    forall i | 0 <= i < |xs| :: Settled(c, xs[i])
  }

  /** After one round, whatever the start, the cache is stable for every client. */
  lemma {:induction false} RoundStabilises(c: Cache, r: Resolver, xs: seq<Client>)
    ensures var w := RoundOver(c, r, xs);
            && |w.clients| == |xs|
            && (forall i | 0 <= i < |xs| :: w.clients[i].names == xs[i].names)
            && AllStable(w.cache, r, w.clients)
  {
    if xs != [] {
      RoundStabilises(c, r, Before(xs));
      var v, w := RoundOver(c, r, Before(xs)), RoundOver(c, r, xs);
      NamesBecomeStable(v.cache, r, Last(xs).names);
      forall i | 0 <= i < |xs| ensures Stable(w.cache, r, w.clients[i].names) {
        if i < |xs| - 1 {
          StableStays(v.cache, w.cache, r, v.clients[i].names);
        }
      }
    }
  }

  lemma AllButLast(c: Cache, r: Resolver, xs: seq<Client>)
    requires xs != []
    ensures AllStable(c, r, xs) <==> AllStable(c, r, Before(xs)) && Stable(c, r, Last(xs).names)
    ensures AllSettled(c, xs) <==> AllSettled(c, Before(xs)) && Settled(c, Last(xs))
  {
    assert xs == Before(xs) + [Last(xs)];
    assert forall i | 0 <= i < |xs| - 1 :: Before(xs)[i] == xs[i];
    assert xs[|xs| - 1] == Last(xs);
  }

  /** A round with a stable cache keeps the cache and settles every client. */
  lemma {:induction false} StableRoundSettles(c: Cache, r: Resolver, xs: seq<Client>)
    requires AllStable(c, r, xs)
    ensures var w := RoundOver(c, r, xs);
            w.cache == c && AllStable(c, r, w.clients) && AllSettled(c, w.clients)
  {
    if xs != [] {
      var before, x := Before(xs), Last(xs);
      AllButLast(c, r, xs);
      StableRoundSettles(c, r, before);
      StableKeepsCache(c, r, x.names);
      StableSettles(c, r, x);
      var ys := RoundOver(c, r, before).clients;
      assert Before(ys + [ClientAfter(c, r, x)]) == ys;
      AllButLast(c, r, ys + [ClientAfter(c, r, x)]);
    }
  }

  /** Settled clients report nothing and stay as they are. */
  lemma {:induction false} SettledRoundIsQuiet(c: Cache, r: Resolver, xs: seq<Client>)
    requires AllStable(c, r, xs) && AllSettled(c, xs)
    ensures !AnyReports(c, r, xs) && RoundOver(c, r, xs) == World(c, xs)
  {
    if xs != [] {
      var before, x := Before(xs), Last(xs);
      AllButLast(c, r, xs);
      SettledRoundIsQuiet(c, r, before);
      StableKeepsCache(c, r, x.names);
      StableSettles(c, r, x);
      QuietMore(c, r, xs);
    }
  }

  lemma QuietMore(c: Cache, r: Resolver, xs: seq<Client>)
    requires xs != [] && !AnyReports(c, r, Before(xs)) && RoundOver(c, r, Before(xs)) == World(c, Before(xs))
    requires CacheAfterNames(c, r, Last(xs).names) == c && ClientAfter(c, r, Last(xs)) == Last(xs)
    requires !Reports(c, r, Last(xs))
    ensures !AnyReports(c, r, xs) && RoundOver(c, r, xs) == World(c, xs)
  {
    var w := RoundOver(c, r, Before(xs));
    assert w.cache == c && w.clients == Before(xs);
    assert RoundOver(c, r, xs) ==
           World(CacheAfterNames(w.cache, r, Last(xs).names), w.clients + [ClientAfter(w.cache, r, Last(xs))]);
    Rejoin(xs);
  }

  /** While time stands still, nothing is evicted and the resolver is deterministic, at most the
      first two rounds report an update: every later round reports none and changes nothing. */
  lemma {:induction false} SettlesInTwoRounds(w: World, r: Resolver, n: nat)
    requires n >= 2
    ensures Rounds(w, r, n) == Rounds(w, r, 2)
    ensures !AnyReports(Rounds(w, r, n).cache, r, Rounds(w, r, n).clients)
  {
    var w1, w2 := Rounds(w, r, 1), Rounds(w, r, 2);
    assert w1 == Round(Rounds(w, r, 0), r) && w2 == Round(w1, r);
    RoundStabilises(w.cache, r, w.clients);
    StableRoundSettles(w1.cache, r, w1.clients);
    SettledRoundIsQuiet(w2.cache, r, w2.clients);
    if n > 2 {
      SettlesInTwoRounds(w, r, n - 1);
    }
  }

  lemma OneName(c: Cache, r: Resolver, name: string)
    ensures OutcomesOf(c, r, [name]) == [OutcomeOf(c, r, name)]
    ensures CacheAfterNames(c, r, [name]) == CacheAfter(c, r, name)
  {
    assert Before([name]) == [];
  }
}
