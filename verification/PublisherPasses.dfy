/**
 Passes of the publisher over all its clients, which share the real cache. While time stands still, a
 pass does what a round of the frozen model does, up to the client whose patch is refused, if any; so
 passes settle once they have reached every client and none of them is refused.
 */
module PublisherPasses {
  import opened Basics
  import opened TtlCacheRuns
  import opened DnsCache
  import opened PublisherSpec
  import opened PublisherTrace

  /** What the resolver would say of each name of each client, and what each name met with. */
  datatype Pass = Pass(lookups: seq<seq<Option<seq<string>>>>, outcomes: seq<seq<Outcome>>)

  /** One pass: a round for each client in turn, over the cache the previous ones leave. */
  ghost predicate PassRan(cap: nat, log: Log, base: Log, xs: seq<Client>, p: Pass, from: int)
    decreases |xs|
  {
    && |p.lookups| == |p.outcomes| == |xs|
    && if xs == [] then log == base
       else exists mid: Log ::
              && RoundRan(cap, log, mid, Last(xs).names, Last(p.lookups), Last(p.outcomes), from)
              && PassRan(cap, mid, base, Before(xs), AllButTheLast(p), from)
  }

  ghost function AllButTheLast(p: Pass): Pass
    requires p.lookups != [] && p.outcomes != []
  {
    Pass(Before(p.lookups), Before(p.outcomes))
  }

  ghost predicate Fitting(xs: seq<Client>, p: Pass) {
    |p.outcomes| == |xs| && forall i | 0 <= i < |xs| :: |p.outcomes[i]| == |xs[i].names|
  }

  ghost function ClientNext(x: Client, os: seq<Outcome>): Client
    requires |os| == |x.names|
  {
    x.(status := NextStatus(x.status, x.names, os))
  }

  /** The clients after a pass in which every patch is accepted. */
  ghost function ClientsNext(xs: seq<Client>, p: Pass): seq<Client>
    requires Fitting(xs, p)
  {
    seq(|xs|, i requires 0 <= i < |xs| => ClientNext(xs[i], p.outcomes[i]))
  }

  // ----- Passes of the class -----

  /** There is an answer of the resolver for each name of each client. */
  ghost predicate Suits(lookups: seq<seq<Option<seq<string>>>>, xs: seq<Client>) {
    |lookups| == |xs| && forall i | 0 <= i < |xs| :: |lookups[i]| == |xs[i].names|
  }

  /** `done` is how many clients have been published. */
  ghost predicate PublishedUpTo(xs: seq<Client>, ys: seq<Client>, outcomes: seq<seq<Outcome>>, done: int) {
    && done <= |outcomes| <= |xs| == |ys|
    && (forall i | 0 <= i < |outcomes| :: |outcomes[i]| == |xs[i].names|)
    && (forall i | 0 <= i < |xs| :: ys[i] == if i < done then ClientNext(xs[i], outcomes[i]) else xs[i])
  }

  /** The patch of a client that has something to report is accepted. */
  ghost predicate Patched(x: Client, os: seq<Outcome>, accepted: bool) {
    |os| == |x.names| && (Reported(x, os) ==> accepted)
  }

  ghost predicate PatchedUpTo(xs: seq<Client>, outcomes: seq<seq<Outcome>>, accepted: seq<bool>, done: int) {
    && done <= |outcomes| <= |xs| == |accepted|
    && forall i | 0 <= i < done :: Patched(xs[i], outcomes[i], accepted[i])
  }

  lemma PublishedNext(xs: seq<Client>, ys: seq<Client>, zs: seq<Client>, outcomes: seq<seq<Outcome>>,
                      os: seq<Outcome>, ok: bool)
    requires PublishedUpTo(xs, ys, outcomes, |outcomes|) && |outcomes| < |xs|
    requires Turned(xs, ys, zs, |outcomes|, os, ok)
    ensures PublishedUpTo(xs, zs, outcomes + [os], if ok then |outcomes| + 1 else |outcomes|)
  {
    var all := outcomes + [os];
    assert forall i | 0 <= i < |outcomes| :: all[i] == outcomes[i];
    assert all[|outcomes|] == os;
  }

  lemma PatchedNext(xs: seq<Client>, outcomes: seq<seq<Outcome>>, accepted: seq<bool>, os: seq<Outcome>)
    requires PatchedUpTo(xs, outcomes, accepted, |outcomes|) && |outcomes| < |xs|
    ensures PatchedUpTo(xs, outcomes + [os], accepted, |outcomes|)
    ensures PatchedUpTo(xs, outcomes + [os], accepted, |outcomes| + 1)
       <==> Patched(xs[|outcomes|], os, accepted[|outcomes|])
  {
    var all := outcomes + [os];
    assert forall i | 0 <= i < |outcomes| :: all[i] == outcomes[i];
    assert all[|outcomes|] == os;
  }

  /** The turn of client `n` changes no other client, and it only if the patch is accepted. */
  ghost predicate Turned(xs: seq<Client>, ys: seq<Client>, zs: seq<Client>, n: nat, os: seq<Outcome>, ok: bool) {
    && n < |xs| == |ys| == |zs| && |os| == |xs[n].names|
    && zs[n] == (if ok then ClientNext(xs[n], os) else xs[n])
    && forall i | 0 <= i < |xs| && i != n :: zs[i] == ys[i]
  }

  /** The first `n` clients have been reached, and `done` of them published. */
  ghost predicate PassUpTo(cap: nat, log: Log, base: Log, xs: seq<Client>, ys: seq<Client>,
                           lookups: seq<seq<Option<seq<string>>>>,
                           accepted: seq<bool>, p: Pass, n: nat, done: int, from: int) {
    && |p.outcomes| == n <= |xs| == |lookups| && p.lookups == lookups[..n]
    && PassRan(cap, log, base, xs[..n], p, from)
    && PublishedUpTo(xs, ys, p.outcomes, done)
    && PatchedUpTo(xs, p.outcomes, accepted, done)
  }

  lemma PassUpToNext(cap: nat, log: Log, mid: Log, base: Log, xs: seq<Client>, ys: seq<Client>, zs: seq<Client>,
                     lookups: seq<seq<Option<seq<string>>>>, accepted: seq<bool>, p: Pass, n: nat, os: seq<Outcome>,
                     ok: bool,
                     at: int, from: int) returns (q: Pass)
    requires n < |xs| && PassUpTo(cap, mid, base, xs, ys, lookups, accepted, p, n, n, from)
    requires RoundRan(cap, log, mid, xs[n].names, lookups[n], os, at) && from <= at
    requires Turned(xs, ys, zs, n, os, ok) && ok == Patched(xs[n], os, accepted[n])
    ensures PassUpTo(cap, log, base, xs, zs, lookups, accepted, q, n + 1, if ok then n + 1 else n, from)
    ensures q.outcomes[n] == os
  {
    q := Pass(p.lookups + [lookups[n]], p.outcomes + [os]);
    RoundFrom(cap, log, mid, xs[n].names, lookups[n], os, at, from);
    PassGrows(cap, log, mid, base, xs[..n], p, xs[n], lookups[n], os, from);
    PublishedNext(xs, ys, zs, p.outcomes, os, ok);
    PatchedNext(xs, p.outcomes, accepted, os);
    TakeOneMore([], lookups, n);
    TakeOneMore([], xs, n);
  }

  ghost predicate Reported(x: Client, os: seq<Outcome>)
    requires |os| == |x.names|
  {
    AfterRound(x.status, x.names, os).found
  }

  lemma {:induction false} RoundFrom(cap: nat, log: Log, base: Log, names: seq<string>,
                                     lookups: seq<Option<seq<string>>>,
                                     os: seq<Outcome>, at: int, from: int)
    requires RoundRan(cap, log, base, names, lookups, os, at) && from <= at
    ensures RoundRan(cap, log, base, names, lookups, os, from)
    decreases |names|
  {
    if names != [] {
      RoundFrom(cap, Earlier(log, Added(Last(os), Last(lookups))), base, Before(names), Before(lookups), Before(os),
                at, from);
    }
  }

  lemma {:induction false} RoundIsLegal(cap: nat, log: Log, base: Log, names: seq<string>,
                                        lookups: seq<Option<seq<string>>>,
                                        os: seq<Outcome>, from: int, now: int)
    requires RoundRan(cap, log, base, names, lookups, os, from) && LegalRun(cap, log) && EndsBy(log, now)
    ensures LegalRun(cap, base) && EndsBy(base, now)
    decreases |names|
  {
    if names != [] {
      var added := Added(Last(os), Last(lookups));
      var mid := Earlier(log, added);
      var at :| from <= at && NameStep(cap, log, mid, Last(names), Last(os).cached, added, at);
      StepIsLegal(cap, log, mid, Last(names), Last(os).cached, added, at, now);
      RoundIsLegal(cap, mid, base, Before(names), Before(lookups), Before(os), from, now);
    }
  }

  lemma PassGrows(cap: nat, log: Log, mid: Log, base: Log, xs: seq<Client>, p: Pass, x: Client,
                  lookups: seq<Option<seq<string>>>, os: seq<Outcome>, from: int)
    requires PassRan(cap, mid, base, xs, p, from) && RoundRan(cap, log, mid, x.names, lookups, os, from)
    ensures PassRan(cap, log, base, xs + [x], Pass(p.lookups + [lookups], p.outcomes + [os]), from)
  {
    var q := Pass(p.lookups + [lookups], p.outcomes + [os]);
    assert Before(xs + [x]) == xs && AllButTheLast(q) == p;
    assert Last(xs + [x]) == x && Last(q.lookups) == lookups && Last(q.outcomes) == os;
  }

  lemma {:induction false} PassIsLegal(cap: nat, log: Log, base: Log, xs: seq<Client>, p: Pass, from: int, now: int)
    requires PassRan(cap, log, base, xs, p, from) && LegalRun(cap, log) && EndsBy(log, now)
    ensures LegalRun(cap, base) && EndsBy(base, now)
    decreases |xs|
  {
    if xs != [] {
      var mid :| RoundRan(cap, log, mid, Last(xs).names, Last(p.lookups), Last(p.outcomes), from) &&
                 PassRan(cap, mid, base, Before(xs), AllButTheLast(p), from);
      RoundIsLegal(cap, log, mid, Last(xs).names, Last(p.lookups), Last(p.outcomes), from, now);
      PassIsLegal(cap, mid, base, Before(xs), AllButTheLast(p), from, now);
    }
  }

  // ----- Time standing still -----

  ghost predicate AllConsult(r: Resolver, xs: seq<Client>, lookups: seq<seq<Option<seq<string>>>>) {
    |lookups| == |xs| && forall i | 0 <= i < |xs| :: Consults(r, xs[i].names, lookups[i])
  }

  /** How many addresses the resolver could add in the pass. */
  ghost function AllOffered(lookups: seq<seq<Option<seq<string>>>>): nat {
    if lookups == [] then 0 else AllOffered(Before(lookups)) + Offered(Last(lookups))
  }

  /** The first asking of a name tells what is in the cache, whether or not all of the answer fits. */
  lemma {:induction false} StepAnswers(cap: nat, log: Log, base: Log, name: string, cached: set<string>,
                                       added: seq<string>, now: int)
    requires NameStep(cap, log, base, name, cached, added, now)
    requires LegalRun(cap, log) && EndsBy(log, now)
    ensures cached == Answer(Frozen(State(cap, base), now), name)
    decreases |added|
  {
    if added == [] {
      FrozenLookup(cap, log, base, name, cached, now);
    } else {
      StepIsLegal(cap, Before(log), base, name, cached, Before(added), now, End(Last(log)));
      StepAnswers(cap, Before(log), base, name, cached, Before(added), now);
    }
  }

  /** A resolver with nothing to add stores nothing. */
  lemma StableAddsNothing(c: Cache, r: Resolver, name: string, lookup: Option<seq<string>>, o: Outcome)
    requires Honest(o, name, lookup) && o.cached == Answer(c, name) && Stable(c, r, [name])
    requires (lookup.Some? <==> name in r) && (lookup.Some? ==> Members(lookup.value) == r[name])
    ensures Added(o, lookup) == []
  {
    assert name in [name];
    if o.own.Some? {
      MembersEmpty(lookup.value);
    }
  }

  lemma StableButLast(c: Cache, r: Resolver, names: seq<string>)
    requires names != [] && Stable(c, r, names)
    ensures Stable(c, r, Before(names)) && Stable(c, r, [Last(names)])
  {
    Rejoin(names);
  }

  lemma QuietTurn(cap: nat, log: Log, mid: Log, r: Resolver, name: string, lookup: Option<seq<string>>, o: Outcome,
                  at: int, now: int)
    requires NameStep(cap, log, mid, name, o.cached, Added(o, lookup), at) && now <= at
    requires LegalRun(cap, log) && EndsBy(log, now)
    requires Honest(o, name, lookup) && Stable(Frozen(State(cap, mid), now), r, [name])
    requires (lookup.Some? <==> name in r) && (lookup.Some? ==> Members(lookup.value) == r[name])
    ensures o == OutcomeOf(Frozen(State(cap, mid), now), r, name)
    ensures Frozen(State(cap, log), now) == Frozen(State(cap, mid), now)
    ensures |State(cap, log)| <= |State(cap, mid)|
  {
    var c := Frozen(State(cap, mid), now);
    StepIsLegal(cap, log, mid, name, o.cached, Added(o, lookup), at, now);
    StepAnswers(cap, log, mid, name, o.cached, Added(o, lookup), now);
    StableAddsNothing(c, r, name, lookup, o);
    RunKeepsShape(cap, mid);
    FrozenTurn(cap, log, mid, r, name, lookup, o, at, now);
    StableKeepsCache(c, r, [name]);
    OneName(c, r, name);
  }

  /** A round over a stable cache leaves it as it is, however full it is. */
  lemma {:induction false} QuietRound(cap: nat, log: Log, base: Log, names: seq<string>,
                                      lookups: seq<Option<seq<string>>>,
                                      os: seq<Outcome>, r: Resolver, now: int)
    requires RoundRan(cap, log, base, names, lookups, os, now) && Consults(r, names, lookups)
    requires LegalRun(cap, log) && EndsBy(log, now)
    requires Stable(Frozen(State(cap, base), now), r, names)
    ensures os == OutcomesOf(Frozen(State(cap, base), now), r, names)
    ensures Frozen(State(cap, log), now) == Frozen(State(cap, base), now)
    ensures |State(cap, log)| <= |State(cap, base)|
    decreases |names|
  {
    if names != [] {
      var name, lookup, o, c := Last(names), Last(lookups), Last(os), Frozen(State(cap, base), now);
      var mid := Earlier(log, Added(o, lookup));
      var at :| now <= at && NameStep(cap, log, mid, name, o.cached, Added(o, lookup), at);
      StepIsLegal(cap, log, mid, name, o.cached, Added(o, lookup), at, now);
      StableButLast(c, r, names);
      QuietRound(cap, mid, base, Before(names), Before(lookups), Before(os), r, now);
      QuietTurn(cap, log, mid, r, name, lookup, o, at, now);
      StableKeepsCache(c, r, Before(names));
      Rejoin(os);
    }
  }

  /** A round of one client, when all the resolver may add fits or it has nothing to add. */
  lemma ModelRound(cap: nat, log: Log, base: Log, x: Client, lookups: seq<Option<seq<string>>>, os: seq<Outcome>,
                   r: Resolver, now: int)
    requires RoundRan(cap, log, base, x.names, lookups, os, now) && Consults(r, x.names, lookups)
    requires LegalRun(cap, log) && EndsBy(log, now)
    requires Stable(Frozen(State(cap, base), now), r, x.names) || |State(cap, base)| + Offered(lookups) <= cap
    ensures os == OutcomesOf(Frozen(State(cap, base), now), r, x.names)
    ensures Frozen(State(cap, log), now) == CacheAfterNames(Frozen(State(cap, base), now), r, x.names)
    ensures |State(cap, log)| <= |State(cap, base)| + Offered(lookups)
  {
    if Stable(Frozen(State(cap, base), now), r, x.names) {
      QuietRound(cap, log, base, x.names, lookups, os, r, now);
      StableKeepsCache(Frozen(State(cap, base), now), r, x.names);
    } else {
      FrozenRound(cap, log, base, x.names, lookups, os, r, now);
    }
  }

  ghost predicate AnyReported(xs: seq<Client>, p: Pass)
    requires Fitting(xs, p)
  {
    exists i :: 0 <= i < |xs| && Reported(xs[i], p.outcomes[i])
  }

  /** The pass does what a round of the frozen model does, and says what it says. */
  ghost predicate ModelPass(c: Cache, d: Cache, r: Resolver, xs: seq<Client>, p: Pass) {
    && Fitting(xs, p)
    && RoundOver(c, r, xs) == World(d, ClientsNext(xs, p))
    && (AnyReported(xs, p) <==> AnyReports(c, r, xs))
  }

  lemma FittingButLast(xs: seq<Client>, p: Pass)
    requires xs != [] && |p.lookups| == |p.outcomes| == |xs|
    requires Fitting(Before(xs), AllButTheLast(p)) && |Last(p.outcomes)| == |Last(xs).names|
    ensures Fitting(xs, p)
    ensures ClientsNext(xs, p) == ClientsNext(Before(xs), AllButTheLast(p)) + [ClientNext(Last(xs), Last(p.outcomes))]
  {
    var n, q := |xs| - 1, AllButTheLast(p);
    assert forall i | 0 <= i < n :: Before(xs)[i] == xs[i] && q.outcomes[i] == p.outcomes[i];
    assert xs[n] == Last(xs) && p.outcomes[n] == Last(p.outcomes);
  }

  lemma ModelPassGrows(c: Cache, mid: Cache, r: Resolver, xs: seq<Client>, p: Pass)
    requires xs != [] && |p.lookups| == |p.outcomes| == |xs|
    requires ModelPass(c, mid, r, Before(xs), AllButTheLast(p))
    requires Last(p.outcomes) == OutcomesOf(mid, r, Last(xs).names)
    ensures ModelPass(c, CacheAfterNames(mid, r, Last(xs).names), r, xs, p)
  {
    FittingButLast(xs, p);
    LaterReport(xs, p);
  }

  lemma LaterReport(xs: seq<Client>, p: Pass)
    requires xs != [] && |p.lookups| == |xs| && Fitting(xs, p) && Fitting(Before(xs), AllButTheLast(p))
    ensures AnyReported(xs, p) <==> AnyReported(Before(xs), AllButTheLast(p)) || Reported(Last(xs), Last(p.outcomes))
  {
    var n, q := |xs| - 1, AllButTheLast(p);
    assert forall i | 0 <= i < n :: Before(xs)[i] == xs[i] && q.outcomes[i] == p.outcomes[i];
    assert xs[n] == Last(xs) && p.outcomes[n] == Last(p.outcomes);
    if AnyReported(Before(xs), q) {
      var i :| 0 <= i < n && Reported(Before(xs)[i], q.outcomes[i]);
      assert Reported(xs[i], p.outcomes[i]);
    }
  }

  lemma ConsultButLast(r: Resolver, xs: seq<Client>, lookups: seq<seq<Option<seq<string>>>>)
    requires xs != [] && AllConsult(r, xs, lookups)
    ensures AllConsult(r, Before(xs), Before(lookups)) && Consults(r, Last(xs).names, Last(lookups))
  {
    assert forall i | 0 <= i < |xs| - 1 :: Before(xs)[i] == xs[i] && Before(lookups)[i] == lookups[i];
    assert xs[|xs| - 1] == Last(xs) && lookups[|xs| - 1] == Last(lookups);
  }

  /** While time stands still, a pass over the real cache is a round of the frozen model, when all
      the resolver may add fits, or it has nothing to add to any client. */
  lemma {:induction false} FrozenPass(cap: nat, log: Log, base: Log, xs: seq<Client>, p: Pass, r: Resolver, now: int)
    requires PassRan(cap, log, base, xs, p, now) && AllConsult(r, xs, p.lookups)
    requires LegalRun(cap, log) && EndsBy(log, now)
    requires AllStable(Frozen(State(cap, base), now), r, xs) || |State(cap, base)| + AllOffered(p.lookups) <= cap
    ensures ModelPass(Frozen(State(cap, base), now), Frozen(State(cap, log), now), r, xs, p)
    ensures |State(cap, log)| <= |State(cap, base)| + AllOffered(p.lookups)
    decreases |xs|
  {
    var c := Frozen(State(cap, base), now);
    if xs != [] {
      var x, lookups, os, q := Last(xs), Last(p.lookups), Last(p.outcomes), AllButTheLast(p);
      var mid :| RoundRan(cap, log, mid, x.names, lookups, os, now) && PassRan(cap, mid, base, Before(xs), q, now);
      RoundIsLegal(cap, log, mid, x.names, lookups, os, now, now);
      ConsultButLast(r, xs, p.lookups);
      AllButLast(c, r, xs);
      FrozenPass(cap, mid, base, Before(xs), q, r, now);
      if AllStable(c, r, xs) {
        StableRoundSettles(c, r, Before(xs));
      }
      ModelRound(cap, log, mid, x, lookups, os, r, now);
      ModelPassGrows(c, Frozen(State(cap, mid), now), r, xs, p);
    }
  }

  // ----- Any number of passes -----

  /** A pass, and whether every patch of it was accepted. If not, it ended with the client refused. */
  datatype Attempt = Attempt(pass: Pass, ok: bool)

  ghost function Reached(t: Attempt): nat {
    |t.pass.outcomes|
  }

  ghost function Done(t: Attempt): int {
    if t.ok then Reached(t) else Reached(t) - 1
  }

  ghost predicate Reaches(xs: seq<Client>, t: Attempt) {
    && |t.pass.lookups| == Reached(t) <= |xs|
    && Fitting(xs[..Reached(t)], t.pass)
    && (if t.ok then Reached(t) == |xs| else Reached(t) > 0)
  }

  /** The clients after the pass: all that come before the one refused are published. */
  ghost function AfterAttempt(xs: seq<Client>, t: Attempt): (ys: seq<Client>)
    requires Reaches(xs, t)
    ensures SameNames(xs, ys)
  {
    ClientsNext(xs[..Reached(t)], t.pass)[..Done(t)] + xs[Done(t)..]
  }

  ghost predicate SameNames(xs: seq<Client>, ys: seq<Client>) {
    |ys| == |xs| && forall i | 0 <= i < |xs| :: ys[i].names == xs[i].names
  }

  ghost predicate AllReach(xs: seq<Client>, ts: seq<Attempt>) {
    forall t | t in ts :: Reaches(xs, t)
  }

  lemma ReachesByName(xs: seq<Client>, ys: seq<Client>, t: Attempt)
    requires SameNames(xs, ys) && Reaches(xs, t)
    ensures Reaches(ys, t)
  {
  }

  /** The clients after several passes. */
  ghost function ClientsAfter(xs: seq<Client>, ts: seq<Attempt>): (ys: seq<Client>)
    requires AllReach(xs, ts)
    ensures SameNames(xs, ys)
  {
    if ts == [] then xs
    else
      Rejoin(ts);
      var before := ClientsAfter(xs, Before(ts));
      ReachesByName(xs, before, Last(ts));
      AfterAttempt(before, Last(ts))
  }

  /** A pass over these clients, the last of which is refused only if it had something to report. */
  ghost predicate AttemptRan(cap: nat, log: Log, base: Log, xs: seq<Client>, t: Attempt, from: int) {
    && Reaches(xs, t)
    && PassRan(cap, log, base, xs[..Reached(t)], t.pass, from)
    && (!t.ok ==> Reported(xs[Done(t)], t.pass.outcomes[Done(t)]))
  }

  /** What a pass of the class comes to. */
  lemma PassUpToIsAttempt(cap: nat, log: Log, base: Log, xs: seq<Client>, ys: seq<Client>,
                          lookups: seq<seq<Option<seq<string>>>>, accepted: seq<bool>, p: Pass, n: nat, ok: bool,
                          from: int)
    requires PassUpTo(cap, log, base, xs, ys, lookups, accepted, p, n, if ok then n else n - 1, from)
    requires if ok then n == |xs| else n > 0 && !Patched(xs[n - 1], p.outcomes[n - 1], accepted[n - 1])
    ensures AttemptRan(cap, log, base, xs, Attempt(p, ok), from) && ys == AfterAttempt(xs, Attempt(p, ok))
  {
    assert Fitting(xs[..n], p);
    PublishedIsAfter(xs, ys, Attempt(p, ok));
  }

  lemma PublishedIsAfter(xs: seq<Client>, ys: seq<Client>, t: Attempt)
    requires Reaches(xs, t) && PublishedUpTo(xs, ys, t.pass.outcomes, Done(t))
    ensures ys == AfterAttempt(xs, t)
  {
  }

  ghost predicate PassesRan(cap: nat, log: Log, base: Log, xs: seq<Client>, ts: seq<Attempt>, from: int)
    decreases |ts|
  {
    && AllReach(xs, ts)
    && if ts == [] then log == base
       else
         Rejoin(ts);
         exists mid: Log ::
           && AttemptRan(cap, log, mid, ClientsAfter(xs, Before(ts)), Last(ts), from)
           && PassesRan(cap, mid, base, xs, Before(ts), from)
  }

  ghost predicate EachConsults(r: Resolver, xs: seq<Client>, ts: seq<Attempt>)
    requires AllReach(xs, ts)
  {
    forall t | t in ts :: AllConsult(r, xs[..Reached(t)], t.pass.lookups)
  }

  /** How many addresses the resolver could add in these passes. */
  ghost function OfferedIn(ts: seq<Attempt>): nat {
    if ts == [] then 0 else OfferedIn(Before(ts)) + AllOffered(Last(ts).pass.lookups)
  }

  /** The pass reports nothing, so that it cannot be refused, and changes no client. */
  ghost predicate IsQuiet(xs: seq<Client>, t: Attempt)
    requires Reaches(xs, t)
  {
    t.ok && !AnyReported(xs[..Reached(t)], t.pass) && AfterAttempt(xs, t) == xs
  }

  ghost predicate LastIsQuiet(xs: seq<Client>, ts: seq<Attempt>)
    requires ts != [] && AllReach(xs, ts)
  {
    Rejoin(ts);
    var before := ClientsAfter(xs, Before(ts));
    ReachesByName(xs, before, Last(ts));
    IsQuiet(before, Last(ts))
  }

  lemma StableByName(c: Cache, r: Resolver, xs: seq<Client>, ys: seq<Client>)
    requires SameNames(xs, ys) && AllStable(c, r, xs)
    ensures AllStable(c, r, ys)
  {
  }

  /** What a pass does, depending on what the passes before have achieved. */
  lemma AttemptSettles(c: Cache, d: Cache, r: Resolver, xs: seq<Client>, t: Attempt)
    requires Reaches(xs, t) && ModelPass(c, d, r, xs[..Reached(t)], t.pass)
    requires !t.ok ==> Reported(xs[Done(t)], t.pass.outcomes[Done(t)])
    ensures Reached(t) == |xs| || AllStable(c, r, xs) ==> AllStable(d, r, AfterAttempt(xs, t))
    ensures AllStable(c, r, xs) ==> d == c
    ensures AllStable(c, r, xs) && t.ok ==> AllSettled(d, AfterAttempt(xs, t))
    ensures AllStable(c, r, xs) && AllSettled(c, xs) ==> IsQuiet(xs, t)
    ensures t.ok ==> World(d, AfterAttempt(xs, t)) == Round(World(c, xs), r)
  {
    var m := Reached(t);
    var reached := xs[..m];
    if !t.ok {
      assert reached[Done(t)] == xs[Done(t)];
      assert AnyReported(reached, t.pass);
    }
    assert t.ok ==> reached == xs && AfterAttempt(xs, t) == ClientsNext(reached, t.pass);
    RoundStabilises(c, r, reached);
    if AllStable(c, r, xs) {
      StableRoundSettles(c, r, reached);
      StableByName(c, r, xs, AfterAttempt(xs, t));
    } else if m == |xs| {
      assert reached == xs;
      StableByName(d, r, ClientsNext(reached, t.pass), AfterAttempt(xs, t));
    }
    if AllStable(c, r, xs) && AllSettled(c, xs) {
      SettledRoundIsQuiet(c, r, reached);
    }
  }

  lemma AttemptIsLegal(cap: nat, log: Log, base: Log, xs: seq<Client>, t: Attempt, r: Resolver, now: int)
    requires AttemptRan(cap, log, base, xs, t, now) && AllConsult(r, xs[..Reached(t)], t.pass.lookups)
    requires LegalRun(cap, log) && EndsBy(log, now)
    requires AllStable(Frozen(State(cap, base), now), r, xs) || |State(cap, base)| + AllOffered(t.pass.lookups) <= cap
    ensures ModelPass(Frozen(State(cap, base), now), Frozen(State(cap, log), now), r, xs[..Reached(t)], t.pass)
    ensures |State(cap, log)| <= |State(cap, base)| + AllOffered(t.pass.lookups)
  {
    FrozenPass(cap, log, base, xs[..Reached(t)], t.pass, r, now);
  }

  ghost predicate AcceptedSince(ts: seq<Attempt>, a: nat) {
    exists b :: a < b < |ts| && ts[b].ok
  }

  /** Where a run of passes stands that has led to this cache and these clients, if pass `a` reaches every
      client. */
  ghost predicate Stands(start: World, w: World, ts: seq<Attempt>, a: nat, r: Resolver) {
    && (a < |ts| ==> AllStable(w.cache, r, w.clients))
    && (AcceptedSince(ts, a) ==> AllSettled(w.cache, w.clients))
    && ((forall t | t in ts :: t.ok) ==> w == Rounds(start, r, |ts|))
  }

  /** What the last pass of a run does to the world, as far as it matters for where the run stands. */
  ghost predicate Advances(v: World, w: World, t: Attempt, r: Resolver) {
    && (Reached(t) == |v.clients| || AllStable(v.cache, r, v.clients) ==> AllStable(w.cache, r, w.clients))
    && (AllStable(v.cache, r, v.clients) && t.ok ==> AllSettled(w.cache, w.clients))
    && (AllStable(v.cache, r, v.clients) && AllSettled(v.cache, v.clients) ==> w == v)
    && (t.ok ==> w == Round(v, r))
  }

  lemma StandsNext(start: World, v: World, w: World, ts: seq<Attempt>, a: nat, r: Resolver)
    requires ts != [] && Stands(start, v, Before(ts), a, r) && Advances(v, w, Last(ts), r)
    requires a < |ts| ==> Reached(ts[a]) == |v.clients|
    ensures Stands(start, w, ts, a, r)
  {
    Rejoin(ts);
    AcceptedSinceMore(ts, a);
    assert AcceptedSince(Before(ts), a) ==> a < |Before(ts)|;
  }

  /** Where a run of passes stands that has led from one cache to the other. */
  ghost predicate SettledBy(start: Cache, c: Cache, xs: seq<Client>, ts: seq<Attempt>, a: nat, r: Resolver)
    requires AllReach(xs, ts)
  {
    Stands(World(start, xs), World(c, ClientsAfter(xs, ts)), ts, a, r)
  }

  lemma SettledByNext(start: Cache, c: Cache, d: Cache, xs: seq<Client>, ts: seq<Attempt>, a: nat, r: Resolver)
    requires ts != [] && AllReach(xs, ts) && AllReach(xs, Before(ts))
    requires SettledBy(start, c, xs, Before(ts), a, r)
    requires var before, t := ClientsAfter(xs, Before(ts)), Last(ts);
             && Reaches(before, t) && ModelPass(c, d, r, before[..Reached(t)], t.pass)
             && (!t.ok ==> Reported(before[Done(t)], t.pass.outcomes[Done(t)]))
    requires a < |ts| ==> Reached(ts[a]) == |xs|
    ensures SettledBy(start, d, xs, ts, a, r)
    ensures AcceptedSince(Before(ts), a) ==> LastIsQuiet(xs, ts)
  {
    var before := ClientsAfter(xs, Before(ts));
    AttemptSettles(c, d, r, before, Last(ts));
    StandsNext(World(start, xs), World(c, before), World(d, ClientsAfter(xs, ts)), ts, a, r);
  }

  lemma SameConsult(r: Resolver, xs: seq<Client>, ys: seq<Client>, t: Attempt)
    requires SameNames(xs, ys) && Reaches(xs, t) && AllConsult(r, xs[..Reached(t)], t.pass.lookups)
    ensures AllConsult(r, ys[..Reached(t)], t.pass.lookups)
  {
  }

  lemma AcceptedSinceMore(ts: seq<Attempt>, a: nat)
    requires ts != []
    ensures AcceptedSince(ts, a) <==> AcceptedSince(Before(ts), a) || (a < |ts| - 1 && Last(ts).ok)
  {
    assert forall b | 0 <= b < |ts| - 1 :: Before(ts)[b] == ts[b];
    assert ts[|ts| - 1] == Last(ts);
    if AcceptedSince(Before(ts), a) {
      var b :| a < b < |ts| - 1 && Before(ts)[b].ok;
      assert ts[b].ok;
    }
  }

  /** The passes of a run may be refused, but let pass `a` reach every client, and let what the resolver may
      add up to then fit. Then a later pass that is not refused settles all clients: after it, and while
      time stands still, no pass reports anything, is refused, or changes a client. If none is refused, the
      passes lead where as many rounds of the frozen model do. */
  lemma {:induction false} PassesSettle(cap: nat, log: Log, base: Log, xs: seq<Client>, ts: seq<Attempt>, a: nat,
                                        r: Resolver, now: int)
    requires PassesRan(cap, log, base, xs, ts, now) && EachConsults(r, xs, ts)
    requires LegalRun(cap, log) && EndsBy(log, now)
    requires a < |ts| ==> Reached(ts[a]) == |xs|
    requires |State(cap, base)| + OfferedIn(if a < |ts| then ts[..a + 1] else ts) <= cap
    ensures SettledBy(Frozen(State(cap, base), now), Frozen(State(cap, log), now), xs, ts, a, r)
    ensures ts != [] && AcceptedSince(Before(ts), a) ==> LastIsQuiet(xs, ts)
    ensures |ts| <= a + 1 ==> |State(cap, log)| <= |State(cap, base)| + OfferedIn(ts)
    decreases |ts|
  {
    if ts != [] {
      var before, t, ys := Before(ts), Last(ts), ClientsAfter(xs, Before(ts));
      Rejoin(ts);
      var mid :| AttemptRan(cap, log, mid, ys, t, now) && PassesRan(cap, mid, base, xs, before, now);
      PassIsLegal(cap, log, mid, ys[..Reached(t)], t.pass, now, now);
      OfferedEarlier(ts, a);
      PassesSettle(cap, mid, base, xs, before, a, r, now);
      SameConsult(r, xs, ys, t);
      AttemptIsLegal(cap, log, mid, ys, t, r, now);
      SettledByNext(Frozen(State(cap, base), now), Frozen(State(cap, mid), now), Frozen(State(cap, log), now),
                    xs, ts, a, r);
    }
  }

  lemma OfferedEarlier(ts: seq<Attempt>, a: nat)
    requires ts != []
    ensures var now, before := if a < |ts| then ts[..a + 1] else ts, if a < |ts| - 1 then Before(ts)[..a + 1]
            else Before(ts);
            OfferedIn(before) <= OfferedIn(now) && (|ts| <= a + 1 ==> now == ts)
  {
    if a < |ts| - 1 {
      assert Before(ts)[..a + 1] == ts[..a + 1];
    } else {
      assert ts[..|ts|] == ts;
    }
  }
}
