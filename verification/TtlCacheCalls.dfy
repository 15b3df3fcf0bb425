/**
 Calls of the cache without the choices it makes itself, and the answers it can give to them.
 */
module TtlCacheCalls {
  import opened Basics
  import opened TtlCacheSpec
  import opened TtlCacheRuns
  import opened TtlCacheExpiry

  /** A call, without the choices the cache makes: which expired entries a cleanup still misses,
      and in what order a lookup meets the entries under the keys it wants. */
  datatype Call<!K, V> =
    | Inserting(entry: Entry<K, V>, at: int)
    | Asking(wanted: iset<K>, from: int, to: int)
    | Cleaning(from: int, to: int)

  ghost function StartOf<K, V>(c: Call<K, V>): int {
    match c
    case Inserting(_, at) => at
    case Asking(_, from, _) => from
    case Cleaning(from, _) => from
  }

  ghost function EndOf<K, V>(c: Call<K, V>): int {
    match c
    case Inserting(_, at) => at
    case Asking(_, _, to) => to
    case Cleaning(_, to) => to
  }

  ghost function TimeAfter<K, V>(calls: seq<Call<K, V>>, now: int): int {
    if calls == [] then now else EndOf(Last(calls))
  }

  ghost predicate InOrder<K, V>(calls: seq<Call<K, V>>, now: int) {
    calls == [] ||
    (InOrder(Before(calls), now) && TimeAfter(Before(calls), now) <= StartOf(Last(calls)) <= EndOf(Last(calls)))
  }

  /** Of the listed keys, the lookup visits exactly the wanted ones. */
  ghost predicate Scopes<K, V>(s: seq<Entry<K, V>>, scope: set<K>, wanted: iset<K>) {
    forall e | e in s :: e.key in scope <==> e.key in wanted
  }

  /** In this state the call can be carried out as this operation. */
  ghost predicate Carries<K, V>(s: seq<Entry<K, V>>, c: Call<K, V>, op: Op<K, V>) {
    && Legal(s, op)
    && match c
       case Inserting(e, at) => op == Insert(e, at)
       case Asking(wanted, from, to) => op.Lookup? && op.from == from && op.to == to && Scopes(s, op.scope, wanted)
       case Cleaning(from, to) => op.Cleanup? && op.from == from && op.to == to
  }

  ghost function StateFrom<K, V>(cap: nat, s: seq<Entry<K, V>>, ops: seq<Op<K, V>>): seq<Entry<K, V>> {
    if ops == [] then s else Apply(cap, StateFrom(cap, s, Before(ops)), Last(ops))
  }

  ghost predicate Follows<K, V>(cap: nat, s: seq<Entry<K, V>>, calls: seq<Call<K, V>>, ops: seq<Op<K, V>>) {
    && |ops| == |calls|
    && (calls == [] ||
        (Follows(cap, s, Before(calls), Before(ops)) &&
         Carries(StateFrom(cap, s, Before(ops)), Last(calls), Last(ops))))
  }

  ghost function AnswerOf<K, V>(op: Op<K, V>): seq<Entry<K, V>> {
    if op.Lookup? then op.hits else []
  }

  ghost function AnswersOf<K, V>(ops: seq<Op<K, V>>): seq<seq<Entry<K, V>>> {
    if ops == [] then [] else AnswersOf(Before(ops)) + [AnswerOf(Last(ops))]
  }

  /** The cache can answer the calls in this way. */
  ghost predicate Possible<K(!new), V(!new)>(cap: nat, s: seq<Entry<K, V>>, calls: seq<Call<K, V>>,
                                             answers: seq<seq<Entry<K, V>>>) {
    exists ops :: Follows(cap, s, calls, ops) && AnswersOf(ops) == answers
  }

  // ----- Runs as calls -----

  ghost function CallOf<K, V>(op: Op<K, V>): Call<K, V> {
    match op
    case Insert(e, at) => Inserting(e, at)
    case Lookup(scope, _, from, to) => Asking((iset k | k in scope), from, to)
    case Cleanup(_, from, to) => Cleaning(from, to)
  }

  ghost function CallsOf<K, V>(ops: seq<Op<K, V>>): seq<Call<K, V>> {
    if ops == [] then [] else CallsOf(Before(ops)) + [CallOf(Last(ops))]
  }

  lemma {:induction false} RunContinues<K, V>(cap: nat, run: seq<Op<K, V>>, ops: seq<Op<K, V>>)
    ensures StateFrom(cap, State(cap, run), ops) == State(cap, run + ops)
  {
    if ops == [] {
      assert run + ops == run;
    } else {
      assert Before(run + ops) == run + Before(ops) && Last(run + ops) == Last(ops);
      RunContinues(cap, run, Before(ops));
    }
  }

  lemma CallsOfMore<K, V>(ops: seq<Op<K, V>>, now: int)
    requires ops != []
    ensures Before(CallsOf(ops)) == CallsOf(Before(ops)) && Last(CallsOf(ops)) == CallOf(Last(ops))
    ensures TimeAfter(CallsOf(ops), now) == End(Last(ops))
  {
  }

  lemma LegalRunEarlier<K, V>(cap: nat, run: seq<Op<K, V>>, ops: seq<Op<K, V>>)
    requires LegalRun(cap, run + ops) && ops != []
    ensures LegalRun(cap, run + Before(ops)) && Legal(State(cap, run + Before(ops)), Last(ops))
    ensures run + Before(ops) != [] ==> End(Last(run + Before(ops))) <= Start(Last(ops))
  {
    assert Before(run + ops) == run + Before(ops) && Last(run + ops) == Last(ops);
  }

  /** Every continuation of a legal run carries out some calls, in order. */
  lemma {:induction false} RunFollowsCalls<K, V>(cap: nat, run: seq<Op<K, V>>, ops: seq<Op<K, V>>, now: int)
    requires LegalRun(cap, run + ops) && (ops != [] ==> now <= Start(ops[0]))
    ensures Follows(cap, State(cap, run), CallsOf(ops), ops) && InOrder(CallsOf(ops), now)
  {
    if ops != [] {
      var before := Before(ops);
      LegalRunEarlier(cap, run, ops);
      RunFollowsCalls(cap, run, before, now);
      RunContinues(cap, run, before);
      CallsOfMore(ops, now);
      if before != [] {
        CallsOfMore(before, now);
        assert Last(run + before) == Last(before);
      }
    }
  }

  // ----- Facts about calls -----

  lemma LookupKeepsView<K, V>(s: seq<Entry<K, V>>, t: seq<Entry<K, V>>, scope: set<K>, other: set<K>, wanted: iset<K>,
                              hits: seq<Entry<K, V>>, from: int, to: int)
    requires Live(s, from) == Live(t, from) && Scopes(s, scope, wanted) && Scopes(t, other, wanted)
    requires LegalLookup(s, scope, hits, from, to)
    ensures LegalLookup(t, other, hits, from, to)
    ensures Live(AfterLookup(s, scope, hits), to) == Live(AfterLookup(t, other, hits), to)
  {
    LiveMembers(s, from);
    LiveMembers(t, from);
    forall e | e in hits ensures e in t && e.key in other {
      assert e in Live(s, from);
    }
    forall e | e in t && e.key in other && to <= e.expiration ensures e in hits {
      assert e in Live(t, from);
    }
    LiveAfterLookup(s, scope, hits, from, to);
    LiveAfterLookup(t, other, hits, from, to);
    forall e | e in Live(s, from) ensures PairOf(e) in InScope(s, scope) <==> PairOf(e) in InScope(t, other) {
      assert e in s && e in t;
    }
    WithoutAgree(Live(s, from), InScope(s, scope), InScope(t, other));
  }

  lemma {:induction false} FollowingKeepsShape<K, V>(cap: nat, s: seq<Entry<K, V>>, calls: seq<Call<K, V>>,
                                                     ops: seq<Op<K, V>>)
    requires Distinct(s) && |s| <= cap && Follows(cap, s, calls, ops)
    ensures Distinct(StateFrom(cap, s, ops)) && |StateFrom(cap, s, ops)| <= cap
  {
    if ops != [] {
      FollowingKeepsShape(cap, s, Before(calls), Before(ops));
      StepKeepsShape(cap, StateFrom(cap, s, Before(ops)), Last(ops));
    }
  }

  lemma LaterView<K, V>(s: seq<Entry<K, V>>, t: seq<Entry<K, V>>, now: int, later: int)
    requires Live(s, now) == Live(t, now) && now <= later
    ensures Live(s, later) == Live(t, later)
  {
    LiveLater(s, now, later);
    LiveLater(t, now, later);
  }

  lemma {:induction false} NothingLive<K, V>(s: seq<Entry<K, V>>, now: int)
    requires forall e | e in s :: e.expiration < now
    ensures Live(s, now) == []
  {
    if s != [] {
      assert forall e | e in s[1..] :: e in s;
      NothingLive(s[1..], now);
    }
  }

  ghost function Expired<K, V>(s: seq<Entry<K, V>>, now: int): set<(K, V)> {
    set e | e in s && e.expiration < now :: PairOf(e)
  }

  lemma ExpiredIsLegal<K, V>(s: seq<Entry<K, V>>, from: int, to: int)
    requires Distinct(s) && from <= to
    ensures LegalCleanup(s, Expired(s, to), from, to)
    ensures Without(s, Expired(s, to)) == Live(s, to)
  {
    forall e | e in s && PairOf(e) in Expired(s, to) ensures e.expiration < to {
      var x :| x in s && x.expiration < to && PairOf(x) == PairOf(e);
      assert x == e;
    }
    LiveIsWithout(s, to, Expired(s, to));
  }

  lemma {:induction false} LiveIsWithout<K, V>(s: seq<Entry<K, V>>, now: int, ps: set<(K, V)>)
    requires forall e | e in s :: PairOf(e) in ps <==> e.expiration < now
    ensures Without(s, ps) == Live(s, now)
  {
    if s != [] {
      assert s[0] in s && forall e | e in s[1..] :: e in s;
      LiveIsWithout(s[1..], now, ps);
    }
  }

  ghost function KeysWanted<K, V>(s: seq<Entry<K, V>>, wanted: iset<K>): set<K> {
    set e | e in s && e.key in wanted :: e.key
  }

  lemma OneMoreCall<K, V>(cap: nat, s: seq<Entry<K, V>>, calls: seq<Call<K, V>>, ops: seq<Op<K, V>>, op: Op<K, V>)
    requires calls != [] && Follows(cap, s, Before(calls), ops) && Carries(StateFrom(cap, s, ops), Last(calls), op)
    ensures Follows(cap, s, calls, ops + [op]) && AnswersOf(ops + [op]) == AnswersOf(ops) + [AnswerOf(op)]
    ensures StateFrom(cap, s, ops + [op]) == Apply(cap, StateFrom(cap, s, ops), op)
  {
    assert Before(ops + [op]) == ops && Last(ops + [op]) == op;
  }
}
