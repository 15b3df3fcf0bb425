/**
 What a cleanup changes of everything that follows it. If it drops nothing from in front of an entry
 that is still live, the caches with and without it differ only in expired entries at the back, and
 can give exactly the same answers for ever. If it does, enough new pairs push that entry off the
 cache that was not cleaned only, and the next lookup shows the difference.
 */
module TtlCacheCleanup {
  import opened Basics
  import opened TtlCacheSpec
  import opened TtlCacheExpiry
  import opened TtlCacheCalls

  /** Whatever stands behind a dropped entry has expired when the cleanup ends. */
  ghost predicate NothingLiveBehind<K, V>(s: seq<Entry<K, V>>, dropped: set<(K, V)>, to: int) {
    forall i, j | 0 <= i < j < |s| && PairOf(s[i]) in dropped :: s[j].expiration < to
  }

  // ----- Caches that differ only in expired entries at the back -----

  ghost predicate AllExpired<K, V>(s: seq<Entry<K, V>>, now: int) {
    forall e | e in s :: e.expiration < now
  }

  ghost predicate SameButBack<K, V>(s: seq<Entry<K, V>>, t: seq<Entry<K, V>>, p: seq<Entry<K, V>>,
                                    j: seq<Entry<K, V>>, k: seq<Entry<K, V>>, now: int) {
    s == p + j && t == p + k && AllExpired(j, now) && AllExpired(k, now)
  }

  lemma SameButBackView<K, V>(s: seq<Entry<K, V>>, t: seq<Entry<K, V>>, p: seq<Entry<K, V>>,
                              j: seq<Entry<K, V>>, k: seq<Entry<K, V>>, now: int)
    requires SameButBack(s, t, p, j, k, now)
    ensures Live(s, now) == Live(t, now)
  {
    LiveConcat(p, j, now);
    LiveConcat(p, k, now);
    NothingLive(j, now);
    NothingLive(k, now);
  }

  ghost function Trimmed<K, V>(cap: nat, t: seq<Entry<K, V>>): seq<Entry<K, V>> {
    if |t| > cap then t[..|t| - 1] else t
  }

  lemma TrimBack<K, V>(cap: nat, a: seq<Entry<K, V>>, j: seq<Entry<K, V>>)
    requires |a + j| <= cap + 1
    ensures Trimmed(cap, a + j) == if |a| <= cap then a + Trimmed(cap - |a|, j) else Before(a)
  {
  }

  /** An insertion pushes off the back of either list, or the same entry off both. */
  lemma InsertKeepsFront<K, V>(cap: nat, s: seq<Entry<K, V>>, t: seq<Entry<K, V>>, p: seq<Entry<K, V>>,
                               j: seq<Entry<K, V>>, k: seq<Entry<K, V>>, e: Entry<K, V>, now: int)
    returns (p': seq<Entry<K, V>>, j': seq<Entry<K, V>>, k': seq<Entry<K, V>>)
    requires |s| <= cap && |t| <= cap && SameButBack(s, t, p, j, k, now)
    ensures SameButBack(AfterInsert(cap, s, e), AfterInsert(cap, t, e), p', j', k', now)
  {
    var q := {PairOf(e)};
    var a := [e] + Without(p, q);
    j', k' := Without(j, q), Without(k, q);
    FrontedParts(p, j, q, e);
    FrontedParts(p, k, q, e);
    WithoutMembers(s, q);
    WithoutMembers(t, q);
    TrimBack(cap, a, j');
    TrimBack(cap, a, k');
    if |a| <= cap {
      p', j', k' := a, Trimmed(cap - |a|, j'), Trimmed(cap - |a|, k');
    } else {
      p', j', k' := Before(a), [], [];
    }
  }

  lemma FrontedParts<K, V>(p: seq<Entry<K, V>>, j: seq<Entry<K, V>>, q: set<(K, V)>, e: Entry<K, V>)
    ensures [e] + Without(p + j, q) == [e] + Without(p, q) + Without(j, q)
    ensures forall x | x in Without(j, q) :: x in j
  {
    WithoutConcat(p, j, q);
    WithoutMembers(j, q);
  }

  lemma LookupParts<K, V>(p: seq<Entry<K, V>>, j: seq<Entry<K, V>>, scope: set<K>, wanted: iset<K>,
                          hits: seq<Entry<K, V>>)
    requires Scopes(p + j, scope, wanted)
    ensures AfterLookup(p + j, scope, hits) == Reversed(hits) + Unwanted(p, wanted) + Unwanted(j, wanted)
    ensures forall x | x in Unwanted(j, wanted) :: x in j
  {
    var ps := InScope(p + j, scope);
    WithoutConcat(p, j, ps);
    assert forall e | e in p || e in j :: e in p + j;
    WithoutAgree(p, ps, InWanted(p, wanted));
    WithoutAgree(j, ps, InWanted(j, wanted));
    WithoutMembers(j, ps);
    assert Reversed(hits) + (Without(p, ps) + Without(j, ps)) == Reversed(hits) + Without(p, ps) + Without(j, ps);
  }

  ghost function InWanted<K, V>(s: seq<Entry<K, V>>, wanted: iset<K>): set<(K, V)> {
    set e | e in s && e.key in wanted :: PairOf(e)
  }

  ghost function Unwanted<K, V>(s: seq<Entry<K, V>>, wanted: iset<K>): seq<Entry<K, V>> {
    Without(s, InWanted(s, wanted))
  }

  /** A cleanup drops every expired entry at the back. */
  lemma CleanupParts<K, V>(p: seq<Entry<K, V>>, j: seq<Entry<K, V>>, dropped: set<(K, V)>)
    requires forall e | e in j :: PairOf(e) in dropped
    ensures Without(p + j, dropped) == Without(p, dropped)
  {
    WithoutConcat(p, j, dropped);
    WithoutAll(j, dropped);
  }

  lemma MatchingCleanup<K, V>(s: seq<Entry<K, V>>, t: seq<Entry<K, V>>, p: seq<Entry<K, V>>, j: seq<Entry<K, V>>,
                              k: seq<Entry<K, V>>, now: int, dropped: set<(K, V)>, from: int, to: int)
    returns (other: set<(K, V)>)
    requires Distinct(t) && SameButBack(s, t, p, j, k, now) && now <= from && LegalCleanup(s, dropped, from, to)
    ensures LegalCleanup(t, other, from, to)
    ensures Without(s, dropped) == Without(p, dropped) == Without(t, other)
  {
    other := set e | e in t && (PairOf(e) in dropped || e.expiration < from) :: PairOf(e);
    assert forall e | e in p || e in j :: e in s;
    assert forall e | e in p || e in k :: e in t;
    forall e | e in t && PairOf(e) in other ensures PairOf(e) in dropped || e.expiration < from {
      var x :| x in t && (PairOf(x) in dropped || x.expiration < from) && PairOf(x) == PairOf(e);
      assert x == e;
    }
    forall e | e in t && PairOf(e) in other ensures e.expiration < to {
      assert e in p || e in k;
    }
    CleanupParts(p, j, dropped);
    CleanupParts(p, k, other);
    WithoutAgree(p, dropped, other);
  }

  /** One call, carried out on one of them, can be carried out on the other with the same answer. */
  lemma StepMatches<K, V>(cap: nat, s: seq<Entry<K, V>>, t: seq<Entry<K, V>>, p: seq<Entry<K, V>>, j: seq<Entry<K, V>>,
                          k: seq<Entry<K, V>>, now: int, c: Call<K, V>, op: Op<K, V>)
    returns (other: Op<K, V>, p': seq<Entry<K, V>>, j': seq<Entry<K, V>>, k': seq<Entry<K, V>>)
    requires Distinct(t) && |s| <= cap && |t| <= cap && SameButBack(s, t, p, j, k, now)
    requires Carries(s, c, op) && now <= StartOf(c) <= EndOf(c)
    ensures Carries(t, c, other) && AnswerOf(other) == AnswerOf(op)
    ensures SameButBack(Apply(cap, s, op), Apply(cap, t, other), p', j', k', EndOf(c))
  {
    match c
    case Inserting(e, at) =>
      other := op;
      p', j', k' := InsertKeepsFront(cap, s, t, p, j, k, e, at);
    case Asking(wanted, from, to) =>
      other := Lookup(KeysWanted(t, wanted), op.hits, from, to);
      SameButBackView(s, t, p, j, k, from);
      LookupKeepsView(s, t, op.scope, other.scope, wanted, op.hits, from, to);
      LookupParts(p, j, op.scope, wanted, op.hits);
      LookupParts(p, k, other.scope, wanted, op.hits);
      p', j', k' := Reversed(op.hits) + Unwanted(p, wanted), Unwanted(j, wanted), Unwanted(k, wanted);
    case Cleaning(from, to) =>
      var dropped := MatchingCleanup(s, t, p, j, k, now, op.dropped, from, to);
      other := Cleanup(dropped, from, to);
      p', j', k' := Without(p, op.dropped), [], [];
  }

  lemma {:induction false} RunMatches<K, V>(cap: nat, s: seq<Entry<K, V>>, t: seq<Entry<K, V>>, p: seq<Entry<K, V>>,
                                            j: seq<Entry<K, V>>, k: seq<Entry<K, V>>, now: int,
                                            calls: seq<Call<K, V>>, ops: seq<Op<K, V>>)
    returns (others: seq<Op<K, V>>, p': seq<Entry<K, V>>, j': seq<Entry<K, V>>, k': seq<Entry<K, V>>)
    requires Distinct(s) && Distinct(t) && |s| <= cap && |t| <= cap
    requires SameButBack(s, t, p, j, k, now) && InOrder(calls, now) && Follows(cap, s, calls, ops)
    ensures Follows(cap, t, calls, others) && AnswersOf(others) == AnswersOf(ops)
    ensures SameButBack(StateFrom(cap, s, ops), StateFrom(cap, t, others), p', j', k', TimeAfter(calls, now))
  {
    if calls == [] {
      return [], p, j, k;
    }
    var before := Before(ops);
    others, p', j', k' := RunMatches(cap, s, t, p, j, k, now, Before(calls), before);
    FollowingKeepsShape(cap, s, Before(calls), before);
    FollowingKeepsShape(cap, t, Before(calls), others);
    var other;
    other, p', j', k' := StepMatches(cap, StateFrom(cap, s, before), StateFrom(cap, t, others), p', j', k',
                                     TimeAfter(Before(calls), now), Last(calls), Last(ops));
    OneMoreCall(cap, t, calls, others, other);
    others := others + [other];
  }

  lemma FirstDropped<K, V>(s: seq<Entry<K, V>>, dropped: set<(K, V)>) returns (i: nat)
    ensures i <= |s| && (i < |s| ==> PairOf(s[i]) in dropped)
    ensures forall e | e in s[..i] :: PairOf(e) !in dropped
  {
    i := 0;
    while i < |s| && PairOf(s[i]) !in dropped
      invariant i <= |s| && forall e | e in s[..i] :: PairOf(e) !in dropped
    {
      i := i + 1;
    }
  }

  /** With nothing live behind a dropped entry, the cleanup changes only the expired back. */
  lemma CleanupChangesBack<K, V>(s: seq<Entry<K, V>>, dropped: set<(K, V)>, to: int)
    returns (p: seq<Entry<K, V>>, j: seq<Entry<K, V>>)
    requires NothingLiveBehind(s, dropped, to) && forall e | e in s && PairOf(e) in dropped :: e.expiration < to
    ensures SameButBack(s, Without(s, dropped), p, j, Without(j, dropped), to)
  {
    var i := FirstDropped(s, dropped);
    p, j := s[..i], s[i..];
    assert s == p + j;
    WithoutConcat(p, j, dropped);
    WithoutNone(p, dropped);
    WithoutMembers(j, dropped);
    forall e | e in j ensures e.expiration < to {
      var m :| 0 <= m < |j| && j[m] == e;
      assert e == s[i + m];
    }
  }

  /** The two caches can answer any calls in the same ways. */
  ghost predicate SameAnswers<K(!new), V(!new)>(cap: nat, s: seq<Entry<K, V>>, t: seq<Entry<K, V>>, now: int) {
    forall calls, answers | InOrder(calls, now) ::
        Possible(cap, s, calls, answers) <==> Possible(cap, t, calls, answers)
  }

  lemma SameButBackAnswers<K(!new), V(!new)>(cap: nat, s: seq<Entry<K, V>>, t: seq<Entry<K, V>>, p: seq<Entry<K, V>>,
                                             j: seq<Entry<K, V>>, k: seq<Entry<K, V>>, now: int)
    requires Distinct(s) && Distinct(t) && |s| <= cap && |t| <= cap && SameButBack(s, t, p, j, k, now)
    ensures SameAnswers(cap, s, t, now)
  {
    forall calls, answers | InOrder(calls, now)
      ensures Possible(cap, s, calls, answers) <==> Possible(cap, t, calls, answers)
    {
      if Possible(cap, s, calls, answers) {
        var ops :| Follows(cap, s, calls, ops) && AnswersOf(ops) == answers;
        var others, p', j', k' := RunMatches(cap, s, t, p, j, k, now, calls, ops);
      }
      if Possible(cap, t, calls, answers) {
        var ops :| Follows(cap, t, calls, ops) && AnswersOf(ops) == answers;
        var others, p', j', k' := RunMatches(cap, t, s, p, k, j, now, calls, ops);
      }
    }
  }

  // ----- Calls that tell them apart -----

  /** Entries for these pairs that expire when they are inserted. */
  ghost function EntriesOf<K, V>(ps: seq<(K, V)>, at: int): (es: seq<Entry<K, V>>)
    ensures |es| == |ps| && forall i | 0 <= i < |ps| :: PairOf(es[i]) == ps[i]
  {
    seq(|ps|, i requires 0 <= i < |ps| => Entry(ps[i].0, ps[i].1, at))
  }

  ghost function InsertCalls<K, V>(es: seq<Entry<K, V>>, at: int): (calls: seq<Call<K, V>>)
    ensures |calls| == |es|
  {
    if es == [] then [] else InsertCalls(Before(es), at) + [Inserting(Last(es), at)]
  }

  ghost function InsertOps<K, V>(es: seq<Entry<K, V>>, at: int): (ops: seq<Op<K, V>>)
    ensures |ops| == |es|
  {
    if es == [] then [] else InsertOps(Before(es), at) + [Insert(Last(es), at)]
  }

  lemma {:induction false} InsertingIsInOrder<K, V>(es: seq<Entry<K, V>>, at: int)
    ensures InOrder(InsertCalls(es, at), at) && TimeAfter(InsertCalls(es, at), at) == at
  {
    if es != [] {
      InsertingIsInOrder(Before(es), at);
      assert Before(InsertCalls(es, at)) == InsertCalls(Before(es), at);
    }
  }

  /** Insertions leave no choice. */
  lemma {:induction false} OnlyInserts<K, V>(cap: nat, s: seq<Entry<K, V>>, es: seq<Entry<K, V>>, at: int,
                                             ops: seq<Op<K, V>>)
    ensures Follows(cap, s, InsertCalls(es, at), ops) <==> ops == InsertOps(es, at)
  {
    if es != [] {
      var calls, all := InsertCalls(es, at), InsertOps(es, at);
      assert Before(calls) == InsertCalls(Before(es), at) && Before(all) == InsertOps(Before(es), at);
      if ops != [] {
        OnlyInserts(cap, s, Before(es), at, Before(ops));
        Rejoin(ops);
      }
      OnlyInserts(cap, s, Before(es), at, Before(all));
    }
  }

  ghost function First<T>(n: nat, s: seq<T>): seq<T> {
    if n < |s| then s[..n] else s
  }

  /** New pairs come to stand in front, and push as many off the back as do not fit. */
  lemma {:induction false} AfterInserts<K, V>(cap: nat, s: seq<Entry<K, V>>, es: seq<Entry<K, V>>, at: int)
    requires 1 <= cap && |s| <= cap && Distinct(es) && Pairs(es) !! Pairs(s)
    ensures StateFrom(cap, s, InsertOps(es, at)) == First(cap, Reversed(es) + s)
  {
    if es != [] {
      assert Before(InsertOps(es, at)) == InsertOps(Before(es), at);
      NotAmong(es, s);
      AfterInserts(cap, s, Before(es), at);
      InsertNew(cap, Reversed(Before(es)) + s, Last(es));
      ReversedMore(es, s);
    }
  }

  lemma InsertNew<K, V>(cap: nat, r: seq<Entry<K, V>>, e: Entry<K, V>)
    requires 1 <= cap && forall x | x in r :: PairOf(x) != PairOf(e)
    ensures AfterInsert(cap, First(cap, r), e) == First(cap, [e] + r)
  {
    FirstMore(cap, e, r);
    WithoutNone(First(cap, r), {PairOf(e)});
  }

  lemma ReversedMore<T>(s: seq<T>, t: seq<T>)
    requires s != []
    ensures Reversed(s) + t == [Last(s)] + (Reversed(Before(s)) + t)
  {
    Rejoin(s);
    ReversedConcat(Before(s), [Last(s)]);
    assert Reversed([Last(s)]) == [Last(s)];
  }

  lemma NotAmong<K, V>(es: seq<Entry<K, V>>, s: seq<Entry<K, V>>)
    requires es != [] && Distinct(es) && Pairs(es) !! Pairs(s)
    ensures Distinct(Before(es)) && Pairs(Before(es)) !! Pairs(s)
    ensures forall x | x in Reversed(Before(es)) + s :: PairOf(x) != PairOf(Last(es))
  {
    Rejoin(es);
    ReversedMembers(Before(es));
    forall x | x in Reversed(Before(es)) + s ensures PairOf(x) != PairOf(Last(es)) {
      if x in s {
        assert PairOf(x) in Pairs(s) && PairOf(Last(es)) in Pairs(es);
      }
    }
  }

  lemma FirstMore<K, V>(cap: nat, e: Entry<K, V>, r: seq<Entry<K, V>>)
    requires 1 <= cap
    ensures Trimmed(cap, [e] + First(cap, r)) == First(cap, [e] + r)
    ensures forall x | x in First(cap, r) :: x in r
  {
  }

  /** Entry `i` is dropped by the cleanup, and entry `j` behind it is still live when it ends. */
  ghost predicate Strands<K, V>(s: seq<Entry<K, V>>, dropped: set<(K, V)>, to: int, i: nat, j: nat) {
    i < j < |s| && PairOf(s[i]) in dropped && to <= s[j].expiration
  }

  /** When as many new pairs have come as there is room for behind entry `j`, it is gone. */
  lemma PushedOff<K, V>(cap: nat, s: seq<Entry<K, V>>, es: seq<Entry<K, V>>, j: nat)
    requires Distinct(s) && j < |s| <= cap && |es| == cap - j && Pairs(es) !! Pairs(s)
    ensures s[j] !in First(cap, Reversed(es) + s)
  {
    var r := Reversed(es);
    ReversedMembers(es);
    assert First(cap, r + s) == r + s[..j];
    assert forall x | x in r :: x in es && PairOf(x) in Pairs(es);
    assert s[j] in s && PairOf(s[j]) in Pairs(s);
  }

  /** If something in front of it is dropped first, it stays. */
  lemma NotPushedOff<K, V>(cap: nat, s: seq<Entry<K, V>>, dropped: set<(K, V)>, es: seq<Entry<K, V>>, i: nat, j: nat)
    requires i < j < |s| <= cap && |es| == cap - j
    requires PairOf(s[i]) in dropped && PairOf(s[j]) !in dropped
    ensures s[j] in First(cap, Reversed(es) + Without(s, dropped))
  {
    var a, b, r := s[..j], s[j + 1..], Reversed(es);
    ReversedMembers(es);
    assert s == a + ([s[j]] + b);
    WithoutConcat(a, [s[j]] + b, dropped);
    WithoutConcat([s[j]], b, dropped);
    var kept := Without(a, dropped);
    assert Without(s, dropped) == kept + ([s[j]] + Without(b, dropped));
    ShorterWithout(a, dropped, i);
    var all := r + Without(s, dropped);
    assert all[|r| + |kept|] == s[j];
    assert |r| + |kept| < cap;
  }

  lemma ShorterWithout<K, V>(s: seq<Entry<K, V>>, dropped: set<(K, V)>, i: nat)
    requires i < |s| && PairOf(s[i]) in dropped
    ensures |Without(s, dropped)| < |s|
  {
    assert s == s[..i] + ([s[i]] + s[i + 1..]);
    WithoutConcat(s[..i], [s[i]] + s[i + 1..], dropped);
    WithoutMembers(s[..i], dropped);
    WithoutMembers(s[i + 1..], dropped);
  }

  /** What a lookup of one key at `now` answers, in recency order. */
  ghost function LiveUnder<K, V>(s: seq<Entry<K, V>>, key: K, now: int): seq<Entry<K, V>> {
    Without(s, set e | e in s && (e.key != key || e.expiration < now) :: PairOf(e))
  }

  lemma AnswersLiveUnder<K, V>(s: seq<Entry<K, V>>, key: K, now: int)
    requires Distinct(s)
    ensures LegalLookup(s, {key}, LiveUnder(s, key, now), now, now)
    ensures forall e | e in s && e.key == key && now <= e.expiration :: e in LiveUnder(s, key, now)
  {
    var others := set e | e in s && (e.key != key || e.expiration < now) :: PairOf(e);
    WithoutMembers(s, others);
    WithoutDistinct(s, others);
    forall e | e in s && PairOf(e) in others ensures e.key != key || e.expiration < now {
      var x :| x in s && (x.key != key || x.expiration < now) && PairOf(x) == PairOf(e);
      assert x == e;
    }
  }

  /** Insert these entries and then look up this key, all at one moment. */
  ghost function Probe<K, V>(es: seq<Entry<K, V>>, key: K, at: int): seq<Call<K, V>> {
    InsertCalls(es, at) + [Asking(iset{key}, at, at)]
  }

  lemma ProbeIsInOrder<K, V>(es: seq<Entry<K, V>>, key: K, at: int)
    ensures InOrder(Probe(es, key, at), at)
    ensures Before(Probe(es, key, at)) == InsertCalls(es, at) && Last(Probe(es, key, at)) == Asking(iset{key}, at, at)
  {
    InsertingIsInOrder(es, at);
    assert Before(Probe(es, key, at)) == InsertCalls(es, at);
  }

  /** What the cache can answer the probe shows what it holds after the insertions. */
  lemma ProbeAnswers<K(!new), V(!new)>(cap: nat, s: seq<Entry<K, V>>, es: seq<Entry<K, V>>, key: K, at: int)
    returns (answers: seq<seq<Entry<K, V>>>)
    requires Distinct(StateFrom(cap, s, InsertOps(es, at)))
    ensures Possible(cap, s, Probe(es, key, at), answers) && answers != []
    ensures Last(answers) == LiveUnder(StateFrom(cap, s, InsertOps(es, at)), key, at)
  {
    var S := StateFrom(cap, s, InsertOps(es, at));
    var op := Lookup({key}, LiveUnder(S, key, at), at, at);
    AnswersLiveUnder(S, key, at);
    ProbeIsInOrder(es, key, at);
    OnlyInserts(cap, s, es, at, InsertOps(es, at));
    OneMoreCall(cap, s, Probe(es, key, at), InsertOps(es, at), op);
    answers := AnswersOf(InsertOps(es, at) + [op]);
  }

  lemma ProbeShows<K(!new), V(!new)>(cap: nat, s: seq<Entry<K, V>>, es: seq<Entry<K, V>>, key: K, at: int,
                                     answers: seq<seq<Entry<K, V>>>)
    requires Possible(cap, s, Probe(es, key, at), answers)
    ensures answers != [] && forall e | e in Last(answers) :: e in StateFrom(cap, s, InsertOps(es, at))
  {
    var ops :| Follows(cap, s, Probe(es, key, at), ops) && AnswersOf(ops) == answers;
    ProbeIsInOrder(es, key, at);
    OnlyInserts(cap, s, es, at, Before(ops));
  }

  /** After that many insertions, looking up the stranded entry finds it only after the cleanup. */
  lemma StrandedIsSeen<K(!new), V(!new)>(cap: nat, s: seq<Entry<K, V>>, dropped: set<(K, V)>, from: int, to: int,
                                         i: nat, j: nat, es: seq<Entry<K, V>>)
    requires Distinct(s) && |s| <= cap && LegalCleanup(s, dropped, from, to) && Strands(s, dropped, to, i, j)
    requires |es| == cap - j && Distinct(es) && Pairs(es) !! Pairs(s)
    ensures !SameAnswers(cap, s, Without(s, dropped), to)
  {
    var t, e := Without(s, dropped), s[j];
    var probe := Probe(es, e.key, to);
    WithoutMembers(s, dropped);
    WithoutDistinct(s, dropped);
    assert e in s && Pairs(t) <= Pairs(s);
    AfterInserts(cap, s, es, to);
    AfterInserts(cap, t, es, to);
    PushedOff(cap, s, es, j);
    NotPushedOff(cap, s, dropped, es, i, j);
    var T := StateFrom(cap, t, InsertOps(es, to));
    OnlyInserts(cap, t, es, to, InsertOps(es, to));
    FollowingKeepsShape(cap, t, InsertCalls(es, to), InsertOps(es, to));
    var answers := ProbeAnswers(cap, t, es, e.key, to);
    AnswersLiveUnder(T, e.key, to);
    ProbeIsInOrder(es, e.key, to);
    if Possible(cap, s, probe, answers) {
      ProbeShows(cap, s, es, e.key, to, answers);
      assert false;
    }
  }

  lemma KeepsAnswersUnlessStranding<K(!new), V(!new)>(cap: nat, s: seq<Entry<K, V>>, dropped: set<(K, V)>, from: int,
                                                      to: int)
    requires Distinct(s) && |s| <= cap && LegalCleanup(s, dropped, from, to) && NothingLiveBehind(s, dropped, to)
    ensures SameAnswers(cap, s, Without(s, dropped), to)
  {
    WithoutDistinct(s, dropped);
    WithoutMembers(s, dropped);
    var p, j := CleanupChangesBack(s, dropped, to);
    SameButBackAnswers(cap, s, Without(s, dropped), p, j, Without(j, dropped), to);
  }

  /** A cleanup changes no later answer, whatever is called, exactly if it drops nothing in front of an
      entry that is still live. Only the other half needs `others`: as many pairs as fit, not listed. */
  lemma CleanupChangesNoAnswerIff<K(!new), V(!new)>(cap: nat, s: seq<Entry<K, V>>, dropped: set<(K, V)>, from: int,
                                                    to: int,
                                                    others: seq<(K, V)>)
    requires Distinct(s) && |s| <= cap && LegalCleanup(s, dropped, from, to)
    requires |others| == cap && NoRepeats(others) && Members(others) !! Pairs(s)
    ensures SameAnswers(cap, s, Without(s, dropped), to) <==> NothingLiveBehind(s, dropped, to)
  {
    if NothingLiveBehind(s, dropped, to) {
      KeepsAnswersUnlessStranding(cap, s, dropped, from, to);
    } else {
      var i, j :| 0 <= i < j < |s| && PairOf(s[i]) in dropped && to <= s[j].expiration;
      EntriesAreNew(others, cap - j, to, s);
      StrandedIsSeen(cap, s, dropped, from, to, i, j, EntriesOf(others[..cap - j], to));
    }
  }

  lemma EntriesAreNew<K, V>(others: seq<(K, V)>, n: nat, at: int, s: seq<Entry<K, V>>)
    requires n <= |others| && NoRepeats(others) && Members(others) !! Pairs(s)
    ensures var es := EntriesOf(others[..n], at); Distinct(es) && Pairs(es) !! Pairs(s)
  {
    var es := EntriesOf(others[..n], at);
    forall i | 0 <= i < n ensures PairOf(es[i]) !in Pairs(s) {
      assert others[i] in others;
    }
  }
}
