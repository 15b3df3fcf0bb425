/**
 What a cleanup changes of given calls, even if it dropped an entry in front of a live one. As long
 as no insertion pushes a live entry off the cache that was not cleaned, both give the same answers.
 */
module TtlCacheShadows {
  import opened Basics
  import opened TtlCacheSpec
  import opened TtlCacheRuns
  import opened TtlCacheExpiry
  import opened TtlCacheCalls
  import opened TtlCacheCleanup

  ghost predicate NoLiveEvicted<K, V>(cap: nat, s: seq<Entry<K, V>>, ops: seq<Op<K, V>>) {
    ops == [] ||
    (&& NoLiveEvicted(cap, s, Before(ops))
     && (Last(ops).Insert? ==> !EvictsLive(cap, StateFrom(cap, s, Before(ops)), Last(ops).entry, Last(ops).at)))
  }

  /** However the calls are carried out, none of them evicts a live entry. */
  ghost predicate NeverEvictsLive<K(!new), V(!new)>(cap: nat, s: seq<Entry<K, V>>, calls: seq<Call<K, V>>) {
    forall n: nat, ops | n <= |calls| && Follows(cap, s, calls[..n], ops) :: NoLiveEvicted(cap, s, ops)
  }

  // ----- One insertion, any two caches with the same view -----

  lemma LiveOfBefore<K, V>(t: seq<Entry<K, V>>, now: int)
    requires t != [] && now <= Last(t).expiration
    ensures Live(t, now) == Live(Before(t), now) + [Last(t)]
  {
    Rejoin(t);
    LiveConcat(Before(t), [Last(t)], now);
    assert Live([Last(t)], now) == [Last(t)];
  }

  /** What an insertion leaves to see: the new entry and what was there, less the last of it if that
      is evicted. */
  lemma ViewAfterInsert<K, V>(cap: nat, s: seq<Entry<K, V>>, e: Entry<K, V>, now: int)
    requires 1 <= cap && |s| <= cap
    ensures var all, kept := Live([e], now) + Without(Live(s, now), {PairOf(e)}), Live(AfterInsert(cap, s, e), now);
            if EvictsLive(cap, s, e, now) then all != [] && kept == Before(all) else kept == all
  {
    var rest := Without(s, {PairOf(e)});
    var t := [e] + rest;
    LiveConcat([e], rest, now);
    LiveOfWithout(s, {PairOf(e)}, now);
    LiveAfterInsert(cap, s, e, now);
    WithoutMembers(s, {PairOf(e)});
    if EvictsLive(cap, s, e, now) {
      assert Last(t) == Last(rest) && AfterInsert(cap, s, e) == Before(t);
      LiveOfBefore(t, now);
    }
  }

  /** Two caches with the same view see the same after an insertion exactly if it evicts a live
      entry from both or from neither. */
  lemma InsertKeepsViewIff<K, V>(cap: nat, s: seq<Entry<K, V>>, t: seq<Entry<K, V>>, e: Entry<K, V>, now: int)
    requires |s| <= cap && |t| <= cap && Live(s, now) == Live(t, now)
    ensures Live(AfterInsert(cap, s, e), now) == Live(AfterInsert(cap, t, e), now)
       <==> (EvictsLive(cap, s, e, now) <==> EvictsLive(cap, t, e, now))
  {
    if 1 <= cap {
      ViewAfterInsert(cap, s, e, now);
      ViewAfterInsert(cap, t, e, now);
    }
  }

  // ----- A pair of runs -----

  ghost predicate SameViews<K, V>(cap: nat, s: seq<Entry<K, V>>, t: seq<Entry<K, V>>, calls: seq<Call<K, V>>,
                                  ops: seq<Op<K, V>>, others: seq<Op<K, V>>, now: int)
    requires |ops| == |others| == |calls|
  {
    && Live(StateFrom(cap, s, ops), TimeAfter(calls, now)) == Live(StateFrom(cap, t, others), TimeAfter(calls, now))
    && (calls != [] ==> SameViews(cap, s, t, Before(calls), Before(ops), Before(others), now))
  }

  /** Every insertion evicts a live entry from both caches or from neither. */
  ghost predicate EvictAlike<K, V>(cap: nat, s: seq<Entry<K, V>>, t: seq<Entry<K, V>>, ops: seq<Op<K, V>>,
                                   others: seq<Op<K, V>>)
    requires |ops| == |others|
  {
    ops == [] ||
    (&& EvictAlike(cap, s, t, Before(ops), Before(others))
     && (Last(ops).Insert? ==>
           (EvictsLive(cap, StateFrom(cap, s, Before(ops)), Last(ops).entry, Last(ops).at) <==>
            EvictsLive(cap, StateFrom(cap, t, Before(others)), Last(ops).entry, Last(ops).at))))
  }

  lemma StepKeepsViewIff<K, V>(cap: nat, s: seq<Entry<K, V>>, t: seq<Entry<K, V>>, c: Call<K, V>, op: Op<K, V>,
                               other: Op<K, V>, now: int)
    requires Distinct(s) && Distinct(t) && |s| <= cap && |t| <= cap
    requires Carries(s, c, op) && Carries(t, c, other) && AnswerOf(op) == AnswerOf(other)
    requires Live(s, now) == Live(t, now) && now <= StartOf(c) <= EndOf(c)
    ensures Live(Apply(cap, s, op), EndOf(c)) == Live(Apply(cap, t, other), EndOf(c))
       <==> (op.Insert? ==> (EvictsLive(cap, s, op.entry, op.at) <==> EvictsLive(cap, t, op.entry, op.at)))
  {
    LaterView(s, t, now, StartOf(c));
    match c
    case Inserting(e, at) =>
      InsertKeepsViewIff(cap, s, t, e, at);
    case Asking(wanted, from, to) =>
      LookupKeepsView(s, t, op.scope, other.scope, wanted, op.hits, from, to);
    case Cleaning(from, to) =>
      CleanupIsInvisible(s, op.dropped, from, to, to);
      CleanupIsInvisible(t, other.dropped, from, to, to);
      LaterView(s, t, from, to);
  }

  /** Two caches with the same view, asked the same calls and giving the same answers, keep the same
      view throughout exactly if every insertion evicts a live entry from both or from neither. */
  lemma {:induction false} SameViewsIff<K, V>(cap: nat, s: seq<Entry<K, V>>, t: seq<Entry<K, V>>,
                                              calls: seq<Call<K, V>>,
                                              ops: seq<Op<K, V>>, others: seq<Op<K, V>>, now: int)
    requires Distinct(s) && Distinct(t) && |s| <= cap && |t| <= cap
    requires Live(s, now) == Live(t, now) && InOrder(calls, now)
    requires Follows(cap, s, calls, ops) && Follows(cap, t, calls, others) && AnswersOf(ops) == AnswersOf(others)
    ensures SameViews(cap, s, t, calls, ops, others, now) <==> EvictAlike(cap, s, t, ops, others)
  {
    if calls != [] {
      assert Before(AnswersOf(ops)) == AnswersOf(Before(ops)) && Before(AnswersOf(others)) == AnswersOf(Before(others));
      assert Last(AnswersOf(ops)) == AnswerOf(Last(ops)) && Last(AnswersOf(others)) == AnswerOf(Last(others));
      SameViewsIff(cap, s, t, Before(calls), Before(ops), Before(others), now);
      FollowingKeepsShape(cap, s, Before(calls), Before(ops));
      FollowingKeepsShape(cap, t, Before(calls), Before(others));
      if EvictAlike(cap, s, t, Before(ops), Before(others)) {
        StepKeepsViewIff(cap, StateFrom(cap, s, Before(ops)), StateFrom(cap, t, Before(others)), Last(calls),
                         Last(ops), Last(others),
                         TimeAfter(Before(calls), now));
      }
    }
  }

  // ----- Matching runs -----

  /** `t` is `s` without the expired pairs `d`, followed by expired entries `j` that `s` no longer has. */
  ghost predicate Shadows<K, V>(s: seq<Entry<K, V>>, t: seq<Entry<K, V>>, d: set<(K, V)>, j: seq<Entry<K, V>>,
                                now: int) {
    && t == Without(s, d) + j
    && (forall e | e in s && PairOf(e) in d :: e.expiration < now)
    && (forall e | e in j :: e.expiration < now)
  }

  lemma ShadowsView<K, V>(s: seq<Entry<K, V>>, t: seq<Entry<K, V>>, d: set<(K, V)>, j: seq<Entry<K, V>>, now: int)
    requires Shadows(s, t, d, j, now)
    ensures Live(s, now) == Live(t, now)
  {
    LiveConcat(Without(s, d), j, now);
    NothingLive(j, now);
    LiveOfWithout(s, d, now);
    LiveMembers(s, now);
    WithoutNone(Live(s, now), d);
    assert Live(s, now) + [] == Live(s, now);
  }

  lemma ShadowsMembers<K, V>(s: seq<Entry<K, V>>, t: seq<Entry<K, V>>, d: set<(K, V)>, j: seq<Entry<K, V>>, now: int)
    requires Shadows(s, t, d, j, now)
    ensures forall e | e in s && PairOf(e) !in d :: e in t
    ensures forall e | e in t && e !in j :: e in s
  {
    WithoutMembers(s, d);
    assert forall e | e in t :: e in Without(s, d) || e in j;
    assert forall e | e in Without(s, d) :: e in t;
  }

  lemma WithoutLast<K, V>(s: seq<Entry<K, V>>, d: set<(K, V)>)
    requires s != []
    ensures Without(s, d) == Without(Before(s), d) + if PairOf(Last(s)) in d then [] else [Last(s)]
  {
    Rejoin(s);
    WithoutConcat(Before(s), [Last(s)], d);
  }

  /** Dropping an expired entry, or none, off `s`, and whatever is last off a `t` that is too long. */
  lemma TrimShadows<K, V>(cap: nat, s: seq<Entry<K, V>>, t: seq<Entry<K, V>>, d: set<(K, V)>, j: seq<Entry<K, V>>,
                          now: int)
    returns (d': set<(K, V)>, j': seq<Entry<K, V>>)
    requires Shadows(s, t, d, j, now) && |s| <= cap + 1 && |t| <= cap + 1
    requires |s| == cap + 1 ==> Last(s).expiration < now
    ensures Shadows(Trimmed(cap, s), Trimmed(cap, t), d', j', now)
  {
    d', j' := d, j;
    WithoutMembers(s, d);
    if |s| <= cap {
      if |t| == cap + 1 {
        j' := Before(j);
      }
    } else {
      var l, s' := Last(s), Before(s);
      var back := if PairOf(l) in d then [] else [l];
      WithoutLast(s, d);
      assert forall e | e in s' :: e in s;
      Reassociate(Without(s', d), back, j);
      if |t| <= cap {
        j' := back + j;
      } else if j != [] {
        j' := back + Before(j);
        BeforeOfConcat(back, j);
        BeforeOfConcat(Without(s', d), back + j);
      } else {
        FullFilterKeepsAll(s, d);
        WithoutNone(s', {});
        d', j' := {}, [];
      }
    }
  }

  lemma InsertShadows<K, V>(cap: nat, s: seq<Entry<K, V>>, t: seq<Entry<K, V>>, d: set<(K, V)>, j: seq<Entry<K, V>>,
                            e: Entry<K, V>, now: int)
    returns (d': set<(K, V)>, j': seq<Entry<K, V>>)
    requires |s| <= cap && |t| <= cap && Shadows(s, t, d, j, now) && !EvictsLive(cap, s, e, now)
    ensures Shadows(AfterInsert(cap, s, e), AfterInsert(cap, t, e), d', j', now)
  {
    if cap == 0 {
      return {}, [];
    }
    var q := {PairOf(e)};
    WithoutMembers(s, q);
    WithoutMembers(t, q);
    FrontShadows(s, t, d, j, e, now);
    d', j' := TrimShadows(cap, [e] + Without(s, q), [e] + Without(t, q), d - q, Without(j, q), now);
  }

  /** Putting an entry in front of both, before anything is evicted. */
  lemma FrontShadows<K, V>(s: seq<Entry<K, V>>, t: seq<Entry<K, V>>, d: set<(K, V)>, j: seq<Entry<K, V>>,
                           e: Entry<K, V>, now: int)
    requires Shadows(s, t, d, j, now)
    ensures var q := {PairOf(e)}; Shadows([e] + Without(s, q), [e] + Without(t, q), d - q, Without(j, q), now)
  {
    var q := {PairOf(e)};
    var rest := Without(s, q);
    WithoutMembers(s, q);
    WithoutMembers(j, q);
    WithoutConcat(Without(s, d), j, q);
    WithoutWithout(s, d, q);
    WithoutWithout(s, q, d - q);
    assert d + q == q + (d - q);
    assert [e] + Without(t, q) == Without([e] + rest, d - q) + Without(j, q);
    forall x | x in [e] + rest && PairOf(x) in d - q ensures x.expiration < now {
      assert x in rest;
    }
  }

  lemma LookupShadows<K, V>(s: seq<Entry<K, V>>, t: seq<Entry<K, V>>, d: set<(K, V)>, j: seq<Entry<K, V>>, now: int,
                            scope: set<K>,
                            other: set<K>, wanted: iset<K>, hits: seq<Entry<K, V>>, from: int, to: int)
    returns (j': seq<Entry<K, V>>)
    requires Shadows(s, t, d, j, now) && now <= from
    requires Scopes(s, scope, wanted) && Scopes(t, other, wanted) && LegalLookup(s, scope, hits, from, to)
    ensures Shadows(AfterLookup(s, scope, hits), AfterLookup(t, other, hits), d, j', to)
  {
    var p, q, r := InScope(s, scope), InScope(t, other), Reversed(hits);
    j' := Without(j, q);
    WithoutMembers(j, q);
    ShadowsMembers(s, t, d, j, now);
    SameScope(s, t, d, scope, other, wanted);
    RestShadows(s, t, d, j, p, q);
    HitsStay(s, d, hits, p, from);
    WithoutMembers(s, p);
    ReversedMembers(hits);
    Reassociate(r, Without(Without(s, p), d), j');
    forall e | e in r + Without(s, p) && PairOf(e) in d ensures e.expiration < to {
      assert e in r || e in Without(s, p);
      assert e in s;
    }
  }

  lemma RestShadows<K, V>(s: seq<Entry<K, V>>, t: seq<Entry<K, V>>, d: set<(K, V)>, j: seq<Entry<K, V>>,
                          p: set<(K, V)>, q: set<(K, V)>)
    requires t == Without(s, d) + j
    requires forall e | e in s :: PairOf(e) in d + q <==> PairOf(e) in p + d
    ensures Without(t, q) == Without(Without(s, p), d) + Without(j, q)
  {
    WithoutConcat(Without(s, d), j, q);
    WithoutWithout(s, d, q);
    WithoutWithout(s, p, d);
    WithoutAgree(s, d + q, p + d);
  }

  /** Hits are live, so none of them is an expired pair. */
  lemma HitsStay<K, V>(s: seq<Entry<K, V>>, d: set<(K, V)>, hits: seq<Entry<K, V>>, p: set<(K, V)>, from: int)
    requires forall e | e in s && PairOf(e) in d :: e.expiration < from
    requires forall e | e in hits :: e in s && from <= e.expiration
    ensures Without(Reversed(hits) + Without(s, p), d) == Reversed(hits) + Without(Without(s, p), d)
  {
    ReversedMembers(hits);
    WithoutConcat(Reversed(hits), Without(s, p), d);
    WithoutNone(Reversed(hits), d);
  }

  lemma SameScope<K, V>(s: seq<Entry<K, V>>, t: seq<Entry<K, V>>, d: set<(K, V)>, scope: set<K>, other: set<K>,
                        wanted: iset<K>)
    requires forall e | e in s && PairOf(e) !in d :: e in t
    requires Scopes(s, scope, wanted) && Scopes(t, other, wanted)
    ensures forall e | e in s :: PairOf(e) in d + InScope(t, other) <==> PairOf(e) in InScope(s, scope) + d
  {
    forall e | e in s && PairOf(e) !in d ensures PairOf(e) in InScope(t, other) <==> PairOf(e) in InScope(s, scope) {
      assert e in t;
    }
  }

  /** A cleanup of `s` is matched by one of `t` that misses nothing. */
  lemma CleanupShadows<K, V>(s: seq<Entry<K, V>>, t: seq<Entry<K, V>>, d: set<(K, V)>, j: seq<Entry<K, V>>, now: int,
                             dropped: set<(K, V)>, from: int, to: int)
    requires Distinct(s) && Distinct(t) && Shadows(s, t, d, j, now) && now <= from && LegalCleanup(s, dropped, from, to)
    ensures LegalCleanup(t, Expired(t, to), from, to)
    ensures var s' := Without(s, dropped); Shadows(s', Without(t, Expired(t, to)), Expired(s', to), [], to)
  {
    var s' := Without(s, dropped);
    ShadowsView(s, t, d, j, now);
    LaterView(s, t, now, to);
    CleanupIsInvisible(s, dropped, from, to, to);
    WithoutDistinct(s, dropped);
    ExpiredIsLegal(t, from, to);
    ExpiredIsLegal(s', from, to);
    assert Live(s', to) + [] == Live(s', to);
  }

  /** A cleanup of `t` is matched by one of `s` that misses the same. */
  lemma CleanupIsShadowed<K, V>(s: seq<Entry<K, V>>, t: seq<Entry<K, V>>, d: set<(K, V)>, j: seq<Entry<K, V>>, now: int,
                                dropped: set<(K, V)>, from: int, to: int)
    returns (mine: set<(K, V)>)
    requires Distinct(s) && Shadows(s, t, d, j, now) && now <= from && LegalCleanup(t, dropped, from, to)
    ensures LegalCleanup(s, mine, from, to)
    ensures Shadows(Without(s, mine), Without(t, dropped), d + dropped, Without(j, dropped), to)
  {
    mine := set e | e in s && (PairOf(e) in dropped || e.expiration < from) :: PairOf(e);
    ShadowsMembers(s, t, d, j, now);
    ShadowedCleanup(s, t, d, now, dropped, from, to, mine);
    WithoutMembers(s, mine);
    WithoutMembers(j, dropped);
    WithoutConcat(Without(s, d), j, dropped);
    WithoutWithout(s, d, dropped);
    WithoutWithout(s, mine, d + dropped);
    WithoutAgree(s, d + dropped, mine + (d + dropped));
  }

  lemma ShadowedCleanup<K, V>(s: seq<Entry<K, V>>, t: seq<Entry<K, V>>, d: set<(K, V)>, now: int,
                              dropped: set<(K, V)>, from: int, to: int, mine: set<(K, V)>)
    requires Distinct(s) && now <= from && LegalCleanup(t, dropped, from, to)
    requires forall e | e in s && PairOf(e) !in d :: e in t
    requires forall e | e in s && PairOf(e) in d :: e.expiration < now
    requires mine == set e | e in s && (PairOf(e) in dropped || e.expiration < from) :: PairOf(e)
    ensures LegalCleanup(s, mine, from, to)
    ensures forall e | e in s :: PairOf(e) in mine <==> PairOf(e) in dropped || e.expiration < from
    ensures forall e | e in s && PairOf(e) in mine :: PairOf(e) in d + dropped
  {
    forall e | e in s && PairOf(e) in mine ensures PairOf(e) in dropped || e.expiration < from {
      var x :| x in s && (PairOf(x) in dropped || x.expiration < from) && PairOf(x) == PairOf(e);
      assert x == e;
    }
    forall e | e in s && PairOf(e) in mine ensures e.expiration < to && PairOf(e) in d + dropped {
      if PairOf(e) !in d {
        assert e in t;
      }
    }
  }

  /** One call, carried out on `s`: it can be carried out on its shadow with the same answer. */
  lemma StepShadows<K, V>(cap: nat, s: seq<Entry<K, V>>, t: seq<Entry<K, V>>, d: set<(K, V)>, j: seq<Entry<K, V>>,
                          now: int,
                          c: Call<K, V>, op: Op<K, V>)
    returns (other: Op<K, V>, d': set<(K, V)>, j': seq<Entry<K, V>>)
    requires Distinct(s) && Distinct(t) && |s| <= cap && |t| <= cap && Shadows(s, t, d, j, now)
    requires Carries(s, c, op) && now <= StartOf(c) <= EndOf(c)
    requires op.Insert? ==> !EvictsLive(cap, s, op.entry, op.at)
    ensures Carries(t, c, other) && AnswerOf(other) == AnswerOf(op)
    ensures Shadows(Apply(cap, s, op), Apply(cap, t, other), d', j', EndOf(c))
  {
    match c
    case Inserting(e, at) =>
      other := op;
      d', j' := InsertShadows(cap, s, t, d, j, e, at);
    case Asking(wanted, from, to) =>
      other := Lookup(KeysWanted(t, wanted), op.hits, from, to);
      ShadowsView(s, t, d, j, now);
      LaterView(s, t, now, from);
      LookupKeepsView(s, t, op.scope, other.scope, wanted, op.hits, from, to);
      d' := d;
      j' := LookupShadows(s, t, d, j, now, op.scope, other.scope, wanted, op.hits, from, to);
    case Cleaning(from, to) =>
      other := Cleanup(Expired(t, to), from, to);
      CleanupShadows(s, t, d, j, now, op.dropped, from, to);
      d', j' := Expired(Without(s, op.dropped), to), [];
  }

  /** And the other way round. */
  lemma StepIsShadowed<K, V>(cap: nat, s: seq<Entry<K, V>>, t: seq<Entry<K, V>>, d: set<(K, V)>, j: seq<Entry<K, V>>,
                             now: int,
                             c: Call<K, V>, other: Op<K, V>)
    returns (op: Op<K, V>, d': set<(K, V)>, j': seq<Entry<K, V>>)
    requires Distinct(s) && Distinct(t) && |s| <= cap && |t| <= cap && Shadows(s, t, d, j, now)
    requires Carries(t, c, other) && now <= StartOf(c) <= EndOf(c)
    requires other.Insert? ==> !EvictsLive(cap, s, other.entry, other.at)
    ensures Carries(s, c, op) && AnswerOf(other) == AnswerOf(op)
    ensures Shadows(Apply(cap, s, op), Apply(cap, t, other), d', j', EndOf(c))
  {
    match c
    case Inserting(e, at) =>
      op := other;
      d', j' := InsertShadows(cap, s, t, d, j, e, at);
    case Asking(wanted, from, to) =>
      op := Lookup(KeysWanted(s, wanted), other.hits, from, to);
      ShadowsView(s, t, d, j, now);
      LaterView(s, t, now, from);
      LookupKeepsView(t, s, other.scope, op.scope, wanted, other.hits, from, to);
      d' := d;
      j' := LookupShadows(s, t, d, j, now, op.scope, other.scope, wanted, other.hits, from, to);
    case Cleaning(from, to) =>
      var mine := CleanupIsShadowed(s, t, d, j, now, other.dropped, from, to);
      op := Cleanup(mine, from, to);
      d', j' := d + other.dropped, Without(j, other.dropped);
  }

  lemma {:induction false} RunShadows<K, V>(cap: nat, s: seq<Entry<K, V>>, t: seq<Entry<K, V>>, d: set<(K, V)>,
                                            j: seq<Entry<K, V>>,
                                            now: int, calls: seq<Call<K, V>>, ops: seq<Op<K, V>>)
    returns (others: seq<Op<K, V>>, d': set<(K, V)>, j': seq<Entry<K, V>>)
    requires Distinct(s) && Distinct(t) && |s| <= cap && |t| <= cap && Shadows(s, t, d, j, now) && InOrder(calls, now)
    requires Follows(cap, s, calls, ops) && NoLiveEvicted(cap, s, ops)
    ensures Follows(cap, t, calls, others) && AnswersOf(others) == AnswersOf(ops)
    ensures Shadows(StateFrom(cap, s, ops), StateFrom(cap, t, others), d', j', TimeAfter(calls, now))
  {
    if calls == [] {
      return [], d, j;
    }
    var before := Before(ops);
    others, d', j' := RunShadows(cap, s, t, d, j, now, Before(calls), before);
    FollowingKeepsShape(cap, s, Before(calls), before);
    FollowingKeepsShape(cap, t, Before(calls), others);
    var other;
    other, d', j' := StepShadows(cap, StateFrom(cap, s, before), StateFrom(cap, t, others), d', j',
                                 TimeAfter(Before(calls), now),
                                 Last(calls), Last(ops));
    OneMoreCall(cap, t, calls, others, other);
    others := others + [other];
  }

  lemma NeverEvictsLiveBefore<K(!new), V(!new)>(cap: nat, s: seq<Entry<K, V>>, calls: seq<Call<K, V>>)
    requires calls != [] && NeverEvictsLive(cap, s, calls)
    ensures NeverEvictsLive(cap, s, Before(calls))
  {
    forall n: nat, ops | n <= |Before(calls)| && Follows(cap, s, Before(calls)[..n], ops)
        ensures NoLiveEvicted(cap, s, ops) {
      assert Before(calls)[..n] == calls[..n];
    }
  }

  lemma {:induction false} RunIsShadowed<K(!new), V(!new)>(cap: nat, s: seq<Entry<K, V>>, t: seq<Entry<K, V>>,
                                                           d: set<(K, V)>,
                                                           j: seq<Entry<K, V>>, now: int, calls: seq<Call<K, V>>,
                                                           others: seq<Op<K, V>>)
    returns (ops: seq<Op<K, V>>, d': set<(K, V)>, j': seq<Entry<K, V>>)
    requires Distinct(s) && Distinct(t) && |s| <= cap && |t| <= cap && Shadows(s, t, d, j, now) && InOrder(calls, now)
    requires Follows(cap, t, calls, others) && NeverEvictsLive(cap, s, calls)
    ensures Follows(cap, s, calls, ops) && AnswersOf(others) == AnswersOf(ops)
    ensures Shadows(StateFrom(cap, s, ops), StateFrom(cap, t, others), d', j', TimeAfter(calls, now))
  {
    if calls == [] {
      return [], d, j;
    }
    var before := Before(others);
    NeverEvictsLiveBefore(cap, s, calls);
    ops, d', j' := RunIsShadowed(cap, s, t, d, j, now, Before(calls), before);
    FollowingKeepsShape(cap, s, Before(calls), ops);
    FollowingKeepsShape(cap, t, Before(calls), before);
    if Last(others).Insert? {
      OneMoreCall(cap, s, calls, ops, Last(others));
      assert calls[..|calls|] == calls;
      assert NoLiveEvicted(cap, s, ops + [Last(others)]);
      assert Before(ops + [Last(others)]) == ops;
    }
    var op;
    op, d', j' := StepIsShadowed(cap, StateFrom(cap, s, ops), StateFrom(cap, t, before), d', j',
                                 TimeAfter(Before(calls), now),
                                 Last(calls), Last(others));
    OneMoreCall(cap, s, calls, ops, op);
    ops := ops + [op];
  }

  // ----- Main results -----

  /** Given calls that follow a cleanup are answered alike with and without it, even if it dropped an
      entry in front of a live one, unless they can evict a live entry from the cache not cleaned. */
  lemma CleanupChangesNoAnswer<K(!new), V(!new)>(cap: nat, s: seq<Entry<K, V>>, dropped: set<(K, V)>, from: int,
                                                 to: int,
                                                 calls: seq<Call<K, V>>, answers: seq<seq<Entry<K, V>>>)
    requires Distinct(s) && |s| <= cap && LegalCleanup(s, dropped, from, to) && InOrder(calls, to)
    requires NothingLiveBehind(s, dropped, to) || NeverEvictsLive(cap, s, calls)
    ensures Possible(cap, s, calls, answers) <==> Possible(cap, Without(s, dropped), calls, answers)
  {
    if NothingLiveBehind(s, dropped, to) {
      KeepsAnswersUnlessStranding(cap, s, dropped, from, to);
      return;
    }
    var t := Without(s, dropped);
    WithoutDistinct(s, dropped);
    WithoutMembers(s, dropped);
    assert Shadows(s, t, dropped, [], to);
    if Possible(cap, s, calls, answers) {
      var ops :| Follows(cap, s, calls, ops) && AnswersOf(ops) == answers;
      assert calls[..|calls|] == calls;
      var others, d, j := RunShadows(cap, s, t, dropped, [], to, calls, ops);
    }
    if Possible(cap, t, calls, answers) {
      var others :| Follows(cap, t, calls, others) && AnswersOf(others) == answers;
      var ops, d, j := RunIsShadowed(cap, s, t, dropped, [], to, calls, others);
    }
  }

  /** And any one way of answering them without the cleanup, in which no live entry is evicted, is
      possible with it, and ends with the same view. */
  lemma CleanupKeepsRun<K, V>(cap: nat, s: seq<Entry<K, V>>, dropped: set<(K, V)>, from: int, to: int,
                              calls: seq<Call<K, V>>, ops: seq<Op<K, V>>)
    returns (others: seq<Op<K, V>>)
    requires Distinct(s) && |s| <= cap && LegalCleanup(s, dropped, from, to) && InOrder(calls, to)
    requires Follows(cap, s, calls, ops) && (NothingLiveBehind(s, dropped, to) || NoLiveEvicted(cap, s, ops))
    ensures Follows(cap, Without(s, dropped), calls, others) && AnswersOf(others) == AnswersOf(ops)
    ensures var t, now := Without(s, dropped), TimeAfter(calls, to);
            Live(StateFrom(cap, s, ops), now) == Live(StateFrom(cap, t, others), now)
  {
    WithoutDistinct(s, dropped);
    WithoutMembers(s, dropped);
    var t, now := Without(s, dropped), TimeAfter(calls, to);
    if NothingLiveBehind(s, dropped, to) {
      var p, j := CleanupChangesBack(s, dropped, to);
      var k;
      others, p, j, k := RunMatches(cap, s, t, p, j, Without(j, dropped), to, calls, ops);
      SameButBackView(StateFrom(cap, s, ops), StateFrom(cap, t, others), p, j, k, now);
    } else {
      assert Shadows(s, t, dropped, [], to);
      var d, j;
      others, d, j := RunShadows(cap, s, t, dropped, [], to, calls, ops);
      ShadowsView(StateFrom(cap, s, ops), StateFrom(cap, t, others), d, j, now);
    }
  }
}
