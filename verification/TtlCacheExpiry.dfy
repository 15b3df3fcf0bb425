/**
 Two comparisons of whole cache states.

 First, what expiry does to the LRU order: while nothing expires, the cache is exactly the
 `cap` most recently touched pairs. Second, what the periodic cleanup does to later answers:
 nothing to any lookup, and to an insertion only that it may spare the victim.
 */
module TtlCacheExpiry {
  import opened Basics
  import opened TtlCacheSpec
  import opened TtlCacheRuns

  // ----- Runs in which nothing expires -----

  ghost predicate DropsNothing<K, V>(s: seq<Entry<K, V>>, op: Op<K, V>) {
    match op
    case Insert(_, _) => true
    case Lookup(scope, hits, _, _) => forall e | e in s && e.key in scope :: e in hits
    case Cleanup(dropped, _, _) => dropped == {}
  }

  ghost predicate NothingExpires<K, V>(cap: nat, ops: seq<Op<K, V>>) {
    ops == [] || (NothingExpires(cap, Before(ops)) && DropsNothing(State(cap, Before(ops)), Last(ops)))
  }

  /** The entry at position `i` is the one with exactly the entries in front of it touched since. */
  ghost predicate ExactlyOrdered<K, V>(s: seq<Entry<K, V>>, h: seq<(K, V)>) {
    forall i | 0 <= i < |s| :: PairOf(s[i]) in h && Since(h, PairOf(s[i])) == Pairs(s[..i])
  }

  ghost predicate OnlyOldAreMissing<K, V>(cap: nat, s: seq<Entry<K, V>>, h: seq<(K, V)>) {
    forall p | p in h :: p in Pairs(s) || cap <= |Since(h, p)|
  }

  lemma {:induction false} WithoutPrefix<K, V>(s: seq<Entry<K, V>>, ps: set<(K, V)>, j: nat) returns (i: nat)
    requires j < |Without(s, ps)|
    ensures i < |s| && s[i] == Without(s, ps)[j]
    ensures Pairs(s[..i]) - ps == Pairs(Without(s, ps)[..j])
  {
    if PairOf(s[0]) in ps {
      i := WithoutPrefix(s[1..], ps, j);
      i := i + 1;
      assert s[..i] == [s[0]] + s[1..][..i - 1];
      assert Pairs(s[..i]) == {PairOf(s[0])} + Pairs(s[1..][..i - 1]);
    } else if j == 0 {
      i := 0;
    } else {
      i := WithoutPrefix(s[1..], ps, j - 1);
      i := i + 1;
      var w := Without(s[1..], ps);
      assert s[..i] == [s[0]] + s[1..][..i - 1];
      assert Without(s, ps)[..j] == [s[0]] + w[..j - 1];
      assert Pairs([s[0]] + s[1..][..i - 1]) == {PairOf(s[0])} + Pairs(s[1..][..i - 1]);
      assert Pairs([s[0]] + w[..j - 1]) == {PairOf(s[0])} + Pairs(w[..j - 1]);
    }
  }

  lemma {:induction false} SinceInDistinctIsTail<P>(t: seq<P>, i: nat)
    requires forall a, b | 0 <= a < b < |t| :: t[a] != t[b]
    requires i < |t|
    ensures Since(t, t[i]) == Members(t[i + 1..])
  {
    if i < |t| - 1 {
      SinceInDistinctIsTail(Before(t), i);
      assert t[i + 1..] == Before(t)[i + 1..] + [Last(t)];
    }
  }

  lemma FrontedAt<K, V>(front: seq<Entry<K, V>>, j: nat)
    requires Distinct(front) && j < |Reversed(front)|
    ensures var p := PairOf(Reversed(front)[j]);
            |Reversed(front)| == |front| && p in PairsInOrder(front) &&
            Since(PairsInOrder(front), p) == Pairs(Reversed(front)[..j])
  {
    var touched := PairsInOrder(front);
    var r := Reversed(front);
    PairsInOrderAt(front);
    ReversedMembers(front);
    ReversedAt(front, j);
    SinceInDistinctIsTail(touched, |front| - 1 - j);
    TailIsHeadReversed(front, j);
  }

  /** The last `j` pairs touched are those of the first `j` entries of the reversed list. */
  lemma TailIsHeadReversed<K, V>(front: seq<Entry<K, V>>, j: nat)
    requires j <= |front| == |PairsInOrder(front)| == |Reversed(front)|
    ensures Members(PairsInOrder(front)[|front| - j..]) == Pairs(Reversed(front)[..j])
  {
    var tail, r := PairsInOrder(front)[|front| - j..], Reversed(front);
    PairsInOrderAt(front);
    forall p | p in tail ensures p in Pairs(r[..j]) {
      var m :| 0 <= m < |tail| && tail[m] == p;
      ReversedAt(front, j - 1 - m);
      assert r[j - 1 - m] in r[..j];
    }
    forall p | p in Pairs(r[..j]) ensures p in tail {
      var m :| 0 <= m < j && PairOf(r[m]) == p;
      ReversedAt(front, m);
      assert tail[j - 1 - m] == p;
    }
  }

  /** An entry that is not moved: the ones moved past it join the ones still in front of it. */
  lemma PassedAt<K, V>(front: seq<Entry<K, V>>, s: seq<Entry<K, V>>, h: seq<(K, V)>, j: nat)
    requires ExactlyOrdered(s, h) && j < |Without(s, Pairs(front))|
    ensures var p := PairOf(Without(s, Pairs(front))[j]);
            && p in h
            && Since(h + PairsInOrder(front), p) == Pairs(front) + Pairs(Without(s, Pairs(front))[..j])
  {
    var rest := Without(s, Pairs(front));
    var p := PairOf(rest[j]);
    WithoutMembers(s, Pairs(front));
    assert rest[j] in rest;
    PairsInOrderAt(front);
    SinceConcat(h, PairsInOrder(front), p);
    var i := WithoutPrefix(s, Pairs(front), j);
    assert Members(PairsInOrder(front)) == Pairs(front);
  }

  lemma FrontedStaysExact<K, V>(front: seq<Entry<K, V>>, s: seq<Entry<K, V>>, h: seq<(K, V)>)
    requires Distinct(front) && ExactlyOrdered(s, h)
    ensures ExactlyOrdered(Reversed(front) + Without(s, Pairs(front)), h + PairsInOrder(front))
  {
    var touched := PairsInOrder(front);
    var r, rest := Reversed(front), Without(s, Pairs(front));
    var t := r + rest;
    forall j | 0 <= j < |t|
      ensures PairOf(t[j]) in h + touched && Since(h + touched, PairOf(t[j])) == Pairs(t[..j])
    {
      if j < |r| {
        FrontedAt(front, j);
        SinceConcat(h, touched, PairOf(t[j]));
        assert t[..j] == r[..j];
      } else {
        PassedAt(front, s, h, j - |r|);
        assert t[..j] == r + rest[..j - |r|];
        assert Pairs(t[..j]) == Pairs(r) + Pairs(rest[..j - |r|]);
        ReversedMembers(front);
      }
    }
  }

  lemma PrefixStaysExact<K, V>(s: seq<Entry<K, V>>, h: seq<(K, V)>, n: nat)
    requires ExactlyOrdered(s, h) && n <= |s|
    ensures ExactlyOrdered(s[..n], h)
  {
    assert forall j | 0 <= j < n :: s[..n][..j] == s[..j];
  }

  lemma StepStaysExact<K, V>(cap: nat, s: seq<Entry<K, V>>, op: Op<K, V>, h: seq<(K, V)>)
    requires Distinct(s) && Legal(s, op) && DropsNothing(s, op) && ExactlyOrdered(s, h)
    ensures ExactlyOrdered(Apply(cap, s, op), h + Touched(op))
  {
    match op
    case Insert(e, _) =>
      FrontedStaysExact([e], s, h);
      assert Pairs([e]) == {PairOf(e)};
      assert Reversed([e]) == [e] && PairsInOrder([e]) == [PairOf(e)];
      var t := [e] + Without(s, {PairOf(e)});
      PrefixStaysExact(t, h + [PairOf(e)], |t| - 1);
    case Lookup(scope, hits, _, _) =>
      FrontedStaysExact(hits, s, h);
      assert Pairs(hits) == InScope(s, scope);
    case Cleanup(dropped, _, _) =>
      WithoutNone(s, dropped);
      assert h + Touched(op) == h;
  }

  lemma StepMissesOnlyOld<K, V>(cap: nat, s: seq<Entry<K, V>>, op: Op<K, V>, h: seq<(K, V)>)
    requires Distinct(s) && |s| <= cap && Legal(s, op) && DropsNothing(s, op)
    requires RecencyOrdered(s, h) && OnlyOldAreMissing(cap, s, h)
    ensures OnlyOldAreMissing(cap, Apply(cap, s, op), h + Touched(op))
  {
    var s' := Apply(cap, s, op);
    forall p | p in h + Touched(op) && p !in Pairs(s') ensures cap <= |Since(h + Touched(op), p)| {
      match op
      case Insert(e, _) =>
        InsertedLeads(cap, s, e);
        if 1 <= cap {
          assert s'[0] in s' && p != PairOf(e);
          SinceGrows(h, [PairOf(e)], p);
          if p in Pairs(s) {
            OnlyTheBackIsEvicted(cap, s, e, p);
            VictimIsLeastRecent(cap, s, e, h);
          }
        }
      case Lookup(scope, hits, _, _) =>
        var rest := Without(s, InScope(s, scope));
        WithoutMembers(s, InScope(s, scope));
        ReversedMembers(hits);
        PairsInOrderAt(hits);
        assert forall e | e in s :: e in hits || e in rest;
        assert forall e | e in Reversed(hits) || e in rest :: e in s';
        assert p !in Pairs(hits) && p !in Pairs(s);
        SinceGrows(h, Touched(op), p);
      case Cleanup(dropped, _, _) =>
        WithoutNone(s, dropped);
        assert h + Touched(op) == h;
    }
  }

  lemma {:induction false} RunStaysExact<K, V>(cap: nat, ops: seq<Op<K, V>>)
    requires LegalRun(cap, ops) && NothingExpires(cap, ops)
    ensures ExactlyOrdered(State(cap, ops), Touches(ops))
    ensures OnlyOldAreMissing(cap, State(cap, ops), Touches(ops))
  {
    if ops != [] {
      RunStaysExact(cap, Before(ops));
      RunKeepsShape(cap, Before(ops));
      RunKeepsRecencyOrder(cap, Before(ops));
      StepStaysExact(cap, State(cap, Before(ops)), Last(ops), Touches(Before(ops)));
      StepMissesOnlyOld(cap, State(cap, Before(ops)), Last(ops), Touches(Before(ops)));
    }
  }

  /** While nothing expires, a pair is cached exactly when it was touched and fewer than `cap`
      distinct other pairs were touched since. */
  lemma CacheIsExactlyTheMostRecent<K, V>(cap: nat, ops: seq<Op<K, V>>, p: (K, V))
    requires LegalRun(cap, ops) && NothingExpires(cap, ops)
    ensures p in Pairs(State(cap, ops)) <==> p in Touches(ops) && |Since(Touches(ops), p)| < cap
  {
    var s := State(cap, ops);
    RunStaysExact(cap, ops);
    RunKeepsShape(cap, ops);
    if p in Pairs(s) {
      var i :| 0 <= i < |s| && PairOf(s[i]) == p;
      assert Distinct(s[..i]);
      DistinctCount(s[..i]);
    }
  }

  // ----- Cleanup -----

  /** What any lookup at or after `now` can see, in recency order. */
  ghost function Live<K, V>(s: seq<Entry<K, V>>, now: int): seq<Entry<K, V>> {
    if s == [] then []
    else if s[0].expiration < now then Live(s[1..], now)
    else [s[0]] + Live(s[1..], now)
  }

  lemma {:induction false} LiveMembers<K, V>(s: seq<Entry<K, V>>, now: int)
    ensures forall e | e in Live(s, now) :: e in s && now <= e.expiration
    ensures forall e | e in s && now <= e.expiration :: e in Live(s, now)
  {
    if s != [] {
      LiveMembers(s[1..], now);
      assert s == [s[0]] + s[1..];
    }
  }

  lemma {:induction false} LiveConcat<K, V>(s: seq<Entry<K, V>>, t: seq<Entry<K, V>>, now: int)
    ensures Live(s + t, now) == Live(s, now) + Live(t, now)
  {
    if s == [] {
      assert s + t == t;
    } else {
      assert (s + t)[1..] == s[1..] + t;
      LiveConcat(s[1..], t, now);
    }
  }

  lemma {:induction false} LiveOfWithout<K, V>(s: seq<Entry<K, V>>, ps: set<(K, V)>, now: int)
    ensures Live(Without(s, ps), now) == Without(Live(s, now), ps)
  {
    if s != [] {
      LiveOfWithout(s[1..], ps, now);
    }
  }

  lemma {:induction false} LiveLater<K, V>(s: seq<Entry<K, V>>, now: int, later: int)
    requires now <= later
    ensures Live(Live(s, now), later) == Live(s, later)
  {
    if s != [] {
      LiveLater(s[1..], now, later);
    }
  }

  /** A cleanup leaves every later view as it was, order included. */
  lemma CleanupIsInvisible<K, V>(s: seq<Entry<K, V>>, dropped: set<(K, V)>, from: int, to: int, now: int)
    requires Distinct(s) && LegalCleanup(s, dropped, from, to) && to <= now
    ensures Live(Without(s, dropped), now) == Live(s, now)
  {
    LiveOfWithout(s, dropped, now);
    LiveMembers(s, now);
    WithoutNone(Live(s, now), dropped);
  }

  lemma SameViewSameHits<K, V>(s: seq<Entry<K, V>>, t: seq<Entry<K, V>>, scope: set<K>, hits: seq<Entry<K, V>>,
                               from: int, to: int)
    requires Live(s, from) == Live(t, from)
    requires LegalLookup(s, scope, hits, from, to)
    ensures LegalLookup(t, scope, hits, from, to)
  {
    LiveMembers(s, from);
    LiveMembers(t, from);
    forall e | e in hits ensures e in t {
      assert e in Live(s, from);
    }
    forall e | e in t && e.key in scope && to <= e.expiration ensures e in hits {
      assert e in Live(t, from);
      assert e in s;
    }
  }

  /** States with the same view give the same lookups the same answers, and keep the same view. */
  lemma SameViewSameAnswer<K, V>(s: seq<Entry<K, V>>, t: seq<Entry<K, V>>, scope: set<K>, hits: seq<Entry<K, V>>,
                                 from: int, to: int)
    requires Live(s, from) == Live(t, from)
    ensures LegalLookup(s, scope, hits, from, to) <==> LegalLookup(t, scope, hits, from, to)
    ensures LegalLookup(s, scope, hits, from, to) ==>
              Live(AfterLookup(s, scope, hits), to) == Live(AfterLookup(t, scope, hits), to)
  {
    if LegalLookup(t, scope, hits, from, to) {
      SameViewSameHits(t, s, scope, hits, from, to);
    }
    if LegalLookup(s, scope, hits, from, to) {
      SameViewSameHits(s, t, scope, hits, from, to);
      LiveAfterLookup(s, scope, hits, from, to);
      LiveAfterLookup(t, scope, hits, from, to);
      LiveMembers(s, from);
      LiveMembers(t, from);
      WithoutAgree(Live(s, from), InScope(s, scope), InScope(t, scope));
    }
  }

  lemma LiveAfterLookup<K, V>(s: seq<Entry<K, V>>, scope: set<K>, hits: seq<Entry<K, V>>, from: int, to: int)
    requires from <= to
    ensures Live(AfterLookup(s, scope, hits), to)
         == Live(Reversed(hits), to) + Live(Without(Live(s, from), InScope(s, scope)), to)
  {
    var ps := InScope(s, scope);
    LiveConcat(Reversed(hits), Without(s, ps), to);
    LiveLater(s, from, to);
    LiveOfWithout(s, ps, to);
    LiveOfWithout(Live(s, from), ps, to);
  }

  /** The insertion of `e` pushes an entry off the back that a lookup at `now` would still see. */
  ghost predicate EvictsLive<K, V>(cap: nat, s: seq<Entry<K, V>>, e: Entry<K, V>, now: int) {
    var rest := Without(s, {PairOf(e)});
    1 <= cap == |rest| && now <= Last(rest).expiration
  }

  lemma LiveAfterInsert<K, V>(cap: nat, s: seq<Entry<K, V>>, e: Entry<K, V>, now: int)
    requires 1 <= cap && |s| <= cap
    ensures var all, kept := Live([e] + Without(s, {PairOf(e)}), now), Live(AfterInsert(cap, s, e), now);
            if EvictsLive(cap, s, e, now) then |all| == |kept| + 1 else all == kept
  {
    var rest := Without(s, {PairOf(e)});
    WithoutMembers(s, {PairOf(e)});
    var t := [e] + rest;
    if |rest| == cap {
      LiveConcat(Before(t), [Last(t)], now);
      assert t == Before(t) + [Last(t)];
    }
  }

  /** With or without the cleanup, the same is live before anything is evicted. */
  lemma CleanupBeforeEviction<K, V>(s: seq<Entry<K, V>>, dropped: set<(K, V)>, from: int, to: int, e: Entry<K, V>,
                                    now: int)
    requires Distinct(s) && LegalCleanup(s, dropped, from, to) && to <= now
    ensures Live([e] + Without(Without(s, dropped), {PairOf(e)}), now) == Live([e] + Without(s, {PairOf(e)}), now)
  {
    var q := {PairOf(e)};
    LiveConcat([e], Without(s, q), now);
    LiveConcat([e], Without(Without(s, dropped), q), now);
    LiveOfWithout(s, q, now);
    LiveOfWithout(Without(s, dropped), q, now);
    CleanupIsInvisible(s, dropped, from, to, now);
  }

  /** What a cleanup changes of the next insertion: the views differ afterwards exactly when,
      without it, a live entry would have been evicted while the cleanup removed another one. */
  lemma CleanupOnlySparesTheVictim<K, V>(cap: nat, s: seq<Entry<K, V>>, dropped: set<(K, V)>, from: int, to: int,
                                         e: Entry<K, V>, now: int)
    requires 1 <= cap && |s| <= cap && Distinct(s)
    requires LegalCleanup(s, dropped, from, to) && to <= now
    ensures Live(AfterInsert(cap, Without(s, dropped), e), now) != Live(AfterInsert(cap, s, e), now)
       <==> EvictsLive(cap, s, e, now) && !(dropped <= {PairOf(e)})
  {
    WithoutMembers(s, dropped);
    LiveAfterInsert(cap, s, e, now);
    LiveAfterInsert(cap, Without(s, dropped), e, now);
    CleanupBeforeEviction(s, dropped, from, to, e, now);
    if dropped <= {PairOf(e)} {
      WithoutWithout(s, dropped, {PairOf(e)});
      assert dropped + {PairOf(e)} == {PairOf(e)};
    } else {
      DroppedShortens(s, dropped, {PairOf(e)});
      WithoutMembers(s, {PairOf(e)});
    }
  }

  lemma DroppedShortens<K, V>(s: seq<Entry<K, V>>, dropped: set<(K, V)>, q: set<(K, V)>)
    requires dropped <= Pairs(s) && !(dropped <= q)
    ensures |Without(Without(s, dropped), q)| < |Without(s, q)|
  {
    var rest := Without(s, q);
    WithoutWithout(s, dropped, q);
    WithoutWithout(s, q, dropped);
    assert dropped + q == q + dropped;
    var x :| x in s && PairOf(x) in dropped && PairOf(x) !in q;
    WithoutMembers(s, q);
    WithoutMembers(rest, dropped);
    assert x in rest && x !in Without(rest, dropped);
    if |Without(rest, dropped)| == |rest| {
      FullFilterKeepsAll(rest, dropped);
      assert false;
    }
  }

  /** The condition above does occur: with room for two, cleaning up the expired `a` keeps `b`
      when `c` arrives, and not cleaning up loses it. */
  lemma CleanupCanSpareAPair()
    ensures var s := [Entry("a", 1, 0), Entry("b", 2, 9)];
            var c := Entry("c", 3, 9);
            && LegalCleanup(s, {("a", 1)}, 5, 5)
            && ("b", 2) in Pairs(AfterInsert(2, Without(s, {("a", 1)}), c))
            && ("b", 2) !in Pairs(AfterInsert(2, s, c))
  {
    var a, b, c := Entry("a", 1, 0), Entry("b", 2, 9), Entry("c", 3, 9);
    var s := [a, b];
    assert s[0] == a && s[1..] == [b] && [b][1..] == [];
    assert PairOf(a) == ("a", 1) && PairOf(b) == ("b", 2);
    assert Without([b], {("a", 1)}) == [b];
    assert a in s && b in s;
    assert Without(s, {("a", 1)}) == [b];
    assert Without([b], {("c", 3)}) == [b];
    assert Without(s, {("c", 3)}) == [a, b];
    assert AfterInsert(2, [b], c) == [c, b];
    assert b in [c, b];
    assert AfterInsert(2, s, c) == [c, a];
  }
}
