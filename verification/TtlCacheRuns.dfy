/**
 What holds of the TTL + LRU cache over every run of its operations, starting empty.
 The run is compared with two histories that know nothing of the list: the pairs touched so
 far (inserted, or hit by a lookup), and the latest expiration given to each pair, which is
 the unbounded timed multimap the cache stands for.
 */
module TtlCacheRuns {
  import opened Basics
  import opened TtlCacheSpec

  ghost function State<K, V>(cap: nat, ops: seq<Op<K, V>>): seq<Entry<K, V>> {
    if ops == [] then [] else Apply(cap, State(cap, Before(ops)), Last(ops))
  }

  ghost function Start<K, V>(op: Op<K, V>): int {
    match op
    case Insert(_, at) => at
    case Lookup(_, _, from, _) => from
    case Cleanup(_, from, _) => from
  }

  ghost function End<K, V>(op: Op<K, V>): int {
    match op
    case Insert(_, at) => at
    case Lookup(_, _, _, to) => to
    case Cleanup(_, _, to) => to
  }

  /** Every step is a possible one and the clock never runs backwards. */
  ghost predicate LegalRun<K, V>(cap: nat, ops: seq<Op<K, V>>) {
    ops == [] ||
    (&& LegalRun(cap, Before(ops))
     && Legal(State(cap, Before(ops)), Last(ops))
     && (Before(ops) != [] ==> End(Last(Before(ops))) <= Start(Last(ops))))
  }

  ghost predicate EndsBy<K, V>(ops: seq<Op<K, V>>, now: int) {
    ops != [] ==> End(Last(ops)) <= now
  }

  ghost function PairsInOrder<K, V>(s: seq<Entry<K, V>>): seq<(K, V)> {
    if s == [] then [] else [PairOf(s[0])] + PairsInOrder(s[1..])
  }

  /** The pairs one operation touches, oldest first. */
  ghost function Touched<K, V>(op: Op<K, V>): seq<(K, V)> {
    match op
    case Insert(e, _) => [PairOf(e)]
    case Lookup(_, hits, _, _) => PairsInOrder(hits)
    case Cleanup(_, _, _) => []
  }

  ghost function Touches<K, V>(ops: seq<Op<K, V>>): seq<(K, V)> {
    if ops == [] then [] else Touches(Before(ops)) + Touched(Last(ops))
  }

  /** The distinct other pairs touched after the last touch of `p` (all of them when `p` was
      never touched). */
  ghost function Since<P>(history: seq<P>, p: P): set<P> {
    if history == [] || Last(history) == p then {}
    else Since(Before(history), p) + {Last(history)}
  }

  /** The unbounded timed multimap: the expiration most recently given to each pair. */
  ghost function Latest<K, V>(ops: seq<Op<K, V>>): map<(K, V), int> {
    if ops == [] then map[] else Updated(Latest(Before(ops)), Last(ops))
  }

  ghost function Updated<K, V>(latest: map<(K, V), int>, op: Op<K, V>): map<(K, V), int> {
    match op
    case Insert(e, _) => latest[PairOf(e) := e.expiration]
    case _ => latest
  }

  ghost predicate Listed<K, V>(s: seq<Entry<K, V>>, p: (K, V), expiration: int) {
    Entry(p.0, p.1, expiration) in s
  }

  // ----- Since -----

  lemma {:induction false} SinceConcat<P>(h: seq<P>, t: seq<P>, p: P)
    ensures p in t ==> Since(h + t, p) == Since(t, p)
    ensures p !in t ==> Since(h + t, p) == Since(h, p) + Members(t)
  {
    if t == [] {
      assert h + t == h;
    } else {
      assert Before(h + t) == h + Before(t);
      assert t == Before(t) + [Last(t)];
      SinceConcat(h, Before(t), p);
    }
  }

  lemma {:induction false} PairsInOrderAt<K, V>(s: seq<Entry<K, V>>)
    ensures |PairsInOrder(s)| == |s|
    ensures forall i | 0 <= i < |s| :: PairsInOrder(s)[i] == PairOf(s[i])
    ensures forall p :: p in PairsInOrder(s) <==> p in Pairs(s)
  {
    if s != [] {
      PairsInOrderAt(s[1..]);
      assert s == [s[0]] + s[1..];
      assert Pairs(s) == {PairOf(s[0])} + Pairs(s[1..]);
    }
  }

  /** Without repetition, what follows position `i` was touched after it. */
  lemma {:induction false} SinceInDistinct<P>(t: seq<P>, i: nat)
    requires forall a, b | 0 <= a < b < |t| :: t[a] != t[b]
    requires i < |t|
    ensures forall j | i < j < |t| :: t[j] in Since(t, t[i])
  {
    if i < |t| - 1 {
      SinceInDistinct(Before(t), i);
    }
  }

  // ----- The invariant of every run -----

  /** Front to back is most to least recently touched. */
  ghost predicate RecencyOrdered<K, V>(s: seq<Entry<K, V>>, h: seq<(K, V)>) {
    && (forall e | e in s :: PairOf(e) in h)
    && (forall i, j | 0 <= i < j < |s| :: PairOf(s[i]) in Since(h, PairOf(s[j])))
  }

  /** The list holds latest expirations only. */
  ghost predicate UpToDate<K, V>(s: seq<Entry<K, V>>, latest: map<(K, V), int>) {
    forall e | e in s :: PairOf(e) in latest && latest[PairOf(e)] == e.expiration
  }

  /** A known pair is listed, or has expired, or at least `cap` others were touched since. */
  ghost predicate NothingLost<K, V>(cap: nat, s: seq<Entry<K, V>>, h: seq<(K, V)>, latest: map<(K, V), int>, now: int) {
    forall p | p in latest ::
      Listed(s, p, latest[p]) || latest[p] < now || cap <= |Since(h, p)|
  }

  lemma {:induction false} RunKeepsShape<K, V>(cap: nat, ops: seq<Op<K, V>>)
    requires LegalRun(cap, ops)
    ensures Distinct(State(cap, ops)) && |State(cap, ops)| <= cap
  {
    if ops != [] {
      RunKeepsShape(cap, Before(ops));
      StepKeepsShape(cap, State(cap, Before(ops)), Last(ops));
    }
  }

  lemma {:induction false} RunKeepsRecencyOrder<K, V>(cap: nat, ops: seq<Op<K, V>>)
    requires LegalRun(cap, ops)
    ensures RecencyOrdered(State(cap, ops), Touches(ops))
  {
    if ops != [] {
      RunKeepsRecencyOrder(cap, Before(ops));
      RunKeepsShape(cap, Before(ops));
      StepKeepsRecencyOrder(cap, State(cap, Before(ops)), Last(ops), Touches(Before(ops)));
    }
  }

  /** An insertion touches its pair, a lookup what it answers, in that order, and a cleanup nothing. */
  lemma TouchedExactly<K, V>(ops: seq<Op<K, V>>, op: Op<K, V>)
    ensures var h, g := Touches(ops), Touches(ops + [op]);
            && (op.Insert? ==> g == h + [(op.entry.key, op.entry.value)])
            && (op.Lookup? ==>
                  && h <= g && |g| == |h| + |op.hits|
                  && forall i | 0 <= i < |op.hits| :: g[|h| + i] == (op.hits[i].key, op.hits[i].value))
            && (op.Cleanup? ==> g == h)
  {
    assert Before(ops + [op]) == ops;
    if op.Lookup? {
      PairsInOrderAt(op.hits);
    }
  }

  lemma FilteredStaysOrdered<K, V>(s: seq<Entry<K, V>>, ps: set<(K, V)>, h: seq<(K, V)>)
    requires RecencyOrdered(s, h)
    ensures RecencyOrdered(Without(s, ps), h)
  {
    WithoutMembers(s, ps);
    var t := Without(s, ps);
    forall i, j | 0 <= i < j < |t| ensures PairOf(t[i]) in Since(h, PairOf(t[j])) {
      var i', j' := WithoutIndices(s, ps, i, j);
    }
  }

  /** Moving entries to the front, oldest touch first, in front of untouched ones. */
  lemma FrontedStaysOrdered<K, V>(front: seq<Entry<K, V>>, rest: seq<Entry<K, V>>, h: seq<(K, V)>)
    requires Distinct(front) && RecencyOrdered(rest, h)
    requires forall e, f | e in front && f in rest :: PairOf(e) != PairOf(f)
    ensures RecencyOrdered(Reversed(front) + rest, h + PairsInOrder(front))
  {
    var touched := PairsInOrder(front);
    var t := Reversed(front) + rest;
    PairsInOrderAt(front);
    ReversedMembers(front);
    forall i, j | 0 <= i < j < |t| ensures PairOf(t[i]) in Since(h + touched, PairOf(t[j])) {
      SinceConcat(h, touched, PairOf(t[j]));
      if j < |front| {
        ReversedAt(front, i);
        ReversedAt(front, j);
        SinceInDistinct(touched, |front| - 1 - j);
        assert touched[|front| - 1 - i] in Since(touched, touched[|front| - 1 - j]);
      } else {
        assert t[j] == rest[j - |front|];
        if i < |front| {
          assert t[i] in Reversed(front);
        } else {
          assert t[i] == rest[i - |front|];
        }
      }
    }
    forall e | e in t ensures PairOf(e) in h + touched {
      assert e in Reversed(front) || e in rest;
    }
  }

  lemma StepKeepsRecencyOrder<K, V>(cap: nat, s: seq<Entry<K, V>>, op: Op<K, V>, h: seq<(K, V)>)
    requires Distinct(s) && Legal(s, op) && RecencyOrdered(s, h)
    ensures RecencyOrdered(Apply(cap, s, op), h + Touched(op))
  {
    match op
    case Insert(e, _) =>
      var rest := Without(s, {PairOf(e)});
      FilteredStaysOrdered(s, {PairOf(e)}, h);
      WithoutMembers(s, {PairOf(e)});
      FrontedStaysOrdered([e], rest, h);
      assert Reversed([e]) == [e];
      assert PairsInOrder([e]) == [PairOf(e)];
      var t := [e] + rest;
      assert RecencyOrdered(t, h + Touched(op));
      assert forall x | x in t[..|t| - 1] :: x in t;
    case Cleanup(dropped, _, _) =>
      FilteredStaysOrdered(s, dropped, h);
      assert h + Touched(op) == h;
    case Lookup(scope, hits, _, _) =>
      FilteredStaysOrdered(s, InScope(s, scope), h);
      WithoutMembers(s, InScope(s, scope));
      FrontedStaysOrdered(hits, Without(s, InScope(s, scope)), h);
  }

  lemma StepStaysUpToDate<K, V>(cap: nat, s: seq<Entry<K, V>>, op: Op<K, V>, latest: map<(K, V), int>)
    requires Legal(s, op) && UpToDate(s, latest)
    ensures UpToDate(Apply(cap, s, op), Updated(latest, op))
  {
    match op
    case Insert(e, _) =>
      WithoutMembers(s, {PairOf(e)});
      var t := [e] + Without(s, {PairOf(e)});
      assert forall x | x in t[..|t| - 1] :: x in t;
    case Cleanup(dropped, _, _) =>
      WithoutMembers(s, dropped);
    case Lookup(scope, hits, _, _) =>
      var rest := Without(s, InScope(s, scope));
      WithoutMembers(s, InScope(s, scope));
      ReversedMembers(hits);
      assert forall x | x in Reversed(hits) + rest :: x in Reversed(hits) || x in rest;
  }

  lemma {:induction false} RunIsUpToDate<K, V>(cap: nat, ops: seq<Op<K, V>>)
    requires LegalRun(cap, ops)
    ensures UpToDate(State(cap, ops), Latest(ops))
  {
    if ops != [] {
      RunIsUpToDate(cap, Before(ops));
      StepStaysUpToDate(cap, State(cap, Before(ops)), Last(ops), Latest(Before(ops)));
    }
  }

  /** Touching more pairs can only add to what was touched since, unless `p` itself is touched. */
  lemma SinceGrows<P>(h: seq<P>, t: seq<P>, p: P)
    requires p !in t
    ensures |Since(h, p)| <= |Since(h + t, p)|
  {
    SinceConcat(h, t, p);
    SubsetCount(Since(h, p), Since(h + t, p));
  }

  /** The victim of an insertion: everything else that is listed was touched since. */
  lemma VictimIsLeastRecent<K, V>(cap: nat, s: seq<Entry<K, V>>, e: Entry<K, V>, h: seq<(K, V)>)
    requires Distinct(s) && RecencyOrdered(s, h)
    requires |Without(s, {PairOf(e)})| == cap >= 1
    ensures var victim := Last(Without(s, {PairOf(e)}));
            cap <= |Since(h + [PairOf(e)], PairOf(victim))|
  {
    var rest := Without(s, {PairOf(e)});
    var victim := Last(rest);
    FilteredStaysOrdered(s, {PairOf(e)}, h);
    WithoutMembers(s, {PairOf(e)});
    WithoutDistinct(s, {PairOf(e)});
    var t := [e] + Before(rest);
    assert Distinct(t) && |t| == cap;
    SinceConcat(h, [PairOf(e)], PairOf(victim));
    DistinctCount(t);
    forall x | x in t ensures PairOf(x) in Since(h + [PairOf(e)], PairOf(victim)) {
      FrontOrEarlier(e, rest, x);
    }
    SubsetCount(Pairs(t), Since(h + [PairOf(e)], PairOf(victim)));
  }

  lemma FrontOrEarlier<T>(e: T, rest: seq<T>, x: T)
    requires rest != [] && x in [e] + Before(rest)
    ensures x == e || exists i :: 0 <= i < |rest| - 1 && rest[i] == x
  {
    if x != e {
      var i :| 0 <= i < |rest| - 1 && Before(rest)[i] == x;
      assert rest[i] == x;
    }
  }

  lemma StepLosesNothing<K, V>(cap: nat, s: seq<Entry<K, V>>, op: Op<K, V>, h: seq<(K, V)>, latest: map<(K, V), int>,
                               now: int)
    requires Distinct(s) && |s| <= cap && Legal(s, op)
    requires RecencyOrdered(s, h) && NothingLost(cap, s, h, latest, now) && now <= Start(op)
    requires UpToDate(s, latest)
    ensures NothingLost(cap, Apply(cap, s, op), h + Touched(op), Updated(latest, op), End(op))
  {
    var latest' := Updated(latest, op);
    var s' := Apply(cap, s, op);
    forall p | p in latest'
      ensures Listed(s', p, latest'[p]) || latest'[p] < End(op) || cap <= |Since(h + Touched(op), p)|
    {
      match op
      case Insert(e, _) => InsertLosesNothing(cap, s, e, h, latest, now, p);
      case Cleanup(dropped, _, _) =>
        assert h + Touched(op) == h;
        WithoutMembers(s, dropped);
      case Lookup(scope, hits, _, _) =>
        WithoutMembers(s, InScope(s, scope));
        ReversedMembers(hits);
        PairsInOrderAt(hits);
        if p in PairsInOrder(hits) {
          assert Listed(s', p, latest[p]);
        } else {
          SinceGrows(h, Touched(op), p);
        }
    }
  }

  lemma NotTheBackStays<K, V>(cap: nat, s: seq<Entry<K, V>>, e: Entry<K, V>, x: Entry<K, V>)
    requires |s| <= cap && x in Without(s, {PairOf(e)})
    requires |Without(s, {PairOf(e)})| < cap || x != Last(Without(s, {PairOf(e)}))
    ensures x in AfterInsert(cap, s, e)
  {
    var rest := Without(s, {PairOf(e)});
    WithoutMembers(s, {PairOf(e)});
    var i :| 0 <= i < |rest| && rest[i] == x;
    InsertKeepsAllButTheBack(cap, s, e, i);
  }

  lemma InsertLosesNothing<K, V>(cap: nat, s: seq<Entry<K, V>>, e: Entry<K, V>, h: seq<(K, V)>,
                                 latest: map<(K, V), int>, now: int, p: (K, V))
    requires Distinct(s) && |s| <= cap
    requires RecencyOrdered(s, h) && NothingLost(cap, s, h, latest, now)
    requires p in latest[PairOf(e) := e.expiration]
    ensures var x := latest[PairOf(e) := e.expiration][p];
            Listed(AfterInsert(cap, s, e), p, x) || x < now || cap <= |Since(h + [PairOf(e)], p)|
  {
    InsertedLeads(cap, s, e);
    if p != PairOf(e) {
      SinceGrows(h, [PairOf(e)], p);
      if Listed(s, p, latest[p]) {
        var rest := Without(s, {PairOf(e)});
        WithoutMembers(s, {PairOf(e)});
        assert Listed(rest, p, latest[p]);
        if |rest| == cap >= 1 && Last(rest) == Entry(p.0, p.1, latest[p]) {
          VictimIsLeastRecent(cap, s, e, h);
        } else {
          NotTheBackStays(cap, s, e, Entry(p.0, p.1, latest[p]));
        }
      }
    }
  }

  lemma {:induction false} RunLosesNothing<K, V>(cap: nat, ops: seq<Op<K, V>>, now: int)
    requires LegalRun(cap, ops) && EndsBy(ops, now)
    ensures NothingLost(cap, State(cap, ops), Touches(ops), Latest(ops), now)
  {
    if ops != [] {
      var before := Before(ops);
      RunLosesNothing(cap, before, Start(Last(ops)));
      RunKeepsShape(cap, before);
      RunKeepsRecencyOrder(cap, before);
      RunIsUpToDate(cap, before);
      StepLosesNothing(cap, State(cap, before), Last(ops), Touches(before), Latest(before), Start(Last(ops)));
    }
  }

  // ----- Main results -----

  /** Soundness: a lookup only answers with pairs under the asked keys whose latest insertion
      had not expired when the call began. */
  lemma LookupIsSound<K, V>(cap: nat, ops: seq<Op<K, V>>, scope: set<K>, hits: seq<Entry<K, V>>, from: int, to: int)
    requires LegalRun(cap, ops) && LegalLookup(State(cap, ops), scope, hits, from, to)
    ensures forall e | e in hits ::
              && e.key in scope
              && PairOf(e) in Latest(ops)
              && Latest(ops)[PairOf(e)] == e.expiration
              && from <= Latest(ops)[PairOf(e)]
  {
    RunIsUpToDate(cap, ops);
  }

  /** Completeness: an inserted pair that is live when the lookup ends is answered, unless at
      least `cap` distinct other pairs were touched after its own last touch. A lookup asks for
      some of the keys that are listed; that of the pair is among them if it is listed at all. */
  lemma LookupIsComplete<K, V>(cap: nat, ops: seq<Op<K, V>>, scope: set<K>, hits: seq<Entry<K, V>>, from: int,
                               to: int, p: (K, V))
    requires LegalRun(cap, ops) && EndsBy(ops, from)
    requires LegalLookup(State(cap, ops), scope, hits, from, to)
    requires p in Latest(ops) && to <= Latest(ops)[p]
    requires |Since(Touches(ops), p)| < cap
    requires p.0 in KeysOf(State(cap, ops)) ==> p.0 in scope
    ensures Entry(p.0, p.1, Latest(ops)[p]) in hits
  {
    RunLosesNothing(cap, ops, from);
    assert Listed(State(cap, ops), p, Latest(ops)[p]);
  }

  /** For a cache of a given size: fewer other pairs than that, touched since, never cost a pair its
      place, so that it is answered while it is live. */
  lemma KeptUpToSize<K, V>(maxSize: int, ops: seq<Op<K, V>>, scope: set<K>, hits: seq<Entry<K, V>>, from: int,
                           to: int, p: (K, V))
    requires LegalRun(Capacity(maxSize), ops) && EndsBy(ops, from)
    requires LegalLookup(State(Capacity(maxSize), ops), scope, hits, from, to) && p.0 in scope
    requires p in Latest(ops) && to <= Latest(ops)[p] && |Since(Touches(ops), p)| < maxSize
    ensures Entry(p.0, p.1, Latest(ops)[p]) in hits
  {
    LookupIsComplete(Capacity(maxSize), ops, scope, hits, from, to, p);
  }

  /** In particular, a cache that may hold one pair answers what was just inserted. */
  lemma InsertedIsAnswered<K, V>(maxSize: int, ops: seq<Op<K, V>>, e: Entry<K, V>, at: int, scope: set<K>,
                                 hits: seq<Entry<K, V>>, from: int, to: int)
    requires 1 <= maxSize && LegalRun(Capacity(maxSize), ops + [Insert(e, at)]) && at <= from
    requires LegalLookup(State(Capacity(maxSize), ops + [Insert(e, at)]), scope, hits, from, to)
    requires e.key in scope && to <= e.expiration
    ensures e in hits
  {
    var all := ops + [Insert(e, at)];
    assert Before(all) == ops && Last(all) == Insert(e, at);
    assert Last(Touches(all)) == PairOf(e);
    KeptUpToSize(maxSize, all, scope, hits, from, to, PairOf(e));
  }

  /** No insertion of the run found the list full. */
  ghost predicate EvictsNothing<K, V>(cap: nat, ops: seq<Op<K, V>>) {
    ops == [] ||
    (&& EvictsNothing(cap, Before(ops))
     && (Last(ops).Insert? ==> |Without(State(cap, Before(ops)), {PairOf(Last(ops).entry)})| < cap))
  }

  ghost predicate OnlyExpiredAreMissing<K, V>(s: seq<Entry<K, V>>, latest: map<(K, V), int>, now: int) {
    forall p | p in latest :: Listed(s, p, latest[p]) || latest[p] < now
  }

  lemma StepMissesOnlyExpired<K, V>(cap: nat, s: seq<Entry<K, V>>, op: Op<K, V>, latest: map<(K, V), int>)
    requires Legal(s, op) && UpToDate(s, latest) && OnlyExpiredAreMissing(s, latest, Start(op))
    requires op.Insert? ==> |Without(s, {PairOf(op.entry)})| < cap
    ensures OnlyExpiredAreMissing(Apply(cap, s, op), Updated(latest, op), End(op))
  {
    match op
    case Insert(e, _) =>
      WithoutMembers(s, {PairOf(e)});
      var t := [e] + Without(s, {PairOf(e)});
      assert t[0] == e && forall x | x in Without(s, {PairOf(e)}) :: x in t;
    case Cleanup(dropped, _, _) =>
      WithoutMembers(s, dropped);
    case Lookup(scope, hits, _, _) =>
      var rest := Without(s, InScope(s, scope));
      WithoutMembers(s, InScope(s, scope));
      ReversedMembers(hits);
      assert forall x | x in Reversed(hits) || x in rest :: x in Reversed(hits) + rest;
  }

  lemma {:induction false} RunMissesOnlyExpired<K, V>(cap: nat, ops: seq<Op<K, V>>, now: int)
    requires LegalRun(cap, ops) && EvictsNothing(cap, ops) && EndsBy(ops, now)
    ensures OnlyExpiredAreMissing(State(cap, ops), Latest(ops), now)
  {
    if ops != [] {
      var before := Before(ops);
      RunMissesOnlyExpired(cap, before, Start(Last(ops)));
      RunIsUpToDate(cap, before);
      StepMissesOnlyExpired(cap, State(cap, before), Last(ops), Latest(before));
    }
  }

  /** If nothing was ever evicted, a lookup answers exactly like the unbounded timed multimap: with
      every pair under the asked keys that is live when it ends, and none that was dead when it began. */
  lemma WithoutEvictionNothingIsMissing<K, V>(cap: nat, ops: seq<Op<K, V>>, scope: set<K>, hits: seq<Entry<K, V>>,
                                              from: int, to: int)
    requires LegalRun(cap, ops) && EndsBy(ops, from) && EvictsNothing(cap, ops)
    requires LegalLookup(State(cap, ops), scope, hits, from, to)
    ensures forall p | p in Latest(ops) && p.0 in scope && to <= Latest(ops)[p] ::
            Entry(p.0, p.1, Latest(ops)[p]) in hits
    ensures forall e | e in hits ::
            PairOf(e) in Latest(ops) && Latest(ops)[PairOf(e)] == e.expiration && from <= e.expiration
  {
    RunMissesOnlyExpired(cap, ops, from);
    RunIsUpToDate(cap, ops);
    forall p | p in Latest(ops) && p.0 in scope && to <= Latest(ops)[p]
        ensures Entry(p.0, p.1, Latest(ops)[p]) in hits {
      assert Listed(State(cap, ops), p, Latest(ops)[p]);
    }
  }

  /** Eviction: an insertion loses another live pair only from a full list, and only the one
      since whose last touch at least `cap` distinct other pairs were touched. */
  lemma EvictionIsLeastRecentlyUsed<K, V>(cap: nat, ops: seq<Op<K, V>>, e: Entry<K, V>, p: (K, V))
    requires LegalRun(cap, ops)
    requires p in Pairs(State(cap, ops)) && p !in Pairs(AfterInsert(cap, State(cap, ops), e))
    ensures cap <= |Since(Touches(ops) + [PairOf(e)], p)|
    ensures p != PairOf(e)
    ensures 1 <= cap == |State(cap, ops)| && p == PairOf(Last(State(cap, ops)))
  {
    RunKeepsShape(cap, ops);
    RunKeepsRecencyOrder(cap, ops);
    OnlyTheBackIsEvicted(cap, State(cap, ops), e, p);
    VictimIsLeastRecent(cap, State(cap, ops), e, Touches(ops));
  }

  lemma InsertKeepsAllButTheBack<K, V>(cap: nat, s: seq<Entry<K, V>>, e: Entry<K, V>, i: nat)
    requires i < |Without(s, {PairOf(e)})| < cap || i < |Without(s, {PairOf(e)})| - 1
    ensures Without(s, {PairOf(e)})[i] in AfterInsert(cap, s, e)
  {
    assert AfterInsert(cap, s, e)[i + 1] == Without(s, {PairOf(e)})[i];
  }

  lemma OnlyTheBackIsEvicted<K, V>(cap: nat, s: seq<Entry<K, V>>, e: Entry<K, V>, p: (K, V))
    requires |s| <= cap
    requires p in Pairs(s) && p !in Pairs(AfterInsert(cap, s, e))
    ensures 1 <= cap == |s| && p != PairOf(e)
    ensures Without(s, {PairOf(e)}) == s && p == PairOf(Last(s))
  {
    var rest := Without(s, {PairOf(e)});
    InsertedLeads(cap, s, e);
    WithoutMembers(s, {PairOf(e)});
    var x :| x in s && PairOf(x) == p;
    assert x in rest;
    var i :| 0 <= i < |rest| && rest[i] == x;
    if |rest| < cap || i < |rest| - 1 {
      InsertKeepsAllButTheBack(cap, s, e, i);
      assert false;
    }
    FullFilterKeepsAll(s, {PairOf(e)});
  }

  lemma {:induction false} FullFilterKeepsAll<K, V>(s: seq<Entry<K, V>>, ps: set<(K, V)>)
    requires |Without(s, ps)| == |s|
    ensures Without(s, ps) == s
  {
    if s != [] {
      WithoutMembers(s[1..], ps);
      FullFilterKeepsAll(s[1..], ps);
    }
  }
}
