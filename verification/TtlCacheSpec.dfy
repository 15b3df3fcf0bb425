/**
 The TTL + LRU cache as a value: a recency list of entries, most recently used first,
 and what one call of each operation does to it.

 A call reads the wall clock several times and walks a Go map in no particular order.
 Both choices are recorded in the operation (the clock readings bracket it, `hits` is the
 order of the walk), so the effect of an operation is a function of its record.
 */
module TtlCacheSpec {
  import opened Basics

  datatype Entry<K, V> = Entry(key: K, value: V, expiration: int)

  datatype Op<K(==), V(==)> =
    | Insert(entry: Entry<K, V>, at: int)
    | Lookup(scope: set<K>, hits: seq<Entry<K, V>>, from: int, to: int)
    | Cleanup(dropped: set<(K, V)>, from: int, to: int)

  ghost function PairOf<K, V>(e: Entry<K, V>): (K, V) {
    (e.key, e.value)
  }

  ghost function Pairs<K, V>(s: seq<Entry<K, V>>): set<(K, V)> {
    set e | e in s :: PairOf(e)
  }

  /** No pair is listed twice. */
  ghost predicate Distinct<K, V>(s: seq<Entry<K, V>>) {
    forall i, j | 0 <= i < j < |s| :: PairOf(s[i]) != PairOf(s[j])
  }

  /** The entries whose pair is not in `ps`, in their order. */
  ghost function Without<K, V>(s: seq<Entry<K, V>>, ps: set<(K, V)>): seq<Entry<K, V>> {
    if s == [] then []
    else if PairOf(s[0]) in ps then Without(s[1..], ps)
    else [s[0]] + Without(s[1..], ps)
  }

  ghost function Reversed<T>(s: seq<T>): seq<T> {
    if s == [] then [] else Reversed(s[1..]) + [s[0]]
  }

  /** A capacity of zero or less keeps nothing: every insertion evicts itself. */
  ghost function Capacity(maxSize: int): nat {
    if maxSize < 0 then 0 else maxSize
  }

  /** Put the entry in front, displacing an older entry of the same pair, and drop the
      back entry when that makes the list too long. */
  ghost function AfterInsert<K, V>(cap: nat, s: seq<Entry<K, V>>, e: Entry<K, V>): seq<Entry<K, V>> {
    var t := [e] + Without(s, {PairOf(e)});
    if |t| > cap then t[..|t| - 1] else t
  }

  ghost function KeysOf<K, V>(s: seq<Entry<K, V>>): set<K> {
    set e | e in s :: e.key
  }

  ghost function InScope<K, V>(s: seq<Entry<K, V>>, scope: set<K>): set<(K, V)> {
    set e | e in s && e.key in scope :: PairOf(e)
  }

  /** The visited pairs `ps` leave their places; those that are hits come to the front one by one. */
  ghost function Fronted<K, V>(s: seq<Entry<K, V>>, ps: set<(K, V)>, hits: seq<Entry<K, V>>): seq<Entry<K, V>> {
    Reversed(hits) + Without(s, ps)
  }

  ghost function AfterLookup<K, V>(s: seq<Entry<K, V>>, scope: set<K>, hits: seq<Entry<K, V>>): seq<Entry<K, V>> {
    Fronted(s, InScope(s, scope), hits)
  }

  /** Every hit is a listed entry of a looked-up key that had not expired when the call began,
      and every such entry that is still live when the call ends is a hit. */
  ghost predicate LegalLookup<K, V>(s: seq<Entry<K, V>>, scope: set<K>, hits: seq<Entry<K, V>>, from: int, to: int) {
    && from <= to
    && Distinct(hits)
    && (forall e | e in hits :: e in s && e.key in scope && from <= e.expiration)
    && (forall e | e in s && e.key in scope && to <= e.expiration :: e in hits)
  }

  /** The same for any set of visited pairs: what a walk over part of the cache has done so far. */
  ghost predicate Visited<K, V>(s: seq<Entry<K, V>>, ps: set<(K, V)>, hits: seq<Entry<K, V>>, from: int, to: int) {
    && from <= to
    && Distinct(hits)
    && (forall e | e in hits :: e in s && PairOf(e) in ps && from <= e.expiration)
    && (forall e | e in s && PairOf(e) in ps && to <= e.expiration :: e in hits)
  }

  ghost predicate LegalCleanup<K, V>(s: seq<Entry<K, V>>, dropped: set<(K, V)>, from: int, to: int) {
    && from <= to
    && dropped <= Pairs(s)
    && (forall e | e in s && PairOf(e) in dropped :: e.expiration < to)
    && (forall e | e in s && e.expiration < from :: PairOf(e) in dropped)
  }

  ghost predicate Legal<K, V>(s: seq<Entry<K, V>>, op: Op<K, V>) {
    match op
    case Insert(_, _) => true
    case Lookup(scope, hits, from, to) => LegalLookup(s, scope, hits, from, to)
    case Cleanup(dropped, from, to) => LegalCleanup(s, dropped, from, to)
  }

  ghost function Apply<K, V>(cap: nat, s: seq<Entry<K, V>>, op: Op<K, V>): seq<Entry<K, V>> {
    match op
    case Insert(e, _) => AfterInsert(cap, s, e)
    case Lookup(scope, hits, _, _) => AfterLookup(s, scope, hits)
    case Cleanup(dropped, _, _) => Without(s, dropped)
  }

  // ----- Filtering -----

  lemma {:induction false} WithoutMembers<K, V>(s: seq<Entry<K, V>>, ps: set<(K, V)>)
    ensures forall e | e in Without(s, ps) :: e in s && PairOf(e) !in ps
    ensures forall e | e in s && PairOf(e) !in ps :: e in Without(s, ps)
    ensures |Without(s, ps)| <= |s|
  {
    if s != [] {
      WithoutMembers(s[1..], ps);
      assert s == [s[0]] + s[1..];
    }
  }

  lemma {:induction false} WithoutConcat<K, V>(s: seq<Entry<K, V>>, t: seq<Entry<K, V>>, ps: set<(K, V)>)
    ensures Without(s + t, ps) == Without(s, ps) + Without(t, ps)
  {
    if s == [] {
      assert s + t == t;
    } else {
      assert (s + t)[1..] == s[1..] + t;
      WithoutConcat(s[1..], t, ps);
    }
  }

  lemma {:induction false} WithoutWithout<K, V>(s: seq<Entry<K, V>>, ps: set<(K, V)>, qs: set<(K, V)>)
    ensures Without(Without(s, ps), qs) == Without(s, ps + qs)
  {
    if s != [] {
      WithoutWithout(s[1..], ps, qs);
    }
  }

  lemma {:induction false} WithoutNone<K, V>(s: seq<Entry<K, V>>, ps: set<(K, V)>)
    requires forall e | e in s :: PairOf(e) !in ps
    ensures Without(s, ps) == s
  {
    if s != [] {
      WithoutNone(s[1..], ps);
    }
  }

  lemma {:induction false} WithoutAll<K, V>(s: seq<Entry<K, V>>, ps: set<(K, V)>)
    requires forall e | e in s :: PairOf(e) in ps
    ensures Without(s, ps) == []
  {
    if s != [] {
      WithoutAll(s[1..], ps);
    }
  }

  /** Two sets that agree on the listed pairs filter alike. */
  lemma {:induction false} WithoutAgree<K, V>(s: seq<Entry<K, V>>, ps: set<(K, V)>, qs: set<(K, V)>)
    requires forall e | e in s :: PairOf(e) in ps <==> PairOf(e) in qs
    ensures Without(s, ps) == Without(s, qs)
  {
    if s != [] {
      WithoutAgree(s[1..], ps, qs);
    }
  }

  lemma {:induction false} WithoutDistinct<K, V>(s: seq<Entry<K, V>>, ps: set<(K, V)>)
    requires Distinct(s)
    ensures Distinct(Without(s, ps))
  {
    if s != [] {
      WithoutDistinct(s[1..], ps);
      WithoutMembers(s[1..], ps);
    }
  }

  /** Filtering never reorders: a relation that holds along the list holds along what is left. */
  lemma {:induction false} WithoutIndices<K, V>(s: seq<Entry<K, V>>, ps: set<(K, V)>, i: nat, j: nat)
    returns (i': nat, j': nat)
    requires i < j < |Without(s, ps)|
    ensures i' < j' < |s| && s[i'] == Without(s, ps)[i] && s[j'] == Without(s, ps)[j]
  {
    if PairOf(s[0]) in ps {
      i', j' := WithoutIndices(s[1..], ps, i, j);
      i', j' := i' + 1, j' + 1;
    } else if i > 0 {
      i', j' := WithoutIndices(s[1..], ps, i - 1, j - 1);
      i', j' := i' + 1, j' + 1;
    } else {
      i' := 0;
      WithoutMembers(s[1..], ps);
      var x := Without(s, ps)[j];
      assert x == Without(s[1..], ps)[j - 1];
      assert x in Without(s[1..], ps);
      var m :| 0 <= m < |s[1..]| && s[1..][m] == x;
      j' := m + 1;
    }
  }

  // ----- Reversal -----

  lemma {:induction false} ReversedMembers<T>(s: seq<T>)
    ensures |Reversed(s)| == |s|
    ensures forall e | e in Reversed(s) :: e in s
    ensures forall e | e in s :: e in Reversed(s)
  {
    if s != [] {
      ReversedMembers(s[1..]);
      assert s == [s[0]] + s[1..];
    }
  }

  lemma {:induction false} ReversedAt<T>(s: seq<T>, i: nat)
    requires i < |s|
    ensures |Reversed(s)| == |s| && Reversed(s)[i] == s[|s| - 1 - i]
  {
    ReversedMembers(s);
    ReversedMembers(s[1..]);
    if i < |s| - 1 {
      ReversedAt(s[1..], i);
    }
  }

  lemma {:induction false} ReversedConcat<T>(s: seq<T>, t: seq<T>)
    ensures Reversed(s + t) == Reversed(t) + Reversed(s)
  {
    if s == [] {
      assert s + t == t;
    } else {
      assert (s + t)[1..] == s[1..] + t;
      ReversedConcat(s[1..], t);
    }
  }

  lemma ReversedDistinct<K, V>(s: seq<Entry<K, V>>)
    requires Distinct(s)
    ensures Distinct(Reversed(s))
  {
    ReversedMembers(s);
    forall i, j | 0 <= i < j < |s| ensures PairOf(Reversed(s)[i]) != PairOf(Reversed(s)[j]) {
      ReversedAt(s, i);
      ReversedAt(s, j);
    }
  }

  // ----- The shape of one step -----

  /** The entry just inserted leads the list, unless the capacity is zero. */
  lemma InsertedLeads<K, V>(cap: nat, s: seq<Entry<K, V>>, e: Entry<K, V>)
    requires |s| <= cap
    ensures 1 <= cap <==> AfterInsert(cap, s, e) != []
    ensures 1 <= cap ==> AfterInsert(cap, s, e)[0] == e
  {
    WithoutMembers(s, {PairOf(e)});
  }

  /** Distinctness and the capacity bound are kept by every legal step. */
  lemma StepKeepsShape<K, V>(cap: nat, s: seq<Entry<K, V>>, op: Op<K, V>)
    requires Distinct(s) && |s| <= cap
    requires Legal(s, op)
    ensures Distinct(Apply(cap, s, op)) && |Apply(cap, s, op)| <= cap
  {
    match op
    case Insert(e, _) =>
      WithoutDistinct(s, {PairOf(e)});
      WithoutMembers(s, {PairOf(e)});
    case Cleanup(dropped, _, _) =>
      WithoutDistinct(s, dropped);
      WithoutMembers(s, dropped);
    case Lookup(scope, hits, _, _) =>
      var rest := Without(s, InScope(s, scope));
      WithoutDistinct(s, InScope(s, scope));
      WithoutMembers(s, InScope(s, scope));
      ReversedDistinct(hits);
      ReversedMembers(hits);
      assert forall h, e | h in hits && e in rest :: PairOf(h) != PairOf(e);
      var t := AfterLookup(s, scope, hits);
      assert Distinct(t);
      DistinctSubset(t, s);
  }

  lemma {:induction false} DistinctCount<K, V>(s: seq<Entry<K, V>>)
    requires Distinct(s)
    ensures |Pairs(s)| == |s|
  {
    if s == [] {
    } else {
      DistinctCount(s[1..]);
      assert s == [s[0]] + s[1..];
      assert Pairs(s) == {PairOf(s[0])} + Pairs(s[1..]);
      assert PairOf(s[0]) !in Pairs(s[1..]);
    }
  }

  lemma DistinctSubset<K, V>(t: seq<Entry<K, V>>, s: seq<Entry<K, V>>)
    requires Distinct(t) && Distinct(s)
    requires forall e | e in t :: e in s
    ensures |t| <= |s|
  {
    DistinctCount(t);
    DistinctCount(s);
    SubsetCount(Pairs(t), Pairs(s));
  }

  // ----- Walking the cache -----

  lemma NothingVisited<K, V>(s: seq<Entry<K, V>>, now: int)
    ensures Visited(s, {}, [], now, now) && Fronted(s, {}, []) == s
  {
    WithoutNone(s, {});
  }

  lemma VisitedInScope<K, V>(s: seq<Entry<K, V>>, scope: set<K>, hits: seq<Entry<K, V>>, from: int, to: int)
    requires Visited(s, InScope(s, scope), hits, from, to)
    ensures LegalLookup(s, scope, hits, from, to)
  {
  }

  lemma FrontedMore<K, V>(s: seq<Entry<K, V>>, ps: set<(K, V)>, hits: seq<Entry<K, V>>, qs: set<(K, V)>,
                          more: seq<Entry<K, V>>)
    requires ps !! qs && forall e | e in hits :: PairOf(e) in ps
    ensures Fronted(Fronted(s, ps, hits), qs, more) == Fronted(s, ps + qs, hits + more)
  {
    var r, rest := Reversed(hits), Without(s, ps);
    assert Without(r + rest, qs) == r + Without(s, ps + qs) by {
      ReversedMembers(hits);
      WithoutConcat(r, rest, qs);
      WithoutNone(r, qs);
      WithoutWithout(s, ps, qs);
    }
    ReversedConcat(hits, more);
  }

  /** Walking does not change what is listed of the pairs not yet visited. */
  lemma FrontedMembers<K, V>(s: seq<Entry<K, V>>, ps: set<(K, V)>, hits: seq<Entry<K, V>>)
    requires forall e | e in hits :: PairOf(e) in ps
    ensures forall e | PairOf(e) !in ps :: e in Fronted(s, ps, hits) <==> e in s
  {
    ReversedMembers(hits);
    WithoutMembers(s, ps);
    forall e | PairOf(e) !in ps ensures e in Fronted(s, ps, hits) <==> e in s {
      assert e in Fronted(s, ps, hits) <==> e in Reversed(hits) || e in Without(s, ps);
    }
  }

  /** What was answered leads, last answer first, and behind it are the entries of the keys not asked for. */
  ghost predicate Leading<K, V>(s: seq<Entry<K, V>>, t: seq<Entry<K, V>>, hits: seq<Entry<K, V>>, asked: set<K>) {
    && |hits| <= |t|
    && (forall i | 0 <= i < |hits| :: t[i] == hits[|hits| - 1 - i])
    && (forall e | e in t[|hits|..] :: e in s && e.key !in asked)
    && (forall e | e in s && e.key !in asked :: e in t[|hits|..])
  }

  lemma AnsweredLead<K, V>(s: seq<Entry<K, V>>, scope: set<K>, hits: seq<Entry<K, V>>)
    ensures Leading(s, AfterLookup(s, scope, hits), hits, scope)
  {
    ReversedMembers(hits);
    forall i | 0 <= i < |hits| ensures Reversed(hits)[i] == hits[|hits| - 1 - i] {
      ReversedAt(hits, i);
    }
    var t, rest := AfterLookup(s, scope, hits), Without(s, InScope(s, scope));
    assert t[|hits|..] == rest;
    WithoutMembers(s, InScope(s, scope));
  }

  /** One part of a walk after another is one longer walk. */
  lemma VisitMore<K, V>(s: seq<Entry<K, V>>, ps: set<(K, V)>, hits: seq<Entry<K, V>>, from: int, mid: int,
                        qs: set<(K, V)>, more: seq<Entry<K, V>>, to: int)
    requires Visited(s, ps, hits, from, mid) && ps !! qs
    requires Visited(Fronted(s, ps, hits), qs, more, mid, to)
    ensures Visited(s, ps + qs, hits + more, from, to)
    ensures Fronted(Fronted(s, ps, hits), qs, more) == Fronted(s, ps + qs, hits + more)
  {
    FrontedMembers(s, ps, hits);
    FrontedMore(s, ps, hits, qs, more);
    forall e | e in hits + more ensures e in s && PairOf(e) in ps + qs && from <= e.expiration {
      assert e in hits || e in more;
    }
    forall e | e in s && PairOf(e) in ps + qs && to <= e.expiration ensures e in hits + more {
      assert PairOf(e) in ps ==> e in hits;
      assert PairOf(e) in qs ==> e in more;
    }
  }

  /** Visiting one more entry: an expired one is dropped, a live one is a hit. */
  lemma VisitOne<K, V>(s: seq<Entry<K, V>>, ps: set<(K, V)>, hits: seq<Entry<K, V>>, from: int, mid: int,
                       e: Entry<K, V>, now: int)
    requires Distinct(s) && Visited(s, ps, hits, from, mid) && mid <= now
    requires e in Fronted(s, ps, hits) && PairOf(e) !in ps
    ensures var t, p := Fronted(s, ps, hits), PairOf(e);
            var more := if e.expiration < now then [] else [e];
            && Visited(s, ps + {p}, hits + more, from, now)
            && Fronted(s, ps + {p}, hits + more) == more + Without(t, {p})
  {
    var t, p := Fronted(s, ps, hits), PairOf(e);
    var more := if e.expiration < now then [] else [e];
    assert Visited(t, {p}, more, mid, now) by {
      FrontedMembers(s, ps, hits);
      forall x | x in t && PairOf(x) in {p} ensures x == e {
        assert x in s && e in s;
      }
    }
    assert Reversed([e]) == [e];
    VisitMore(s, ps, hits, from, mid, {p}, more, now);
  }
}
