/**
 The TTL + LRU cache: an index `items[key][value]` into one global recency list, both changed
 in place by every operation. The ghost log records the operations performed; the list is
 always the state that log leads to.
 */
module TtlCache {
  import opened Basics
  import opened Clock
  import opened TtlCacheSpec
  import opened TtlCacheRuns

  /** A list element; its entry is set once. Elements are compared by identity. */
  class Element<K, V> {
    const entry: Entry<K, V>

    constructor (entry: Entry<K, V>)
      ensures this.entry == entry
    {
      this.entry := entry;
    }
  }

  ghost function EntriesOf<K, V>(es: seq<Element<K, V>>): (s: seq<Entry<K, V>>)
    ensures |s| == |es| && forall i | 0 <= i < |es| :: s[i] == es[i].entry
  {
    seq(|es|, i requires 0 <= i < |es| => es[i].entry)
  }

  ghost function Unlinked<K, V>(es: seq<Element<K, V>>, e: Element<K, V>): seq<Element<K, V>> {
    if es == [] then [] else if es[0] == e then es[1..] else [es[0]] + Unlinked(es[1..], e)
  }

  function Unlink<K, V>(es: seq<Element<K, V>>, e: Element<K, V>): (r: seq<Element<K, V>>)
    ensures r == Unlinked(es, e)
  {
    if es == [] then [] else if es[0] == e then es[1..] else [es[0]] + Unlink(es[1..], e)
  }

  /** Go's container/list, as far as the cache uses it; the front is position 0. */
  class LruList<K, V> {
    var elems: seq<Element<K, V>>

    constructor ()
      ensures elems == []
    {
      elems := [];
    }

    method PushFront(entry: Entry<K, V>) returns (e: Element<K, V>)
      modifies this
      ensures fresh(e) && e.entry == entry
      ensures elems == [e] + old(elems)
    {
      e := new Element(entry);
      elems := [e] + elems;
    }

    method Remove(e: Element<K, V>)
      modifies this
      ensures elems == Unlinked(old(elems), e)
    {
      elems := Unlink(elems, e);
    }

    method MoveToFront(e: Element<K, V>)
      requires e in elems
      modifies this
      ensures elems == [e] + Unlinked(old(elems), e)
    {
      elems := [e] + Unlink(elems, e);
    }

    method Back() returns (e: Element?<K, V>)
      ensures elems == [] ==> e == null
      ensures elems != [] ==> e == Last(elems)
    {
      e := if elems == [] then null else elems[|elems| - 1];
    }
  }

  /** The values of these entries, in their order. */
  ghost predicate AreValuesOf<K, V>(vs: seq<V>, s: seq<Entry<K, V>>) {
    |vs| == |s| && forall i | 0 <= i < |s| :: vs[i] == s[i].value
  }

  lemma AppendValue<K, V>(vs: seq<V>, s: seq<Entry<K, V>>, e: Entry<K, V>)
    requires AreValuesOf(vs, s)
    ensures AreValuesOf(vs + [e.value], s + [e])
  {
  }

  type Index<K, V> = map<K, map<V, Element<K, V>>>

  ghost function ValuesUnder<K, V>(items: Index<K, V>, k: K): map<V, Element<K, V>> {
    if k in items then items[k] else map[]
  }

  ghost function PairsUnder<K, V>(key: K, vs: set<V>): set<(K, V)> {
    set v | v in vs :: (key, v)
  }

  lemma OneMoreVisited<K, V>(key: K, all: set<V>, remaining: set<V>, value: V)
    requires value in remaining && remaining <= all
    ensures PairsUnder(key, all - (remaining - {value})) == PairsUnder(key, all - remaining) + {(key, value)}
    ensures (key, value) !in PairsUnder(key, all - remaining)
  {
    assert all - (remaining - {value}) == (all - remaining) + {value};
  }

  ghost predicate Indexed<K, V>(items: Index<K, V>, e: Element<K, V>) {
    e.entry.key in items && e.entry.value in items[e.entry.key] && items[e.entry.key][e.entry.value] == e
  }

  /** The index and the list hold the same elements: each is found under its own pair, and
      what is found under a pair is listed once. */
  ghost predicate Linked<K, V>(items: Index<K, V>, es: seq<Element<K, V>>) {
    && (forall i | 0 <= i < |es| :: Indexed(items, es[i]))
    && NoRepeats(es)
    && (forall k, v | k in items && v in items[k] ::
          items[k][v] in es && items[k][v].entry.key == k && items[k][v].entry.value == v)
  }

  ghost predicate NoEmptyKeys<K, V>(items: Index<K, V>) {
    forall k | k in items :: items[k] != map[]
  }

  ghost predicate NoEmptyKeysBut<K, V>(items: Index<K, V>, key: K) {
    forall k | k in items && k != key :: items[k] != map[]
  }

  lemma LinkedIsDistinct<K, V>(items: Index<K, V>, es: seq<Element<K, V>>)
    requires Linked(items, es)
    ensures Distinct(EntriesOf(es))
  {
    forall i, j | 0 <= i < j < |es| ensures PairOf(EntriesOf(es)[i]) != PairOf(EntriesOf(es)[j]) {
      assert Indexed(items, es[i]) && Indexed(items, es[j]);
    }
  }

  ghost function IndexedPairs<K, V>(items: Index<K, V>): set<(K, V)> {
    set k, v | k in items && v in items[k] :: (k, v)
  }

  /** List elements and indexed pairs correspond one to one: the list holds each indexed pair once,
      and nothing else. */
  lemma IndexAndListCorrespond<K, V>(items: Index<K, V>, es: seq<Element<K, V>>)
    requires Linked(items, es)
    ensures Pairs(EntriesOf(es)) == IndexedPairs(items) && |es| == |IndexedPairs(items)|
    ensures forall i | 0 <= i < |es| :: items[es[i].entry.key][es[i].entry.value] == es[i]
  {
    var s := EntriesOf(es);
    LinkedIsDistinct(items, es);
    DistinctCount(s);
    forall p | p in Pairs(s) ensures p in IndexedPairs(items) {
      var i :| 0 <= i < |s| && PairOf(s[i]) == p;
      assert Indexed(items, es[i]);
    }
    forall p | p in IndexedPairs(items) ensures p in Pairs(s) {
      var i :| 0 <= i < |es| && es[i] == items[p.0][p.1];
      assert PairOf(s[i]) == p && s[i] in s;
    }
    assert forall i | 0 <= i < |es| :: Indexed(items, es[i]);
  }

  lemma {:induction false} UnlinkedMembers<K, V>(es: seq<Element<K, V>>, e: Element<K, V>)
    requires NoRepeats(es)
    ensures forall x | x in Unlinked(es, e) :: x in es && x != e
    ensures forall x | x in es && x != e :: x in Unlinked(es, e)
    ensures NoRepeats(Unlinked(es, e))
  {
    if es != [] {
      UnlinkedMembers(es[1..], e);
      assert es == [es[0]] + es[1..];
      assert es[0] !in es[1..];
      assert es[0] !in Unlinked(es[1..], e);
    }
  }

  lemma HeadIsAlone<K, V>(s: seq<Entry<K, V>>)
    requires s != [] && Distinct(s)
    ensures Without(s, {PairOf(s[0])}) == s[1..]
  {
    forall x | x in s[1..] ensures PairOf(x) != PairOf(s[0]) {
      var i :| 0 <= i < |s| - 1 && s[1..][i] == x;
      assert x == s[i + 1];
    }
    WithoutNone(s[1..], {PairOf(s[0])});
  }

  lemma {:induction false} UnlinkedEntries<K, V>(es: seq<Element<K, V>>, e: Element<K, V>)
    requires Distinct(EntriesOf(es)) && e in es
    ensures EntriesOf(Unlinked(es, e)) == Without(EntriesOf(es), {PairOf(e.entry)})
  {
    var s := EntriesOf(es);
    assert EntriesOf(es[1..]) == s[1..];
    if es[0] == e {
      HeadIsAlone(s);
    } else {
      assert e in es[1..];
      var i :| 0 <= i < |es| && es[i] == e;
      assert PairOf(s[0]) != PairOf(s[i]);
      UnlinkedEntries(es[1..], e);
      assert EntriesOf([es[0]] + Unlinked(es[1..], e)) == [s[0]] + EntriesOf(Unlinked(es[1..], e));
    }
  }

  /** Taking an element out of the list and its value out of the index. */
  lemma LinkedAfterRemove<K, V>(items: Index<K, V>, es: seq<Element<K, V>>, e: Element<K, V>)
    requires Linked(items, es) && e in es
    ensures Indexed(items, e)
    ensures var k := e.entry.key;
            Linked(items[k := items[k] - {e.entry.value}], Unlinked(es, e))
    ensures EntriesOf(Unlinked(es, e)) == Without(EntriesOf(es), {PairOf(e.entry)})
  {
    LinkedIsDistinct(items, es);
    UnlinkedEntries(es, e);
    UnlinkedMembers(es, e);
    var k := e.entry.key;
    var i :| 0 <= i < |es| && es[i] == e;
    assert Indexed(items, es[i]);
    var items' := items[k := items[k] - {e.entry.value}];
    var u := Unlinked(es, e);
    forall j | 0 <= j < |u| ensures Indexed(items', u[j]) {
      assert u[j] in u;
      var m :| 0 <= m < |es| && es[m] == u[j];
      assert Indexed(items, es[m]);
    }
  }

  lemma LinkedAfterPush<K, V>(items: Index<K, V>, es: seq<Element<K, V>>, e: Element<K, V>)
    requires Linked(items, es) && e !in es
    requires e.entry.key in items ==> e.entry.value !in items[e.entry.key]
    ensures var k := e.entry.key;
            Linked(items[k := ValuesUnder(items, k)[e.entry.value := e]], [e] + es)
    ensures EntriesOf([e] + es) == [e.entry] + EntriesOf(es)
  {
    var k := e.entry.key;
    var items' := items[k := ValuesUnder(items, k)[e.entry.value := e]];
    var t := [e] + es;
    forall j | 0 <= j < |t| ensures Indexed(items', t[j]) {
      if j > 0 {
        assert Indexed(items, es[j - 1]);
      }
    }
  }

  lemma LinkedSameElements<K, V>(items: Index<K, V>, es: seq<Element<K, V>>, fs: seq<Element<K, V>>)
    requires Linked(items, es)
    requires NoRepeats(fs)
    requires (forall e | e in es :: e in fs) && (forall e | e in fs :: e in es)
    ensures Linked(items, fs)
  {
    forall i | 0 <= i < |fs| ensures Indexed(items, fs[i]) {
      assert fs[i] in fs;
      var m :| 0 <= m < |es| && es[m] == fs[i];
      assert Indexed(items, es[m]);
    }
  }

  lemma FrontKeepsElements<K, V>(es: seq<Element<K, V>>, e: Element<K, V>)
    requires NoRepeats(es) && e in es
    ensures var fs := [e] + Unlinked(es, e);
            NoRepeats(fs) && (forall x | x in es :: x in fs) && (forall x | x in fs :: x in es)
  {
    UnlinkedMembers(es, e);
    var u := Unlinked(es, e);
    assert e !in u;
    assert ([e] + u)[0] == e && ([e] + u)[1..] == u;
    assert forall x | x in [e] + u :: x == e || x in u;
  }

  lemma LinkedAfterMove<K, V>(items: Index<K, V>, es: seq<Element<K, V>>, e: Element<K, V>)
    requires Linked(items, es) && e in es
    ensures Linked(items, [e] + Unlinked(es, e))
    ensures EntriesOf([e] + Unlinked(es, e)) == [e.entry] + Without(EntriesOf(es), {PairOf(e.entry)})
  {
    FrontKeepsElements(es, e);
    LinkedSameElements(items, es, [e] + Unlinked(es, e));
    EntriesAfterMove(items, es, e);
  }

  lemma EntriesAfterMove<K, V>(items: Index<K, V>, es: seq<Element<K, V>>, e: Element<K, V>)
    requires Linked(items, es) && e in es
    ensures EntriesOf([e] + Unlinked(es, e)) == [e.entry] + Without(EntriesOf(es), {PairOf(e.entry)})
  {
    LinkedIsDistinct(items, es);
    UnlinkedEntries(es, e);
    EntriesOfCons(e, Unlinked(es, e));
  }

  lemma EntriesOfCons<K, V>(e: Element<K, V>, es: seq<Element<K, V>>)
    ensures EntriesOf([e] + es) == [e.entry] + EntriesOf(es)
  {
  }

  /** The list without the element the index holds for a pair, if there is one. */
  ghost function Displaced<K, V>(items: Index<K, V>, es: seq<Element<K, V>>, key: K, value: V): seq<Element<K, V>> {
    if key in items && value in items[key] then Unlinked(es, items[key][value]) else es
  }

  lemma LinkedAfterDisplace<K, V>(items: Index<K, V>, es: seq<Element<K, V>>, key: K, value: V)
    requires Linked(items, es) && key in items
    ensures Linked(items[key := items[key] - {value}], Displaced(items, es, key, value))
    ensures EntriesOf(Displaced(items, es, key, value)) == Without(EntriesOf(es), {(key, value)})
  {
    if value in items[key] {
      var e := items[key][value];
      assert PairOf(e.entry) == (key, value);
      LinkedAfterRemove(items, es, e);
    } else {
      LinkedAfterNoDisplace(items, es, key, value);
    }
  }

  lemma LinkedAfterNoDisplace<K, V>(items: Index<K, V>, es: seq<Element<K, V>>, key: K, value: V)
    requires Linked(items, es) && key in items && value !in items[key]
    ensures items[key := items[key] - {value}] == items
    ensures EntriesOf(es) == Without(EntriesOf(es), {(key, value)})
  {
    assert items[key] - {value} == items[key];
    PairNotListed(items, es, key, value);
    WithoutNone(EntriesOf(es), {(key, value)});
  }

  lemma LinkedAfterInsert<K, V>(items: Index<K, V>, es: seq<Element<K, V>>, e: Element<K, V>)
    requires Linked(items, es) && e.entry.key in items && e !in es
    ensures var k, v := e.entry.key, e.entry.value;
            var fs := [e] + Displaced(items, es, k, v);
            && Linked(items[k := items[k][v := e]], fs)
            && EntriesOf(fs) == [e.entry] + Without(EntriesOf(es), {(k, v)})
  {
    var k, v := e.entry.key, e.entry.value;
    LinkedAfterDisplace(items, es, k, v);
    NotDisplaced(items, es, e);
    LinkedAfterPush(items[k := items[k] - {v}], Displaced(items, es, k, v), e);
    Reindexed(items, e);
  }

  lemma NotDisplaced<K, V>(items: Index<K, V>, es: seq<Element<K, V>>, e: Element<K, V>)
    requires Linked(items, es) && e.entry.key in items && e !in es
    ensures e !in Displaced(items, es, e.entry.key, e.entry.value)
  {
    if e.entry.value in items[e.entry.key] {
      UnlinkedMembers(es, items[e.entry.key][e.entry.value]);
    }
  }

  lemma Reindexed<K, V>(items: Index<K, V>, e: Element<K, V>)
    requires e.entry.key in items
    ensures var k, v := e.entry.key, e.entry.value;
            var cleared := items[k := items[k] - {v}];
            cleared[k := ValuesUnder(cleared, k)[v := e]] == items[k := items[k][v := e]]
  {
    var k, v := e.entry.key, e.entry.value;
    assert (items[k] - {v})[v := e] == items[k][v := e];
  }

  /** Part-way through the walk over the values `all` of one key: those no longer `remaining`
      have been visited, and the index and the list agree but for the key being empty. */
  ghost predicate Walking<K, V>(items: Index<K, V>, es: seq<Element<K, V>>, key: K, s: seq<Entry<K, V>>,
                                all: set<V>, remaining: set<V>, hits: seq<Entry<K, V>>, from: int, now: int) {
    && key in items && remaining <= items[key].Keys
    && Linked(items, es) && NoEmptyKeysBut(items, key) && Distinct(s)
    && Visited(s, PairsUnder(key, all - remaining), hits, from, now)
    && EntriesOf(es) == Fronted(s, PairsUnder(key, all - remaining), hits)
  }

  lemma StartWalk<K, V>(items: Index<K, V>, es: seq<Element<K, V>>, key: K, now: int)
    requires Linked(items, es) && NoEmptyKeys(items)
    ensures key in items ==>
              Walking(items, es, key, EntriesOf(es), items[key].Keys, items[key].Keys, [], now, now) &&
              InScope(EntriesOf(es), {key}) == PairsUnder(key, items[key].Keys)
    ensures key !in items ==>
              Visited(EntriesOf(es), InScope(EntriesOf(es), {key}), [], now, now) &&
              Fronted(EntriesOf(es), InScope(EntriesOf(es), {key}), []) == EntriesOf(es)
  {
    ScopeOfKey(items, es, key);
    LinkedIsDistinct(items, es);
    NothingVisited(EntriesOf(es), now);
    assert PairsUnder<K, V>(key, {}) == {};
    if key in items {
      assert items[key].Keys - items[key].Keys == {};
    } else {
      assert InScope(EntriesOf(es), {key}) == {};
    }
  }

  lemma WalkOn<K, V>(items: Index<K, V>, es: seq<Element<K, V>>, key: K, s: seq<Entry<K, V>>,
                     all: set<V>, remaining: set<V>, hits: seq<Entry<K, V>>, from: int, mid: int, value: V, now: int)
    requires Walking(items, es, key, s, all, remaining, hits, from, mid)
    requires value in remaining && remaining <= all && mid <= now
    ensures items[key][value] in es && items[key][value].entry.value == value
    ensures var e, left := items[key][value], remaining - {value};
            if e.entry.expiration < now
            then Walking(items[key := items[key] - {value}], Unlinked(es, e), key, s, all, left, hits, from, now)
            else Walking(items, [e] + Unlinked(es, e), key, s, all, left, hits + [e.entry], from, now)
  {
    var e := items[key][value];
    ElementIsListed(items, es, key, value);
    OneMoreVisited(key, all, remaining, value);
    VisitOne(s, PairsUnder(key, all - remaining), hits, from, mid, e.entry, now);
    if e.entry.expiration < now {
      LinkedAfterRemove(items, es, e);
      assert hits + [] == hits;
    } else {
      LinkedAfterMove(items, es, e);
    }
  }

  lemma EndWalk<K, V>(items: Index<K, V>, es: seq<Element<K, V>>, key: K, s: seq<Entry<K, V>>,
                      all: set<V>, hits: seq<Entry<K, V>>, from: int, now: int)
    requires Walking(items, es, key, s, all, {}, hits, from, now)
    ensures Visited(s, PairsUnder(key, all), hits, from, now) && EntriesOf(es) == Fronted(s, PairsUnder(key, all), hits)
    ensures var kept := if items[key] == map[] then items - {key} else items;
            Linked(kept, es) && NoEmptyKeys(kept)
  {
    assert all - {} == all;
    if items[key] == map[] {
      LinkedWithoutEmpty(items, es, key);
    }
  }

  ghost predicate LookedUp<K, V>(op: Op<K, V>, scope: set<K>, from: int, to: int) {
    op.Lookup? && op.scope == scope && op.from == from && op.to == to
  }

  /** The entry leads what else there was of other pairs; if that does not fit, the entry at the back goes. */
  ghost predicate Took<K, V>(maxSize: int, s: seq<Entry<K, V>>, entry: Entry<K, V>, t: seq<Entry<K, V>>) {
    var rest := Without(s, {(entry.key, entry.value)});
    && (|rest| < maxSize ==> t == [entry] + rest)
    && (|rest| >= maxSize ==> t == Before([entry] + rest))
    && (maxSize >= 0 ==> |t| <= maxSize)
  }

  /** Answered are only values of the keys asked for that were live when the call began, and all that are live
      when it ends. */
  ghost predicate AreAnswers<K, V>(s: seq<Entry<K, V>>, asked: set<K>, result: seq<V>, from: int, to: int) {
    && (forall v | v in result :: exists e :: e in s && e.key in asked && e.value == v && from <= e.expiration)
    && (forall e | e in s && e.key in asked && to <= e.expiration :: e.value in result)
  }

  ghost function Matching<K, V>(s: seq<Entry<K, V>>, p: K -> bool): set<K> {
    set k | k in KeysOf(s) && p(k)
  }

  lemma MatchingExactly<K, V>(s: seq<Entry<K, V>>, p: K -> bool)
    ensures Matching(s, p) == set e | e in s && p(e.key) :: e.key
  {
  }

  lemma AnswersInScope<K, V>(s: seq<Entry<K, V>>, scope: set<K>, hits: seq<Entry<K, V>>, from: int, to: int,
                             result: seq<V>)
    requires LegalLookup(s, scope, hits, from, to) && AreValuesOf(result, hits)
    ensures AreAnswers(s, scope, result, from, to)
    ensures Leading(s, AfterLookup(s, scope, hits), hits, scope)
  {
    forall v | v in result ensures exists e :: e in s && e.key in scope && e.value == v && from <= e.expiration {
      var i :| 0 <= i < |result| && result[i] == v;
      assert hits[i] in hits;
    }
    forall e | e in s && e.key in scope && to <= e.expiration ensures e.value in result {
      var i :| 0 <= i < |hits| && hits[i] == e;
      assert result[i] in result;
    }
    AnsweredLead(s, scope, hits);
  }

  lemma AnswersOfKey<K, V>(s: seq<Entry<K, V>>, key: K, hits: seq<Entry<K, V>>, from: int, to: int, result: seq<V>)
    requires LegalLookup(s, {key}, hits, from, to) && AreValuesOf(result, hits)
    ensures NoRepeats(result)
  {
    forall i, j | 0 <= i < j < |result| ensures result[i] != result[j] {
      assert hits[i] in hits && hits[j] in hits;
      assert PairOf(hits[i]) == (key, result[i]) && PairOf(hits[j]) == (key, result[j]);
    }
  }

  lemma IndexedKeys<K, V>(items: Index<K, V>, es: seq<Element<K, V>>)
    requires Linked(items, es) && NoEmptyKeys(items)
    ensures items.Keys == KeysOf(EntriesOf(es))
  {
    var s := EntriesOf(es);
    forall k | k in items ensures k in KeysOf(s) {
      assert items[k] != map[];
      var v :| v in items[k];
      ElementIsListed(items, es, k, v);
      assert items[k][v].entry in s;
    }
    forall k | k in KeysOf(s) ensures k in items {
      var i :| 0 <= i < |s| && s[i].key == k;
      assert Indexed(items, es[i]);
    }
  }

  // ----- The walk of Filter over the keys -----

  /** Of the keys `seen` so far, those that match have been looked up. */
  ghost predicate Filtering<K, V>(t: seq<Entry<K, V>>, s: seq<Entry<K, V>>, seen: set<K>, p: K -> bool,
                                  hits: seq<Entry<K, V>>, from: int, now: int) {
    var scope := set k | k in seen && p(k);
    && Visited(s, InScope(s, scope), hits, from, now)
    && t == Fronted(s, InScope(s, scope), hits)
  }

  lemma StartFilter<K, V>(s: seq<Entry<K, V>>, now: int, p: K -> bool)
    ensures Filtering(s, s, KeysOf(s) - KeysOf(s), p, [], now, now)
  {
    var none := set k | k in KeysOf(s) - KeysOf(s) && p(k);
    assert InScope(s, none) == {};
    NothingVisited(s, now);
  }

  lemma ScopeGrows<K, V>(s: seq<Entry<K, V>>, scope: set<K>, key: K, hits: seq<Entry<K, V>>)
    requires key !in scope && forall e | e in hits :: PairOf(e) in InScope(s, scope)
    ensures InScope(s, scope + {key}) == InScope(s, scope) + InScope(s, {key})
    ensures InScope(s, scope) !! InScope(s, {key})
    ensures InScope(Fronted(s, InScope(s, scope), hits), {key}) == InScope(s, {key})
  {
    var t := Fronted(s, InScope(s, scope), hits);
    FrontedMembers(s, InScope(s, scope), hits);
    forall e: Entry<K, V> | e.key == key ensures e in t <==> e in s {
      assert PairOf(e) !in InScope(s, scope);
    }
    forall p | p in InScope(t, {key}) ensures p in InScope(s, {key}) {
      var e :| e in t && e.key == key && PairOf(e) == p;
      assert e in s;
    }
    forall p | p in InScope(s, {key}) ensures p in InScope(t, {key}) {
      var e :| e in s && e.key == key && PairOf(e) == p;
      assert e in t;
    }
  }

  lemma FilterOn<K, V>(t: seq<Entry<K, V>>, s: seq<Entry<K, V>>, remaining: set<K>, key: K, p: K -> bool,
                       hits: seq<Entry<K, V>>, from: int, mid: int, more: seq<Entry<K, V>>, now: int)
    requires Filtering(t, s, KeysOf(s) - remaining, p, hits, from, mid)
    requires key in remaining && remaining <= KeysOf(s) && p(key)
    requires Visited(t, InScope(t, {key}), more, mid, now)
    ensures Filtering(Fronted(t, InScope(t, {key}), more), s, KeysOf(s) - (remaining - {key}), p, hits + more, from,
                      now)
  {
    var scope := set k | k in KeysOf(s) - remaining && p(k);
    ScopeGrows(s, scope, key, hits);
    VisitMore(s, InScope(s, scope), hits, from, mid, InScope(s, {key}), more, now);
    assert scope + {key} == set k | k in KeysOf(s) - (remaining - {key}) && p(k);
  }

  lemma FilterPast<K, V>(s: seq<Entry<K, V>>, remaining: set<K>, key: K, p: K -> bool)
    requires !p(key)
    ensures (set k | k in KeysOf(s) - remaining && p(k)) == (set k | k in KeysOf(s) - (remaining - {key}) && p(k))
  {
  }

  lemma AppendValues<K, V>(vs: seq<V>, s: seq<Entry<K, V>>, ws: seq<V>, t: seq<Entry<K, V>>)
    requires AreValuesOf(vs, s) && AreValuesOf(ws, t)
    ensures AreValuesOf(vs + ws, s + t)
  {
  }

  // ----- The walk of the cleanup -----

  ghost predicate Cleaning<K, V>(t: seq<Entry<K, V>>, s: seq<Entry<K, V>>, visited: set<(K, V)>,
                                 dropped: set<(K, V)>, from: int, now: int) {
    && Distinct(s) && from <= now
    && t == Without(s, dropped)
    && dropped <= visited && dropped <= Pairs(s)
    && (forall e | e in s && PairOf(e) in dropped :: e.expiration < now)
    && (forall e | e in s && PairOf(e) in visited && e.expiration < from :: PairOf(e) in dropped)
  }

  ghost predicate KeyOpen<K, V>(items: Index<K, V>, es: seq<Element<K, V>>, key: K, left: set<V>) {
    && key in items && left <= items[key].Keys
    && Linked(items, es) && NoEmptyKeysBut(items, key)
  }

  lemma StartCleaning<K, V>(s: seq<Entry<K, V>>, now: int)
    requires Distinct(s)
    ensures Cleaning(s, s, InScope(s, KeysOf(s) - KeysOf(s)), {}, now, now)
  {
    WithoutNone(s, {});
    assert InScope(s, KeysOf(s) - KeysOf(s)) == {};
  }

  lemma EndCleaning<K, V>(s: seq<Entry<K, V>>, dropped: set<(K, V)>, from: int, now: int)
    requires Cleaning(Without(s, dropped), s, InScope(s, KeysOf(s) - {}), dropped, from, now)
    ensures LegalCleanup(s, dropped, from, now)
  {
    assert forall e | e in s :: PairOf(e) in InScope(s, KeysOf(s) - {});
  }

  /** The values found under a key not yet visited are those it had to begin with. */
  lemma StartKey<K, V>(items: Index<K, V>, es: seq<Element<K, V>>, key: K, s: seq<Entry<K, V>>, remaining: set<K>,
                       dropped: set<(K, V)>, from: int, now: int)
    requires Linked(items, es) && key in items && key in remaining && remaining <= KeysOf(s)
    requires Cleaning(EntriesOf(es), s, InScope(s, KeysOf(s) - remaining), dropped, from, now)
    ensures var visited, all := InScope(s, KeysOf(s) - remaining), items[key].Keys;
            && (forall v :: (key, v) !in visited)
            && visited + PairsUnder(key, all - all) == visited
            && visited + PairsUnder(key, all - {}) == InScope(s, KeysOf(s) - (remaining - {key}))
  {
    var visited, all, t := InScope(s, KeysOf(s) - remaining), items[key].Keys, EntriesOf(es);
    assert all - all == {} && all - {} == all && PairsUnder<K, V>(key, {}) == {};
    ScopeOfKey(items, es, key);
    WithoutMembers(s, dropped);
    forall p | p in InScope(s, {key}) ensures p in InScope(t, {key}) {
      var e :| e in s && e.key == key && PairOf(e) == p;
      assert e in t;
    }
    assert InScope(s, {key}) == PairsUnder(key, all);
    assert InScope(s, KeysOf(s) - (remaining - {key})) == visited + InScope(s, {key});
  }

  lemma CleanOn<K, V>(items: Index<K, V>, es: seq<Element<K, V>>, key: K, value: V, s: seq<Entry<K, V>>,
                      visited: set<(K, V)>, all: set<V>, left: set<V>, dropped: set<(K, V)>, from: int, mid: int,
                      now: int)
    requires KeyOpen(items, es, key, left) && value in left && left <= all && (key, value) !in visited
    requires Cleaning(EntriesOf(es), s, visited + PairsUnder(key, all - left), dropped, from, mid) && mid <= now
    ensures items[key][value] in es
    ensures var e, seen := items[key][value], visited + PairsUnder(key, all - (left - {value}));
            if e.entry.expiration < now
            then KeyOpen(items[key := items[key] - {value}], Unlinked(es, e), key, left - {value}) &&
                 Cleaning(EntriesOf(Unlinked(es, e)), s, seen, dropped + {(key, value)}, from, now)
            else KeyOpen(items, es, key, left - {value}) &&
                 Cleaning(EntriesOf(es), s, seen, dropped, from, now)
  {
    var e, p := items[key][value], (key, value);
    ElementIsListed(items, es, key, value);
    OneMoreVisited(key, all, left, value);
    CleanOne(s, EntriesOf(es), visited + PairsUnder(key, all - left), dropped, from, mid, e.entry, now);
    assert visited + PairsUnder(key, all - (left - {value})) == visited + PairsUnder(key, all - left) + {p};
    if e.entry.expiration < now {
      LinkedAfterRemove(items, es, e);
    }
  }

  lemma CleanOne<K, V>(s: seq<Entry<K, V>>, t: seq<Entry<K, V>>, visited: set<(K, V)>, dropped: set<(K, V)>,
                       from: int, mid: int, e: Entry<K, V>, now: int)
    requires Cleaning(t, s, visited, dropped, from, mid) && mid <= now && e in t
    ensures if e.expiration < now
            then Cleaning(Without(t, {PairOf(e)}), s, visited + {PairOf(e)}, dropped + {PairOf(e)}, from, now)
            else Cleaning(t, s, visited + {PairOf(e)}, dropped, from, now)
  {
    WithoutMembers(s, dropped);
    WithoutWithout(s, dropped, {PairOf(e)});
    forall x | x in s && PairOf(x) == PairOf(e) ensures x == e {
    }
  }

  lemma EndKey<K, V>(items: Index<K, V>, es: seq<Element<K, V>>, key: K)
    requires KeyOpen(items, es, key, {})
    ensures var kept := if items[key] == map[] then items - {key} else items;
            Linked(kept, es) && NoEmptyKeys(kept)
  {
    if items[key] == map[] {
      LinkedWithoutEmpty(items, es, key);
    }
  }

  class TTLCache<K(==), V(==)> {
    var items: Index<K, V>
    const lru: LruList<K, V>
    const maxSize: int
    const clock: WallClock
    ghost var log: seq<Op<K, V>>

    ghost function Contents(): seq<Entry<K, V>>
      reads lru
    {
      EntriesOf(lru.elems)
    }

    ghost predicate Consistent()
      reads this`items, lru
    {
      Linked(items, lru.elems) && NoEmptyKeys(items)
    }

    /** Between operations the index and the list agree, and the list is where the logged run
        of operations ends. */
    ghost predicate Valid()
      reads this, lru, clock
    {
      && Consistent()
      && LegalRun(Capacity(maxSize), log)
      && EndsBy(log, clock.now)
      && Contents() == State(Capacity(maxSize), log)
    }

    constructor (maxSize: int, clock: WallClock)
      ensures Valid() && log == [] && this.maxSize == maxSize && this.clock == clock && fresh(lru)
    {
      this.items := map[];
      this.lru := new LruList<K, V>();
      this.maxSize := maxSize;
      this.clock := clock;
      this.log := [];
    }

    /** Add the value under its key, or renew it, and evict from the back of a full list. */
    method Insert(key: K, value: V, ttl: int)
      requires Valid()
      modifies this, lru, clock
      ensures Valid() && old(clock.now) <= clock.now
      ensures log != [] && Before(log) == old(log)
      ensures Last(log) == Op.Insert(Entry(key, value, clock.now + ttl), clock.now)
      ensures Contents() == AfterInsert(Capacity(maxSize), old(Contents()), Entry(key, value, clock.now + ttl))
      ensures Took(maxSize, old(Contents()), Entry(key, value, clock.now + ttl), Contents())
    {
      assert |lru.elems| <= Capacity(maxSize) by {
        RunKeepsShape(Capacity(maxSize), log);
      }
      var entry := Store(key, value, ttl);
      Log(Op.Insert(entry, clock.now));
    }

    /** Record an operation that has been carried out and has ended by now. */
    ghost method Log(op: Op<K, V>)
      requires Consistent() && LegalRun(Capacity(maxSize), log) && EndsBy(log, Start(op))
      requires Legal(State(Capacity(maxSize), log), op) && Start(op) <= End(op) <= clock.now
      requires Contents() == Apply(Capacity(maxSize), State(Capacity(maxSize), log), op)
      modifies this`log
      ensures Valid() && log != [] && Before(log) == old(log) && Last(log) == op
    {
      AppendOp(log, op, Capacity(maxSize));
      log := log + [op];
    }

    method Store(key: K, value: V, ttl: int) returns (entry: Entry<K, V>)
      requires Consistent() && |lru.elems| <= Capacity(maxSize)
      modifies this`items, lru, clock
      ensures Consistent() && old(clock.now) <= clock.now
      ensures entry == Entry(key, value, clock.now + ttl)
      ensures Contents() == AfterInsert(Capacity(maxSize), old(Contents()), entry)
      ensures Took(maxSize, old(Contents()), entry, Contents())
    {
      entry := Place(key, value, ttl);
      assert |Contents()| <= Capacity(maxSize) + 1 by {
        WithoutMembers(old(Contents()), {PairOf(entry)});
      }
      if |lru.elems| > maxSize {
        Evict();
      }
    }

    /** Insert up to the size check: the entry displaces an older one of its pair and leads. */
    method Place(key: K, value: V, ttl: int) returns (entry: Entry<K, V>)
      requires Consistent()
      modifies this`items, lru, clock
      ensures Consistent() && old(clock.now) <= clock.now
      ensures entry == Entry(key, value, clock.now + ttl)
      ensures Contents() == [entry] + Without(old(Contents()), {PairOf(entry)})
    {
      ghost var before := lru.elems;
      if key !in items {
        items := items[key := map[]];
      }
      ghost var indexed := items;
      if value in items[key] {
        lru.Remove(items[key][value]);
      }
      var now := clock.Read();
      entry := Entry(key, value, now + ttl);
      var elem := lru.PushFront(entry);
      items := items[key := items[key][value := elem]];
      LinkedAfterInsert(indexed, before, elem);
    }

    /** One turn of the walk: an expired value is removed, a live one is added to the result and
        becomes the most recently used. */
    method VisitValue(key: K, value: V, result: seq<V>, ghost s: seq<Entry<K, V>>, ghost all: set<V>,
                      ghost remaining: set<V>, ghost hits: seq<Entry<K, V>>, ghost from: int)
      returns (result': seq<V>, ghost hits': seq<Entry<K, V>>)
      requires value in remaining && remaining <= all && AreValuesOf(result, hits)
      requires Walking(items, lru.elems, key, s, all, remaining, hits, from, clock.now)
      modifies this`items, lru, clock
      ensures old(clock.now) <= clock.now && AreValuesOf(result', hits')
      ensures Walking(items, lru.elems, key, s, all, remaining - {value}, hits', from, clock.now)
    {
      var lruElem := items[key][value];
      ghost var mid := clock.now;
      var now := clock.Read();
      WalkOn(items, lru.elems, key, s, all, remaining, hits, from, mid, value, now);
      result', hits' := result, hits;
      if now > lruElem.entry.expiration {
        lru.Remove(lruElem);
        items := items[key := items[key] - {value}];
      } else {
        AppendValue(result, hits, lruElem.entry);
        result', hits' := result + [lruElem.entry.value], hits + [lruElem.entry];
        lru.MoveToFront(lruElem);
      }
    }

    /** The unexpired values of one key, each moved to the front as the walk meets it. */
    method GetUnsafe(key: K) returns (result: seq<V>, ghost hits: seq<Entry<K, V>>)
      requires Consistent()
      modifies this`items, lru, clock
      ensures Consistent() && old(clock.now) <= clock.now
      ensures Visited(old(Contents()), InScope(old(Contents()), {key}), hits, old(clock.now), clock.now)
      ensures Contents() == Fronted(old(Contents()), InScope(old(Contents()), {key}), hits)
      ensures AreValuesOf(result, hits)
    {
      result, hits := [], [];
      ghost var s, from := Contents(), clock.now;
      StartWalk(items, lru.elems, key, from);
      if key !in items {
        return;
      }
      ghost var all := items[key].Keys;
      var remaining := items[key].Keys;
      while remaining != {}
        invariant remaining <= all && from <= clock.now
        invariant Walking(items, lru.elems, key, s, all, remaining, hits, from, clock.now)
        invariant AreValuesOf(result, hits)
      {
        var value :| value in remaining;
        result, hits := VisitValue(key, value, result, s, all, remaining, hits, from);
        remaining := remaining - {value};
      }
      EndWalk(items, lru.elems, key, s, all, hits, from, clock.now);
      if |items[key]| == 0 {
        items := items - {key};
      }
    }

    /** The unexpired values under a key; the expired ones are removed. */
    method Get(key: K) returns (result: seq<V>)
      requires Valid()
      modifies this, lru, clock
      ensures Valid()
      ensures log != [] && Before(log) == old(log)
      ensures LookedUp(Last(log), {key}, old(clock.now), clock.now) && AreValuesOf(result, Last(log).hits)
      ensures AreAnswers(old(Contents()), {key}, result, old(clock.now), clock.now) && NoRepeats(result)
      ensures Leading(old(Contents()), Contents(), Last(log).hits, {key})
    {
      ghost var s, from := Contents(), clock.now;
      ghost var hits;
      result, hits := GetUnsafe(key);
      LogLookup({key}, hits, from);
      AnswersInScope(s, {key}, hits, from, clock.now, result);
      AnswersOfKey(s, key, hits, from, clock.now, result);
    }

    /** The unexpired values under every key that satisfies the predicate, key by key. */
    method Filter(matches: K -> bool) returns (result: seq<V>)
      requires Valid()
      modifies this, lru, clock
      ensures Valid()
      ensures log != [] && Before(log) == old(log)
      ensures LookedUp(Last(log), Matching(old(Contents()), matches), old(clock.now), clock.now)
      ensures AreValuesOf(result, Last(log).hits)
      ensures var asked := set e | e in old(Contents()) && matches(e.key) :: e.key;
              && AreAnswers(old(Contents()), asked, result, old(clock.now), clock.now)
              && Leading(old(Contents()), Contents(), Last(log).hits, asked)
    {
      ghost var s, from := Contents(), clock.now;
      ghost var hits;
      result, hits := FilterUnsafe(matches);
      LogLookup(Matching(s, matches), hits, from);
      AnswersInScope(s, Matching(s, matches), hits, from, clock.now, result);
      MatchingExactly(s, matches);
    }

    method FilterUnsafe(matches: K -> bool) returns (result: seq<V>, ghost hits: seq<Entry<K, V>>)
      requires Consistent()
      modifies this`items, lru, clock
      ensures Consistent() && old(clock.now) <= clock.now
      ensures var s, scope := old(Contents()), Matching(old(Contents()), matches);
              && Visited(s, InScope(s, scope), hits, old(clock.now), clock.now)
              && Contents() == Fronted(s, InScope(s, scope), hits)
      ensures AreValuesOf(result, hits)
    {
      ghost var s, from := Contents(), clock.now;
      result, hits := [], [];
      StartFilter(s, from, matches);
      IndexedKeys(items, lru.elems);
      var remaining := items.Keys;
      while remaining != {}
        invariant Consistent() && from <= clock.now
        invariant Filtering(Contents(), s, KeysOf(s) - remaining, matches, hits, from, clock.now)
        invariant remaining <= KeysOf(s) && AreValuesOf(result, hits)
      {
        var key :| key in remaining;
        result, hits := FilterKey(key, matches, result, s, remaining, hits, from);
        remaining := remaining - {key};
      }
      assert KeysOf(s) - {} == KeysOf(s);
    }

    method FilterKey(key: K, matches: K -> bool, result: seq<V>, ghost s: seq<Entry<K, V>>,
                     ghost remaining: set<K>, ghost hits: seq<Entry<K, V>>, ghost from: int)
      returns (result': seq<V>, ghost hits': seq<Entry<K, V>>)
      requires key in remaining && remaining <= KeysOf(s) && AreValuesOf(result, hits)
      requires Consistent()
      requires Filtering(Contents(), s, KeysOf(s) - remaining, matches, hits, from, clock.now)
      modifies this`items, lru, clock
      ensures Consistent() && old(clock.now) <= clock.now && AreValuesOf(result', hits')
      ensures Filtering(Contents(), s, KeysOf(s) - (remaining - {key}), matches, hits', from, clock.now)
    {
      ghost var mid, t := clock.now, Contents();
      if matches(key) {
        ghost var more;
        var values;
        values, more := GetUnsafe(key);
        AppendValues(result, hits, values, more);
        FilterOn(t, s, remaining, key, matches, hits, from, mid, more, clock.now);
        result', hits' := result + values, hits + more;
      } else {
        FilterPast(s, remaining, key, matches);
        result', hits' := result, hits;
      }
    }

    /** The periodic tick: the cleanup under the lock. */
    method Cleanup()
      requires Valid()
      modifies this, lru, clock
      ensures Valid()
      ensures log != [] && Before(log) == old(log)
      ensures Last(log).Cleanup? && Last(log).from == old(clock.now) && Last(log).to == clock.now
      ensures forall e | e in Contents() :: e in old(Contents()) && old(clock.now) <= e.expiration
      ensures forall e | e in old(Contents()) && clock.now <= e.expiration :: e in Contents()
    {
      ghost var from := clock.now;
      RunKeepsShape(Capacity(maxSize), log);
      ghost var dropped := CleanupExpired();
      Log(Op.Cleanup(dropped, from, clock.now));
    }

    /** Remove every expired value, in the index and in the list. */
    method CleanupExpired() returns (ghost dropped: set<(K, V)>)
      requires Consistent()
      modifies this`items, lru, clock
      ensures Consistent() && old(clock.now) <= clock.now
      ensures LegalCleanup(old(Contents()), dropped, old(clock.now), clock.now)
      ensures Contents() == Without(old(Contents()), dropped)
      ensures forall e | e in Contents() :: e in old(Contents()) && old(clock.now) <= e.expiration
      ensures forall e | e in old(Contents()) && clock.now <= e.expiration :: e in Contents()
    {
      ghost var s, from := Contents(), clock.now;
      dropped := {};
      LinkedIsDistinct(items, lru.elems);
      StartCleaning(s, from);
      IndexedKeys(items, lru.elems);
      var remaining := items.Keys;
      while remaining != {}
        invariant Consistent() && from <= clock.now
        invariant remaining <= KeysOf(s) && remaining <= items.Keys
        invariant Cleaning(Contents(), s, InScope(s, KeysOf(s) - remaining), dropped, from, clock.now)
      {
        var key :| key in remaining;
        dropped := CleanupKey(key, s, remaining, dropped, from);
        remaining := remaining - {key};
      }
      EndCleaning(s, dropped, from, clock.now);
      WithoutMembers(s, dropped);
    }

    method CleanupKey(key: K, ghost s: seq<Entry<K, V>>, ghost remaining: set<K>, ghost dropped: set<(K, V)>,
                      ghost from: int)
      returns (ghost dropped': set<(K, V)>)
      requires key in remaining && key in items && remaining <= KeysOf(s)
      requires Consistent()
      requires Cleaning(Contents(), s, InScope(s, KeysOf(s) - remaining), dropped, from, clock.now)
      modifies this`items, lru, clock
      ensures Consistent() && old(clock.now) <= clock.now
      ensures old(items.Keys) - {key} <= items.Keys
      ensures Cleaning(Contents(), s, InScope(s, KeysOf(s) - (remaining - {key})), dropped', from, clock.now)
    {
      ghost var visited, all := InScope(s, KeysOf(s) - remaining), items[key].Keys;
      var left := items[key].Keys;
      dropped' := dropped;
      StartKey(items, lru.elems, key, s, remaining, dropped, from, clock.now);
      while left != {}
        invariant left <= all && old(clock.now) <= clock.now && items.Keys == old(items.Keys)
        invariant KeyOpen(items, lru.elems, key, left)
        invariant Cleaning(Contents(), s, visited + PairsUnder(key, all - left), dropped', from, clock.now)
      {
        var value :| value in left;
        dropped' := CleanupValue(key, value, s, visited, all, left, dropped', from);
        left := left - {value};
      }
      EndKey(items, lru.elems, key);
      if |items[key]| == 0 {
        items := items - {key};
      }
    }

    method CleanupValue(key: K, value: V, ghost s: seq<Entry<K, V>>, ghost visited: set<(K, V)>, ghost all: set<V>,
                        ghost left: set<V>, ghost dropped: set<(K, V)>, ghost from: int)
      returns (ghost dropped': set<(K, V)>)
      requires value in left && left <= all && (key, value) !in visited
      requires KeyOpen(items, lru.elems, key, left)
      requires Cleaning(Contents(), s, visited + PairsUnder(key, all - left), dropped, from, clock.now)
      modifies this`items, lru, clock
      ensures items.Keys == old(items.Keys) && old(clock.now) <= clock.now
      ensures KeyOpen(items, lru.elems, key, left - {value})
      ensures Cleaning(Contents(), s, visited + PairsUnder(key, all - (left - {value})), dropped', from, clock.now)
    {
      var lruElem := items[key][value];
      ghost var mid := clock.now;
      var now := clock.Read();
      CleanOn(items, lru.elems, key, value, s, visited, all, left, dropped, from, mid, now);
      dropped' := dropped;
      if now > lruElem.entry.expiration {
        lru.Remove(lruElem);
        items := items[key := items[key] - {value}];
        dropped' := dropped + {(key, value)};
      }
    }

    ghost method LogLookup(scope: set<K>, hits: seq<Entry<K, V>>, from: int)
      requires LegalRun(Capacity(maxSize), log) && EndsBy(log, from)
      requires Consistent()
      requires Visited(State(Capacity(maxSize), log), InScope(State(Capacity(maxSize), log), scope), hits, from,
                       clock.now)
      requires Contents() == AfterLookup(State(Capacity(maxSize), log), scope, hits)
      modifies this`log
      ensures Valid()
      ensures log != [] && Before(log) == old(log)
      ensures Last(log) == Op.Lookup(scope, hits, from, clock.now)
    {
      VisitedInScope(State(Capacity(maxSize), log), scope, hits, from, clock.now);
      Log(Op.Lookup(scope, hits, from, clock.now));
    }

    method Evict()
      requires Consistent()
      modifies this`items, lru
      ensures Consistent()
      ensures Contents() == if old(Contents()) == [] then [] else Before(old(Contents()))
    {
      var lruElem := lru.Back();
      if lruElem == null {
        return;
      }
      var key, value := lruElem.entry.key, lruElem.entry.value;
      LinkedAfterEvict(items, lru.elems);
      items := items[key := items[key] - {value}];
      if |items[key]| == 0 {
        items := items - {key};
      }
      lru.Remove(lruElem);
    }
  }

  lemma ScopeOfKey<K, V>(items: Index<K, V>, es: seq<Element<K, V>>, key: K)
    requires Linked(items, es)
    ensures InScope(EntriesOf(es), {key}) == PairsUnder(key, ValuesUnder(items, key).Keys)
  {
    var s := EntriesOf(es);
    forall p | p in InScope(s, {key}) ensures p in PairsUnder(key, ValuesUnder(items, key).Keys) {
      var i :| 0 <= i < |s| && PairOf(s[i]) == p;
      assert Indexed(items, es[i]);
    }
    forall v | v in ValuesUnder(items, key) ensures (key, v) in InScope(s, {key}) {
      var i :| 0 <= i < |es| && es[i] == items[key][v];
      assert PairOf(s[i]) == (key, v);
    }
  }

  lemma ElementIsListed<K, V>(items: Index<K, V>, es: seq<Element<K, V>>, key: K, value: V)
    requires Linked(items, es) && key in items && value in items[key]
    ensures items[key][value].entry in EntriesOf(es) && PairOf(items[key][value].entry) == (key, value)
  {
    var i :| 0 <= i < |es| && es[i] == items[key][value];
    assert EntriesOf(es)[i] == es[i].entry;
  }

  lemma LinkedAfterEvict<K, V>(items: Index<K, V>, es: seq<Element<K, V>>)
    requires Linked(items, es) && NoEmptyKeys(items) && es != []
    ensures var e := Last(es);
            && Indexed(items, e)
            && var items' := items[e.entry.key := items[e.entry.key] - {e.entry.value}];
               var kept := if items'[e.entry.key] == map[] then items' - {e.entry.key} else items';
               Linked(kept, Unlinked(es, e)) && NoEmptyKeys(kept)
    ensures EntriesOf(Unlinked(es, Last(es))) == Before(EntriesOf(es))
  {
    var e := Last(es);
    LinkedIsDistinct(items, es);
    LinkedAfterRemove(items, es, e);
    BackIsLast(EntriesOf(es));
    var items' := items[e.entry.key := items[e.entry.key] - {e.entry.value}];
    if items'[e.entry.key] == map[] {
      LinkedWithoutEmpty(items', Unlinked(es, e), e.entry.key);
    }
  }

  lemma LinkedWithoutEmpty<K, V>(items: Index<K, V>, es: seq<Element<K, V>>, key: K)
    requires Linked(items, es) && key in items && items[key] == map[]
    ensures Linked(items - {key}, es)
  {
    forall i | 0 <= i < |es| ensures Indexed(items - {key}, es[i]) {
      assert Indexed(items, es[i]);
    }
  }

  lemma AppendOp<K, V>(ops: seq<Op<K, V>>, op: Op<K, V>, cap: nat)
    requires LegalRun(cap, ops) && Legal(State(cap, ops), op) && EndsBy(ops, Start(op))
    ensures LegalRun(cap, ops + [op]) && State(cap, ops + [op]) == Apply(cap, State(cap, ops), op)
  {
    assert Before(ops + [op]) == ops;
  }

  lemma PairNotListed<K, V>(items: Index<K, V>, es: seq<Element<K, V>>, key: K, value: V)
    requires Linked(items, es)
    requires key in items ==> value !in items[key]
    ensures forall e | e in EntriesOf(es) :: PairOf(e) != (key, value)
  {
    forall e | e in EntriesOf(es) ensures PairOf(e) != (key, value) {
      var i :| 0 <= i < |es| && EntriesOf(es)[i] == e;
      assert Indexed(items, es[i]);
    }
  }

  lemma BackIsLast<K, V>(s: seq<Entry<K, V>>)
    requires s != [] && Distinct(s)
    ensures Without(s, {PairOf(Last(s))}) == Before(s)
  {
    assert s == Before(s) + [Last(s)];
    WithoutConcat(Before(s), [Last(s)], {PairOf(Last(s))});
    forall e | e in Before(s) ensures PairOf(e) != PairOf(Last(s)) {
      var i :| 0 <= i < |s| - 1 && s[i] == e;
    }
    WithoutNone(Before(s), {PairOf(Last(s))});
  }
}
