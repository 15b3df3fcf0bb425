/**
 The traffic collector: samples of the last hour per key, pruned by popping the head once per
 stale sample while the loop runs over the samples it started with and re-reads the clock.
 */
module Traffic {
  import opened Basics
  import opened Clock

  const HOUR := 3600

  datatype Key = Key(sourceName: string, sourceNamespace: string, destinationName: string, destinationNamespace: string)

  datatype Sample = Sample(bytes: int, flows: int, at: int)

  datatype Level = Level(bytes: int, flows: int)

  ghost predicate SortedByTime(s: seq<Sample>) {
    forall i, j | 0 <= i < j < |s| :: s[i].at <= s[j].at
  }

  ghost predicate NoneAfter(s: seq<Sample>, now: int) {
    forall i | 0 <= i < |s| :: s[i].at <= now
  }

  predicate Fresh(x: Sample, now: int) {
    now - x.at < HOUR
  }

  // ----- What one walk over the samples does -----

  /** The clock as read at each sample of a walk from `from` to `to`. */
  ghost predicate Readings(s: seq<Sample>, nows: seq<int>, from: int, to: int) {
    && |nows| == |s|
    && (forall i | 0 <= i < |s| :: from <= nows[i] <= to)
    && (forall i, j | 0 <= i < j < |s| :: nows[i] <= nows[j])
  }

  /** The samples found fresh when they were looked at, in order. */
  ghost function Seen(s: seq<Sample>, nows: seq<int>): seq<Sample>
    requires |nows| == |s|
  {
    if s == [] then []
    else Seen(Before(s), Before(nows)) + if Fresh(Last(s), Last(nows)) then [Last(s)] else []
  }

  ghost function StaleCount(s: seq<Sample>, nows: seq<int>): nat
    requires |nows| == |s|
    ensures StaleCount(s, nows) <= |s|
  {
    if s == [] then 0
    else StaleCount(Before(s), Before(nows)) + if Fresh(Last(s), Last(nows)) then 0 else 1
  }

  /** What is left: as many samples are popped off the head as were found stale. */
  ghost function Pruned(s: seq<Sample>, nows: seq<int>): seq<Sample>
    requires |nows| == |s|
  {
    s[StaleCount(s, nows)..]
  }

  ghost function SumBytes(s: seq<Sample>): int {
    if s == [] then 0 else SumBytes(Before(s)) + Last(s).bytes
  }

  ghost function SumFlows(s: seq<Sample>): int {
    if s == [] then 0 else SumFlows(Before(s)) + Last(s).flows
  }

  /** Go's integer division, which truncates toward zero. */
  function Quotient(a: int, b: int): int
    requires b > 0
  {
    if a >= 0 then a / b else -((-a) / b)
  }

  ghost function Average(counted: seq<Sample>): Level
    requires counted != []
  {
    Level(Quotient(SumBytes(counted), |counted|), Quotient(SumFlows(counted), |counted|))
  }

  // ----- Pruning -----

  /** If any sample was found stale, the last of those popped was stale as well, at the end. */
  lemma {:induction false} StaleAreOldest(s: seq<Sample>, nows: seq<int>, now: int)
    requires |nows| == |s| && SortedByTime(s) && forall i | 0 <= i < |s| :: nows[i] <= now
    ensures forall i | 0 <= i < StaleCount(s, nows) :: !Fresh(s[i], now)
  {
    if s != [] {
      var s', nows' := Before(s), Before(nows);
      StaleAreOldest(s', nows', now);
      if !Fresh(Last(s), Last(nows)) {
        forall i | 0 <= i < StaleCount(s, nows) ensures !Fresh(s[i], now) {
          assert s[i].at <= s[|s| - 1].at && nows[|s| - 1] <= now;
        }
      }
    }
  }

  /** Even with the clock moving during the walk, only a prefix is dropped, and nothing in it is
      younger than an hour when the walk ends. */
  lemma PruningIsSafe(s: seq<Sample>, nows: seq<int>, from: int, to: int)
    requires SortedByTime(s) && Readings(s, nows, from, to)
    ensures var n := |s| - |Pruned(s, nows)|;
            && s == s[..n] + Pruned(s, nows)
            && forall i | 0 <= i < n :: to - s[i].at >= 3600
    ensures SortedByTime(Pruned(s, nows))
  {
    StaleAreOldest(s, nows, to);
  }

  lemma {:induction false} FixedClockPrunesUnseen(s: seq<Sample>, nows: seq<int>, now: int)
    requires SortedByTime(s) && Readings(s, nows, now, now)
    ensures Pruned(s, nows) == Seen(s, nows)
  {
    if s != [] {
      var s', nows', x := Before(s), Before(nows), Last(s);
      Rejoin(s);
      FixedClockPrunesUnseen(s', nows', now);
      assert Last(nows) == nows[|s| - 1] == now;
      if Fresh(x, now) {
        DropBefore(s', x, StaleCount(s', nows'));
      } else {
        AllStale(s, nows, now);
        assert s'[StaleCount(s', nows')..] == [];
      }
    }
  }

  lemma DropBefore<T>(s: seq<T>, x: T, n: nat)
    requires n <= |s|
    ensures (s + [x])[n..] == s[n..] + [x]
  {
  }

  lemma {:induction false} SeenAreTheFresh(s: seq<Sample>, nows: seq<int>, now: int)
    requires Readings(s, nows, now, now)
    ensures forall x :: x in Seen(s, nows) <==> x in s && Fresh(x, now)
  {
    if s != [] {
      Rejoin(s);
      assert Last(nows) == nows[|s| - 1] == now;
      SeenAreTheFresh(Before(s), Before(nows), now);
    }
  }

  /** With a clock that stands still, exactly the fresh samples are kept, and they are the ones
      averaged. */
  lemma {:induction false} FixedClockKeepsTheFresh(s: seq<Sample>, nows: seq<int>, now: int)
    requires SortedByTime(s) && Readings(s, nows, now, now)
    ensures Pruned(s, nows) == Seen(s, nows)
    ensures forall x :: x in Pruned(s, nows) <==> x in s && now - x.at < 3600
  {
    FixedClockPrunesUnseen(s, nows, now);
    SeenAreTheFresh(s, nows, now);
  }

  /** Averaged are the samples that were less than an hour old when they were looked at, each once. */
  lemma {:induction false} SeenExactly(s: seq<Sample>, nows: seq<int>, x: Sample)
    requires |nows| == |s|
    ensures x in Seen(s, nows) <==> exists i :: 0 <= i < |s| && s[i] == x && nows[i] - x.at < 3600
  {
    if s != [] {
      SeenExactly(Before(s), Before(nows), x);
      assert forall i | 0 <= i < |s| - 1 :: Before(s)[i] == s[i] && Before(nows)[i] == nows[i];
      assert s[|s| - 1] == Last(s) && nows[|s| - 1] == Last(nows);
    }
  }

  ghost function FreshAt(s: seq<Sample>, nows: seq<int>): set<int>
    requires |nows| == |s|
  {
    set i | 0 <= i < |s| && nows[i] - s[i].at < 3600
  }

  lemma {:induction false} SeenCount(s: seq<Sample>, nows: seq<int>)
    requires |nows| == |s|
    ensures |Seen(s, nows)| == |FreshAt(s, nows)|
  {
    if s == [] {
      assert FreshAt(s, nows) == {};
    } else {
      var n := |s| - 1;
      SeenCount(Before(s), Before(nows));
      FreshAtMore(s, nows);
    }
  }

  lemma FreshAtMore(s: seq<Sample>, nows: seq<int>)
    requires |nows| == |s| && s != []
    ensures |FreshAt(s, nows)| == |FreshAt(Before(s), Before(nows))| + if Fresh(Last(s), Last(nows)) then 1 else 0
  {
    var n, before := |s| - 1, FreshAt(Before(s), Before(nows));
    assert forall i | 0 <= i < n :: Before(s)[i] == s[i] && Before(nows)[i] == nows[i];
    assert FreshAt(s, nows) == before + if Fresh(s[n], nows[n]) then {n} else {};
  }

  lemma {:induction false} AllStale(s: seq<Sample>, nows: seq<int>, now: int)
    requires s != [] && SortedByTime(s) && Readings(s, nows, now, now) && !Fresh(Last(s), now)
    ensures StaleCount(s, nows) == |s|
  {
    if |s| > 1 {
      assert s[|s| - 2].at <= s[|s| - 1].at;
      AllStale(Before(s), Before(nows), now);
    }
    assert nows[|s| - 1] == now;
  }

  // ----- Averages -----

  lemma Cancel(x: int, y: int, c: int)
    requires c > 0 && x * c < (y + 1) * c
    ensures x <= y
  {
    var d := x - (y + 1);
    assert d * c == x * c - (y + 1) * c;
    assert d >= 0 ==> d * c >= 0;
  }

  lemma DivisionBounds(a: int, c: int)
    requires c > 0
    ensures (a / c) * c <= a < (a / c + 1) * c
  {
    assert a == (a / c) * c + a % c;
  }

  lemma QuotientBetween(sum: int, count: int, lo: int, hi: int)
    requires count > 0 && lo * count <= sum <= hi * count
    ensures lo <= Quotient(sum, count) <= hi
  {
    if sum >= 0 {
      DivisionBounds(sum, count);
      Cancel(lo, sum / count, count);
      assert (hi + 1) * count == hi * count + count;
      Cancel(sum / count, hi, count);
    } else {
      DivisionBounds(-sum, count);
      assert (-hi) * count == -(hi * count) && (-lo + 1) * count == -(lo * count) + count;
      Cancel(-hi, (-sum) / count, count);
      Cancel((-sum) / count, -lo, count);
    }
  }

  /** The quotient is the one whose remainder has the sign of the dividend. */
  lemma QuotientTruncates(a: int, b: int)
    requires b > 0
    ensures var r := a - Quotient(a, b) * b; if a >= 0 then 0 <= r < b else -b < r <= 0
  {
    if a >= 0 {
      DivisionBounds(a, b);
      assert (a / b + 1) * b == (a / b) * b + b;
    } else {
      DivisionBounds(-a, b);
      assert ((-a) / b + 1) * b == ((-a) / b) * b + b;
      assert -((-a) / b) * b == -(((-a) / b) * b);
    }
  }

  /** The sums are over all samples, in any grouping. */
  lemma {:induction false} SumsAdd(s: seq<Sample>, t: seq<Sample>)
    ensures SumBytes(s + t) == SumBytes(s) + SumBytes(t) && SumFlows(s + t) == SumFlows(s) + SumFlows(t)
  {
    if t == [] {
      assert s + t == s;
    } else {
      assert Before(s + t) == s + Before(t);
      SumsAdd(s, Before(t));
    }
  }

  lemma SumsOfOne(x: Sample)
    ensures SumBytes([x]) == x.bytes && SumFlows([x]) == x.flows
  {
    assert Before([x]) == [];
  }

  /** An average is the sum divided by the number of samples, truncated toward zero. */
  lemma AverageTruncates(counted: seq<Sample>)
    requires counted != []
    ensures var n, a := |counted|, Average(counted);
            var rb, rf := SumBytes(counted) - a.bytes * n, SumFlows(counted) - a.flows * n;
            && (if SumBytes(counted) >= 0 then 0 <= rb < n else -n < rb <= 0)
            && (if SumFlows(counted) >= 0 then 0 <= rf < n else -n < rf <= 0)
  {
    QuotientTruncates(SumBytes(counted), |counted|);
    QuotientTruncates(SumFlows(counted), |counted|);
  }

  lemma TimesNext(a: int, n: nat)
    ensures a * (n + 1) == a * n + a
  {
  }

  lemma {:induction false} SumBytesBetween(s: seq<Sample>, lo: int, hi: int)
    requires forall x | x in s :: lo <= x.bytes <= hi
    ensures lo * |s| <= SumBytes(s) <= hi * |s|
  {
    if s != [] {
      Rejoin(s);
      SumBytesBetween(Before(s), lo, hi);
      TimesNext(lo, |Before(s)|);
      TimesNext(hi, |Before(s)|);
    }
  }

  lemma {:induction false} SumFlowsBetween(s: seq<Sample>, lo: int, hi: int)
    requires forall x | x in s :: lo <= x.flows <= hi
    ensures lo * |s| <= SumFlows(s) <= hi * |s|
  {
    if s != [] {
      Rejoin(s);
      SumFlowsBetween(Before(s), lo, hi);
      TimesNext(lo, |Before(s)|);
      TimesNext(hi, |Before(s)|);
    }
  }

  /** A reported average lies between the least and the greatest of the samples it averages. */
  lemma AverageIsBetween(counted: seq<Sample>, lo: Level, hi: Level)
    requires counted != []
    requires forall x | x in counted :: lo.bytes <= x.bytes <= hi.bytes && lo.flows <= x.flows <= hi.flows
    ensures lo.bytes <= Average(counted).bytes <= hi.bytes && lo.flows <= Average(counted).flows <= hi.flows
  {
    SumBytesBetween(counted, lo.bytes, hi.bytes);
    SumFlowsBetween(counted, lo.flows, hi.flows);
    QuotientBetween(SumBytes(counted), |counted|, lo.bytes, hi.bytes);
    QuotientBetween(SumFlows(counted), |counted|, lo.flows, hi.flows);
  }

  // ----- The collector -----

  /** One more sample of a walk. */
  lemma WalkMore(v: seq<Sample>, n: nat, nows: seq<int>, now: int)
    requires |nows| == n < |v|
    ensures var seen, seen' := Seen(v[..n], nows), Seen(v[..n + 1], nows + [now]);
            var stale, stale' := StaleCount(v[..n], nows), StaleCount(v[..n + 1], nows + [now]);
            if Fresh(v[n], now)
            then stale' == stale && |seen'| == |seen| + 1 &&
                 SumBytes(seen') == SumBytes(seen) + v[n].bytes && SumFlows(seen') == SumFlows(seen) + v[n].flows
            else stale' == stale + 1 && seen' == seen && v[stale..][1..] == v[stale'..]
  {
    assert Before(v[..n + 1]) == v[..n] && Before(nows + [now]) == nows;
    var seen := Seen(v[..n], nows);
    assert Before(seen + [v[n]]) == seen;
    assert seen + [] == seen;
  }

  lemma ReadingsMore(v: seq<Sample>, n: nat, nows: seq<int>, now: int, from: int, to: int)
    requires n < |v| && Readings(v[..n], nows, from, to) && from <= to <= now
    ensures Readings(v[..n + 1], nows + [now], from, now)
  {
  }

  /** Keeping a suffix of the samples of one key keeps them all in order and in the past. */
  lemma SuffixStaysValid(s: seq<Sample>, n: nat, now: int, later: int)
    requires n <= |s| && SortedByTime(s) && NoneAfter(s, now) && now <= later
    ensures SortedByTime(s[n..]) && NoneAfter(s[n..], later)
  {
  }

  class Collector {
    var trafficLevels: map<Key, seq<Sample>>
    const clock: WallClock

    /** Samples are in the order they were taken, and none is from the future. */
    ghost predicate Valid()
      reads this, clock
    {
      forall k | k in trafficLevels :: SortedByTime(trafficLevels[k]) && NoneAfter(trafficLevels[k], clock.now)
    }

    constructor (clock: WallClock)
      ensures Valid() && trafficLevels == map[] && this.clock == clock
    {
      trafficLevels := map[];
      this.clock := clock;
    }

    method Add(key: Key, bytes: int, flows: int)
      requires Valid()
      modifies this, clock
      ensures Valid() && old(clock.now) <= clock.now
      ensures trafficLevels == old(trafficLevels)[key :=
                (if key in old(trafficLevels) then old(trafficLevels)[key] else []) + [Sample(bytes, flows, clock.now)]]
    {
      var now := clock.Read();
      var samples := if key in trafficLevels then trafficLevels[key] else [];
      trafficLevels := trafficLevels[key := samples + [Sample(bytes, flows, now)]];
    }

    /** Prune every key and average what was found fresh; a key with nothing fresh is left out of
        the result but stays, empty, in the collector. */
    method GetTrafficMap() returns (levels: map<Key, Level>, ghost nows: map<Key, seq<int>>)
      requires Valid()
      modifies this, clock
      ensures Valid() && old(clock.now) <= clock.now
      ensures nows.Keys == trafficLevels.Keys == old(trafficLevels).Keys
      ensures Collected(old(trafficLevels), {}, trafficLevels, nows, old(clock.now), clock.now)
      ensures Levelled(old(trafficLevels), nows, levels)
    {
      levels, nows := map[], map[];
      var remaining := trafficLevels.Keys;
      ghost var start, from := trafficLevels, clock.now;
      while |remaining| > 0
        invariant Valid() && from <= clock.now
        invariant remaining <= start.Keys && nows.Keys == start.Keys - remaining && trafficLevels.Keys == start.Keys
        invariant Collected(start, remaining, trafficLevels, nows, from, clock.now)
        invariant Levelled(start, nows, levels)
      {
        assert exists k :: k in remaining by {
          var k := Pick(remaining);
        }
        var k :| k in remaining;
        levels, nows := CollectKey(k, levels, start, remaining, nows, from);
        remaining := remaining - {k};
      }
    }

    method CollectKey(k: Key, levels: map<Key, Level>, ghost start: map<Key, seq<Sample>>, ghost remaining: set<Key>,
                      ghost nows: map<Key, seq<int>>, ghost from: int)
      returns (levels': map<Key, Level>, ghost nows': map<Key, seq<int>>)
      requires Valid() && from <= clock.now
      requires k in remaining && remaining <= start.Keys && nows.Keys == start.Keys - remaining &&
               trafficLevels.Keys == start.Keys
      requires Collected(start, remaining, trafficLevels, nows, from, clock.now) && Levelled(start, nows, levels)
      modifies this, clock
      ensures Valid() && from <= clock.now
      ensures nows'.Keys == start.Keys - (remaining - {k}) && trafficLevels.Keys == start.Keys
      ensures Collected(start, remaining - {k}, trafficLevels, nows', from, clock.now) &&
              Levelled(start, nows', levels')
    {
      var level: Option<Level>;
      ghost var read;
      ghost var before, mid := trafficLevels, clock.now;
      level, read := WalkKey(k);
      nows' := nows[k := read];
      levels' := if level.Some? then levels[k := level.value] else levels;
      CollectedMore(start, remaining, before, trafficLevels, nows, k, read, from, mid, clock.now);
      LevelledMore(start, nows, levels, k, read, level);
    }

    /** The walk over the samples of one key. */
    method WalkKey(k: Key) returns (level: Option<Level>, ghost nows: seq<int>)
      requires Valid() && k in trafficLevels
      modifies this, clock
      ensures Valid() && old(clock.now) <= clock.now
      ensures Readings(old(trafficLevels)[k], nows, old(clock.now), clock.now)
      ensures trafficLevels == old(trafficLevels)[k := Pruned(old(trafficLevels)[k], nows)]
      ensures Averaged(old(trafficLevels)[k], nows, level)
    {
      var v := trafficLevels[k];
      ghost var start, from := trafficLevels, clock.now;
      var sumBytes, sumFlows, count := 0, 0, 0;
      nows := [];
      for n := 0 to |v|
        invariant Readings(v[..n], nows, from, clock.now) && from <= clock.now
        invariant trafficLevels == start[k := v[StaleCount(v[..n], nows)..]]
        invariant var seen := Seen(v[..n], nows);
                  sumBytes == SumBytes(seen) && sumFlows == SumFlows(seen) && count == |seen|
      {
        var data := v[n];
        ghost var to := clock.now;
        var now := clock.Read();
        WalkMore(v, n, nows, now);
        ReadingsMore(v, n, nows, now, from, to);
        nows := nows + [now];
        if now - data.at < HOUR {
          sumBytes := sumBytes + data.bytes;
          sumFlows := sumFlows + data.flows;
          count := count + 1;
        } else {
          trafficLevels := trafficLevels[k := trafficLevels[k][1..]];
        }
      }
      assert v[..|v|] == v;
      SuffixStaysValid(v, StaleCount(v, nows), from, clock.now);
      SeenCount(v, nows);
      level := if count > 0 then Some(Level(Quotient(sumBytes, count), Quotient(sumFlows, count))) else None;
    }
  }

  /** There is a level exactly if some sample was fresh, and it is the average of those. */
  ghost predicate Averaged(s: seq<Sample>, nows: seq<int>, level: Option<Level>)
    requires |nows| == |s|
  {
    && (level.Some? <==> FreshAt(s, nows) != {})
    && (level.Some? ==> Seen(s, nows) != [] && level.value == Average(Seen(s, nows)))
  }

  /** The keys no longer `remaining` have been pruned; the others are as they were. */
  ghost predicate Collected(start: map<Key, seq<Sample>>, remaining: set<Key>, kept: map<Key, seq<Sample>>,
                            nows: map<Key, seq<int>>, from: int, to: int)
    requires kept.Keys == start.Keys && nows.Keys == start.Keys - remaining && remaining <= start.Keys
  {
    && (forall k | k in remaining :: kept[k] == start[k])
    && (forall k | k in nows :: Readings(start[k], nows[k], from, to) && kept[k] == Pruned(start[k], nows[k]))
  }

  /** And of each of them that had a fresh sample the average of those is reported. */
  ghost predicate Levelled(start: map<Key, seq<Sample>>, nows: map<Key, seq<int>>, levels: map<Key, Level>)
    requires nows.Keys <= start.Keys && forall k | k in nows :: |nows[k]| == |start[k]|
  {
    && (forall k :: k in levels <==> k in nows && FreshAt(start[k], nows[k]) != {})
    && (forall k | k in levels :: Seen(start[k], nows[k]) != [] && levels[k] == Average(Seen(start[k], nows[k])))
  }

  lemma CollectedMore(start: map<Key, seq<Sample>>, remaining: set<Key>, before: map<Key, seq<Sample>>,
                      after: map<Key, seq<Sample>>,
                      nows: map<Key, seq<int>>, k: Key, read: seq<int>, from: int, mid: int, to: int)
    requires before.Keys == start.Keys && nows.Keys == start.Keys - remaining && k in remaining &&
             remaining <= start.Keys
    requires Collected(start, remaining, before, nows, from, mid) && from <= mid <= to
    requires Readings(before[k], read, mid, to) && after == before[k := Pruned(before[k], read)]
    ensures nows[k := read].Keys == start.Keys - (remaining - {k})
    ensures Collected(start, remaining - {k}, after, nows[k := read], from, to)
  {
    assert k !in nows && before[k] == start[k];
  }

  lemma LevelledMore(start: map<Key, seq<Sample>>, nows: map<Key, seq<int>>, levels: map<Key, Level>, k: Key,
                     read: seq<int>, level: Option<Level>)
    requires nows.Keys <= start.Keys && forall j | j in nows :: |nows[j]| == |start[j]|
    requires Levelled(start, nows, levels)
    requires k in start && k !in nows && |read| == |start[k]| && Averaged(start[k], read, level)
    ensures Levelled(start, nows[k := read], if level.Some? then levels[k := level.value] else levels)
  {
  }
}
