/**
 The connection counters and their differ, updating sets, counts and maps in place. A counter
 stays in the map its window was filled under when the windows move on.
 */
module ConnectionCount {
  import opened Basics
  import opened ConnectionCountSpec

  class ConnectionCounter {
    var sourcePorts: set<int>
    var dnsCounter: nat
    var countMethod: CountMethod

    constructor ()
      ensures View() == NEW_COUNTER
    {
      sourcePorts, dnsCounter, countMethod := {}, 0, Unset;
    }

    ghost function View(): Counter
      reads this
    {
      Counter(sourcePorts, dnsCounter, countMethod)
    }

    method AddConnection(input: Input)
      modifies this
      ensures View() == AfterAdd(old(View()), input)
      ensures input.bySrcPort ==>
                && countMethod == SourcePort && dnsCounter == old(dnsCounter)
                && forall p :: p in sourcePorts <==> p in old(sourcePorts) || p in input.sourcePorts
      ensures !input.bySrcPort ==> sourcePorts == old(sourcePorts)
      ensures !input.bySrcPort && input.byDns && old(countMethod) != SourcePort ==>
                countMethod == DNS && dnsCounter == old(dnsCounter) + 1
      ensures !input.bySrcPort && (!input.byDns || old(countMethod) == SourcePort) ==>
                countMethod == old(countMethod) && dnsCounter == old(dnsCounter)
    {
      if input.bySrcPort {
        countMethod := SourcePort;
        for n := 0 to |input.sourcePorts|
          invariant sourcePorts == old(sourcePorts) + Members(input.sourcePorts[..n])
          invariant countMethod == SourcePort && dnsCounter == old(dnsCounter)
        {
          assert input.sourcePorts[..n + 1] == input.sourcePorts[..n] + [input.sourcePorts[n]];
          sourcePorts := sourcePorts + {input.sourcePorts[n]};
        }
        assert input.sourcePorts[..|input.sourcePorts|] == input.sourcePorts;
        return;
      }
      if (countMethod == Unset || countMethod == DNS) && input.byDns {
        countMethod := DNS;
        dnsCounter := dnsCounter + 1;
        return;
      }
    }

    method GetConnectionCount() returns (count: nat, ok: bool)
      ensures Count(View()) == if ok then Some(count) else None
      ensures ok == (countMethod != Unset)
      ensures count == match countMethod
                       case SourcePort => |sourcePorts|
                       case DNS => dnsCounter
                       case Unset => 0
    {
      if countMethod == SourcePort {
        return |sourcePorts|, true;
      }
      if countMethod == DNS {
        return dnsCounter, true;
      }
      return 0, false;
    }

    method GetConnectionCountDiff(other: ConnectionCounter) returns (diff: Option<ConnectionsCount>)
      ensures diff == CounterDiff(View(), other.View())
      ensures diff.None? <==> countMethod == Unset || other.countMethod == Unset
      ensures countMethod == SourcePort && other.countMethod == SourcePort ==>
                diff == Some(ConnectionsCount(|sourcePorts|, |sourcePorts - other.sourcePorts|,
                                              |other.sourcePorts - sourcePorts|))
      ensures countMethod == DNS && other.countMethod == DNS ==>
                diff == Some(ConnectionsCount(dnsCounter, dnsCounter, other.dnsCounter))
      ensures countMethod == SourcePort && other.countMethod == DNS ==>
                diff == Some(ConnectionsCount(|sourcePorts|, |sourcePorts|, other.dnsCounter))
      ensures countMethod == DNS && other.countMethod == SourcePort ==>
                diff == Some(ConnectionsCount(dnsCounter, dnsCounter, |other.sourcePorts|))
    {
      if countMethod == Unset || other.countMethod == Unset {
        return None;
      }
      var currentCount, _ := GetConnectionCount();
      var otherCount, _ := other.GetConnectionCount();
      if countMethod != other.countMethod {
        return Some(ConnectionsCount(currentCount, currentCount, otherCount));
      }
      if countMethod == DNS {
        return Some(ConnectionsCount(currentCount, currentCount, otherCount));
      }
      var missingFromOtherCount := CountMissing(sourcePorts, other.sourcePorts);
      var missingFromSelfCount := CountMissing(other.sourcePorts, sourcePorts);
      return Some(ConnectionsCount(|sourcePorts|, missingFromOtherCount, missingFromSelfCount));
    }
  }

  lemma MissingMore(ports: set<int>, remaining: set<int>, others: set<int>, key: int)
    requires key in remaining && remaining <= ports
    ensures |ports - (remaining - {key}) - others| == |ports - remaining - others| + if key in others then 0 else 1
  {
    var counted := ports - remaining - others;
    assert ports - (remaining - {key}) - others == if key in others then counted else counted + {key};
  }

  /** How many of `ports` are not in `others`, counted one by one in any order. */
  method CountMissing(ports: set<int>, others: set<int>) returns (missing: nat)
    ensures missing == |ports - others|
  {
    missing := 0;
    var remaining := ports;
    assert ports - remaining - others == {};
    while |remaining| > 0
      invariant remaining <= ports
      invariant missing == |ports - remaining - others|
    {
      assert exists k :: k in remaining by {
        var k := Pick(remaining);
      }
      var key :| key in remaining;
      MissingMore(ports, remaining, others, key);
      remaining := remaining - {key};
      if key !in others {
        missing := missing + 1;
      }
    }
    assert ports - remaining == ports;
  }

  class ConnectionCountDiffer<K(==)> {
    var currentCounters: map<K, ConnectionCounter>
    var previousCounters: map<K, ConnectionCounter>

    /** No counter is shared by two keys or two windows. */
    ghost predicate Valid()
      reads this
    {
      && (forall k, l | k in currentCounters && l in currentCounters && k != l ::
          currentCounters[k] != currentCounters[l])
      && (forall k, l | k in currentCounters && l in previousCounters :: currentCounters[k] != previousCounters[l])
    }

    ghost function Current(): map<K, Counter>
      reads this, currentCounters.Values
    {
      map k | k in currentCounters :: currentCounters[k].View()
    }

    ghost function Previous(): map<K, Counter>
      reads this, previousCounters.Values
    {
      map k | k in previousCounters :: previousCounters[k].View()
    }

    constructor ()
      ensures Valid() && Current() == map[] && Previous() == map[] && currentCounters == map[] &&
              previousCounters == map[]
    {
      currentCounters, previousCounters := map[], map[];
    }

    method Reset()
      requires Valid()
      modifies this
      ensures Valid() && Current() == map[] && Previous() == old(Current())
      ensures previousCounters == old(currentCounters) && currentCounters == map[]
    {
      previousCounters := currentCounters;
      currentCounters := map[];
    }

    method Increment(key: K, input: Input)
      requires Valid()
      modifies this`currentCounters, currentCounters.Values
      ensures Valid() && Previous() == old(Previous())
      ensures var before := if key in old(Current()) then old(Current())[key] else NEW_COUNTER;
              Current() == old(Current())[key := AfterAdd(before, input)]
      ensures fresh(currentCounters.Values - old(currentCounters.Values))
    {
      if key !in currentCounters {
        var counter := new ConnectionCounter();
        currentCounters := currentCounters[key := counter];
      }
      currentCounters[key].AddConnection(input);
    }

    method GetDiff(key: K) returns (diff: Option<ConnectionsCount>)
      requires Valid()
      ensures diff == Diff(At(Current(), key), At(Previous(), key))
    {
      var hasCurrentValue, hasPrevValue := key in currentCounters, key in previousCounters;
      if hasCurrentValue && !hasPrevValue {
        var connectionsCount, isValid := currentCounters[key].GetConnectionCount();
        if isValid {
          return Some(ConnectionsCount(connectionsCount, connectionsCount, 0));
        }
        return None;
      }
      if !hasCurrentValue && hasPrevValue {
        var connectionsCount, isValid := previousCounters[key].GetConnectionCount();
        if isValid {
          return Some(ConnectionsCount(0, 0, connectionsCount));
        }
        return None;
      }
      if hasCurrentValue && hasPrevValue {
        diff := currentCounters[key].GetConnectionCountDiff(previousCounters[key]);
        return;
      }
      return None;
    }
  }
}
