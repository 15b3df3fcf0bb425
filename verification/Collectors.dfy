/**
 The collector both sniffers record their captured requests in, updated in place, and the loops
 that group the requests by source for a report. Go walks its maps in any order, and so do these.
 */
module Collectors {
  import opened Basics
  import opened CaptureSpec

  // ----- Grouping loops -----

  type Source = (string, string)

  function SourceOf(r: UniqueRequest): Source {
    (r.srcIP, r.srcHostname)
  }

  ghost function ResultFor(src: Source, ds: seq<Destination>): RecordedDestinationsForSrc {
    RecordedDestinationsForSrc(src.0, src.1, ds)
  }

  /** The requests `done` so far are grouped by source. */
  ghost predicate Grouped(m: CapturesMap, done: set<UniqueRequest>, groups: map<Source, seq<Destination>>) {
    && (forall src | src in groups ::
        groups[src] != [] && DestinationsOf(Restricted(m, done), ResultFor(src, groups[src])))
    && (forall r | r in m && r in done :: SourceOf(r) in groups)
  }

  lemma DestinationsGrow(m: CapturesMap, done: set<UniqueRequest>, src: Source, ds: seq<Destination>,
                         r: UniqueRequest, d: Destination)
    requires DestinationsOf(Restricted(m, done), ResultFor(src, ds))
    requires r in m && r !in done && SourceOf(r) == src
    requires RequestOf(src.0, src.1, d) == r && Describes(d, m[r])
    ensures DestinationsOf(Restricted(m, done + {r}), ResultFor(src, ds + [d]))
  {
    var was, now := ResultFor(src, ds), ResultFor(src, ds + [d]);
    var m', m'' := Restricted(m, done), Restricted(m, done + {r});
    assert forall i | 0 <= i < |ds| :: RequestAt(now, i) == RequestAt(was, i) && RequestAt(was, i) in m';
    assert RequestAt(now, |ds|) == r;
    forall q | q in m'' && FromSource(q, now) ensures exists i :: 0 <= i < |ds| + 1 && RequestAt(now, i) == q {
      if q != r {
        assert q in m' && FromSource(q, was);
        var i :| 0 <= i < |ds| && RequestAt(was, i) == q;
        assert RequestAt(now, i) == q;
      }
    }
  }

  lemma OtherDestinationsStay(m: CapturesMap, done: set<UniqueRequest>, result: RecordedDestinationsForSrc,
                              r: UniqueRequest)
    requires DestinationsOf(Restricted(m, done), result) && !FromSource(r, result)
    ensures DestinationsOf(Restricted(m, done + {r}), result)
  {
  }

  lemma FirstDestination(m: CapturesMap, done: set<UniqueRequest>, groups: map<Source, seq<Destination>>, src: Source)
    requires Grouped(m, done, groups) && src !in groups
    ensures DestinationsOf(Restricted(m, done), ResultFor(src, []))
  {
    forall r | r in Restricted(m, done) ensures !FromSource(r, ResultFor(src, [])) {
      assert r in m && r in done;
    }
  }

  lemma GroupOneMore(m: CapturesMap, done: set<UniqueRequest>, groups: map<Source, seq<Destination>>,
                     r: UniqueRequest, d: Destination)
    requires Grouped(m, done, groups) && r in m && r !in done
    requires RequestOf(r.srcIP, r.srcHostname, d) == r && Describes(d, m[r])
    ensures var src := SourceOf(r);
            Grouped(m, done + {r}, groups[src := (if src in groups then groups[src] else []) + [d]])
  {
    var src := SourceOf(r);
    var ds := if src in groups then groups[src] else [];
    var groups' := groups[src := ds + [d]];
    if src !in groups {
      FirstDestination(m, done, groups, src);
    }
    DestinationsGrow(m, done, src, ds, r, d);
    forall s | s in groups' && s != src ensures DestinationsOf(Restricted(m, done + {r}), ResultFor(s, groups'[s])) {
      OtherDestinationsStay(m, done, ResultFor(s, groups[s]), r);
    }
  }

  /** The sources `done` so far are listed, each once. */
  ghost predicate Listed(groups: map<Source, seq<Destination>>, done: set<Source>,
                         results: seq<RecordedDestinationsForSrc>) {
    && NoSourceTwice(results)
    && (forall i | 0 <= i < |results| ::
          var src := (results[i].srcIp, results[i].srcHostname);
          src in groups && src in done && results[i] == ResultFor(src, groups[src]))
    && (forall src | src in done :: exists i :: 0 <= i < |results| && (results[i].srcIp, results[i].srcHostname) == src)
  }

  lemma ListOneMore(groups: map<Source, seq<Destination>>, done: set<Source>,
                    results: seq<RecordedDestinationsForSrc>, src: Source)
    requires Listed(groups, done, results) && src in groups && src !in done
    ensures Listed(groups, done + {src}, results + [ResultFor(src, groups[src])])
  {
    var all := results + [ResultFor(src, groups[src])];
    assert (all[|results|].srcIp, all[|results|].srcHostname) == src;
    forall s | s in done ensures exists i :: 0 <= i < |all| && (all[i].srcIp, all[i].srcHostname) == s {
      var i :| 0 <= i < |results| && (results[i].srcIp, results[i].srcHostname) == s;
      assert all[i] == results[i];
    }
  }

  lemma ListedIsGrouped(m: CapturesMap, groups: map<Source, seq<Destination>>, results: seq<RecordedDestinationsForSrc>)
    requires Grouped(m, m.Keys, groups) && Listed(groups, groups.Keys, results)
    ensures Groups(m, results)
  {
    RestrictedToAll(m);
    forall i | 0 <= i < |results| ensures results[i].destinations != [] && DestinationsOf(m, results[i]) {
      var src := (results[i].srcIp, results[i].srcHostname);
      assert results[i] == ResultFor(src, groups[src]);
    }
    forall r | r in m ensures Reported(r, results) {
      var i :| 0 <= i < |results| && (results[i].srcIp, results[i].srcHostname) == SourceOf(r);
      assert FromSource(r, results[i]);
    }
  }

  lemma ListsMore(ks: seq<int>, s: set<int>, k: int)
    requires Lists(ks, s) && k !in s
    ensures Lists(ks + [k], s + {k})
  {
    assert k !in Members(ks);
    assert Members(ks + [k]) == Members(ks) + {k};
  }

  /** The elements of a set in some order. */
  method Keys(s: set<int>) returns (ks: seq<int>)
    ensures Lists(ks, s)
  {
    ks := [];
    var remaining := s;
    while |remaining| > 0
      invariant remaining <= s && Lists(ks, s - remaining)
    {
      assert exists k :: k in remaining by {
        var k := Pick(remaining);
      }
      var k :| k in remaining;
      ListsMore(ks, s - remaining, k);
      assert s - (remaining - {k}) == s - remaining + {k};
      ks := ks + [k];
      remaining := remaining - {k};
    }
    assert s - remaining == s;
  }

  /** One result for each source, in any order. */
  method ListSources(srcToDests: map<Source, seq<Destination>>) returns (results: seq<RecordedDestinationsForSrc>)
    ensures Listed(srcToDests, srcToDests.Keys, results)
  {
    results := [];
    var remaining := srcToDests.Keys;
    assert srcToDests.Keys - remaining == {};
    while |remaining| > 0
      invariant remaining <= srcToDests.Keys
      invariant Listed(srcToDests, srcToDests.Keys - remaining, results)
    {
      assert exists s :: s in remaining by {
        var s := Pick(remaining);
      }
      var src :| src in remaining;
      ListOneMore(srcToDests, srcToDests.Keys - remaining, results, src);
      results := results + [RecordedDestinationsForSrc(src.0, src.1, srcToDests[src])];
      assert srcToDests.Keys - remaining + {src} == srcToDests.Keys - (remaining - {src});
      remaining := remaining - {src};
    }
    assert srcToDests.Keys - remaining == srcToDests.Keys;
  }

  class NetworkCollector {
    var capturedRequests: map<UniqueRequest, TimeAndTTL>

    constructor ()
      ensures capturedRequests == map[]
    {
      capturedRequests := map[];
    }

    method AddCapturedRequest(srcIp: string, srcHost: string, destNameOrIP: string, destIP: string, seenAt: int,
                              ttl: Option<int>, destPort: Option<int>, srcPort: Option<int>)
      modifies this
      ensures capturedRequests == Added(old(capturedRequests),
                Capture(UniqueRequest(srcIp, srcHost, destNameOrIP, destIP, destPort), seenAt, ttl, srcPort))
      ensures var req := UniqueRequest(srcIp, srcHost, destNameOrIP, destIP, destPort);
              var before := if req in old(capturedRequests) then old(capturedRequests)[req].srcPorts else {};
              var ports := if srcPort.Some? then before + {srcPort.value} else before;
              capturedRequests == old(capturedRequests)[req := TimeAndTTL(seenAt, ttl, ports)]
    {
      var req := UniqueRequest(srcIp, srcHost, destNameOrIP, destIP, destPort);
      if req in capturedRequests {
        var existingSet := capturedRequests[req].srcPorts;
        if srcPort.Some? {
          existingSet := existingSet + {srcPort.value};
        }
        assert existingSet == capturedRequests[req].srcPorts + Ports(Capture(req, seenAt, ttl, srcPort));
        capturedRequests := capturedRequests[req := TimeAndTTL(seenAt, ttl, existingSet)];
        return;
      }
      var newSet := {};
      if srcPort.Some? {
        newSet := newSet + {srcPort.value};
      }
      assert newSet == {} + Ports(Capture(req, seenAt, ttl, srcPort));
      capturedRequests := capturedRequests[req := TimeAndTTL(seenAt, ttl, newSet)];
    }

    /** Group everything captured by source, and start over. */
    method CollectResults() returns (results: seq<RecordedDestinationsForSrc>)
      modifies this
      ensures Groups(old(capturedRequests), results)
      ensures capturedRequests == map[]
    {
      var srcToDests := GroupBySource();
      results := ListSources(srcToDests);
      ListedIsGrouped(capturedRequests, srcToDests, results);
      capturedRequests := map[];
    }

    method GroupBySource() returns (srcToDests: map<Source, seq<Destination>>)
      ensures Grouped(capturedRequests, capturedRequests.Keys, srcToDests)
    {
      srcToDests := map[];
      var remaining := capturedRequests.Keys;
      assert capturedRequests.Keys - remaining == {};
      while |remaining| > 0
        invariant remaining <= capturedRequests.Keys
        invariant Grouped(capturedRequests, capturedRequests.Keys - remaining, srcToDests)
      {
        assert exists r :: r in remaining by {
          var r := Pick(remaining);
        }
        var reqInfo :| reqInfo in remaining;
        var timeAndTTL := capturedRequests[reqInfo];
        var src := (reqInfo.srcIP, reqInfo.srcHostname);
        var ports := Keys(timeAndTTL.srcPorts);
        var destination := Destination(reqInfo.destHostnameOrIP, reqInfo.destIP, reqInfo.destPort,
                                       timeAndTTL.lastSeen, timeAndTTL.ttl, ports);
        GroupOneMore(capturedRequests, capturedRequests.Keys - remaining, srcToDests, reqInfo, destination);
        srcToDests := srcToDests[src := (if src in srcToDests then srcToDests[src] else []) + [destination]];
        assert capturedRequests.Keys - remaining + {reqInfo} == capturedRequests.Keys - (remaining - {reqInfo});
        remaining := remaining - {reqInfo};
      }
      assert capturedRequests.Keys - remaining == capturedRequests.Keys;
    }
  }
}
