/**
 Merging the pending connections into one result for each source, destination and path. Go walks
 the map of connections in no particular order; the walk is a sequence of its keys.
 */
module IstioMerge {
  import opened Basics
  import opened IstioSpec

  datatype HTTPMethod = Get | Post | Put | Delete | Options | Trace | Patch | Connect

  function KnownMethod(name: string): Option<HTTPMethod> {
    if name == "GET" then Some(Get)
    else if name == "POST" then Some(Post)
    else if name == "PUT" then Some(Put)
    else if name == "DELETE" then Some(Delete)
    else if name == "OPTIONS" then Some(Options)
    else if name == "TRACE" then Some(Trace)
    else if name == "PATCH" then Some(Patch)
    else if name == "CONNECT" then Some(Connect)
    else None
  }

  /** Exactly these eight names are known, each as a method of its own. */
  lemma KnownMethodsExactly(name: string)
    ensures KnownMethod(name).Some? <==>
            name in {"GET", "POST", "PUT", "DELETE", "OPTIONS", "TRACE", "PATCH", "CONNECT"}
    ensures KnownMethod("GET") == Some(Get) && KnownMethod("POST") == Some(Post) && KnownMethod("PUT") == Some(Put)
    ensures KnownMethod("DELETE") == Some(Delete) && KnownMethod("OPTIONS") == Some(Options)
    ensures KnownMethod("TRACE") == Some(Trace) && KnownMethod("PATCH") == Some(Patch)
    ensures KnownMethod("CONNECT") == Some(Connect)
  {
  }

  datatype ConnectionPairWithPath = ConnectionPairWithPath(sourceWorkload: string, destinationWorkload: string,
                                                           requestPath: string)

  datatype IstioConnection = IstioConnection(
    srcWorkload: string, srcWorkloadNamespace: string,
    dstWorkload: string, dstWorkloadNamespace: string, dstServiceName: string,
    path: string, methods: seq<HTTPMethod>, lastSeen: int)

  function PairOf(c: ConnectionWithPath): ConnectionPairWithPath {
    ConnectionPairWithPath(c.sourceWorkload, c.destinationWorkload, c.requestPath)
  }

  /** What is not part of the pair, nor merged. */
  datatype Rest = Rest(sourceNamespace: string, destinationNamespace: string, serviceName: string)

  ghost function RestOf(c: ConnectionWithPath): Rest {
    Rest(c.sourceNamespace, c.destinationNamespace, c.destinationServiceName)
  }

  ghost function RestOfResult(r: IstioConnection): Rest {
    Rest(r.srcWorkloadNamespace, r.dstWorkloadNamespace, r.dstServiceName)
  }

  ghost function PairOfResult(r: IstioConnection): ConnectionPairWithPath {
    ConnectionPairWithPath(r.srcWorkload, r.dstWorkload, r.path)
  }

  /** The connections of one pair. */
  ghost function Group(cs: set<ConnectionWithPath>, p: ConnectionPairWithPath): set<ConnectionWithPath> {
    set c | c in cs && PairOf(c) == p
  }

  ghost function MethodsOf(cs: set<ConnectionWithPath>): set<HTTPMethod> {
    set c | c in cs && KnownMethod(c.requestMethod).Some? :: KnownMethod(c.requestMethod).value
  }

  /** A result for the group: its pair, exactly its known methods, each once, its latest time, and
      what is left from the one that was visited first. */
  ghost predicate Summarises(r: IstioConnection, connections: map<ConnectionWithPath, int>, g: set<ConnectionWithPath>,
                             p: ConnectionPairWithPath, first: ConnectionWithPath)
    requires g <= connections.Keys
  {
    && PairOfResult(r) == p
    && first in g && RestOfResult(r) == RestOf(first)
    && Members(r.methods) == MethodsOf(g) && NoRepeats(r.methods)
    && (forall c | c in g :: connections[c] <= r.lastSeen)
    && (exists c | c in g :: connections[c] == r.lastSeen)
  }

  function WithMethod(methods: seq<HTTPMethod>, name: string): (r: seq<HTTPMethod>)
    ensures KnownMethod(name).Some? ==> Members(r) == Members(methods) + {KnownMethod(name).value}
    ensures KnownMethod(name).None? ==> r == methods
    ensures NoRepeats(methods) ==> NoRepeats(r)
  {
    var m := KnownMethod(name);
    if m.None? then methods
    else if m.value in methods then
      assert Members(methods) + {m.value} == Members(methods);
      methods
    else
      assert Members(methods + [m.value]) == Members(methods) + {m.value};
      methods + [m.value]
  }

  function NewResult(c: ConnectionWithPath, timestamp: int): IstioConnection {
    IstioConnection(c.sourceWorkload, c.sourceNamespace, c.destinationWorkload, c.destinationNamespace,
                    c.destinationServiceName, c.requestPath, WithMethod([], c.requestMethod), timestamp)
  }

  function Merge(r: IstioConnection, c: ConnectionWithPath, timestamp: int): IstioConnection {
    r.(lastSeen := if timestamp > r.lastSeen then timestamp else r.lastSeen,
       methods := WithMethod(r.methods, c.requestMethod))
  }

  type Results = map<ConnectionPairWithPath, IstioConnection>

  /** The results after visiting the connections in this order. */
  ghost function Merged(connections: map<ConnectionWithPath, int>, order: seq<ConnectionWithPath>): Results
    requires Members(order) <= connections.Keys
  {
    if order == [] then map[]
    else
      assert Members(Before(order)) <= Members(order) && Last(order) in Members(order);
      var m, c := Merged(connections, Before(order)), Last(order);
      var p, t := PairOf(c), connections[c];
      m[p := if p in m then Merge(m[p], c, t) else NewResult(c, t)]
  }

  ghost function FirstOf(order: seq<ConnectionWithPath>, p: ConnectionPairWithPath): Option<ConnectionWithPath> {
    if order == [] then None
    else
      var first := FirstOf(Before(order), p);
      if first.Some? then first else if PairOf(Last(order)) == p then Some(Last(order)) else None
  }

  lemma MethodsGrow(g: set<ConnectionWithPath>, c: ConnectionWithPath)
    ensures MethodsOf(g + {c}) == MethodsOf(g) +
            if KnownMethod(c.requestMethod).Some? then {KnownMethod(c.requestMethod).value} else {}
  {
  }

  lemma NewSummarises(connections: map<ConnectionWithPath, int>, c: ConnectionWithPath)
    requires c in connections
    ensures Summarises(NewResult(c, connections[c]), connections, {c}, PairOf(c), c)
  {
    MethodsGrow({}, c);
    assert {} + {c} == {c} && MethodsOf({}) == {};
  }

  lemma MergeSummarises(r: IstioConnection, connections: map<ConnectionWithPath, int>, g: set<ConnectionWithPath>,
                        p: ConnectionPairWithPath, first: ConnectionWithPath, c: ConnectionWithPath)
    requires g <= connections.Keys && c in connections
    requires Summarises(r, connections, g, p, first)
    ensures Summarises(Merge(r, c, connections[c]), connections, g + {c}, p, first)
  {
    MethodsGrow(g, c);
    var latest :| latest in g && connections[latest] == r.lastSeen;
    assert latest in g + {c} && c in g + {c};
  }

  /** In whatever order the connections are visited: one result for each pair, summing up its group. */
  lemma {:induction false} MergedExactly(connections: map<ConnectionWithPath, int>, order: seq<ConnectionWithPath>,
                                         p: ConnectionPairWithPath)
    requires Members(order) <= connections.Keys
    ensures var m, g, first := Merged(connections, order), Group(Members(order), p), FirstOf(order, p);
            && (p in m <==> first.Some?) && (p in m <==> g != {})
            && (p in m ==> Summarises(m[p], connections, g, p, first.value))
  {
    if order != [] {
      var before, c := Before(order), Last(order);
      Rejoin(order);
      assert Members(order) == Members(before) + {c};
      MergedExactly(connections, before, p);
      var m, g := Merged(connections, before), Group(Members(before), p);
      if PairOf(c) == p {
        assert Group(Members(order), p) == g + {c};
        if p in m {
          MergeSummarises(m[p], connections, g, p, FirstOf(before, p).value, c);
        } else {
          assert g + {c} == {c};
          NewSummarises(connections, c);
        }
      } else {
        assert Group(Members(order), p) == g;
      }
    }
  }

  /** The order lists every connection once. */
  ghost predicate Visits(order: seq<ConnectionWithPath>, connections: map<ConnectionWithPath, int>) {
    Members(order) == connections.Keys && NoRepeats(order)
  }

  /** Two orders agree on the pairs, the sets of methods and the times. */
  lemma OrderMovesOnlyTheRest(connections: map<ConnectionWithPath, int>, order: seq<ConnectionWithPath>,
                              other: seq<ConnectionWithPath>,
                              p: ConnectionPairWithPath)
    requires Visits(order, connections) && Visits(other, connections)
    ensures var m, n := Merged(connections, order), Merged(connections, other);
            && (p in m <==> p in n)
            && (p in m ==> PairOfResult(m[p]) == PairOfResult(n[p]) == p
                           && Members(m[p].methods) == Members(n[p].methods) && m[p].lastSeen == n[p].lastSeen)
  {
    MergedExactly(connections, order, p);
    MergedExactly(connections, other, p);
  }

  lemma Prepended<T>(x: T, s: seq<T>)
    ensures Members([x] + s) == {x} + Members(s)
    ensures x !in s && NoRepeats(s) ==> NoRepeats([x] + s)
  {
    assert forall y | y in s :: y in [x] + s;
    assert x == ([x] + s)[0];
  }

  lemma Appended<T>(s: seq<T>, x: T)
    ensures Members(s + [x]) == Members(s) + {x}
    ensures x !in s && NoRepeats(s) ==> NoRepeats(s + [x])
  {
  }

  lemma {:induction false} Enumerate(cs: set<ConnectionWithPath>) returns (order: seq<ConnectionWithPath>)
    ensures Members(order) == cs && NoRepeats(order)
  {
    order := [];
    if cs != {} {
      var c :| c in cs;
      var rest := Enumerate(cs - {c});
      order := [c] + rest;
      Prepended(c, rest);
      assert {c} + (cs - {c}) == cs;
    }
  }

  lemma {:induction false} FirstIsFirst(c: ConnectionWithPath, rest: seq<ConnectionWithPath>)
    ensures FirstOf([c] + rest, PairOf(c)) == Some(c)
  {
    if rest == [] {
      assert Before([c]) == [];
      assert [c] + rest == [c];
    } else {
      assert Before([c] + rest) == [c] + Before(rest);
      FirstIsFirst(c, Before(rest));
    }
  }

  /** Any connection can be the one whose namespaces and service name are reported for its pair. */
  lemma AnyoneCanBeFirst(connections: map<ConnectionWithPath, int>, c: ConnectionWithPath)
    returns (order: seq<ConnectionWithPath>)
    requires c in connections
    ensures Visits(order, connections)
    ensures PairOf(c) in Merged(connections, order) && RestOfResult(Merged(connections, order)[PairOf(c)]) == RestOf(c)
  {
    var rest := Enumerate(connections.Keys - {c});
    order := [c] + rest;
    Prepended(c, rest);
    assert {c} + (connections.Keys - {c}) == connections.Keys;
    assert c !in Members(rest);
    FirstIsFirst(c, rest);
    MergedExactly(connections, order, PairOf(c));
  }

  ghost predicate RestIsFixed(connections: map<ConnectionWithPath, int>, p: ConnectionPairWithPath) {
    forall order, other | Visits(order, connections) && Visits(other, connections) &&
                          p in Merged(connections, order) && p in Merged(connections, other) ::
      RestOfResult(Merged(connections, order)[p]) == RestOfResult(Merged(connections, other)[p])
  }

  /** The namespaces are not part of the key: they, and the service name, are determined exactly when
      all connections of the pair agree on them. */
  lemma RestIsFixedIff(connections: map<ConnectionWithPath, int>, p: ConnectionPairWithPath)
    ensures RestIsFixed(connections, p) <==>
            forall c, d | c in connections && d in connections && PairOf(c) == p && PairOf(d) == p ::
                RestOf(c) == RestOf(d)
  {
    if RestIsFixed(connections, p) {
      forall c, d | c in connections && d in connections && PairOf(c) == p && PairOf(d) == p
          ensures RestOf(c) == RestOf(d) {
        var order := AnyoneCanBeFirst(connections, c);
        var other := AnyoneCanBeFirst(connections, d);
      }
    } else {
      var order, other :| Visits(order, connections) && Visits(other, connections) &&
                          p in Merged(connections, order) && p in Merged(connections, other) &&
                          RestOfResult(Merged(connections, order)[p]) != RestOfResult(Merged(connections, other)[p]);
      MergedExactly(connections, order, p);
      MergedExactly(connections, other, p);
      assert RestOf(FirstOf(order, p).value) != RestOf(FirstOf(other, p).value);
    }
  }

  /** The connection goes from the source to the destination of this result, on its path. */
  ghost predicate Covers(r: IstioConnection, c: ConnectionWithPath) {
    r.srcWorkload == c.sourceWorkload && r.dstWorkload == c.destinationWorkload && r.path == c.requestPath
  }

  /** Field by field: some connection it covers has its namespaces and its service name, and those it covers
      have between them exactly its methods, and its time as their latest. */
  ghost predicate Says(r: IstioConnection, connections: map<ConnectionWithPath, int>) {
    && (exists c :: c in connections && Covers(r, c) &&
          r.srcWorkloadNamespace == c.sourceNamespace && r.dstWorkloadNamespace == c.destinationNamespace &&
          r.dstServiceName == c.destinationServiceName)
    && (forall m :: m in r.methods <==>
          exists c :: c in connections && Covers(r, c) && KnownMethod(c.requestMethod) == Some(m))
    && (forall c | c in connections && Covers(r, c) :: connections[c] <= r.lastSeen)
    && (exists c :: c in connections && Covers(r, c) && connections[c] == r.lastSeen)
  }

  /** Every connection is covered, no two results cover the same, and each says this of those it covers. */
  ghost predicate SayExactly(results: seq<IstioConnection>, connections: map<ConnectionWithPath, int>) {
    && (forall c | c in connections :: exists r :: r in results && Covers(r, c))
    && (forall i, j, c | 0 <= i < j < |results| && Covers(results[i], c) :: !Covers(results[j], c))
    && (forall r | r in results :: Says(r, connections))
  }

  lemma ResultSays(connections: map<ConnectionWithPath, int>, order: seq<ConnectionWithPath>, r: IstioConnection)
    requires Visits(order, connections)
    requires PairOfResult(r) in Merged(connections, order) && Merged(connections, order)[PairOfResult(r)] == r
    ensures Says(r, connections)
  {
    var p := PairOfResult(r);
    var g, first := Group(Members(order), p), FirstOf(order, p);
    MergedExactly(connections, order, p);
    assert forall c :: c in g <==> c in connections && Covers(r, c);
    assert first.value in g;
    var latest :| latest in g && connections[latest] == r.lastSeen;
    forall m ensures m in r.methods <==> exists c :: c in g && KnownMethod(c.requestMethod) == Some(m) {
      assert m in Members(r.methods) <==> m in MethodsOf(g);
    }
  }

  lemma AllCovered(connections: map<ConnectionWithPath, int>, order: seq<ConnectionWithPath>, c: ConnectionWithPath)
    requires Visits(order, connections) && c in connections
    ensures PairOf(c) in Merged(connections, order) && Covers(Merged(connections, order)[PairOf(c)], c)
  {
    MergedExactly(connections, order, PairOf(c));
    assert c in Group(Members(order), PairOf(c));
  }

  lemma ResultsSayExactly(connections: map<ConnectionWithPath, int>, order: seq<ConnectionWithPath>,
                          results: seq<IstioConnection>)
    requires Visits(order, connections) && NoRepeats(results)
    requires forall p | p in Merged(connections, order) :: Merged(connections, order)[p] in results
    requires forall r | r in results ::
               PairOfResult(r) in Merged(connections, order) && Merged(connections, order)[PairOfResult(r)] == r
    ensures SayExactly(results, connections)
  {
    forall c | c in connections ensures exists r :: r in results && Covers(r, c) {
      AllCovered(connections, order, c);
    }
    forall i, j, c | 0 <= i < j < |results| && Covers(results[i], c) ensures !Covers(results[j], c) {
      assert PairOfResult(results[i]) == PairOf(c);
      assert results[i] in results && results[j] in results;
    }
    forall r | r in results ensures Says(r, connections) {
      ResultSays(connections, order, r);
    }
  }

  // ----- The loop -----

  lemma VisitNext(connections: map<ConnectionWithPath, int>, order: seq<ConnectionWithPath>, c: ConnectionWithPath)
    requires Members(order) <= connections.Keys && c in connections
    ensures Members(order + [c]) <= connections.Keys
    ensures var m, p, t := Merged(connections, order), PairOf(c), connections[c];
            Merged(connections, order + [c]) == m[p := if p in m then Merge(m[p], c, t) else NewResult(c, t)]
  {
    Appended(order, c);
    assert Before(order + [c]) == order;
  }

  /** One result for each pair, in no particular order. */
  method ToGraphQLIstioConnections(connections: map<ConnectionWithPath, int>)
    returns (results: seq<IstioConnection>, ghost order: seq<ConnectionWithPath>)
    ensures Visits(order, connections)
    ensures NoRepeats(results)
    ensures forall p | p in Merged(connections, order) :: Merged(connections, order)[p] in results
    ensures forall r | r in results ::
            PairOfResult(r) in Merged(connections, order) && Merged(connections, order)[PairOfResult(r)] == r
    ensures SayExactly(results, connections)
  {
    var pairs;
    pairs, order := MergeAll(connections);
    results := Values(pairs);
    ResultsSayExactly(connections, order, results);
  }

  /** The walk over the connections, in an arbitrary order. */
  method MergeAll(connections: map<ConnectionWithPath, int>)
    returns (pairs: Results, ghost order: seq<ConnectionWithPath>)
    ensures Visits(order, connections) && pairs == Merged(connections, order)
    ensures forall p | p in pairs :: PairOfResult(pairs[p]) == p
  {
    order := [];
    pairs := map[];
    var remaining := connections.Keys;
    while |remaining| > 0
      invariant remaining <= connections.Keys && Members(order) == connections.Keys - remaining
      invariant NoRepeats(order)
      invariant pairs == Merged(connections, order)
    {
      assert exists c :: c in remaining by {
        var c := Pick(remaining);
      }
      var c :| c in remaining;
      assert c !in Members(order);
      Appended(order, c);
      VisitNext(connections, order, c);
      remaining := remaining - {c};
      order := order + [c];
      var connectionPair, timestamp := PairOf(c), connections[c];
      if connectionPair !in pairs {
        pairs := pairs[connectionPair := NewResult(c, timestamp)];
      } else {
        pairs := pairs[connectionPair := Merge(pairs[connectionPair], c, timestamp)];
      }
    }
    forall p | p in pairs ensures PairOfResult(pairs[p]) == p {
      MergedExactly(connections, order, p);
    }
  }

  method Values(pairs: Results) returns (results: seq<IstioConnection>)
    requires forall p | p in pairs :: PairOfResult(pairs[p]) == p
    ensures NoRepeats(results)
    ensures forall p | p in pairs :: pairs[p] in results
    ensures forall r | r in results :: PairOfResult(r) in pairs && pairs[PairOfResult(r)] == r
  {
    results := [];
    var remaining := pairs.Keys;
    while |remaining| > 0
      invariant remaining <= pairs.Keys && NoRepeats(results)
      invariant forall p | p in pairs && p !in remaining :: pairs[p] in results
      invariant forall r | r in results ::
                PairOfResult(r) in pairs && PairOfResult(r) !in remaining && pairs[PairOfResult(r)] == r
    {
      assert exists p :: p in remaining by {
        var p := Pick(remaining);
      }
      var p :| p in remaining;
      results := results + [pairs[p]];
      remaining := remaining - {p};
    }
  }
}
