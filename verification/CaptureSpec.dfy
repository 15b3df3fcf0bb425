/**
 Captured requests as values: what one request adds, how the confirmation on AWS decides what
 is reported, and the grouping that is handed to the mapper.
 */
module CaptureSpec {
  import opened Basics

  datatype UniqueRequest = UniqueRequest(srcIP: string, srcHostname: string, destHostnameOrIP: string,
                                         destIP: string, destPort: Option<int>)

  datatype TimeAndTTL = TimeAndTTL(lastSeen: int, ttl: Option<int>, srcPorts: set<int>)

  type CapturesMap = map<UniqueRequest, TimeAndTTL>

  /** A request about to be recorded. */
  datatype Capture = Capture(request: UniqueRequest, seenAt: int, ttl: Option<int>, srcPort: Option<int>)

  /** What a packet shows before the hostname behind its source address is known. */
  datatype Sighting = Sighting(srcIP: string, dest: string, destIP: string, destPort: Option<int>,
                               seenAt: int, ttl: Option<int>, srcPort: Option<int>)

  function Named(s: Sighting, hostname: string): Capture {
    Capture(UniqueRequest(s.srcIP, hostname, s.dest, s.destIP, s.destPort), s.seenAt, s.ttl, s.srcPort)
  }

  ghost function NamedAll(ss: seq<Sighting>, hostname: string): seq<Capture> {
    if ss == [] then [] else NamedAll(Before(ss), hostname) + [Named(Last(ss), hostname)]
  }

  function Ports(c: Capture): set<int> {
    match c.srcPort
    case Some(p) => {p}
    case None => {}
  }

  /** The time and TTL are those of the last request of its kind; source ports accumulate. */
  function Added(m: CapturesMap, c: Capture): CapturesMap {
    var before := if c.request in m then m[c.request].srcPorts else {};
    m[c.request := TimeAndTTL(c.seenAt, c.ttl, before + Ports(c))]
  }

  ghost function AllAdded(m: CapturesMap, cs: seq<Capture>): CapturesMap {
    if cs == [] then m else Added(AllAdded(m, Before(cs)), Last(cs))
  }

  lemma {:induction false} AllAddedConcat(m: CapturesMap, cs: seq<Capture>, ds: seq<Capture>)
    ensures AllAdded(m, cs + ds) == AllAdded(AllAdded(m, cs), ds)
  {
    if ds == [] {
      assert cs + ds == cs;
    } else {
      assert Before(cs + ds) == cs + Before(ds) && Last(cs + ds) == Last(ds);
      AllAddedConcat(m, cs, Before(ds));
    }
  }

  // ----- What a sequence of requests leaves -----

  ghost predicate Asked(cs: seq<Capture>, r: UniqueRequest) {
    exists i :: 0 <= i < |cs| && cs[i].request == r
  }

  /** Every source port seen with the request. */
  ghost function PortsSeen(cs: seq<Capture>, r: UniqueRequest): set<int> {
    set i | 0 <= i < |cs| && cs[i].request == r && cs[i].srcPort.Some? :: cs[i].srcPort.value
  }

  /** `c` is the last of its kind in `cs`. */
  ghost predicate LastOfKind(cs: seq<Capture>, c: Capture) {
    exists i :: 0 <= i < |cs| && cs[i] == c && forall j | i < j < |cs| :: cs[j].request != c.request
  }

  /** From an empty map, what is recorded is exactly the requests made, each with every source
      port it was made from and the time and TTL it was last made with. */
  lemma {:induction false} RecordedExactly(cs: seq<Capture>, r: UniqueRequest)
    ensures r in AllAdded(map[], cs) <==> Asked(cs, r)
    ensures Asked(cs, r) ==>
              && AllAdded(map[], cs)[r].srcPorts == PortsSeen(cs, r)
              && exists c :: LastOfKind(cs, c) && c.request == r &&
                   AllAdded(map[], cs)[r].lastSeen == c.seenAt && AllAdded(map[], cs)[r].ttl == c.ttl
  {
    if cs != [] {
      var before, c := Before(cs), Last(cs);
      RecordedExactly(before, r);
      assert cs == before + [c];
      if c.request == r {
        assert cs[|cs| - 1].request == r;
        assert LastOfKind(cs, c);
        PortsSeenGrow(before, c, r);
        if !Asked(before, r) {
          NoPortsSeen(before, r);
        }
      } else {
        PortsSeenGrow(before, c, r);
        assert forall i | 0 <= i < |before| :: cs[i] == before[i];
        assert Asked(cs, r) <==> Asked(before, r);
        if Asked(before, r) {
          var d :| LastOfKind(before, d) && d.request == r &&
                   AllAdded(map[], before)[r].lastSeen == d.seenAt && AllAdded(map[], before)[r].ttl == d.ttl;
          assert LastOfKind(cs, d);
        }
      }
    }
  }

  lemma PortsSeenGrow(cs: seq<Capture>, c: Capture, r: UniqueRequest)
    ensures PortsSeen(cs + [c], r) == PortsSeen(cs, r) + if c.request == r then Ports(c) else {}
  {
    var all := cs + [c];
    forall p | p in PortsSeen(all, r) ensures p in PortsSeen(cs, r) + if c.request == r then Ports(c) else {} {
      var i :| 0 <= i < |all| && all[i].request == r && all[i].srcPort == Some(p);
      assert i < |cs| ==> cs[i] == all[i];
    }
    forall p | p in PortsSeen(cs, r) ensures p in PortsSeen(all, r) {
      var i :| 0 <= i < |cs| && cs[i].request == r && cs[i].srcPort == Some(p);
      assert all[i] == cs[i];
    }
    assert all[|cs|] == c;
  }

  lemma NoPortsSeen(cs: seq<Capture>, r: UniqueRequest)
    requires !Asked(cs, r)
    ensures PortsSeen(cs, r) == {}
  {
  }

  /** Added to what there is: the requests made join those recorded; a request made again gets the time and
      TTL of its last capture and gains its ports; one not made keeps what it had. */
  lemma {:induction false} AddedExactly(m: CapturesMap, cs: seq<Capture>, r: UniqueRequest)
    ensures r in AllAdded(m, cs) <==> r in m || Asked(cs, r)
    ensures r in m && !Asked(cs, r) ==> AllAdded(m, cs)[r] == m[r]
    ensures forall c | LastOfKind(cs, c) && c.request == r ::
              AllAdded(m, cs)[r].lastSeen == c.seenAt && AllAdded(m, cs)[r].ttl == c.ttl
    ensures r in AllAdded(m, cs) ==>
              AllAdded(m, cs)[r].srcPorts == (if r in m then m[r].srcPorts else {}) + PortsSeen(cs, r)
  {
    if cs == [] {
      assert PortsSeen(cs, r) == {};
    } else {
      var before, c := Before(cs), Last(cs);
      Rejoin(cs);
      AddedExactly(m, before, r);
      AskedMore(before, c, r);
      PortsSeenGrow(before, c, r);
      LastOfKindMore(before, c, r);
      if !Asked(before, r) {
        NoPortsSeen(before, r);
      }
    }
  }

  lemma AskedMore(cs: seq<Capture>, c: Capture, r: UniqueRequest)
    ensures Asked(cs + [c], r) <==> Asked(cs, r) || c.request == r
  {
    var all := cs + [c];
    assert all[|cs|] == c && forall i | 0 <= i < |cs| :: all[i] == cs[i];
  }

  lemma LastOfKindMore(cs: seq<Capture>, c: Capture, r: UniqueRequest)
    ensures forall d | LastOfKind(cs + [c], d) && d.request == r :: if c.request == r then d == c else LastOfKind(cs, d)
  {
    var all := cs + [c];
    forall d | LastOfKind(all, d) && d.request == r ensures if c.request == r then d == c else LastOfKind(cs, d) {
      var i :| 0 <= i < |all| && all[i] == d && forall j | i < j < |all| :: all[j].request != d.request;
      assert all[|cs|] == c;
      if c.request != r {
        assert cs[i] == d && forall j | i < j < |cs| :: cs[j] == all[j];
      }
    }
  }

  // ----- Confirmation -----

  ghost predicate Confirms(answers: map<string, string>, c: Capture) {
    c.request.srcIP in answers && answers[c.request.srcIP] == c.request.srcHostname
  }

  /** The pending captures whose source address still resolves to the same hostname, in order. */
  ghost function Confirmed(answers: map<string, string>, pending: seq<Capture>): seq<Capture> {
    if pending == [] then []
    else Confirmed(answers, Before(pending)) + if Confirms(answers, Last(pending)) then [Last(pending)] else []
  }

  ghost function Discarded(answers: map<string, string>, pending: seq<Capture>): seq<Capture> {
    if pending == [] then []
    else Discarded(answers, Before(pending)) + if Confirms(answers, Last(pending)) then [] else [Last(pending)]
  }

  lemma MultisetRejoin(s: seq<Capture>)
    requires s != []
    ensures multiset(s) == multiset(Before(s)) + multiset{Last(s)}
  {
    Rejoin(s);
  }

  /** Each pending capture is confirmed or discarded, once. */
  lemma {:induction false} ConfirmedOrDiscarded(answers: map<string, string>, pending: seq<Capture>)
    ensures multiset(Confirmed(answers, pending)) + multiset(Discarded(answers, pending)) == multiset(pending)
  {
    if pending != [] {
      ConfirmedOrDiscarded(answers, Before(pending));
      MultisetRejoin(pending);
    }
  }

  lemma {:induction false} ConfirmedMembers(answers: map<string, string>, pending: seq<Capture>)
    ensures forall c :: c in Confirmed(answers, pending) <==> c in pending && Confirms(answers, c)
  {
    if pending != [] {
      ConfirmedMembers(answers, Before(pending));
      Rejoin(pending);
    }
  }

  // ----- Grouping -----

  datatype Destination = Destination(destination: string, destinationIP: string, destinationPort: Option<int>,
                                     lastSeen: int, ttl: Option<int>, srcPorts: seq<int>)

  datatype RecordedDestinationsForSrc = RecordedDestinationsForSrc(srcIp: string, srcHostname: string,
                                                                   destinations: seq<Destination>)

  /** The request a reported destination stands for. */
  function RequestOf(srcIp: string, srcHostname: string, d: Destination): UniqueRequest {
    UniqueRequest(srcIp, srcHostname, d.destination, d.destinationIP, d.destinationPort)
  }

  ghost predicate Lists(ports: seq<int>, s: set<int>) {
    NoRepeats(ports) && Members(ports) == s
  }

  ghost predicate Describes(d: Destination, t: TimeAndTTL) {
    d.lastSeen == t.lastSeen && d.ttl == t.ttl && Lists(d.srcPorts, t.srcPorts)
  }

  ghost predicate FromSource(r: UniqueRequest, result: RecordedDestinationsForSrc) {
    r.srcIP == result.srcIp && r.srcHostname == result.srcHostname
  }

  ghost function RequestAt(result: RecordedDestinationsForSrc, i: nat): UniqueRequest
    requires i < |result.destinations|
  {
    RequestOf(result.srcIp, result.srcHostname, result.destinations[i])
  }

  ghost predicate NoRequestTwice(result: RecordedDestinationsForSrc) {
    forall i, j | 0 <= i < j < |result.destinations| :: RequestAt(result, i) != RequestAt(result, j)
  }

  /** The destinations of one source are exactly its requests in `m`, each once and in full. */
  ghost predicate DestinationsOf(m: CapturesMap, result: RecordedDestinationsForSrc) {
    && NoRequestTwice(result)
    && (forall i | 0 <= i < |result.destinations| ::
          RequestAt(result, i) in m && Describes(result.destinations[i], m[RequestAt(result, i)]))
    && (forall r | r in m && FromSource(r, result) ::
          exists i :: 0 <= i < |result.destinations| && RequestAt(result, i) == r)
  }

  ghost predicate NoSourceTwice(results: seq<RecordedDestinationsForSrc>) {
    forall i, j | 0 <= i < j < |results| ::
      results[i].srcIp != results[j].srcIp || results[i].srcHostname != results[j].srcHostname
  }

  ghost predicate Reported(r: UniqueRequest, results: seq<RecordedDestinationsForSrc>) {
    exists i :: 0 <= i < |results| && FromSource(r, results[i])
  }

  /** The report lists each source once, with exactly its requests, and leaves no source out. */
  ghost predicate Groups(m: CapturesMap, results: seq<RecordedDestinationsForSrc>) {
    && NoSourceTwice(results)
    && (forall i | 0 <= i < |results| :: results[i].destinations != [] && DestinationsOf(m, results[i]))
    && (forall r | r in m :: Reported(r, results))
  }

  /** What a report says, field by field: every destination of a source is a captured request of that source,
      with its time, its TTL and its ports, and every captured request is among them. */
  lemma ReportSaysExactly(m: CapturesMap, results: seq<RecordedDestinationsForSrc>)
    requires Groups(m, results)
    ensures forall i, j | 0 <= i < |results| && 0 <= j < |results[i].destinations| ::
              var d := results[i].destinations[j];
              var r := UniqueRequest(results[i].srcIp, results[i].srcHostname, d.destination, d.destinationIP,
                                     d.destinationPort);
              && r in m && d.lastSeen == m[r].lastSeen && d.ttl == m[r].ttl
              && NoRepeats(d.srcPorts) && Members(d.srcPorts) == m[r].srcPorts
    ensures forall r | r in m ::
              exists i, j ::
                && 0 <= i < |results| && 0 <= j < |results[i].destinations|
                && var d := results[i].destinations[j];
                   && results[i].srcIp == r.srcIP && results[i].srcHostname == r.srcHostname
                   && d.destination == r.destHostnameOrIP && d.destinationIP == r.destIP
                   && d.destinationPort == r.destPort
  {
    forall i, j | 0 <= i < |results| && 0 <= j < |results[i].destinations|
      ensures RequestAt(results[i], j) in m && Describes(results[i].destinations[j], m[RequestAt(results[i], j)])
    {
      assert DestinationsOf(m, results[i]);
    }
    forall r | r in m
      ensures exists i, j :: 0 <= i < |results| && 0 <= j < |results[i].destinations| && RequestAt(results[i], j) == r
    {
      var i :| 0 <= i < |results| && FromSource(r, results[i]);
      assert DestinationsOf(m, results[i]);
      var j :| 0 <= j < |results[i].destinations| && RequestAt(results[i], j) == r;
    }
  }

  /** The captured requests a report stands for. */
  ghost function Ungrouped(results: seq<RecordedDestinationsForSrc>): CapturesMap {
    if results == [] then map[]
        else Ungrouped(Before(results)) + UngroupedFirst(Last(results), |Last(results).destinations|)
  }

  /** The first `n` requests of one source. */
  ghost function UngroupedFirst(result: RecordedDestinationsForSrc, n: nat): CapturesMap
    requires n <= |result.destinations|
  {
    if n == 0 then map[]
    else
      var d := result.destinations[n - 1];
      UngroupedFirst(result, n - 1)[RequestAt(result, n - 1) := TimeAndTTL(d.lastSeen, d.ttl, Members(d.srcPorts))]
  }

  ghost function CountOf(results: seq<RecordedDestinationsForSrc>): nat {
    if results == [] then 0 else CountOf(Before(results)) + |Last(results).destinations|
  }

  ghost function Restricted(m: CapturesMap, rs: set<UniqueRequest>): CapturesMap {
    map r | r in m && r in rs :: m[r]
  }

  ghost function FirstRequests(result: RecordedDestinationsForSrc, n: nat): set<UniqueRequest>
    requires n <= |result.destinations|
  {
    if n == 0 then {} else FirstRequests(result, n - 1) + {RequestAt(result, n - 1)}
  }

  lemma {:induction false} FirstRequestsAre(result: RecordedDestinationsForSrc, n: nat, r: UniqueRequest)
    requires n <= |result.destinations|
    ensures r in FirstRequests(result, n) <==> exists i :: 0 <= i < n && RequestAt(result, i) == r
  {
    if n > 0 {
      FirstRequestsAre(result, n - 1, r);
    }
  }

  lemma {:induction false} FirstRequestsCount(result: RecordedDestinationsForSrc, n: nat)
    requires NoRequestTwice(result) && n <= |result.destinations|
    ensures |FirstRequests(result, n)| == n
  {
    if n > 0 {
      FirstRequestsCount(result, n - 1);
      FirstRequestsAre(result, n - 1, RequestAt(result, n - 1));
      assert RequestAt(result, n - 1) !in FirstRequests(result, n - 1);
    }
  }

  lemma {:induction false} FirstAreExact(m: CapturesMap, result: RecordedDestinationsForSrc, n: nat)
    requires DestinationsOf(m, result) && n <= |result.destinations|
    ensures UngroupedFirst(result, n) == Restricted(m, FirstRequests(result, n))
  {
    if n > 0 {
      FirstAreExact(m, result, n - 1);
      var r := RequestAt(result, n - 1);
      assert r in m && Describes(result.destinations[n - 1], m[r]);
      assert Restricted(m, FirstRequests(result, n - 1))[r := m[r]] == Restricted(m, FirstRequests(result, n));
    }
  }

  ghost function RequestsOfSource(m: CapturesMap, result: RecordedDestinationsForSrc): set<UniqueRequest> {
    set r | r in m && FromSource(r, result)
  }

  ghost function RequestsReported(m: CapturesMap, results: seq<RecordedDestinationsForSrc>): set<UniqueRequest> {
    if results == [] then {} else RequestsReported(m, Before(results)) + RequestsOfSource(m, Last(results))
  }

  /** What the destinations of one source stand for. */
  ghost predicate ExactSource(m: CapturesMap, result: RecordedDestinationsForSrc) {
    && UngroupedFirst(result, |result.destinations|) == Restricted(m, RequestsOfSource(m, result))
    && |RequestsOfSource(m, result)| == |result.destinations|
  }

  lemma OneSourceIsExact(m: CapturesMap, result: RecordedDestinationsForSrc)
    requires DestinationsOf(m, result)
    ensures ExactSource(m, result)
  {
    var n := |result.destinations|;
    FirstAreExact(m, result, n);
    FirstRequestsCount(result, n);
    forall r ensures r in FirstRequests(result, n) <==> r in RequestsOfSource(m, result) {
      FirstRequestsAre(result, n, r);
    }
    assert FirstRequests(result, n) == RequestsOfSource(m, result);
  }

  lemma {:induction false} RequestsReportedAre(m: CapturesMap, results: seq<RecordedDestinationsForSrc>)
    ensures forall r :: r in RequestsReported(m, results) <==> r in m && Reported(r, results)
  {
    if results != [] {
      var before, last := Before(results), Last(results);
      RequestsReportedAre(m, before);
      assert results == before + [last];
      forall r ensures Reported(r, results) <==> Reported(r, before) || FromSource(r, last) {
        ReportedMore(r, before, last);
      }
    }
  }

  lemma ReportedMore(r: UniqueRequest, before: seq<RecordedDestinationsForSrc>, last: RecordedDestinationsForSrc)
    ensures Reported(r, before + [last]) <==> Reported(r, before) || FromSource(r, last)
  {
    var all := before + [last];
    assert all[|before|] == last;
    if Reported(r, before) {
      var i :| 0 <= i < |before| && FromSource(r, before[i]);
      assert all[i] == before[i];
    }
  }

  lemma DisjointSources(m: CapturesMap, results: seq<RecordedDestinationsForSrc>)
    requires NoSourceTwice(results) && results != []
    ensures RequestsReported(m, Before(results)) !! RequestsOfSource(m, Last(results))
  {
    var before, last := Before(results), Last(results);
    RequestsReportedAre(m, before);
    forall r | r in RequestsReported(m, before) ensures !FromSource(r, last) {
      var i :| 0 <= i < |before| && FromSource(r, before[i]);
      assert before[i] == results[i] && last == results[|results| - 1];
    }
  }

  lemma {:induction false} UngroupedPartly(m: CapturesMap, results: seq<RecordedDestinationsForSrc>)
    requires NoSourceTwice(results) && forall i | 0 <= i < |results| :: ExactSource(m, results[i])
    ensures Ungrouped(results) == Restricted(m, RequestsReported(m, results))
    ensures CountOf(results) == |RequestsReported(m, results)|
  {
    if results != [] {
      var before, last := Before(results), Last(results);
      UngroupedPartly(m, before);
      DisjointSources(m, results);
      assert ExactSource(m, last);
      var a, b := RequestsReported(m, before), RequestsOfSource(m, last);
      RestrictedUnion(m, a, b);
    }
  }

  lemma RestrictedUnion(m: CapturesMap, a: set<UniqueRequest>, b: set<UniqueRequest>)
    ensures Restricted(m, a) + Restricted(m, b) == Restricted(m, a + b)
    ensures a !! b ==> |a + b| == |a| + |b|
  {
  }

  /** Grouping is lossless: flattening the report gives back exactly the captured requests, and
      there are as many reported destinations as captured requests. */
  lemma GroupingIsLossless(m: CapturesMap, results: seq<RecordedDestinationsForSrc>)
    requires Groups(m, results)
    ensures Ungrouped(results) == m && CountOf(results) == |m|
  {
    SourcesAreExact(m, results);
    UngroupedPartly(m, results);
    AllReported(m, results);
    RestrictedToAll(m);
  }

  lemma SourcesAreExact(m: CapturesMap, results: seq<RecordedDestinationsForSrc>)
    requires forall i | 0 <= i < |results| :: DestinationsOf(m, results[i])
    ensures forall i | 0 <= i < |results| :: ExactSource(m, results[i])
  {
    forall i | 0 <= i < |results| ensures ExactSource(m, results[i]) {
      OneSourceIsExact(m, results[i]);
    }
  }

  lemma RestrictedToAll(m: CapturesMap)
    ensures Restricted(m, m.Keys) == m
  {
  }

  lemma AllReported(m: CapturesMap, results: seq<RecordedDestinationsForSrc>)
    requires forall r | r in m :: Reported(r, results)
    ensures RequestsReported(m, results) == m.Keys
  {
    RequestsReportedAre(m, results);
  }
}
