/**
 The DNS and TCP sniffers, updating `pending` and the captured requests in place. Packets arrive
 decoded, and the process scan behind a refresh is a parameter of it. Each sniffer keeps a ghost
 log of its steps and of the refreshes of the other one, and its state is where that log leads.
 */
module Sniffers {
  import opened Basics
  import opened ResolverSpec
  import opened MonitorSpec
  import opened IpResolver
  import opened CaptureSpec
  import opened CaptureRuns
  import opened Collectors

  lemma ResolveIsAnswer(b: Book, ip: string)
    requires Sound(b)
    ensures Resolve(b, ip) == if ip in Answers(b) then Some(Answers(b)[ip]) else None
  {
  }

  lemma AddedLast(m: CapturesMap, cs: seq<Capture>, c: Capture)
    ensures AllAdded(m, cs + [c]) == Added(AllAdded(m, cs), c)
  {
    assert Before(cs + [c]) == cs;
  }

  lemma ResolvedLast(answers: map<string, string>, ss: seq<Sighting>, s: Sighting)
    ensures Resolved(answers, ss + [s]) == Resolved(answers, ss) +
            if s.srcIP in answers then [Named(s, answers[s.srcIP])] else []
  {
    assert Before(ss + [s]) == ss;
  }

  /** Settling one more pending capture. */
  lemma SettledMore(start: CapturesMap, answers: map<string, string>, settled: seq<Capture>, c: Capture)
    ensures var before := AllAdded(start, Confirmed(answers, settled));
            AllAdded(start, Confirmed(answers, settled + [c])) ==
                if Confirms(answers, c) then Added(before, c) else before
  {
    assert Before(settled + [c]) == settled;
    var cs := Confirmed(answers, settled);
    if Confirms(answers, c) {
      AddedLast(start, cs, c);
    } else {
      assert cs + [] == cs;
    }
  }

  // ----- DNS -----

  datatype RecordType = TypeA | TypeAAAA | TypeCNAME | TypeOther

  datatype Record = Record(kind: RecordType, name: string, cname: string, ip: string, ttl: int)

  /** A packet with an IPv4 and a DNS layer; `answered` says it is an error-free query reply. */
  datatype DnsPacket = DnsPacket(dstIP: string, time: int, answered: bool, answers: seq<Record>)

  datatype PendingCapture = PendingCapture(srcIp: string, srcHostname: string, destHostnameOrIP: string,
                                           destIPFromDNS: string, time: int, ttl: int)

  ghost function PendingDns(p: PendingCapture): Capture {
    Capture(UniqueRequest(p.srcIp, p.srcHostname, p.destHostnameOrIP, p.destIPFromDNS, None), p.time, Some(p.ttl), None)
  }

  ghost function AllPendingDns(ps: seq<PendingCapture>): seq<Capture> {
    if ps == [] then [] else AllPendingDns(Before(ps)) + [PendingDns(Last(ps))]
  }

  lemma NextPendingDns(ps: seq<PendingCapture>, n: nat)
    requires n < |ps|
    ensures AllPendingDns(ps[..n + 1]) == AllPendingDns(ps[..n]) + [PendingDns(ps[n])]
  {
    assert Before(ps[..n + 1]) == ps[..n];
  }

  /** The name each canonical name was asked under; the last record wins. */
  ghost function CNames(answers: seq<Record>): map<string, string> {
    if answers == [] then map[]
    else if Aliases(Last(answers), Last(answers).cname)
         then CNames(Before(answers))[Last(answers).cname := Last(answers).name]
    else CNames(Before(answers))
  }

  /** A CNAME record, with both names, whose canonical name is `cname`. */
  predicate Aliases(r: Record, cname: string) {
    r.kind == TypeCNAME && |r.cname| > 0 && |r.name| > 0 && r.cname == cname
  }

  /** Record `i` is the last one that gives `cname` another name. */
  ghost predicate LastAlias(answers: seq<Record>, i: int, cname: string) {
    0 <= i < |answers| && Aliases(answers[i], cname) && forall j | i < j < |answers| :: !Aliases(answers[j], cname)
  }

  /** Exactly the canonical names of the CNAME records have a name, the one in their last record. */
  lemma {:induction false} CNamesAreLastAliases(answers: seq<Record>, cname: string, i: int)
    ensures cname in CNames(answers) <==> exists j :: 0 <= j < |answers| && Aliases(answers[j], cname)
    ensures LastAlias(answers, i, cname) ==> cname in CNames(answers) && CNames(answers)[cname] == answers[i].name
  {
    if answers != [] {
      var n := |answers| - 1;
      CNamesAreLastAliases(Before(answers), cname, i);
      assert forall j | 0 <= j < n :: Before(answers)[j] == answers[j];
      assert answers[n] == Last(answers);
    }
  }

  ghost function SightingOf(packet: DnsPacket, r: Record): Sighting {
    var cnames := CNames(packet.answers);
    Sighting(packet.dstIP, if r.name in cnames then cnames[r.name] else r.name, r.ip, None,
             packet.time, Some(r.ttl), None)
  }

  predicate IsAddress(r: Record) {
    r.kind == TypeA || r.kind == TypeAAAA
  }

  /** What the address records of a reply show: the pod asking, and the name it asked for. */
  ghost function DnsSightings(packet: DnsPacket, n: nat): seq<Sighting>
    requires n <= |packet.answers|
  {
    if n == 0 then []
    else
      var r := packet.answers[n - 1];
      if IsAddress(r) then DnsSightings(packet, n - 1) + [SightingOf(packet, r)] else DnsSightings(packet, n - 1)
  }

  method GetCNameTranslation(answers: seq<Record>) returns (cnameToA: map<string, string>)
    ensures cnameToA == CNames(answers)
    ensures forall c :: c in cnameToA <==> exists i :: 0 <= i < |answers| && Aliases(answers[i], c)
    ensures forall i, c | LastAlias(answers, i, c) :: c in cnameToA && cnameToA[c] == answers[i].name
  {
    cnameToA := map[];
    for n := 0 to |answers|
      invariant cnameToA == CNames(answers[..n])
    {
      assert Before(answers[..n + 1]) == answers[..n];
      var answer := answers[n];
      if answer.kind == TypeCNAME && |answer.cname| > 0 && |answer.name| > 0 {
        cnameToA := cnameToA[answer.cname := answer.name];
      }
    }
    assert answers[..|answers|] == answers;
    forall c, i
      ensures c in cnameToA <==> exists j :: 0 <= j < |answers| && Aliases(answers[j], c)
      ensures LastAlias(answers, i, c) ==> c in cnameToA && cnameToA[c] == answers[i].name
    {
      CNamesAreLastAliases(answers, c, i);
    }
  }

  // ----- What a reply shows -----

  /** The name an address record of this name was asked under: that of the last CNAME record for it, or its
      own if there is none. */
  ghost predicate AskedAs(answers: seq<Record>, name: string, dest: string) {
    || (exists j :: LastAlias(answers, j, name) && dest == answers[j].name)
    || (dest == name && forall j | 0 <= j < |answers| :: !Aliases(answers[j], name))
  }

  /** Record `i` is an address record and shows this request of the pod the reply is for. */
  ghost predicate Shows(packet: DnsPacket, i: int, hostname: string, r: UniqueRequest) {
    && 0 <= i < |packet.answers|
    && (packet.answers[i].kind == TypeA || packet.answers[i].kind == TypeAAAA)
    && r.srcIP == packet.dstIP && r.srcHostname == hostname
    && r.destIP == packet.answers[i].ip && r.destPort == None
    && AskedAs(packet.answers, packet.answers[i].name, r.destHostnameOrIP)
  }

  ghost predicate ShownBefore(packet: DnsPacket, n: int, hostname: string, r: UniqueRequest) {
    exists i :: 0 <= i < n && Shows(packet, i, hostname, r)
  }

  ghost predicate LastShows(packet: DnsPacket, n: int, i: int, hostname: string, r: UniqueRequest) {
    0 <= i < n && Shows(packet, i, hostname, r) && forall j | i < j < n :: !Shows(packet, j, hostname, r)
  }

  lemma {:induction false} LastAliasExists(answers: seq<Record>, cname: string) returns (i: int)
    requires exists j :: 0 <= j < |answers| && Aliases(answers[j], cname)
    ensures LastAlias(answers, i, cname)
  {
    i := |answers| - 1;
    while !Aliases(answers[i], cname)
      invariant 0 <= i < |answers|
      invariant forall j | i < j < |answers| :: !Aliases(answers[j], cname)
      decreases i
    {
      if i == 0 {
        assert false;
      }
      i := i - 1;
    }
  }

  lemma AskedAsIff(answers: seq<Record>, name: string, dest: string)
    ensures AskedAs(answers, name, dest) <==> dest == if name in CNames(answers) then CNames(answers)[name] else name
  {
    forall j ensures LastAlias(answers, j, name) ==>
        name in CNames(answers) && CNames(answers)[name] == answers[j].name {
      CNamesAreLastAliases(answers, name, j);
    }
    CNamesAreLastAliases(answers, name, 0);
    if name in CNames(answers) {
      var j := LastAliasExists(answers, name);
    }
  }

  lemma ShowsIff(packet: DnsPacket, i: int, hostname: string, r: UniqueRequest)
    requires 0 <= i < |packet.answers|
    ensures Shows(packet, i, hostname, r) <==>
            IsAddress(packet.answers[i]) && Named(SightingOf(packet, packet.answers[i]), hostname).request == r
  {
    AskedAsIff(packet.answers, packet.answers[i].name, r.destHostnameOrIP);
  }

  lemma ShownMore(packet: DnsPacket, n: nat, hostname: string, r: UniqueRequest)
    requires n < |packet.answers|
    ensures ShownBefore(packet, n + 1, hostname, r) <==>
            ShownBefore(packet, n, hostname, r) || Shows(packet, n, hostname, r)
    ensures forall i | LastShows(packet, n + 1, i, hostname, r) ::
              if Shows(packet, n, hostname, r) then i == n else LastShows(packet, n, i, hostname, r)
  {
    forall i | LastShows(packet, n + 1, i, hostname, r)
      ensures if Shows(packet, n, hostname, r) then i == n else LastShows(packet, n, i, hostname, r)
    {
      if Shows(packet, n, hostname, r) && i < n {
        assert false;
      }
      assert !Shows(packet, n, hostname, r) ==> i != n;
    }
  }

  /** The first `n` records have been recorded in `c`, as far as the request `r` and record `i` go. */
  ghost predicate RequestsRecorded(m: CapturesMap, c: CapturesMap, packet: DnsPacket, n: nat, r: UniqueRequest, i: int)
    requires n <= |packet.answers|
  {
    && (r in c <==> r in m || ShownBefore(packet, n, "", r))
    && (r in m && !ShownBefore(packet, n, "", r) ==> c[r] == m[r])
    && (LastShows(packet, n, i, "", r) ==> c[r].lastSeen == packet.time && c[r].ttl == Some(packet.answers[i].ttl))
    && (r in c ==> c[r].srcPorts == if r in m then m[r].srcPorts else {})
  }

  lemma OneMoreRecorded(m: CapturesMap, c: CapturesMap, packet: DnsPacket, n: nat, r: UniqueRequest, i: int)
    requires n < |packet.answers| && RequestsRecorded(m, c, packet, n, r, i)
    ensures !IsAddress(packet.answers[n]) ==> RequestsRecorded(m, c, packet, n + 1, r, i)
    ensures IsAddress(packet.answers[n]) ==>
              RequestsRecorded(m, Added(c, Named(SightingOf(packet, packet.answers[n]), "")), packet, n + 1, r, i)
  {
    ShowsIff(packet, n, "", r);
    ShownMore(packet, n, "", r);
    assert r in c ==> c[r].srcPorts + {} == c[r].srcPorts;
  }

  /** Away from AWS, these requests are recorded without a hostname and without a source port, each with the time
      of the reply and the TTL of the last record that shows it. */
  lemma {:induction false} RecordsAreRequests(start: Sniffer, answers: map<string, string>, packet: DnsPacket, n: nat,
                                              r: UniqueRequest, i: int)
    requires n <= |packet.answers|
    ensures RequestsRecorded(start.captured, AfterRecords(start, false, answers, packet, n).captured, packet, n, r, i)
  {
    if n > 0 {
      RecordsAreRequests(start, answers, packet, n - 1, r, i);
      OneMoreRecorded(start.captured, AfterRecords(start, false, answers, packet, n - 1).captured, packet, n - 1, r, i);
    }
  }

  lemma {:induction false} RecordingKeepsPending(start: Sniffer, answers: map<string, string>, packet: DnsPacket,
                                                 n: nat)
    requires n <= |packet.answers|
    ensures AfterRecords(start, false, answers, packet, n).pending == start.pending
  {
    if n > 0 {
      RecordingKeepsPending(start, answers, packet, n - 1);
    }
  }

  /** Record `i` shows the request of this capture, which has the time of the reply and the TTL of the record. */
  ghost predicate Captures(packet: DnsPacket, i: int, hostname: string, c: Capture) {
    && Shows(packet, i, hostname, c.request)
    && c.seenAt == packet.time && c.ttl == Some(packet.answers[i].ttl) && c.srcPort == None
  }

  ghost predicate CapturedBefore(packet: DnsPacket, n: int, hostname: string, c: Capture) {
    exists i :: 0 <= i < n && Captures(packet, i, hostname, c)
  }

  /** On AWS, if the source resolves, there is one more pending capture for each address record, of the request
      it shows under that hostname. */
  lemma {:induction false} RecordsWait(start: Sniffer, answers: map<string, string>, packet: DnsPacket, n: nat,
                                       c: Capture)
    requires n <= |packet.answers|
    ensures var pending := AfterRecords(start, true, answers, packet, n).pending;
            if packet.dstIP !in answers then pending == start.pending
            else
              && |pending| == |start.pending| + |AddressRecords(packet, n)|
              && start.pending <= pending
              && (c in pending[|start.pending|..] <==> CapturedBefore(packet, n, answers[packet.dstIP], c))
    ensures AfterRecords(start, true, answers, packet, n).captured == start.captured
  {
    if n == 0 {
      assert AddressRecords(packet, 0) == {};
    } else {
      RecordsWait(start, answers, packet, n - 1, c);
      AddressRecordsMore(packet, n - 1);
      if packet.dstIP in answers && IsAddress(packet.answers[n - 1]) {
        var s := SightingOf(packet, packet.answers[n - 1]);
        var before := AfterRecords(start, true, answers, packet, n - 1).pending;
        TailMore(before, Named(s, answers[packet.dstIP]), |start.pending|, c);
        ShowsIff(packet, n - 1, answers[packet.dstIP], c.request);
        CapturesIff(packet, n - 1, answers[packet.dstIP], c);
      }
    }
  }

  lemma CapturesIff(packet: DnsPacket, i: int, hostname: string, c: Capture)
    requires 0 <= i < |packet.answers| && IsAddress(packet.answers[i])
    ensures Captures(packet, i, hostname, c) <==> c == Named(SightingOf(packet, packet.answers[i]), hostname)
  {
    ShowsIff(packet, i, hostname, c.request);
  }

  lemma TailMore(s: seq<Capture>, x: Capture, n: nat, c: Capture)
    requires n <= |s|
    ensures c in (s + [x])[n..] <==> c in s[n..] || c == x
  {
    assert (s + [x])[n..] == s[n..] + [x];
  }

  ghost function AddressRecords(packet: DnsPacket, n: int): set<int> {
    set i | 0 <= i < n <= |packet.answers| && (packet.answers[i].kind == TypeA || packet.answers[i].kind == TypeAAAA)
  }

  lemma AddressRecordsMore(packet: DnsPacket, n: nat)
    requires n < |packet.answers|
    ensures |AddressRecords(packet, n + 1)| == |AddressRecords(packet, n)| +
            if IsAddress(packet.answers[n]) then 1 else 0
  {
    assert AddressRecords(packet, n + 1) == AddressRecords(packet, n) +
        if IsAddress(packet.answers[n]) then {n} else {};
  }

  /** What handling a reply does, in terms of its records: away from AWS the requests they show are recorded
      without a hostname; on AWS they wait under the hostname the pod resolves to, if it does. */
  ghost predicate ReplyHandled(before: Sniffer, after: Sniffer, onAWS: bool, hostname: Option<string>,
                               packet: DnsPacket) {
    var n := |packet.answers|;
    if !onAWS then
      && after.pending == before.pending
      && (forall r :: r in after.captured <==> r in before.captured || ShownBefore(packet, n, "", r))
      && (forall i, r | LastShows(packet, n, i, "", r) ::
            r in after.captured && after.captured[r].lastSeen == packet.time &&
            after.captured[r].ttl == Some(packet.answers[i].ttl))
      && (forall r | r in before.captured && !ShownBefore(packet, n, "", r) ::
            r in after.captured && after.captured[r] == before.captured[r])
      && (forall r | r in after.captured ::
            after.captured[r].srcPorts == if r in before.captured then before.captured[r].srcPorts else {})
    else if hostname.None? then after == before
    else
      && after.captured == before.captured
      && |after.pending| == |before.pending| + |AddressRecords(packet, n)| && before.pending <= after.pending
      && forall c :: c in after.pending[|before.pending|..] <==> CapturedBefore(packet, n, hostname.value, c)
  }

  lemma ReplyIsRecorded(before: Sniffer, answers: map<string, string>, packet: DnsPacket, hostname: Option<string>)
    ensures ReplyHandled(before, AfterRecords(before, false, answers, packet, |packet.answers|), false, hostname,
                         packet)
  {
    var n := |packet.answers|;
    var after := AfterRecords(before, false, answers, packet, n);
    forall r
      ensures r in after.captured <==> r in before.captured || ShownBefore(packet, n, "", r)
      ensures r in before.captured && !ShownBefore(packet, n, "", r) ==> after.captured[r] == before.captured[r]
      ensures r in after.captured ==>
                after.captured[r].srcPorts == if r in before.captured then before.captured[r].srcPorts else {}
    {
      RecordsAreRequests(before, answers, packet, n, r, 0);
    }
    forall i, r | LastShows(packet, n, i, "", r)
      ensures r in after.captured && after.captured[r].lastSeen == packet.time &&
              after.captured[r].ttl == Some(packet.answers[i].ttl)
    {
      RecordsAreRequests(before, answers, packet, n, r, i);
    }
    RecordingKeepsPending(before, answers, packet, n);
  }

  lemma ReplyWaits(before: Sniffer, answers: map<string, string>, packet: DnsPacket, hostname: Option<string>)
    requires hostname == if packet.dstIP in answers then Some(answers[packet.dstIP]) else None
    ensures ReplyHandled(before, AfterRecords(before, true, answers, packet, |packet.answers|), true, hostname, packet)
  {
    var n := |packet.answers|;
    var after := AfterRecords(before, true, answers, packet, n);
    RecordsWait(before, answers, packet, n, Capture(UniqueRequest("", "", "", "", None), 0, None, None));
    if hostname.Some? {
      forall c ensures c in after.pending[|before.pending|..] <==> CapturedBefore(packet, n, hostname.value, c) {
        RecordsWait(before, answers, packet, n, c);
      }
    }
  }

  lemma ReplyIsHandled(before: Sniffer, onAWS: bool, b: Book, packet: DnsPacket)
    requires Sound(b)
    ensures ReplyHandled(before, AfterRecords(before, onAWS, Answers(b), packet, |packet.answers|), onAWS,
                         Resolve(b, packet.dstIP), packet)
  {
    ResolveIsAnswer(b, packet.dstIP);
    if onAWS {
      ReplyWaits(before, Answers(b), packet, Resolve(b, packet.dstIP));
    } else {
      ReplyIsRecorded(before, Answers(b), packet, Resolve(b, packet.dstIP));
    }
  }

  // ----- Handling a reply -----

  /** What handling one record of a reply does. */
  ghost function AfterRecord(before: Sniffer, onAWS: bool, answers: map<string, string>, r: Record,
                             s: Sighting): Sniffer {
    if !IsAddress(r) then before
    else if !onAWS then before.(captured := Added(before.captured, Named(s, "")))
    else if s.srcIP in answers then before.(pending := before.pending + [Named(s, answers[s.srcIP])])
    else before
  }

  ghost function AfterRecords(start: Sniffer, onAWS: bool, answers: map<string, string>, packet: DnsPacket,
                              n: nat): Sniffer
    requires n <= |packet.answers|
  {
    if n == 0 then start
    else AfterRecord(AfterRecords(start, onAWS, answers, packet, n - 1), onAWS, answers,
                     packet.answers[n - 1], SightingOf(packet, packet.answers[n - 1]))
  }

  /** Away from AWS the answers are recorded at once, without a hostname. */
  ghost function AfterDnsPacket(start: Sniffer, onAWS: bool, answers: map<string, string>, ss: seq<Sighting>): Sniffer {
    if onAWS then AfterPacket(start, false, answers, ss)
    else Sniffer(start.pending, AllAdded(start.captured, NamedAll(ss, "")))
  }

  lemma {:induction false} RecordsAreSightings(start: Sniffer, onAWS: bool, answers: map<string, string>,
                                               packet: DnsPacket, n: nat)
    requires n <= |packet.answers|
    ensures AfterRecords(start, onAWS, answers, packet, n)
            == AfterDnsPacket(start, onAWS, answers, DnsSightings(packet, n))
  {
    if n == 0 {
      assert start.pending + [] == start.pending;
    } else {
      RecordsAreSightings(start, onAWS, answers, packet, n - 1);
      var r, ss := packet.answers[n - 1], DnsSightings(packet, n - 1);
      if IsAddress(r) {
        OneMoreSighting(start, onAWS, answers, ss, r, SightingOf(packet, r));
      }
    }
  }

  lemma OneMoreSighting(start: Sniffer, onAWS: bool, answers: map<string, string>, ss: seq<Sighting>, r: Record,
                        s: Sighting)
    requires IsAddress(r)
    ensures AfterDnsPacket(start, onAWS, answers, ss + [s])
            == AfterRecord(AfterDnsPacket(start, onAWS, answers, ss), onAWS, answers, r, s)
  {
    assert Before(ss + [s]) == ss;
    if onAWS {
      var more := if s.srcIP in answers then [Named(s, answers[s.srcIP])] else [];
      ResolvedLast(answers, ss, s);
      assert start.pending + (Resolved(answers, ss) + more) == (start.pending + Resolved(answers, ss)) + more;
      assert (start.pending + Resolved(answers, ss)) + [] == start.pending + Resolved(answers, ss);
    } else {
      AddedLast(start.captured, NamedAll(ss, ""), Named(s, ""));
    }
  }

  /** The resolver is in a state in which these are its answers. */
  ghost predicate Answering(resolver: ProcFSIPResolver, answers: map<string, string>)
    reads resolver, resolver.repr
  {
    resolver.Valid() && answers == Answers(resolver.View())
  }

  method Ask(resolver: ProcFSIPResolver, ip: string, ghost answers: map<string, string>)
    returns (hostname: string, ok: bool)
    requires Answering(resolver, answers)
    ensures ok == (ip in answers) && (ok ==> hostname == answers[ip])
  {
    hostname, ok := resolver.ResolveIP(ip);
    ResolveIsAnswer(resolver.View(), ip);
  }

  // ----- What a refresh does -----

  /** The source address of a pending capture resolves to the hostname it had. */
  ghost predicate StillResolves(b: Book, c: Capture)
    requires Sound(b)
  {
    Resolve(b, c.request.srcIP) == Some(c.request.srcHostname)
  }

  /** After a refresh nothing waits. The requests of the captures that still resolve have joined those recorded,
      each with the time and TTL of the last of them, and with their source ports. */
  ghost predicate Settled(before: Sniffer, after: Sniffer, b: Book)
    requires Sound(b)
  {
    && after.pending == []
    && (forall r :: r in after.captured <==>
          r in before.captured || exists c :: c in before.pending && c.request == r && StillResolves(b, c))
    && (forall r | r in before.captured && forall c | c in before.pending && c.request == r :: !StillResolves(b, c) ::
          after.captured[r] == before.captured[r])
    && (forall i | 0 <= i < |before.pending| && LastToResolve(b, before.pending, i) ::
          var c := before.pending[i];
          && c.request in after.captured
          && after.captured[c.request].lastSeen == c.seenAt && after.captured[c.request].ttl == c.ttl)
    && (forall r, p | r in after.captured ::
          p in after.captured[r].srcPorts <==>
          || (r in before.captured && p in before.captured[r].srcPorts)
          || exists c :: c in before.pending && c.request == r && StillResolves(b, c) && c.srcPort == Some(p))
  }

  /** Capture `i` still resolves, and no later one of the same request does. */
  ghost predicate LastToResolve(b: Book, pending: seq<Capture>, i: int)
    requires Sound(b) && 0 <= i < |pending|
  {
    StillResolves(b, pending[i]) &&
    forall j | i < j < |pending| && pending[j].request == pending[i].request :: !StillResolves(b, pending[j])
  }

  lemma ConfirmsIff(b: Book, c: Capture)
    requires Sound(b)
    ensures Confirms(Answers(b), c) <==> StillResolves(b, c)
  {
    ResolveIsAnswer(b, c.request.srcIP);
  }

  lemma ConfirmedRequest(b: Book, pending: seq<Capture>, r: UniqueRequest)
    requires Sound(b)
    ensures Asked(Confirmed(Answers(b), pending), r) <==>
            exists c :: c in pending && c.request == r && StillResolves(b, c)
    ensures forall p :: p in PortsSeen(Confirmed(Answers(b), pending), r) <==>
              exists c :: c in pending && c.request == r && StillResolves(b, c) && c.srcPort == Some(p)
  {
    var cs := Confirmed(Answers(b), pending);
    ConfirmedMembers(Answers(b), pending);
    forall c ensures c in cs <==> c in pending && StillResolves(b, c) {
      ConfirmsIff(b, c);
    }
    if Asked(cs, r) {
      var i :| 0 <= i < |cs| && cs[i].request == r;
      assert cs[i] in cs;
    }
    if c :| c in pending && c.request == r && StillResolves(b, c) {
      assert c in cs;
    }
    forall p ensures p in PortsSeen(cs, r) <==> exists c :: c in cs && c.request == r && c.srcPort == Some(p) {
      if p in PortsSeen(cs, r) {
        var i :| 0 <= i < |cs| && cs[i].request == r && cs[i].srcPort == Some(p);
        assert cs[i] in cs;
      }
    }
  }

  lemma {:induction false} LastConfirmed(b: Book, pending: seq<Capture>, i: int)
    requires Sound(b) && 0 <= i < |pending| && LastToResolve(b, pending, i)
    ensures LastOfKind(Confirmed(Answers(b), pending), pending[i])
  {
    var before, cs := Before(pending), Confirmed(Answers(b), pending);
    var earlier, l := Confirmed(Answers(b), before), Last(pending);
    ConfirmsIff(b, l);
    if i == |pending| - 1 {
      assert cs[|cs| - 1] == l;
    } else {
      assert forall j | 0 <= j < |before| :: before[j] == pending[j];
      LastConfirmed(b, before, i);
      assert pending[|pending| - 1] == l;
      var k :| 0 <= k < |earlier| && earlier[k] == pending[i] &&
               forall j | k < j < |earlier| :: earlier[j].request != pending[i].request;
      assert cs[k] == pending[i];
      assert forall j | k < j < |cs| :: j < |earlier| ==> cs[j] == earlier[j];
    }
  }

  lemma RefreshSettles(before: Sniffer, b: Book)
    requires Sound(b)
    ensures Settled(before, AfterRefresh(before, Answers(b), false), b)
  {
    var cs, after := Confirmed(Answers(b), before.pending), AfterRefresh(before, Answers(b), false);
    forall r
      ensures r in after.captured <==>
              r in before.captured || exists c :: c in before.pending && c.request == r && StillResolves(b, c)
      ensures r in before.captured && (forall c | c in before.pending && c.request == r :: !StillResolves(b, c)) ==>
                after.captured[r] == before.captured[r]
      ensures r in after.captured ==>
                forall p :: p in after.captured[r].srcPorts <==>
                  || (r in before.captured && p in before.captured[r].srcPorts)
                  || exists c :: c in before.pending && c.request == r && StillResolves(b, c) && c.srcPort == Some(p)
    {
      AddedExactly(before.captured, cs, r);
      ConfirmedRequest(b, before.pending, r);
    }
    forall i | 0 <= i < |before.pending| && LastToResolve(b, before.pending, i)
      ensures var c := before.pending[i];
              && c.request in after.captured
              && after.captured[c.request].lastSeen == c.seenAt && after.captured[c.request].ttl == c.ttl
    {
      AddedExactly(before.captured, cs, before.pending[i].request);
      LastConfirmed(b, before.pending, i);
    }
  }

  class DNSSniffer {
    const collector: NetworkCollector
    const monitor: ProcessMonitor
    var pending: seq<PendingCapture>
    const isRunningOnAWS: bool
    ghost var steps: seq<Step>

    /** The state is where the log leads, and the resolver is polled only by logged refreshes. */
    ghost predicate Valid()
      reads this, collector, monitor, monitor.resolver, monitor.resolver.repr
    {
      monitor.Valid() && monitor.polls == Polls(steps) && InStep()
    }

    ghost predicate InStep()
      reads this, collector
    {
      View() == StateAfter(isRunningOnAWS, false, steps)
    }

    ghost method Log(step: Step)
      requires monitor.Valid() && monitor.polls == Polls(steps + [step])
      requires View() == StateAfter(isRunningOnAWS, false, steps + [step])
      modifies this`steps
      ensures Valid() && View() == old(View())
      ensures steps != [] && Before(steps) == old(steps) && Last(steps) == step
    {
      steps := steps + [step];
    }

    constructor (monitor: ProcessMonitor, isRunningOnAWS: bool)
      ensures this.monitor == monitor && this.isRunningOnAWS == isRunningOnAWS && fresh(collector)
      ensures steps == [] && InStep()
      ensures monitor.Valid() && monitor.polls == [] ==> Valid()
    {
      collector := new NetworkCollector();
      this.monitor, this.isRunningOnAWS, pending, steps := monitor, isRunningOnAWS, [], [];
    }

    ghost function View(): Sniffer
      reads this, collector
    {
      Sniffer(AllPendingDns(pending), collector.capturedRequests)
    }

    method HandlePacket(enabled: bool, packet: DnsPacket)
      requires Valid()
      modifies this`pending, this`steps, collector
      ensures Valid()
      ensures !enabled || !packet.answered ==> View() == old(View()) && steps == old(steps)
      ensures enabled && packet.answered ==>
                && steps != [] && Before(steps) == old(steps)
                && Last(steps) == Packet(DnsSightings(packet, |packet.answers|))
                && View() == AfterDnsPacket(old(View()), isRunningOnAWS, old(Answers(monitor.resolver.View())),
                                            DnsSightings(packet, |packet.answers|))
                && ReplyHandled(old(View()), View(), isRunningOnAWS,
                                old(Resolve(monitor.resolver.View(), packet.dstIP)),
                                packet)
    {
      if !enabled || !packet.answered {
        return;
      }
      CapturePacket(packet);
      ghost var ss := DnsSightings(packet, |packet.answers|);
      NextPacket(isRunningOnAWS, false, steps, ss);
      Log(Packet(ss));
    }

    method CapturePacket(packet: DnsPacket)
      requires monitor.resolver.Valid()
      modifies this`pending, collector
      ensures View() == AfterDnsPacket(old(View()), isRunningOnAWS, old(Answers(monitor.resolver.View())),
                                       DnsSightings(packet, |packet.answers|))
      ensures ReplyHandled(old(View()), View(), isRunningOnAWS, old(Resolve(monitor.resolver.View(), packet.dstIP)),
                           packet)
    {
      ghost var answers := Answers(monitor.resolver.View());
      RecordsAreSightings(View(), isRunningOnAWS, answers, packet, |packet.answers|);
      ReplyIsHandled(View(), isRunningOnAWS, monitor.resolver.View(), packet);
      var cnameToA := GetCNameTranslation(packet.answers);
      HandleAnswers(packet, cnameToA, answers);
    }

    method HandleAnswers(packet: DnsPacket, cnameToA: map<string, string>, ghost answers: map<string, string>)
      requires Answering(monitor.resolver, answers)
      requires cnameToA == CNames(packet.answers)
      modifies this`pending, collector
      ensures View() == AfterRecords(old(View()), isRunningOnAWS, answers, packet, |packet.answers|)
    {
      ghost var start := View();
      for n := 0 to |packet.answers|
        invariant Answering(monitor.resolver, answers)
        invariant View() == AfterRecords(start, isRunningOnAWS, answers, packet, n)
      {
        HandleNext(packet, n, cnameToA, answers, start);
      }
    }

    /** One turn of the loop over the records. */
    method HandleNext(packet: DnsPacket, n: nat, cnameToA: map<string, string>, ghost answers: map<string, string>,
                      ghost start: Sniffer)
      requires n < |packet.answers| && cnameToA == CNames(packet.answers)
      requires Answering(monitor.resolver, answers) && View() == AfterRecords(start, isRunningOnAWS, answers, packet, n)
      modifies this`pending, collector
      ensures Answering(monitor.resolver, answers) &&
              View() == AfterRecords(start, isRunningOnAWS, answers, packet, n + 1)
    {
      HandleAnswer(packet.answers[n], packet.dstIP, packet.time, cnameToA, answers,
                   SightingOf(packet, packet.answers[n]));
    }

    method HandleAnswer(answer: Record, dstIP: string, time: int, cnameToA: map<string, string>,
                        ghost answers: map<string, string>, ghost s: Sighting)
      requires Answering(monitor.resolver, answers)
      requires s == Sighting(dstIP, if answer.name in cnameToA then cnameToA[answer.name] else answer.name,
                             answer.ip, None, time, Some(answer.ttl), None)
      modifies this`pending, collector
      ensures View() == AfterRecord(old(View()), isRunningOnAWS, answers, answer, s)
    {
      if answer.kind != TypeA && answer.kind != TypeAAAA {
        return;
      }
      var hostName := answer.name;
      if hostName in cnameToA {
        hostName := cnameToA[hostName];
      }
      if !isRunningOnAWS {
        collector.AddCapturedRequest(dstIP, "", hostName, answer.ip, time, Some(answer.ttl), None, None);
        return;
      }
      var hostname, ok := Ask(monitor.resolver, dstIP, answers);
      if ok {
        var p := PendingCapture(dstIP, hostname, hostName, answer.ip, time, answer.ttl);
        assert Before(pending + [p]) == pending;
        pending := pending + [p];
      }
    }

    /** Refresh the resolver and settle the pending captures; on failure they wait. */
    method RefreshHostsMapping(visits: seq<Visit>, failed: bool) returns (ok: bool)
      requires Valid() && DistinctPids(visits)
      modifies this`pending, this`steps, collector, monitor, monitor.resolver, monitor.resolver.repr
      ensures Valid() && fresh(monitor.resolver.repr - old(monitor.resolver.repr))
      ensures !isRunningOnAWS ==>
              ok && View() == old(View()) && steps == old(steps) && monitor.polls == old(monitor.polls)
      ensures isRunningOnAWS ==>
                && ok == !failed
                && steps != [] && Before(steps) == old(steps) && Last(steps).Refresh?
                && Last(steps).poll.visits == visits && Last(steps).poll.failed == failed
                && View() == AfterRefresh(old(View()), Answers(monitor.resolver.View()), failed)
                && (failed ==> View() == old(View()))
                && (!failed ==> Settled(old(View()), View(), monitor.resolver.View()))
    {
      if !isRunningOnAWS {
        return true;
      }
      ok := PollAndSettle(visits, failed);
      NextRefresh(false, steps, monitor.polls);
      Log(Refresh(Last(monitor.polls)));
    }

    method PollAndSettle(visits: seq<Visit>, failed: bool) returns (ok: bool)
      requires monitor.Valid() && DistinctPids(visits)
      modifies this`pending, collector, monitor, monitor.resolver, monitor.resolver.repr
      ensures monitor.Valid() && fresh(monitor.resolver.repr - old(monitor.resolver.repr))
      ensures ok == !failed
      ensures monitor.polls != [] && Before(monitor.polls) == old(monitor.polls)
      ensures Last(monitor.polls).visits == visits && Last(monitor.polls).failed == failed
      ensures View() == AfterRefresh(old(View()), Answers(monitor.resolver.View()), failed)
      ensures !failed ==> Settled(old(View()), View(), monitor.resolver.View())
    {
      ghost var before := View();
      ok := monitor.Poll(visits, failed);
      if !ok {
        return;
      }
      Settle(Answers(monitor.resolver.View()));
      RefreshSettles(before, monitor.resolver.View());
    }

    /** The other sniffer has polled the resolver. */
    ghost method SeeOtherRefresh()
      requires monitor.Valid() && InStep()
      requires monitor.polls != [] && Before(monitor.polls) == Polls(steps)
      modifies this`steps
      ensures Valid()
      ensures steps != [] && Before(steps) == old(steps) && Last(steps) == OtherRefresh(Last(monitor.polls))
    {
      NextOtherRefresh(isRunningOnAWS, false, steps, monitor.polls);
      Log(OtherRefresh(Last(monitor.polls)));
    }

    /** Report what was recorded since the last report. */
    method CollectResults() returns (results: seq<RecordedDestinationsForSrc>)
      requires Valid()
      modifies this`steps, collector
      ensures Valid()
      ensures steps != [] && Before(steps) == old(steps) && Last(steps) == Collect
      ensures Groups(StateAfter(isRunningOnAWS, false, old(steps)).captured, results)
    {
      results := GroupCaptured();
      NextCollect(isRunningOnAWS, false, steps);
      Log(Collect);
    }

    method GroupCaptured() returns (results: seq<RecordedDestinationsForSrc>)
      modifies collector
      ensures Groups(old(View()).captured, results)
      ensures View() == old(View()).(captured := map[])
    {
      results := collector.CollectResults();
    }

    method Settle(ghost answers: map<string, string>)
      requires Answering(monitor.resolver, answers)
      modifies this`pending, collector
      ensures View() == AfterRefresh(old(View()), answers, false)
    {
      SettleAll(answers);
      pending := [];
    }

    method SettleAll(ghost answers: map<string, string>)
      requires Answering(monitor.resolver, answers)
      modifies collector
      ensures collector.capturedRequests
              == AllAdded(old(collector.capturedRequests), Confirmed(answers, AllPendingDns(pending)))
    {
      ghost var start := collector.capturedRequests;
      for n := 0 to |pending|
        invariant Answering(monitor.resolver, answers)
        invariant collector.capturedRequests == AllAdded(start, Confirmed(answers, AllPendingDns(pending[..n])))
      {
        SettleOne(pending[n], AllPendingDns(pending[..n]), answers, start);
        NextPendingDns(pending, n);
      }
      assert pending[..|pending|] == pending;
    }

    method SettleOne(p: PendingCapture, ghost settled: seq<Capture>, ghost answers: map<string, string>,
                     ghost start: CapturesMap)
      requires Answering(monitor.resolver, answers)
      requires collector.capturedRequests == AllAdded(start, Confirmed(answers, settled))
      modifies collector
      ensures collector.capturedRequests == AllAdded(start, Confirmed(answers, settled + [PendingDns(p)]))
    {
      SettledMore(start, answers, settled, PendingDns(p));
      var hostname, ok := Ask(monitor.resolver, p.srcIp, answers);
      if !ok {
        return;
      }
      if p.srcHostname != hostname {
        return;
      }
      collector.AddCapturedRequest(p.srcIp, hostname, p.destHostnameOrIP, p.destIPFromDNS, p.time, Some(p.ttl), None,
                                   None);
    }
  }

  // ----- TCP -----

  /** A TCP SYN with an IPv4 layer and ports. */
  datatype TcpPacket = TcpPacket(srcIP: string, dstIP: string, srcPort: int, dstPort: int, time: int)

  datatype PendingTCPCapture = PendingTCPCapture(srcIp: string, srcHostname: string, destIp: string, destPort: int,
                                                 srcPort: int, time: int)

  ghost function PendingTcp(p: PendingTCPCapture): Capture {
    Capture(UniqueRequest(p.srcIp, p.srcHostname, p.destIp, p.destIp, Some(p.destPort)), p.time, None, Some(p.srcPort))
  }

  ghost function AllPendingTcp(ps: seq<PendingTCPCapture>): seq<Capture> {
    if ps == [] then [] else AllPendingTcp(Before(ps)) + [PendingTcp(Last(ps))]
  }

  lemma NextPendingTcp(ps: seq<PendingTCPCapture>, n: nat)
    requires n < |ps|
    ensures AllPendingTcp(ps[..n + 1]) == AllPendingTcp(ps[..n]) + [PendingTcp(ps[n])]
  {
    assert Before(ps[..n + 1]) == ps[..n];
  }

  ghost function TcpSighting(p: TcpPacket): Sighting {
    Sighting(p.srcIP, p.dstIP, p.dstIP, Some(p.dstPort), p.time, None, Some(p.srcPort))
  }

  lemma OneSighting(before: Sniffer, answers: map<string, string>, s: Sighting)
    ensures AfterPacket(before, true, answers, [s])
         == if s.srcIP in answers then before.(pending := before.pending + [Named(s, answers[s.srcIP])])
            else before.(captured := Added(before.captured, Unnamed(answers, s)))
  {
    ResolvedOne(answers, s);
    UnresolvedOne(answers, s);
    assert before.pending + [] == before.pending;
    OneAdded(before.captured, Unnamed(answers, s));
  }

  /** What handling a connection does: on AWS it waits under the hostname its source resolves to, if it does;
      otherwise it is recorded at once without one, on AWS with the hostname its destination resolves to. */
  ghost predicate ConnectionHandled(before: Sniffer, after: Sniffer, onAWS: bool, b: Book, p: TcpPacket)
    requires Sound(b)
  {
    var host, destHost := Resolve(b, p.srcIP), Resolve(b, p.dstIP);
    if onAWS && host.Some? then
      var r := UniqueRequest(p.srcIP, host.value, p.dstIP, p.dstIP, Some(p.dstPort));
      after == Sniffer(before.pending + [Capture(r, p.time, None, Some(p.srcPort))], before.captured)
    else
      var dest := if onAWS && destHost.Some? then destHost.value else p.dstIP;
      var r := UniqueRequest(p.srcIP, "", dest, p.dstIP, Some(p.dstPort));
      var ports := if r in before.captured then before.captured[r].srcPorts else {};
      after == Sniffer(before.pending, before.captured[r := TimeAndTTL(p.time, None, ports + {p.srcPort})])
  }

  lemma ConnectionIsHandled(before: Sniffer, b: Book, p: TcpPacket)
    requires Sound(b)
    ensures ConnectionHandled(before, AfterPacket(before, true, Answers(b), [TcpSighting(p)]), true, b, p)
    ensures ConnectionHandled(before, before.(captured := Added(before.captured, Named(TcpSighting(p), ""))), false,
                              b, p)
  {
    OneSighting(before, Answers(b), TcpSighting(p));
    ResolveIsAnswer(b, p.srcIP);
    ResolveIsAnswer(b, p.dstIP);
  }

  lemma ResolvedOne(answers: map<string, string>, s: Sighting)
    ensures Resolved(answers, [s]) == if s.srcIP in answers then [Named(s, answers[s.srcIP])] else []
  {
    assert Before([s]) == [];
  }

  lemma UnresolvedOne(answers: map<string, string>, s: Sighting)
    ensures Unresolved(answers, [s]) == if s.srcIP in answers then [] else [Unnamed(answers, s)]
  {
    assert Before([s]) == [];
  }

  lemma OneAdded(m: CapturesMap, c: Capture)
    ensures AllAdded(m, [c]) == Added(m, c)
  {
    assert Before([c]) == [];
  }

  lemma AllNamedOne(m: CapturesMap, s: Sighting)
    ensures AllAdded(m, NamedAll([s], "")) == Added(m, Named(s, ""))
  {
    assert Before([s]) == [] && NamedAll([s], "") == [Named(s, "")];
    OneAdded(m, Named(s, ""));
  }

  class TCPSniffer {
    const collector: NetworkCollector
    const monitor: ProcessMonitor
    var pending: seq<PendingTCPCapture>
    const isRunningOnAWS: bool
    ghost var steps: seq<Step>

    /** The state is where the log leads, and the resolver is polled only by logged refreshes. */
    ghost predicate Valid()
      reads this, collector, monitor, monitor.resolver, monitor.resolver.repr
    {
      monitor.Valid() && monitor.polls == Polls(steps) && InStep()
    }

    ghost predicate InStep()
      reads this, collector
    {
      View() == StateAfter(isRunningOnAWS, true, steps)
    }

    ghost method Log(step: Step)
      requires monitor.Valid() && monitor.polls == Polls(steps + [step])
      requires View() == StateAfter(isRunningOnAWS, true, steps + [step])
      modifies this`steps
      ensures Valid() && View() == old(View())
      ensures steps != [] && Before(steps) == old(steps) && Last(steps) == step
    {
      steps := steps + [step];
    }

    constructor (monitor: ProcessMonitor, isRunningOnAWS: bool)
      ensures this.monitor == monitor && this.isRunningOnAWS == isRunningOnAWS && fresh(collector)
      ensures steps == [] && InStep()
      ensures monitor.Valid() && monitor.polls == [] ==> Valid()
    {
      collector := new NetworkCollector();
      this.monitor, this.isRunningOnAWS, pending, steps := monitor, isRunningOnAWS, [], [];
    }

    ghost function View(): Sniffer
      reads this, collector
    {
      Sniffer(AllPendingTcp(pending), collector.capturedRequests)
    }

    /** `packet` is absent when a layer or the ports could not be decoded. */
    method HandlePacket(enabled: bool, packet: Option<TcpPacket>)
      requires Valid()
      modifies this`pending, this`steps, collector
      ensures Valid()
      ensures !enabled || packet.None? ==> View() == old(View()) && steps == old(steps)
      ensures enabled && packet.Some? ==>
                var s := TcpSighting(packet.value);
                && steps != [] && Before(steps) == old(steps) && Last(steps) == Packet([s])
                && (isRunningOnAWS ==>
                      View() == AfterPacket(old(View()), true, old(Answers(monitor.resolver.View())), [s]))
                && (!isRunningOnAWS ==>
                      View() == Sniffer(old(View()).pending, Added(old(View()).captured, Named(s, ""))))
                && ConnectionHandled(old(View()), View(), isRunningOnAWS, old(monitor.resolver.View()), packet.value)
    {
      if !enabled || packet.None? {
        return;
      }
      CapturePacket(packet.value);
      ghost var s := TcpSighting(packet.value);
      AllNamedOne(View().captured, s);
      NextPacket(isRunningOnAWS, true, steps, [s]);
      Log(Packet([s]));
    }

    method CapturePacket(packet: TcpPacket)
      requires monitor.resolver.Valid()
      modifies this`pending, collector
      ensures var s := TcpSighting(packet);
              && (isRunningOnAWS ==>
                    View() == AfterPacket(old(View()), true, old(Answers(monitor.resolver.View())), [s]))
              && (!isRunningOnAWS ==>
                    View() == Sniffer(old(View()).pending, Added(old(View()).captured, Named(s, ""))))
      ensures ConnectionHandled(old(View()), View(), isRunningOnAWS, old(monitor.resolver.View()), packet)
    {
      ConnectionIsHandled(View(), monitor.resolver.View(), packet);
      var srcIP, dstIP := packet.srcIP, packet.dstIP;
      var srcPort, dstPort, captureTime := packet.srcPort, packet.dstPort, packet.time;
      if !isRunningOnAWS {
        collector.AddCapturedRequest(srcIP, "", dstIP, dstIP, captureTime, None, Some(dstPort), Some(srcPort));
        return;
      }
      ghost var answers := Answers(monitor.resolver.View());
      OneSighting(View(), answers, TcpSighting(packet));
      HandleOnAWS(srcIP, dstIP, srcPort, dstPort, captureTime, answers);
    }

    method HandleOnAWS(srcIP: string, dstIP: string, srcPort: int, dstPort: int, captureTime: int,
                       ghost answers: map<string, string>)
      requires Answering(monitor.resolver, answers)
      modifies this`pending, collector
      ensures var s, before := TcpSighting(TcpPacket(srcIP, dstIP, srcPort, dstPort, captureTime)), old(View());
              View() == if srcIP in answers then before.(pending := before.pending + [Named(s, answers[srcIP])])
                        else before.(captured := Added(before.captured, Unnamed(answers, s)))
    {
      var localHostname, ok := Ask(monitor.resolver, srcIP, answers);
      if !ok {
        var destNameOrIP := dstIP;
        var destHostname, found := Ask(monitor.resolver, dstIP, answers);
        if found {
          destNameOrIP := destHostname;
        }
        collector.AddCapturedRequest(srcIP, "", destNameOrIP, dstIP, captureTime, None, Some(dstPort), Some(srcPort));
        return;
      }
      var p := PendingTCPCapture(srcIP, localHostname, dstIP, dstPort, srcPort, captureTime);
      assert Before(pending + [p]) == pending;
      pending := pending + [p];
    }

    /** Refresh the resolver and settle the pending captures; on failure they wait. */
    method RefreshHostsMapping(visits: seq<Visit>, failed: bool) returns (ok: bool)
      requires Valid() && DistinctPids(visits)
      modifies this`pending, this`steps, collector, monitor, monitor.resolver, monitor.resolver.repr
      ensures Valid() && fresh(monitor.resolver.repr - old(monitor.resolver.repr))
      ensures !isRunningOnAWS ==>
              ok && View() == old(View()) && steps == old(steps) && monitor.polls == old(monitor.polls)
      ensures isRunningOnAWS ==>
                && ok == !failed
                && steps != [] && Before(steps) == old(steps) && Last(steps).Refresh?
                && Last(steps).poll.visits == visits && Last(steps).poll.failed == failed
                && View() == AfterRefresh(old(View()), Answers(monitor.resolver.View()), failed)
                && (failed ==> View() == old(View()))
                && (!failed ==> Settled(old(View()), View(), monitor.resolver.View()))
    {
      if !isRunningOnAWS {
        return true;
      }
      ok := PollAndSettle(visits, failed);
      NextRefresh(true, steps, monitor.polls);
      Log(Refresh(Last(monitor.polls)));
    }

    method PollAndSettle(visits: seq<Visit>, failed: bool) returns (ok: bool)
      requires monitor.Valid() && DistinctPids(visits)
      modifies this`pending, collector, monitor, monitor.resolver, monitor.resolver.repr
      ensures monitor.Valid() && fresh(monitor.resolver.repr - old(monitor.resolver.repr))
      ensures ok == !failed
      ensures monitor.polls != [] && Before(monitor.polls) == old(monitor.polls)
      ensures Last(monitor.polls).visits == visits && Last(monitor.polls).failed == failed
      ensures View() == AfterRefresh(old(View()), Answers(monitor.resolver.View()), failed)
      ensures !failed ==> Settled(old(View()), View(), monitor.resolver.View())
    {
      ghost var before := View();
      ok := monitor.Poll(visits, failed);
      if !ok {
        return;
      }
      Settle(Answers(monitor.resolver.View()));
      RefreshSettles(before, monitor.resolver.View());
    }

    /** The other sniffer has polled the resolver. */
    ghost method SeeOtherRefresh()
      requires monitor.Valid() && InStep()
      requires monitor.polls != [] && Before(monitor.polls) == Polls(steps)
      modifies this`steps
      ensures Valid()
      ensures steps != [] && Before(steps) == old(steps) && Last(steps) == OtherRefresh(Last(monitor.polls))
    {
      NextOtherRefresh(isRunningOnAWS, true, steps, monitor.polls);
      Log(OtherRefresh(Last(monitor.polls)));
    }

    /** Report what was recorded since the last report. */
    method CollectResults() returns (results: seq<RecordedDestinationsForSrc>)
      requires Valid()
      modifies this`steps, collector
      ensures Valid()
      ensures steps != [] && Before(steps) == old(steps) && Last(steps) == Collect
      ensures Groups(StateAfter(isRunningOnAWS, true, old(steps)).captured, results)
    {
      results := GroupCaptured();
      NextCollect(isRunningOnAWS, true, steps);
      Log(Collect);
    }

    method GroupCaptured() returns (results: seq<RecordedDestinationsForSrc>)
      modifies collector
      ensures Groups(old(View()).captured, results)
      ensures View() == old(View()).(captured := map[])
    {
      results := collector.CollectResults();
    }

    method Settle(ghost answers: map<string, string>)
      requires Answering(monitor.resolver, answers)
      modifies this`pending, collector
      ensures View() == AfterRefresh(old(View()), answers, false)
    {
      SettleAll(answers);
      pending := [];
    }

    method SettleAll(ghost answers: map<string, string>)
      requires Answering(monitor.resolver, answers)
      modifies collector
      ensures collector.capturedRequests
              == AllAdded(old(collector.capturedRequests), Confirmed(answers, AllPendingTcp(pending)))
    {
      ghost var start := collector.capturedRequests;
      for n := 0 to |pending|
        invariant Answering(monitor.resolver, answers)
        invariant collector.capturedRequests == AllAdded(start, Confirmed(answers, AllPendingTcp(pending[..n])))
      {
        SettleOne(pending[n], AllPendingTcp(pending[..n]), answers, start);
        NextPendingTcp(pending, n);
      }
      assert pending[..|pending|] == pending;
    }

    method SettleOne(p: PendingTCPCapture, ghost settled: seq<Capture>, ghost answers: map<string, string>,
                     ghost start: CapturesMap)
      requires Answering(monitor.resolver, answers)
      requires collector.capturedRequests == AllAdded(start, Confirmed(answers, settled))
      modifies collector
      ensures collector.capturedRequests == AllAdded(start, Confirmed(answers, settled + [PendingTcp(p)]))
    {
      SettledMore(start, answers, settled, PendingTcp(p));
      var hostname, ok := Ask(monitor.resolver, p.srcIp, answers);
      if !ok {
        return;
      }
      if p.srcHostname != hostname {
        return;
      }
      collector.AddCapturedRequest(p.srcIp, hostname, p.destIp, p.destIp, p.time, None, Some(p.destPort),
                                   Some(p.srcPort));
    }
  }
}
