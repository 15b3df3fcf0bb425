/**
 The confirmation protocol on AWS over whole runs: packets, refreshes of this sniffer, refreshes
 of the other sniffer that shares the resolver, and reports, in any order.
 */
module CaptureRuns {
  import opened Basics
  import opened ResolverSpec
  import opened MonitorSpec
  import opened PidRuns
  import opened ResolverRuns
  import opened CaptureSpec

  datatype Step =
    | Packet(sightings: seq<Sighting>)
    | Refresh(poll: Poll)
    | OtherRefresh(poll: Poll)
    | Collect

  datatype Sniffer = Sniffer(pending: seq<Capture>, captured: CapturesMap)

  /** What the resolver answers, as a map from addresses to hostnames. */
  ghost function Answers(b: Book): map<string, string>
    requires Sound(b)
  {
    map a | a in b.byAddr :: b.entries[b.byAddr[a]].who.host
  }

  /** The sightings whose source resolves, under its hostname: these wait for confirmation. */
  ghost function Resolved(answers: map<string, string>, ss: seq<Sighting>): seq<Capture> {
    if ss == [] then []
    else Resolved(answers, Before(ss)) +
         if Last(ss).srcIP in answers then [Named(Last(ss), answers[Last(ss).srcIP])] else []
  }

  /** The sightings whose source does not resolve: recorded at once, without a hostname, and with
      the destination's hostname where that resolves. */
  ghost function Unresolved(answers: map<string, string>, ss: seq<Sighting>): seq<Capture> {
    if ss == [] then []
    else Unresolved(answers, Before(ss)) + if Last(ss).srcIP in answers then [] else [Unnamed(answers, Last(ss))]
  }

  function Unnamed(answers: map<string, string>, s: Sighting): Capture {
    Named(s.(dest := if s.dest in answers then answers[s.dest] else s.dest), "")
  }

  /** `keepsUnresolved` is true of the TCP sniffer and false of the DNS sniffer. */
  ghost function AfterPacket(sn: Sniffer, keepsUnresolved: bool, answers: map<string, string>,
                             ss: seq<Sighting>): Sniffer {
    Sniffer(sn.pending + Resolved(answers, ss),
            if keepsUnresolved then AllAdded(sn.captured, Unresolved(answers, ss)) else sn.captured)
  }

  ghost function AfterRefresh(sn: Sniffer, answers: map<string, string>, failed: bool): Sniffer {
    if failed then sn else Sniffer([], AllAdded(sn.captured, Confirmed(answers, sn.pending)))
  }

  ghost function Polls(steps: seq<Step>): seq<Poll> {
    if steps == [] then []
    else Polls(Before(steps)) + match Last(steps)
                                case Refresh(p) => [p]
                                case OtherRefresh(p) => [p]
                                case _ => []
  }

  ghost function AnswersAfter(steps: seq<Step>): map<string, string> {
    Answers(WorldAfter(Polls(steps)).book)
  }

  ghost function SnifferAfter(keepsUnresolved: bool, steps: seq<Step>): Sniffer {
    if steps == [] then Sniffer([], map[])
    else
      var sn := SnifferAfter(keepsUnresolved, Before(steps));
      match Last(steps)
      case Packet(ss) => AfterPacket(sn, keepsUnresolved, AnswersAfter(Before(steps)), ss)
      case Refresh(p) => AfterRefresh(sn, AnswersAfter(steps), p.failed)
      case OtherRefresh(_) => sn
      case Collect => sn.(captured := map[])
  }

  // ----- Where a pending capture comes from -----

  /** Step `i` is a packet showing `c`, under the hostname its source resolved to at that moment. */
  ghost predicate CapturedAt(steps: seq<Step>, i: nat, c: Capture) {
    i < |steps| && steps[i].Packet? && c in Resolved(AnswersAfter(steps[..i]), steps[i].sightings)
  }

  ghost predicate Confirming(step: Step) {
    step.Refresh? && !step.poll.failed
  }

  ghost predicate NotConfirmedSince(steps: seq<Step>, i: nat) {
    forall j | i < j < |steps| :: !Confirming(steps[j])
  }

  ghost predicate Waiting(steps: seq<Step>, c: Capture) {
    exists i: nat :: CapturedAt(steps, i, c) && NotConfirmedSince(steps, i)
  }

  lemma CapturedEarlier(before: seq<Step>, step: Step, i: nat, c: Capture)
    requires i < |before|
    ensures CapturedAt(before + [step], i, c) <==> CapturedAt(before, i, c)
    ensures NotConfirmedSince(before + [step], i) <==> NotConfirmedSince(before, i) && !Confirming(step)
  {
    var all := before + [step];
    assert all[..i] == before[..i] && all[i] == before[i] && all[|before|] == step;
    assert forall j | i < j < |before| :: before[j] == all[j];
  }

  lemma WaitingMore(before: seq<Step>, step: Step, c: Capture)
    ensures Waiting(before + [step], c)
       <==> || (Waiting(before, c) && !Confirming(step))
            || (step.Packet? && c in Resolved(AnswersAfter(before), step.sightings))
  {
    var all, n := before + [step], |before|;
    assert all[..n] == before && all[n] == step;
    forall i: nat | i < n
      ensures CapturedAt(all, i, c) <==> CapturedAt(before, i, c)
      ensures NotConfirmedSince(all, i) <==> NotConfirmedSince(before, i) && !Confirming(step)
    {
      CapturedEarlier(before, step, i, c);
    }
    if step.Packet? && c in Resolved(AnswersAfter(before), step.sightings) {
      assert CapturedAt(all, n, c) && NotConfirmedSince(all, n);
    }
    if Waiting(before, c) && !Confirming(step) {
      var i: nat :| CapturedAt(before, i, c) && NotConfirmedSince(before, i);
      assert CapturedAt(all, i, c) && NotConfirmedSince(all, i);
    }
  }

  /** A capture is pending exactly when some packet showed it and no refresh has succeeded since:
      nothing is lost when a refresh fails, and nothing outlives a refresh that succeeds. */
  lemma {:induction false} PendingExactly(keepsUnresolved: bool, steps: seq<Step>, c: Capture)
    ensures c in SnifferAfter(keepsUnresolved, steps).pending <==> Waiting(steps, c)
  {
    if steps != [] {
      PendingExactly(keepsUnresolved, Before(steps), c);
      WaitingMore(Before(steps), Last(steps), c);
      Rejoin(steps);
    }
  }

  lemma {:induction false} ResolvedUnderItsName(answers: map<string, string>, ss: seq<Sighting>, c: Capture)
    requires c in Resolved(answers, ss)
    ensures Confirms(answers, c)
  {
    if c !in Resolved(answers, Before(ss)) {
      assert c == Named(Last(ss), answers[Last(ss).srcIP]);
    } else {
      ResolvedUnderItsName(answers, Before(ss), c);
    }
  }

  // ----- Main results -----

  /** A successful refresh accepts a capture exactly when some packet since the previous one
      showed it and its source address resolves now to the hostname it resolved to then. */
  lemma AcceptedExactly(keepsUnresolved: bool, steps: seq<Step>, poll: Poll, c: Capture)
    requires !poll.failed
    ensures var sn := SnifferAfter(keepsUnresolved, steps);
            c in Confirmed(AnswersAfter(steps + [Refresh(poll)]), sn.pending) <==>
            Waiting(steps, c) && Confirms(AnswersAfter(steps + [Refresh(poll)]), c)
  {
    ConfirmedMembers(AnswersAfter(steps + [Refresh(poll)]), SnifferAfter(keepsUnresolved, steps).pending);
    PendingExactly(keepsUnresolved, steps, c);
  }

  /** So an accepted capture was resolved twice to the same hostname: at packet time and at the
      refresh. If the scans of the run neither lost nor remapped a process, the confirming one shows a
      process that registered exactly this address and hostname. */
  lemma AcceptedWasResolvedTwice(keepsUnresolved: bool, steps: seq<Step>, poll: Poll, c: Capture)
    returns (i: nat)
    requires !poll.failed && LegalRun(Polls(steps + [Refresh(poll)]))
    requires c in Confirmed(AnswersAfter(steps + [Refresh(poll)]), SnifferAfter(keepsUnresolved, steps).pending)
    ensures CapturedAt(steps, i, c) && NotConfirmedSince(steps, i)
    ensures Confirms(AnswersAfter(steps[..i]), c) && Confirms(AnswersAfter(steps + [Refresh(poll)]), c)
    ensures NeverRemaps(Polls(steps + [Refresh(poll)])) && NoneLost(Polls(steps + [Refresh(poll)])) ==>
              exists pid :: Visits(poll.visits, pid) &&
                LatestIdentity(Trace(Polls(steps + [Refresh(poll)])), pid)
                    == Some(Identity(c.request.srcIP, c.request.srcHostname))
  {
    var all := steps + [Refresh(poll)];
    AcceptedExactly(keepsUnresolved, steps, poll, c);
    i :| CapturedAt(steps, i, c) && NotConfirmedSince(steps, i);
    ResolvedUnderItsName(AnswersAfter(steps[..i]), steps[i].sightings, c);
    assert Before(all) == steps && Last(all) == Refresh(poll);
    var polls := Polls(all);
    assert polls == Polls(steps) + [poll] && Last(polls) == poll;
    if NeverRemaps(polls) && NoneLost(polls) {
      AnswerIsInLatestScan(polls, c.request.srcIP, c.request.srcHostname);
    }
  }

  // ----- Conservation -----

  ghost function AllResolved(steps: seq<Step>): multiset<Capture> {
    if steps == [] then multiset{}
    else AllResolved(Before(steps)) +
         if Last(steps).Packet? then multiset(Resolved(AnswersAfter(Before(steps)), Last(steps).sightings))
             else multiset{}
  }

  ghost function AllAccepted(keepsUnresolved: bool, steps: seq<Step>): multiset<Capture> {
    if steps == [] then multiset{}
    else AllAccepted(keepsUnresolved, Before(steps)) +
         if Confirming(Last(steps))
         then multiset(Confirmed(AnswersAfter(steps), SnifferAfter(keepsUnresolved, Before(steps)).pending))
             else multiset{}
  }

  ghost function AllDiscarded(keepsUnresolved: bool, steps: seq<Step>): multiset<Capture> {
    if steps == [] then multiset{}
    else AllDiscarded(keepsUnresolved, Before(steps)) +
         if Confirming(Last(steps))
         then multiset(Discarded(AnswersAfter(steps), SnifferAfter(keepsUnresolved, Before(steps)).pending))
             else multiset{}
  }

  /** Over a whole run, every capture that was resolved has been accepted once, discarded once, or
      is still pending. */
  lemma {:induction false} NothingLostOrRepeated(keepsUnresolved: bool, steps: seq<Step>)
    ensures AllResolved(steps)
         == AllAccepted(keepsUnresolved, steps) + AllDiscarded(keepsUnresolved, steps)
            + multiset(SnifferAfter(keepsUnresolved, steps).pending)
  {
    if steps != [] {
      NothingLostOrRepeated(keepsUnresolved, Before(steps));
      var sn := SnifferAfter(keepsUnresolved, Before(steps));
      match Last(steps)
      case Refresh(p) =>
        ConfirmedOrDiscarded(AnswersAfter(steps), sn.pending);
      case _ =>
    }
  }

  // ----- What is reported -----

  /** What this step records. */
  ghost function RecordedBy(keepsUnresolved: bool, steps: seq<Step>): seq<Capture>
    requires steps != []
  {
    match Last(steps)
    case Packet(ss) => if keepsUnresolved then Unresolved(AnswersAfter(Before(steps)), ss) else []
    case Refresh(p) => if p.failed then []
        else Confirmed(AnswersAfter(steps), SnifferAfter(keepsUnresolved, Before(steps)).pending)
    case _ => []
  }

  /** What was recorded since the last report, in order. */
  ghost function RecordedSince(keepsUnresolved: bool, steps: seq<Step>): seq<Capture> {
    if steps == [] || Last(steps).Collect? then []
    else RecordedSince(keepsUnresolved, Before(steps)) + RecordedBy(keepsUnresolved, steps)
  }

  /** In every run, what the next report covers is what was recorded since the last one. */
  lemma {:induction false} CapturedIsRecordedSince(keepsUnresolved: bool, steps: seq<Step>)
    ensures SnifferAfter(keepsUnresolved, steps).captured == AllAdded(map[], RecordedSince(keepsUnresolved, steps))
  {
    if steps != [] {
      CapturedIsRecordedSince(keepsUnresolved, Before(steps));
      AllAddedConcat(map[], RecordedSince(keepsUnresolved, Before(steps)), RecordedBy(keepsUnresolved, steps));
    }
  }

  ghost predicate NotCollectedSince(steps: seq<Step>, i: nat) {
    forall j | i <= j < |steps| :: !steps[j].Collect?
  }

  /** Step `i` accepts the capture, which was waiting and is confirmed. */
  ghost predicate AcceptedAt(steps: seq<Step>, i: nat, c: Capture) {
    i < |steps| && Confirming(steps[i]) && Waiting(steps[..i], c) && Confirms(AnswersAfter(steps[..i + 1]), c)
  }

  /** Step `i` is a packet that shows it, from an address that does not resolve. */
  ghost predicate UnresolvedAt(steps: seq<Step>, i: nat, c: Capture) {
    i < |steps| && steps[i].Packet? && c in Unresolved(AnswersAfter(steps[..i]), steps[i].sightings)
  }

  ghost predicate RecordedAt(keepsUnresolved: bool, steps: seq<Step>, i: nat, c: Capture) {
    AcceptedAt(steps, i, c) || (keepsUnresolved && UnresolvedAt(steps, i, c))
  }

  lemma RecordedByExactly(keepsUnresolved: bool, steps: seq<Step>, c: Capture)
    requires steps != []
    ensures c in RecordedBy(keepsUnresolved, steps) <==> RecordedAt(keepsUnresolved, steps, |steps| - 1, c)
  {
    var n := |steps| - 1;
    assert steps[..n] == Before(steps) && steps[..n + 1] == steps;
    if Confirming(steps[n]) {
      assert Before(steps) + [Refresh(steps[n].poll)] == steps;
      AcceptedExactly(keepsUnresolved, Before(steps), steps[n].poll, c);
    }
  }

  ghost predicate IsRecordedSince(keepsUnresolved: bool, steps: seq<Step>, c: Capture) {
    exists i: nat :: RecordedAt(keepsUnresolved, steps, i, c) && NotCollectedSince(steps, i)
  }

  /** The next report covers exactly the captures accepted since the last one and, for the TCP
      sniffer, those that did not resolve. */
  lemma {:induction false} RecordedExactlySince(keepsUnresolved: bool, steps: seq<Step>, c: Capture)
    ensures c in RecordedSince(keepsUnresolved, steps) <==> IsRecordedSince(keepsUnresolved, steps, c)
  {
    if steps != [] {
      RecordedExactlySince(keepsUnresolved, Before(steps), c);
      RecordedByExactly(keepsUnresolved, steps, c);
      RecordedMore(keepsUnresolved, steps, c);
    }
  }

  lemma RecordedMore(keepsUnresolved: bool, steps: seq<Step>, c: Capture)
    requires steps != []
    ensures IsRecordedSince(keepsUnresolved, steps, c)
       <==> && !Last(steps).Collect?
            && (IsRecordedSince(keepsUnresolved, Before(steps), c) || RecordedAt(keepsUnresolved, steps, |steps| - 1,
                c))
  {
    if IsRecordedSince(keepsUnresolved, steps, c) {
      RecordedByNow(keepsUnresolved, steps, c);
    }
    if !Last(steps).Collect? && IsRecordedSince(keepsUnresolved, Before(steps), c) {
      StillRecorded(keepsUnresolved, steps, c);
    }
    if !Last(steps).Collect? && RecordedAt(keepsUnresolved, steps, |steps| - 1, c) {
      assert NotCollectedSince(steps, |steps| - 1);
    }
  }

  lemma RecordedByNow(keepsUnresolved: bool, steps: seq<Step>, c: Capture)
    requires steps != [] && IsRecordedSince(keepsUnresolved, steps, c)
    ensures !Last(steps).Collect?
    ensures IsRecordedSince(keepsUnresolved, Before(steps), c) || RecordedAt(keepsUnresolved, steps, |steps| - 1, c)
  {
    var i: nat :| RecordedAt(keepsUnresolved, steps, i, c) && NotCollectedSince(steps, i);
    RecordedInRun(keepsUnresolved, steps, i, c);
    if i < |steps| - 1 {
      RecordedEarlier(keepsUnresolved, steps, i, c);
    }
  }

  lemma RecordedInRun(keepsUnresolved: bool, steps: seq<Step>, i: nat, c: Capture)
    requires RecordedAt(keepsUnresolved, steps, i, c)
    ensures i < |steps|
    ensures NotCollectedSince(steps, i) ==> !Last(steps).Collect?
  {
  }

  lemma StillRecorded(keepsUnresolved: bool, steps: seq<Step>, c: Capture)
    requires steps != [] && !Last(steps).Collect? && IsRecordedSince(keepsUnresolved, Before(steps), c)
    ensures IsRecordedSince(keepsUnresolved, steps, c)
  {
    var i: nat :| RecordedAt(keepsUnresolved, Before(steps), i, c) && NotCollectedSince(Before(steps), i);
    RecordedInRun(keepsUnresolved, Before(steps), i, c);
    RecordedEarlier(keepsUnresolved, steps, i, c);
  }

  lemma RecordedEarlier(keepsUnresolved: bool, steps: seq<Step>, i: nat, c: Capture)
    requires i < |steps| - 1
    ensures RecordedAt(keepsUnresolved, steps, i, c) <==> RecordedAt(keepsUnresolved, Before(steps), i, c)
    ensures NotCollectedSince(steps, i) <==> NotCollectedSince(Before(steps), i) && !Last(steps).Collect?
  {
    var before := Before(steps);
    assert before[..i] == steps[..i] && before[..i + 1] == steps[..i + 1] && before[i] == steps[i];
    assert forall j | i <= j < |before| :: before[j] == steps[j];
    assert steps[|steps| - 1] == Last(steps);
  }

  /** A report of this sniffer, flattened, is what was recorded since the last one: each request once,
      with the union of its ports and the time of its last capture. */
  lemma ReportIsRecordedSince(keepsUnresolved: bool, steps: seq<Step>, results: seq<RecordedDestinationsForSrc>)
    requires Groups(SnifferAfter(keepsUnresolved, steps).captured, results)
    ensures Ungrouped(results) == AllAdded(map[], RecordedSince(keepsUnresolved, steps))
    ensures forall r :: r in Ungrouped(results) <==> Asked(RecordedSince(keepsUnresolved, steps), r)
    ensures forall r | r in Ungrouped(results) ::
            Ungrouped(results)[r].srcPorts == PortsSeen(RecordedSince(keepsUnresolved, steps), r)
  {
    GroupingIsLossless(SnifferAfter(keepsUnresolved, steps).captured, results);
    CapturedIsRecordedSince(keepsUnresolved, steps);
    forall r
      ensures r in Ungrouped(results) <==> Asked(RecordedSince(keepsUnresolved, steps), r)
      ensures r in Ungrouped(results) ==>
              Ungrouped(results)[r].srcPorts == PortsSeen(RecordedSince(keepsUnresolved, steps), r)
    {
      RecordedExactly(RecordedSince(keepsUnresolved, steps), r);
    }
  }

  // ----- The steps of a sniffer -----

  /** Away from AWS a sighting is recorded at once, without a hostname. */
  ghost function RecordedAtOnce(steps: seq<Step>): seq<Capture> {
    if steps == [] || Last(steps).Collect? then []
    else RecordedAtOnce(Before(steps)) + if Last(steps).Packet? then NamedAll(Last(steps).sightings, "") else []
  }

  ghost function StateAfter(onAWS: bool, keepsUnresolved: bool, steps: seq<Step>): Sniffer {
    if onAWS then SnifferAfter(keepsUnresolved, steps) else Sniffer([], AllAdded(map[], RecordedAtOnce(steps)))
  }

  lemma NextPacket(onAWS: bool, keepsUnresolved: bool, steps: seq<Step>, ss: seq<Sighting>)
    ensures var sn, next := StateAfter(onAWS, keepsUnresolved, steps), steps + [Packet(ss)];
            && Polls(next) == Polls(steps)
            && StateAfter(onAWS, keepsUnresolved, next) ==
                 if onAWS then AfterPacket(sn, keepsUnresolved, AnswersAfter(steps), ss)
                 else Sniffer(sn.pending, AllAdded(sn.captured, NamedAll(ss, "")))
  {
    var next := steps + [Packet(ss)];
    assert Before(next) == steps && Last(next) == Packet(ss);
    assert Polls(steps) + [] == Polls(steps);
    AllAddedConcat(map[], RecordedAtOnce(steps), NamedAll(ss, ""));
  }

  lemma NextRefresh(keepsUnresolved: bool, steps: seq<Step>, polls: seq<Poll>)
    requires polls != [] && Before(polls) == Polls(steps)
    ensures var next := steps + [Refresh(Last(polls))];
            && Polls(next) == polls
            && SnifferAfter(keepsUnresolved, next)
            == AfterRefresh(SnifferAfter(keepsUnresolved, steps), Answers(WorldAfter(polls).book), Last(polls).failed)
  {
    var next := steps + [Refresh(Last(polls))];
    assert Before(next) == steps && Last(next) == Refresh(Last(polls));
    Rejoin(polls);
  }

  lemma NextOtherRefresh(onAWS: bool, keepsUnresolved: bool, steps: seq<Step>, polls: seq<Poll>)
    requires polls != [] && Before(polls) == Polls(steps)
    ensures var next := steps + [OtherRefresh(Last(polls))];
            && Polls(next) == polls
            && StateAfter(onAWS, keepsUnresolved, next) == StateAfter(onAWS, keepsUnresolved, steps)
  {
    var next := steps + [OtherRefresh(Last(polls))];
    assert Before(next) == steps && Last(next) == OtherRefresh(Last(polls));
    Rejoin(polls);
    if !onAWS {
      NothingMoreAtOnce(next);
    }
  }

  lemma NothingMoreAtOnce(steps: seq<Step>)
    requires steps != [] && Last(steps).OtherRefresh?
    ensures RecordedAtOnce(steps) == RecordedAtOnce(Before(steps))
  {
    assert RecordedAtOnce(Before(steps)) + [] == RecordedAtOnce(Before(steps));
  }

  lemma NextCollect(onAWS: bool, keepsUnresolved: bool, steps: seq<Step>)
    ensures var next := steps + [Collect];
            && Polls(next) == Polls(steps)
            && StateAfter(onAWS, keepsUnresolved, next) == StateAfter(onAWS, keepsUnresolved, steps).(captured := map[])
  {
    var next := steps + [Collect];
    assert Before(next) == steps && Last(next) == Collect;
    assert Polls(steps) + [] == Polls(steps);
  }
}
