/**
 The monitor over every run of polls: the protocol its callbacks see, how often a failing
 process is retried, and how a failed scan breaks the protocol.
 */
module MonitorRuns {
  import opened Basics
  import opened ResolverSpec
  import opened MonitorSpec
  import opened PidRuns

  // ----- The callback protocol -----

  datatype Phase = Untracked | Tracked | Broken

  /** What the callbacks about one process must look like: any number of failed News, one that
      is accepted or given up, exactly one Exit, and round again. */
  function Next(phase: Phase, e: Event, pid: int): Phase {
    if e.pid != pid then phase
    else match (phase, e)
      case (Untracked, NewFailed(_)) => Untracked
      case (Untracked, NewAccepted(_, _)) => Tracked
      case (Untracked, NewGivenUp(_)) => Tracked
      case (Tracked, Exited(_)) => Untracked
      case _ => Broken
  }

  ghost function PhaseOf(start: Phase, trace: seq<Event>, pid: int): Phase {
    if trace == [] then start else Next(PhaseOf(start, Before(trace), pid), Last(trace), pid)
  }

  lemma {:induction false} PhaseOfConcat(start: Phase, s: seq<Event>, t: seq<Event>, pid: int)
    ensures PhaseOf(start, s + t, pid) == PhaseOf(PhaseOf(start, s, pid), t, pid)
  {
    if t == [] {
      assert s + t == s;
    } else {
      assert Before(s + t) == s + Before(t);
      PhaseOfConcat(start, s, Before(t), pid);
    }
  }

  ghost function Track(tracked: bool): Phase {
    if tracked then Tracked else Untracked
  }

  /** During a scan, a process is tracked if it was seen last time or has been handled now. */
  lemma {:induction false} ScanFollowsProtocol(w: World, seen: set<int>, visits: seq<Visit>, pid: int)
    requires Sound(w.book) && w.processes == {} && DistinctPids(visits)
    ensures PhaseOf(Track(pid in seen), EventsOf(w, seen, visits), pid)
         == Track(pid in seen || pid in AfterVisits(w, seen, visits).processes)
  {
    if visits != [] {
      var before, v := Before(visits), Last(visits);
      var r := AfterVisits(w, seen, before);
      ScanFollowsProtocol(w, seen, before, pid);
      PhaseOfConcat(Track(pid in seen), EventsOf(w, seen, before), EventOf(r, seen, v), pid);
      ScanOnlyAddsVisited(w, seen, before);
      assert !Visits(before, v.pid) by {
        forall i | 0 <= i < |before| ensures before[i].pid != v.pid {
          assert before[i] == visits[i];
        }
      }
      assert v.pid !in r.processes;
      VisitFollowsProtocol(r, seen, v, pid);
    }
  }

  lemma VisitFollowsProtocol(w: World, seen: set<int>, v: Visit, pid: int)
    requires Sound(w.book) && v.pid !in w.processes
    ensures PhaseOf(Track(pid in seen || pid in w.processes), EventOf(w, seen, v), pid)
         == Track(pid in seen || pid in AfterVisit(w, seen, v).processes)
  {
    OneEvent(Track(pid in seen || pid in w.processes), EventOf(w, seen, v), pid);
  }

  lemma OneEvent(start: Phase, es: seq<Event>, pid: int)
    requires |es| <= 1
    ensures PhaseOf(start, es, pid) == if es == [] then start else Next(start, es[0], pid)
  {
    if es != [] {
      assert Before(es) == [];
    }
  }

  lemma {:induction false} ExitsFollowProtocol(exits: seq<int>, pid: int, start: Phase)
    requires NoRepeats(exits) && (pid in exits ==> start == Tracked)
    ensures PhaseOf(start, ExitsOf(exits), pid) == if pid in exits then Untracked else start
  {
    if exits != [] {
      assert exits == Before(exits) + [Last(exits)];
      ExitsFollowProtocol(Before(exits), pid, start);
      PhaseOfConcat(start, ExitsOf(Before(exits)), [Exited(Last(exits))], pid);
      OneEvent(PhaseOf(start, ExitsOf(Before(exits)), pid), [Exited(Last(exits))], pid);
    }
  }

  /** One poll keeps the protocol for a process in step with the process set, exactly when the
      scan succeeded or did not lose the process half-way. */
  lemma PollFollowsProtocol(w: World, p: Poll, pid: int)
    requires Sound(w.book) && LegalPoll(w, p)
    ensures PhaseOf(Track(pid in w.processes), EventsOfPoll(w, p), pid) == Track(pid in AfterPoll(w, p).processes)
       <==> !p.failed || pid !in w.processes || Visits(p.visits, pid)
  {
    var s, start := Scanned(w, p.visits), Track(pid in w.processes);
    var es := EventsOf(w.(processes := {}), w.processes, p.visits);
    ScanFollowsProtocol(w.(processes := {}), w.processes, p.visits, pid);
    ScanOnlyAddsVisited(w.(processes := {}), w.processes, p.visits);
    if p.failed {
      assert EventsOfPoll(w, p) == es;
    } else {
      PhaseOfConcat(start, es, ExitsOf(p.exits), pid);
      assert pid in p.exits <==> pid in Members(p.exits);
      ExitsFollowProtocol(p.exits, pid, PhaseOf(start, es, pid));
    }
  }

  lemma {:induction false} BrokenStaysBroken(trace: seq<Event>, pid: int)
    ensures PhaseOf(Broken, trace, pid) == Broken
  {
    if trace != [] {
      BrokenStaysBroken(Before(trace), pid);
    }
  }

  lemma VisitAfterLoss(w: World, seen: set<int>, v: Visit, pid: int)
    requires Sound(w.book) && pid !in seen
    ensures PhaseOf(Tracked, EventOf(w, seen, v), pid) == if v.pid == pid then Broken else Tracked
  {
    OneEvent(Tracked, EventOf(w, seen, v), pid);
  }

  /** A scan that shows a process whose exit was never reported reports it as new again. */
  lemma {:induction false} ScanAfterLoss(w: World, seen: set<int>, visits: seq<Visit>, pid: int)
    requires Sound(w.book) && DistinctPids(visits) && pid !in seen
    ensures PhaseOf(Tracked, EventsOf(w, seen, visits), pid) == if Visits(visits, pid) then Broken else Tracked
  {
    if visits != [] {
      var r := AfterVisits(w, seen, Before(visits));
      ScanAfterLoss(w, seen, Before(visits), pid);
      VisitsMore(visits, pid);
      LastPidIsNew(visits);
      PhaseOfConcat(Tracked, EventsOf(w, seen, Before(visits)), EventOf(r, seen, Last(visits)), pid);
      BrokenStaysBroken(EventOf(r, seen, Last(visits)), pid);
      VisitAfterLoss(r, seen, Last(visits), pid);
    }
  }

  /** The protocol has been violated, or waits for an exit that will not come. */
  ghost predicate OutOfStep(phase: Phase, tracked: bool) {
    phase == Broken || (phase == Tracked && !tracked)
  }

  lemma OutOfStepStays(w: World, p: Poll, phase: Phase, pid: int)
    requires Sound(w.book) && LegalPoll(w, p) && OutOfStep(phase, pid in w.processes)
    ensures OutOfStep(PhaseOf(phase, EventsOfPoll(w, p), pid), pid in AfterPoll(w, p).processes)
  {
    BrokenStaysBroken(EventsOfPoll(w, p), pid);
    if phase != Broken {
      var es, exits := EventsOf(w.(processes := {}), w.processes, p.visits), if p.failed then [] else p.exits;
      var scanned := PhaseOf(Tracked, es, pid);
      ScanAfterLoss(w.(processes := {}), w.processes, p.visits, pid);
      ScanOnlyAddsVisited(w.(processes := {}), w.processes, p.visits);
      PhaseOfConcat(Tracked, es, ExitsOf(exits), pid);
      assert pid in p.exits ==> pid in Members(p.exits);
      BrokenStaysBroken(ExitsOf(exits), pid);
      ExitsFollowProtocol(exits, pid, scanned);
      assert EventsOfPoll(w, p) == es + ExitsOf(exits);
    }
  }

  /** No scan of the run fails without having shown the process while it is tracked. */
  ghost predicate NeverDropped(polls: seq<Poll>, pid: int) {
    polls == [] ||
    (&& NeverDropped(Before(polls), pid)
     && !(Last(polls).failed && PidAfter(Before(polls), pid).tracked && VisitOf(Last(polls).visits, pid).None?))
  }

  lemma {:induction false} InStepExactlyIf(polls: seq<Poll>, pid: int)
    requires LegalRun(polls)
    ensures var phase, tracked := PhaseOf(Untracked, Trace(polls), pid), pid in WorldAfter(polls).processes;
            if NeverDropped(polls, pid) then phase == Track(tracked) else OutOfStep(phase, tracked)
  {
    if polls != [] {
      var before, p := Before(polls), Last(polls);
      var w := WorldAfter(before);
      InStepExactlyIf(before, pid);
      RunOnePid(before, pid);
      VisitOfIs(p.visits, pid);
      PhaseOfConcat(Untracked, Trace(before), EventsOfPoll(w, p), pid);
      if NeverDropped(before, pid) {
        PollFollowsProtocol(w, p, pid);
        DroppedIsOutOfStep(w, p, pid);
      } else {
        OutOfStepStays(w, p, PhaseOf(Untracked, Trace(before), pid), pid);
      }
    }
  }

  /** A tracked process that a failed scan does not show is forgotten without an exit. */
  lemma DroppedIsOutOfStep(w: World, p: Poll, pid: int)
    requires Sound(w.book) && LegalPoll(w, p)
    ensures p.failed && pid in w.processes && !Visits(p.visits, pid) ==>
              PhaseOf(Tracked, EventsOfPoll(w, p), pid) == Tracked && pid !in AfterPoll(w, p).processes
  {
    if p.failed && pid in w.processes && !Visits(p.visits, pid) {
      assert EventsOfPoll(w, p) == EventsOf(w.(processes := {}), w.processes, p.visits);
      ScanFollowsProtocol(w.(processes := {}), w.processes, p.visits, pid);
      ScanOnlyAddsVisited(w.(processes := {}), w.processes, p.visits);
    }
  }

  /** In any run, the callbacks about a process follow the protocol, in step with the process set,
      exactly if no scan failed before it came to the process while that was tracked. */
  lemma CallbacksFollowProtocol(polls: seq<Poll>, pid: int)
    requires LegalRun(polls)
    ensures PhaseOf(Untracked, Trace(polls), pid) == Track(pid in WorldAfter(polls).processes)
            <==> NeverDropped(polls, pid)
  {
    InStepExactlyIf(polls, pid);
  }

  /** So while no scan fails, they always do, about every process. */
  lemma CallbacksFollowProtocolUnlessFailing(polls: seq<Poll>, pid: int)
    requires LegalRun(polls) && NeverFails(polls)
    ensures PhaseOf(Untracked, Trace(polls), pid) == Track(pid in WorldAfter(polls).processes)
  {
    NeverFailsDropsNone(polls, pid);
    CallbacksFollowProtocol(polls, pid);
  }

  lemma {:induction false} NeverFailsDropsNone(polls: seq<Poll>, pid: int)
    requires NeverFails(polls)
    ensures NeverDropped(polls, pid)
  {
    if polls != [] {
      Rejoin(polls);
      NeverFailsDropsNone(Before(polls), pid);
    }
  }

  // ----- Retries -----

  /** How often a New about this process has failed, given up or not. */
  ghost function Failed(trace: seq<Event>, pid: int): nat {
    if trace == [] then 0
    else Failed(Before(trace), pid) +
         if Last(trace).pid == pid && (Last(trace).NewFailed? || Last(trace).NewGivenUp?) then 1 else 0
  }

  lemma {:induction false} FailedConcat(s: seq<Event>, t: seq<Event>, pid: int)
    ensures Failed(s + t, pid) == Failed(s, pid) + Failed(t, pid)
  {
    if t == [] {
      assert s + t == s;
    } else {
      assert Before(s + t) == s + Before(t);
      FailedConcat(s, Before(t), pid);
    }
  }

  ghost predicate CountsFailures(failing: map<int, int>, trace: seq<Event>) {
    && (forall pid | pid in failing :: 1 <= failing[pid] <= 3)
    && (forall pid :: Failures(failing, pid) == Failed(trace, pid) % 4)
  }

  lemma {:induction false} ScanCountsFailures(w: World, seen: set<int>, visits: seq<Visit>, trace: seq<Event>)
    requires Sound(w.book) && CountsFailures(w.failing, trace)
    ensures CountsFailures(AfterVisits(w, seen, visits).failing, trace + EventsOf(w, seen, visits))
  {
    if visits == [] {
      assert trace + [] == trace;
    } else {
      var before, v := Before(visits), Last(visits);
      ScanCountsFailures(w, seen, before, trace);
      var r, t := AfterVisits(w, seen, before), trace + EventsOf(w, seen, before);
      assert trace + EventsOf(w, seen, visits) == t + EventOf(r, seen, v);
      VisitCountsFailures(r, seen, v, t);
    }
  }

  lemma OneFailure(es: seq<Event>, pid: int)
    requires |es| <= 1
    ensures Failed(es, pid) == if es != [] && es[0].pid == pid && (es[0].NewFailed? || es[0].NewGivenUp?) then 1 else 0
  {
    if es != [] {
      assert Before(es) == [];
    }
  }

  lemma VisitCountsFailures(w: World, seen: set<int>, v: Visit, trace: seq<Event>)
    requires Sound(w.book) && CountsFailures(w.failing, trace)
    ensures CountsFailures(AfterVisit(w, seen, v).failing, trace + EventOf(w, seen, v))
  {
    var w', es := AfterVisit(w, seen, v), EventOf(w, seen, v);
    forall pid ensures Failures(w'.failing, pid) == Failed(trace + es, pid) % 4 {
      FailedConcat(trace, es, pid);
      OneFailure(es, pid);
      assert Failures(w.failing, pid) == Failed(trace, pid) % 4;
    }
  }

  lemma {:induction false} ExitsFailNothing(exits: seq<int>, pid: int)
    ensures Failed(ExitsOf(exits), pid) == 0
  {
    if exits != [] {
      ExitsFailNothing(Before(exits), pid);
      FailedConcat(ExitsOf(Before(exits)), [Exited(Last(exits))], pid);
      assert Before([Exited(Last(exits))]) == [];
    }
  }

  /** In any run the stored count of a process is the number of its failed News so far, counted
      afresh after every fourth: success and exit do not clear it. Stored counts stay in 1..3. */
  lemma {:induction false} StoredCountIsModuloRetries(polls: seq<Poll>)
    ensures CountsFailures(WorldAfter(polls).failing, Trace(polls))
  {
    if polls != [] {
      var w, p, t := WorldAfter(Before(polls)), Last(polls), Trace(Before(polls));
      StoredCountIsModuloRetries(Before(polls));
      var es := EventsOf(w.(processes := {}), w.processes, p.visits);
      ScanCountsFailures(w.(processes := {}), w.processes, p.visits, t);
      if p.failed {
        assert Trace(polls) == t + es;
      } else {
        assert Trace(polls) == t + es + ExitsOf(p.exits);
        forall pid ensures Failed(Trace(polls), pid) == Failed(t + es, pid) {
          FailedConcat(t + es, ExitsOf(p.exits), pid);
          ExitsFailNothing(p.exits, pid);
        }
      }
    }
  }

  /** A failing visit gives the process up exactly if it makes its failures a multiple of four. */
  ghost predicate GivesUpByCount(w: World, seen: set<int>, v: Visit, trace: seq<Event>) {
    EventOf(w, seen, v) == [NewGivenUp(v.pid)] <==> (Failed(trace, v.pid) + 1) % 4 == 0
  }

  lemma GivenUpByCount(w: World, seen: set<int>, v: Visit, trace: seq<Event>)
    requires CountsFailures(w.failing, trace)
    requires v.found.None? && v.pid !in seen
    ensures GivesUpByCount(w, seen, v, trace)
  {
    assert Failures(w.failing, v.pid) == Failed(trace, v.pid) % 4;
    assert [NewFailed(v.pid)][0] != [NewGivenUp(v.pid)][0];
  }

  lemma GivenUpInScan(w: World, seen: set<int>, visits: seq<Visit>, v: Visit, trace: seq<Event>)
    requires Sound(w.book) && CountsFailures(w.failing, trace)
    requires v.found.None? && v.pid !in seen
    ensures GivesUpByCount(AfterVisits(w, seen, visits), seen, v, trace + EventsOf(w, seen, visits))
  {
    ScanCountsFailures(w, seen, visits, trace);
    GivenUpByCount(AfterVisits(w, seen, visits), seen, v, trace + EventsOf(w, seen, visits));
  }

  /** So, at any moment of any run, a failing process is given up exactly on every fourth failure
      since it was first seen, whatever happened in between. */
  lemma GivenUpOnEveryFourthFailure(polls: seq<Poll>, visits: seq<Visit>, v: Visit)
    requires v.found.None? && v.pid !in WorldAfter(polls).processes
    ensures var w := WorldAfter(polls);
            var start := w.(processes := {});
            GivesUpByCount(AfterVisits(start, w.processes, visits), w.processes, v,
                           Trace(polls) + EventsOf(start, w.processes, visits))
  {
    var w := WorldAfter(polls);
    StoredCountIsModuloRetries(polls);
    GivenUpInScan(w.(processes := {}), w.processes, visits, v, Trace(polls));
  }

  const FAILS := Poll([Visit(1, None)], false, [])

  /** A poll of a monitor that tracks nothing, showing one process. */
  lemma OneVisitPolled(w: World, v: Visit)
    requires Sound(w.book) && w.processes == {}
    ensures var p, s := Poll([v], false, []), Seen(PidOf(w, v.pid), Some(v));
            && LegalPoll(w, p)
            && PidOf(AfterPoll(w, p), v.pid) == s
            && AfterPoll(w, p).processes == if s.tracked then {v.pid} else {}
  {
    var p := Poll([v], false, []);
    assert [v][..0] == [] && Before([v]) == [];
    assert AfterVisits(w, {}, [v]) == AfterVisit(w, {}, v);
    assert w.(processes := {}) == w;
    assert Members(p.exits) == {} == w.processes - Scanned(w, [v]).processes;
    PollOnePid(w, p, v.pid);
  }

  lemma OneMoreVisit(polls: seq<Poll>, v: Visit)
    requires LegalRun(polls) && WorldAfter(polls).processes == {}
    ensures var w, p := WorldAfter(polls + [Poll([v], false, [])]), Seen(PidOf(WorldAfter(polls), v.pid), Some(v));
            && LegalRun(polls + [Poll([v], false, [])])
            && PidOf(w, v.pid) == p && w.processes == if p.tracked then {v.pid} else {}
  {
    OneVisitPolled(WorldAfter(polls), v);
    ExtendRun(polls, Poll([v], false, []));
  }

  lemma FailsThreeTimes()
    ensures var polls := [FAILS, FAILS, FAILS];
            && LegalRun(polls) && WorldAfter(polls).processes == {} &&
                PidOf(WorldAfter(polls), 1) == PidState(false, false, 3)
  {
    var v := Visit(1, None);
    assert [] + [FAILS] == [FAILS] && [FAILS] + [FAILS] == [FAILS, FAILS] &&
        [FAILS, FAILS] + [FAILS] == [FAILS, FAILS, FAILS];
    OneMoreVisit([], v);
    OneMoreVisit([FAILS], v);
    OneMoreVisit([FAILS, FAILS], v);
  }

  /** A successful scan that shows nothing: whatever was tracked exits. */
  lemma NothingPolled(w: World, pid: int)
    requires Sound(w.book) && w.processes == {pid}
    ensures var p := Poll([], false, [pid]);
            && LegalPoll(w, p) && AfterPoll(w, p).processes == {}
            && PidOf(AfterPoll(w, p), pid) == PidState(false, false, PidOf(w, pid).failures)
  {
    var p := Poll([], false, [pid]);
    assert Scanned(w, []) == w.(processes := {});
    assert Members([pid]) == {pid} == w.processes - Scanned(w, []).processes;
    PollOnePid(w, p, pid);
  }

  /** A pid is given up on its own first failure, if it is reused after a process that failed three
      times before it was accepted, and has exited since. */
  lemma ReusedPidIsGivenUpAtOnce(who: Identity)
    ensures var works, exits := Poll([Visit(1, Some(who))], false, []), Poll([], false, [1]);
            var polls := [FAILS, FAILS, FAILS, works, exits];
            && LegalRun(polls) && WorldAfter(polls).processes == {}
            && EventOf(WorldAfter(polls), {}, Visit(1, None)) == [NewGivenUp(1)]
  {
    var works, exits := Poll([Visit(1, Some(who))], false, []), Poll([], false, [1]);
    var c := [FAILS, FAILS, FAILS];
    FailsThreeTimes();
    OneMoreVisit(c, Visit(1, Some(who)));
    NothingPolled(WorldAfter(c + [works]), 1);
    ExtendRun(c + [works], exits);
    ThreeAndTwo(c, works, exits);
  }

  lemma ThreeAndTwo(polls: seq<Poll>, p: Poll, q: Poll)
    requires |polls| == 3
    ensures polls + [p] + [q] == [polls[0], polls[1], polls[2], p, q]
  {
  }

  /** The last `n` polls of the run all reported the process. */
  ghost predicate ReportedInLast(polls: seq<Poll>, n: nat, pid: int) {
    n == 0 || (polls != [] && Visits(Last(polls).visits, pid) && ReportedInLast(Before(polls), n - 1, pid))
  }

  /** One visit either handles the process or uses up one retry; other visits do neither. */
  lemma {:induction false} VisitHandlesOrCounts(w: World, seen: set<int>, visits: seq<Visit>, pid: int)
    requires Sound(w.book) && DistinctPids(visits)
    requires forall q | q in w.failing :: w.failing[q] <= 3
    ensures var r := AfterVisits(w, seen, visits);
            && (Visits(visits, pid) ==> pid in r.processes || Failures(w.failing, pid) + 1 == Failures(r.failing, pid))
            && (!Visits(visits, pid) ==> Failures(r.failing, pid) == Failures(w.failing, pid))
            && (forall q | q in r.failing :: r.failing[q] <= 3)
  {
    if visits != [] {
      var before, v := Before(visits), Last(visits);
      VisitHandlesOrCounts(w, seen, before, pid);
      VisitsMore(visits, pid);
      LastPidIsNew(visits);
    }
  }

  lemma {:induction false} HandledOrCounted(polls: seq<Poll>, n: nat, pid: int)
    requires LegalRun(polls) && ReportedInLast(polls, n, pid) && n >= 1
    ensures pid in WorldAfter(polls).processes || n <= Failures(WorldAfter(polls).failing, pid)
  {
    var w, p := WorldAfter(Before(polls)), Last(polls);
    StoredCountIsModuloRetries(Before(polls));
    VisitHandlesOrCounts(w.(processes := {}), w.processes, p.visits, pid);
    ScanOnlyAddsVisited(w.(processes := {}), w.processes, p.visits);
    if n > 1 {
      HandledOrCounted(Before(polls), n - 1, pid);
    }
  }

  /** A process reported by four polls in a row, failed scans included, has been accepted or
      given up. */
  lemma HandledAfterFourPolls(polls: seq<Poll>, pid: int)
    requires LegalRun(polls) && ReportedInLast(polls, 4, pid)
    ensures pid in WorldAfter(polls).processes
  {
    HandledOrCounted(polls, 4, pid);
    StoredCountIsModuloRetries(polls);
  }
}
