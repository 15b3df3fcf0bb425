/**
 One process in a run of polls. What the monitor and the resolver hold of a pid depends only on
 what the scans say of that pid and on which scans fail, so it can be read off the inputs of a run.
 */
module PidRuns {
  import opened Basics
  import opened ResolverSpec
  import opened MonitorSpec

  /** Tracked by the monitor, mapped by the resolver, and the stored failure count. */
  datatype PidState = PidState(tracked: bool, mapped: bool, failures: int)

  ghost function PidOf(w: World, pid: int): PidState {
    PidState(pid in w.processes, pid in w.book.byPid, Failures(w.failing, pid))
  }

  /** What a scan says of a pid. */
  ghost function VisitOf(visits: seq<Visit>, pid: int): Option<Visit> {
    if visits == [] then None
    else if Last(visits).pid == pid then Some(Last(visits))
    else VisitOf(Before(visits), pid)
  }

  /** One scan, for one pid. */
  ghost function Seen(s: PidState, v: Option<Visit>): PidState {
    if v.None? then s.(tracked := false)
    else if s.tracked then s
    else if v.value.found.Some? then s.(tracked := true, mapped := true)
    else if s.failures < MAX_RETRIES then s.(failures := s.failures + 1)
    else s.(tracked := true, failures := 0)
  }

  /** One poll, for one pid: an exit follows if it was tracked and is not any more, unless the scan
      failed. */
  ghost function Polled(s: PidState, v: Option<Visit>, failed: bool): PidState {
    var t := Seen(s, v);
    if !failed && s.tracked && !t.tracked then t.(mapped := false) else t
  }

  /** The state of a pid after a run, from the inputs alone. */
  ghost function PidAfter(polls: seq<Poll>, pid: int): PidState {
    if polls == [] then PidState(false, false, 0)
    else Polled(PidAfter(Before(polls), pid), VisitOf(Last(polls).visits, pid), Last(polls).failed)
  }

  /** Mapped, but forgotten by the monitor: its exit will not be reported. */
  ghost predicate Lost(s: PidState) {
    s.mapped && !s.tracked
  }

  ghost predicate NoneLost(polls: seq<Poll>) {
    forall pid :: !Lost(PidAfter(polls, pid))
  }

  /** No scan of the run shows a lost process that can be registered again. */
  ghost predicate NeverRemaps(polls: seq<Poll>) {
    polls == [] ||
    (NeverRemaps(Before(polls)) && forall v | v in Last(polls).visits && v.found.Some? ::
     !Lost(PidAfter(Before(polls), v.pid)))
  }

  // ----- Scans -----

  lemma {:induction false} VisitOfIs(visits: seq<Visit>, pid: int)
    requires DistinctPids(visits)
    ensures VisitOf(visits, pid).Some? <==> Visits(visits, pid)
    ensures forall v | v in visits && v.pid == pid :: VisitOf(visits, pid) == Some(v)
    ensures VisitOf(visits, pid).Some? ==> VisitOf(visits, pid).value in visits && VisitOf(visits, pid).value.pid == pid
  {
    if visits != [] {
      VisitOfIs(Before(visits), pid);
      VisitsMore(visits, pid);
      Rejoin(visits);
      LastPidIsNew(visits);
    }
  }

  lemma LastPidIsNew(visits: seq<Visit>)
    requires DistinctPids(visits) && visits != []
    ensures forall v | v in Before(visits) :: v.pid != Last(visits).pid
    ensures !Visits(Before(visits), Last(visits).pid)
  {
    forall v | v in Before(visits) ensures v.pid != Last(visits).pid {
      var i :| 0 <= i < |visits| - 1 && Before(visits)[i] == v;
      assert visits[i].pid != visits[|visits| - 1].pid;
    }
  }

  lemma VisitOnePid(w: World, seen: set<int>, v: Visit, pid: int)
    requires Sound(w.book) && v.pid !in w.processes
    ensures var r := AfterVisit(w, seen, v);
            if v.pid != pid then PidOf(r, pid) == PidOf(w, pid)
            else PidOf(r, pid) == Seen(PidOf(w, pid).(tracked := pid in seen), Some(v))
  {
  }

  /** A scan treats each pid by itself. */
  lemma {:induction false} ScanOnePid(w: World, seen: set<int>, visits: seq<Visit>, pid: int)
    requires Sound(w.book) && w.processes == {} && DistinctPids(visits)
    ensures PidOf(AfterVisits(w, seen, visits), pid)
            == Seen(PidOf(w, pid).(tracked := pid in seen), VisitOf(visits, pid))
  {
    if visits != [] {
      var v, r := Last(visits), AfterVisits(w, seen, Before(visits));
      ScanOnePid(w, seen, Before(visits), pid);
      ScanOnlyAddsVisited(w, seen, Before(visits));
      LastPidIsNew(visits);
      VisitOnePid(r, seen, v, pid);
      if v.pid == pid {
        VisitOfIs(Before(visits), pid);
      }
    }
  }

  /** So does a poll. */
  lemma PollOnePid(w: World, p: Poll, pid: int)
    requires Sound(w.book) && LegalPoll(w, p)
    ensures PidOf(AfterPoll(w, p), pid) == Polled(PidOf(w, pid), VisitOf(p.visits, pid), p.failed)
  {
    var s := Scanned(w, p.visits);
    ScanOnePid(w.(processes := {}), w.processes, p.visits, pid);
    ExitsOnlyRemove(s.book, p.exits);
    assert PidOf(w.(processes := {}), pid).(tracked := pid in w.processes) == PidOf(w, pid);
    assert !p.failed ==> (pid in Members(p.exits) <==> pid in w.processes && pid !in s.processes);
  }

  /** What is held of a pid after any run is what the inputs say of it. */
  lemma {:induction false} RunOnePid(polls: seq<Poll>, pid: int)
    requires LegalRun(polls)
    ensures PidOf(WorldAfter(polls), pid) == PidAfter(polls, pid)
  {
    if polls != [] {
      RunOnePid(Before(polls), pid);
      PollOnePid(WorldAfter(Before(polls)), Last(polls), pid);
    }
  }

  /** While no scan fails, nothing is lost. */
  lemma {:induction false} NeverFailsLosesNone(polls: seq<Poll>)
    requires NeverFails(polls)
    ensures NoneLost(polls) && NeverRemaps(polls)
  {
    if polls != [] {
      Rejoin(polls);
      NeverFailsLosesNone(Before(polls));
      forall pid ensures !Lost(PidAfter(polls, pid)) {
        assert !Lost(PidAfter(Before(polls), pid));
      }
    }
  }
}
