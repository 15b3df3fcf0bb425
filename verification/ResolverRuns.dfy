/**
 The resolver over every run of polls: reference counts, what an answer means, and the price
 of a failed scan.
 */
module ResolverRuns {
  import opened Basics
  import opened ResolverSpec
  import opened MonitorSpec
  import opened PidRuns

  // ----- Reference counts -----

  lemma {:induction false} ScanKeepsCounts(w: World, seen: set<int>, visits: seq<Visit>)
    requires NeverBelow(w.book)
    ensures NeverBelow(AfterVisits(w, seen, visits).book)
  {
    if visits != [] {
      ScanKeepsCounts(w, seen, Before(visits));
      var v := Last(visits);
      if v.pid !in seen && v.found.Some? {
        RegisterKeepsCounts(AfterVisits(w, seen, Before(visits)).book, v.pid, v.found.value);
      }
    }
  }

  lemma {:induction false} ExitsKeepCounts(b: Book, exits: seq<int>)
    requires NeverBelow(b)
    ensures NeverBelow(AfterExits(b, exits))
    ensures Exact(b) ==> Exact(AfterExits(b, exits))
  {
    if exits != [] {
      ExitsKeepCounts(b, Before(exits));
      UnregisterKeepsCounts(AfterExits(b, Before(exits)), Last(exits));
    }
  }

  /** In any run, failed scans included, no entry has fewer references than processes. */
  lemma {:induction false} CountsNeverBelow(polls: seq<Poll>)
    ensures NeverBelow(WorldAfter(polls).book)
  {
    if polls != [] {
      CountsNeverBelow(Before(polls));
      var w, p := WorldAfter(Before(polls)), Last(polls);
      ScanKeepsCounts(w.(processes := {}), w.processes, p.visits);
      ExitsKeepCounts(Scanned(w, p.visits).book, p.exits);
    }
  }

  /** A visit of this scan registers a process that is mapped already. */
  ghost predicate Remaps(byPid: map<int, nat>, seen: set<int>, visits: seq<Visit>) {
    exists v :: v in visits && v.pid !in seen && v.found.Some? && v.pid in byPid
  }

  /** A process not mapped before the scan is not mapped when the scan comes to it. */
  lemma StillUnmapped(w: World, seen: set<int>, visits: seq<Visit>)
    requires Sound(w.book) && w.processes == {} && DistinctPids(visits) && visits != []
    ensures Last(visits).pid in AfterVisits(w, seen, Before(visits)).book.byPid <==> Last(visits).pid in w.book.byPid
  {
    ScanOnlyAddsVisited(w, seen, Before(visits));
    LastPidIsNew(visits);
  }

  lemma RemapsMore(byPid: map<int, nat>, seen: set<int>, visits: seq<Visit>)
    requires visits != []
    ensures var v := Last(visits);
            Remaps(byPid, seen, visits)
            <==> Remaps(byPid, seen, Before(visits)) || (v.pid !in seen && v.found.Some? && v.pid in byPid)
  {
    Rejoin(visits);
  }

  /** A scan leaves the counts exact exactly if they were, and no visit remaps a process. */
  lemma {:induction false} ScanKeepsExactIff(w: World, seen: set<int>, visits: seq<Visit>)
    requires NeverBelow(w.book) && w.processes == {} && DistinctPids(visits)
    ensures Exact(AfterVisits(w, seen, visits).book) <==> Exact(w.book) && !Remaps(w.book.byPid, seen, visits)
  {
    if visits != [] {
      var v, r := Last(visits), AfterVisits(w, seen, Before(visits));
      ScanKeepsExactIff(w, seen, Before(visits));
      ScanKeepsCounts(w, seen, Before(visits));
      RemapsMore(w.book.byPid, seen, visits);
      StillUnmapped(w, seen, visits);
      if v.pid !in seen && v.found.Some? {
        RegisterKeepsExactIff(r.book, v.pid, v.found.value);
      }
    }
  }

  lemma {:induction false} ExitsKeepExactIff(b: Book, exits: seq<int>)
    requires NeverBelow(b)
    ensures Exact(AfterExits(b, exits)) <==> Exact(b)
  {
    if exits != [] {
      ExitsKeepExactIff(b, Before(exits));
      ExitsKeepCounts(b, Before(exits));
      UnregisterKeepsExactIff(AfterExits(b, Before(exits)), Last(exits));
    }
  }

  lemma PollKeepsExactIff(w: World, p: Poll)
    requires NeverBelow(w.book) && DistinctPids(p.visits)
    ensures Exact(AfterPoll(w, p).book) <==> Exact(w.book) && !Remaps(w.book.byPid, w.processes, p.visits)
  {
    ScanKeepsExactIff(w.(processes := {}), w.processes, p.visits);
    ScanKeepsCounts(w.(processes := {}), w.processes, p.visits);
    if !p.failed {
      ExitsKeepExactIff(Scanned(w, p.visits).book, p.exits);
    }
  }

  /** In any run, failed scans included, the references of every entry are exactly the processes
      mapped to it, exactly if no scan ever showed a lost process in a state to be registered. */
  lemma {:induction false} CountsAreExactIff(polls: seq<Poll>)
    requires LegalRun(polls)
    ensures Exact(WorldAfter(polls).book) <==> NeverRemaps(polls)
  {
    if polls != [] {
      CountsAreExactIff(Before(polls));
      CountsNeverBelow(Before(polls));
      PollKeepsExactIff(WorldAfter(Before(polls)), Last(polls));
      InputsDoNotRemap(polls);
    }
  }

  lemma InputsDoNotRemap(polls: seq<Poll>)
    requires LegalRun(polls) && polls != []
    ensures var w := WorldAfter(Before(polls));
            NeverRemaps(polls) <==> NeverRemaps(Before(polls)) && !Remaps(w.book.byPid, w.processes, Last(polls).visits)
  {
    var w, p := WorldAfter(Before(polls)), Last(polls);
    forall v | v in p.visits
        ensures Lost(PidAfter(Before(polls), v.pid)) <==> v.pid in w.book.byPid && v.pid !in w.processes {
      RunOnePid(Before(polls), v.pid);
    }
  }

  /** Every process the resolver maps is one the monitor tracks. */
  ghost predicate AllTracked(w: World) {
    forall pid | pid in w.book.byPid :: pid in w.processes
  }

  /** And every mapped process is tracked exactly if the inputs leave none lost. */
  lemma MappedAreTrackedIff(polls: seq<Poll>)
    requires LegalRun(polls)
    ensures AllTracked(WorldAfter(polls)) <==> NoneLost(polls)
  {
    var w := WorldAfter(polls);
    forall pid ensures Lost(PidAfter(polls, pid)) <==> pid in w.book.byPid && pid !in w.processes {
      RunOnePid(polls, pid);
    }
  }

  /** While every scan succeeds, the references of an entry are exactly the processes mapped to
      it, and every mapped process is one the monitor tracks. */
  lemma CountsAreExact(polls: seq<Poll>)
    requires LegalRun(polls) && NeverFails(polls)
    ensures Exact(WorldAfter(polls).book)
    ensures AllTracked(WorldAfter(polls))
  {
    NeverFailsLosesNone(polls);
    CountsAreExactIff(polls);
    MappedAreTrackedIff(polls);
  }

  /** The scan shows the process, and handles it: it registers, or it fails once too often. */
  ghost predicate IsHandled(failing: map<int, int>, visits: seq<Visit>, pid: int) {
    exists v :: v in visits && v.pid == pid && (v.found.Some? || MAX_RETRIES <= Failures(failing, pid))
  }

  /** After a successful scan every mapped process is tracked exactly if the scan handles each one
      that was mapped but not tracked before it. */
  lemma MappedAreTracked(w: World, p: Poll)
    requires Sound(w.book) && LegalPoll(w, p) && !p.failed
    ensures AllTracked(AfterPoll(w, p))
       <==> forall pid | pid in w.book.byPid && pid !in w.processes :: IsHandled(w.failing, p.visits, pid)
  {
    var r := AfterPoll(w, p);
    forall pid
      ensures pid in r.book.byPid && pid !in r.processes
         <==> pid in w.book.byPid && pid !in w.processes && !IsHandled(w.failing, p.visits, pid)
    {
      PollOnePid(w, p, pid);
      VisitOfIs(p.visits, pid);
    }
  }

  // ----- Stale answers -----

  /** Each entry an address leads to is held by exactly the tracked processes mapped to it. */
  ghost predicate HeldByTracked(w: World)
    requires Sound(w.book)
  {
    forall a | a in w.book.byAddr ::
      w.book.entries[w.book.byAddr[a]].refs == |Users(w.book.byPid, w.book.byAddr[a]) * w.processes|
  }

  /** When all processes are gone, a successful scan leaves the resolver without answers exactly if
      every entry was held by tracked processes alone; every other address goes on being answered. */
  lemma EmptyScanClearsIff(w: World, p: Poll)
    requires NeverBelow(w.book) && LegalPoll(w, p) && !p.failed && p.visits == []
    ensures AfterPoll(w, p).book.byAddr == map[] <==> HeldByTracked(w)
    ensures forall a | a in w.book.byAddr ::
              a in AfterPoll(w, p).book.byAddr <==>
              w.book.entries[w.book.byAddr[a]].refs != |Users(w.book.byPid, w.book.byAddr[a]) * w.processes|
  {
    var s, r := Scanned(w, p.visits), AfterPoll(w, p);
    assert s.book == w.book && s.processes == {};
    assert w.processes - {} == w.processes;
    ExitsLeave(s.book, p.exits);
    assert IsLeft(w.book, w.processes, r.book);
    assert forall a | a in w.book.byAddr ::
        a in r.book.byAddr <==> EntryLeft(w.book, w.processes, w.book.byAddr[a]).refs != 0;
    assert r.book.byAddr == map[] <==> forall a | a in w.book.byAddr :: a !in r.book.byAddr;
  }

  /** If the inputs of a run neither lose nor remap a process, this is always so. */
  lemma InputsKeepHeld(polls: seq<Poll>)
    requires LegalRun(polls) && NeverRemaps(polls) && NoneLost(polls)
    ensures HeldByTracked(WorldAfter(polls))
  {
    var w := WorldAfter(polls);
    CountsAreExactIff(polls);
    MappedAreTrackedIff(polls);
    forall a | a in w.book.byAddr
      ensures w.book.entries[w.book.byAddr[a]].refs == |Users(w.book.byPid, w.book.byAddr[a]) * w.processes|
    {
      var u := Users(w.book.byPid, w.book.byAddr[a]);
      assert forall pid | pid in u :: pid in w.book.byPid && pid in w.processes;
      assert u * w.processes == u;
    }
  }

  lemma OneVisit(w: World, seen: set<int>, v: Visit)
    requires Sound(w.book)
    ensures AfterVisits(w, seen, [v]) == AfterVisit(w, seen, v)
  {
    assert [v][..0] == [];
  }

  /** No registration of this scan takes an address over from an entry with another hostname. */
  ghost predicate NoConflict(w: World, seen: set<int>, visits: seq<Visit>)
    requires Sound(w.book)
  {
    visits == [] ||
    (&& NoConflict(w, seen, Before(visits))
     && var b, v := AfterVisits(w, seen, Before(visits)).book, Last(visits);
        v.pid !in seen && v.found.Some? && v.found.value.addr in b.byAddr ==>
        Resolve(b, v.found.value.addr) == Some(v.found.value.host))
  }

  ghost predicate NeverConflicts(polls: seq<Poll>) {
    polls == [] ||
    (&& NeverConflicts(Before(polls))
     && var w := WorldAfter(Before(polls));
        NoConflict(w.(processes := {}), w.processes, Last(polls).visits))
  }

  /** Every entry with a reference is the one its address leads to. */
  ghost predicate AllReachable(b: Book) {
    forall i: nat | i < |b.entries| && 1 <= b.entries[i].refs ::
      b.entries[i].who.addr in b.byAddr && b.byAddr[b.entries[i].who.addr] == i
  }

  lemma {:induction false} ScanKeepsReachable(w: World, seen: set<int>, visits: seq<Visit>)
    requires Sound(w.book) && AllReachable(w.book) && NoConflict(w, seen, visits)
    ensures AllReachable(AfterVisits(w, seen, visits).book)
  {
    if visits != [] {
      ScanKeepsReachable(w, seen, Before(visits));
    }
  }

  lemma {:induction false} ExitsKeepReachable(b: Book, exits: seq<int>)
    requires NeverBelow(b) && AllReachable(b)
    ensures AllReachable(AfterExits(b, exits))
  {
    if exits != [] {
      ExitsKeepReachable(b, Before(exits));
      ExitsKeepCounts(b, Before(exits));
      var r, pid := AfterExits(b, Before(exits)), Last(exits);
      if pid in r.byPid {
        assert pid in Users(r.byPid, r.byPid[pid]);
      }
    }
  }

  lemma {:induction false} RunKeepsReachable(polls: seq<Poll>)
    requires NeverConflicts(polls)
    ensures AllReachable(WorldAfter(polls).book)
  {
    if polls != [] {
      var w, p := WorldAfter(Before(polls)), Last(polls);
      RunKeepsReachable(Before(polls));
      CountsNeverBelow(Before(polls));
      ScanKeepsReachable(w.(processes := {}), w.processes, p.visits);
      ScanKeepsCounts(w.(processes := {}), w.processes, p.visits);
      ExitsKeepReachable(Scanned(w, p.visits).book, p.exits);
    }
  }

  /** Without conflicts this is exact: the resolver can be emptied by the exit of all processes
      exactly if the inputs never remapped a lost process, and leave none lost. */
  lemma HeldExactlyIff(polls: seq<Poll>)
    requires LegalRun(polls) && NeverConflicts(polls)
    ensures HeldByTracked(WorldAfter(polls)) <==> NeverRemaps(polls) && NoneLost(polls)
  {
    var w := WorldAfter(polls);
    CountsAreExactIff(polls);
    MappedAreTrackedIff(polls);
    if HeldByTracked(w) {
      CountsNeverBelow(polls);
      RunKeepsReachable(polls);
      HeldIsExact(w);
    } else if NeverRemaps(polls) && NoneLost(polls) {
      InputsKeepHeld(polls);
    }
  }

  lemma HeldIsExact(w: World)
    requires NeverBelow(w.book) && AllReachable(w.book) && HeldByTracked(w)
    ensures Exact(w.book) && AllTracked(w)
  {
    var b := w.book;
    forall i: nat | i < |b.entries|
        ensures |Users(b.byPid, i)| == b.entries[i].refs && Users(b.byPid, i) <= w.processes {
      var u := Users(b.byPid, i);
      SubsetCount(u * w.processes, u);
      if 1 <= b.entries[i].refs {
        assert b.entries[i].refs == |u * w.processes|;
      }
      assert |u * w.processes| == |u|;
      SubsetOfEqualSize(u * w.processes, u);
    }
    forall pid | pid in b.byPid ensures pid in w.processes {
      assert pid in Users(b.byPid, b.byPid[pid]);
    }
  }

  const POD := Identity("ip", "pod")

  const POD_IS_UP := Poll([Visit(1, Some(POD))], false, [])

  const SCAN_FAILS := Poll([], true, [])

  /** One process of the pod, mapped to an entry with these references. */
  function PodMapped(processes: set<int>, refs: int): World {
    World(processes, map[], Book([Entry(POD, refs)], map["ip" := 0], map[1 := 0]))
  }

  /** A process is accepted, and a failed scan loses it. */
  lemma PodIsLost()
    ensures LegalRun([POD_IS_UP, SCAN_FAILS]) && WorldAfter([POD_IS_UP, SCAN_FAILS]) == PodMapped({}, 1)
  {
    var v := Visit(1, Some(POD));
    OneVisit(START, {}, v);
    assert AfterPoll(START, POD_IS_UP) == PodMapped({1}, 1);
    assert AfterPoll(PodMapped({1}, 1), SCAN_FAILS) == PodMapped({}, 1);
    assert [] + [POD_IS_UP] == [POD_IS_UP] && [POD_IS_UP] + [SCAN_FAILS] == [POD_IS_UP, SCAN_FAILS];
    ExtendRun([], POD_IS_UP);
    ExtendRun([POD_IS_UP], SCAN_FAILS);
  }

  /** The condition does fail: after a failed scan the mapping of a gone process stays, and the
      resolver goes on answering for it. */
  lemma FailedScanStrandsAMapping()
    ensures var polls := [POD_IS_UP, SCAN_FAILS, Poll([], false, [])];
            && LegalRun(polls) && NeverRemaps(polls) && !NoneLost(polls)
            && WorldAfter(polls).processes == {}
            && Resolve(WorldAfter(polls).book, "ip") == Some("pod")
  {
    var p := Poll([], false, []);
    PodIsLost();
    ExtendRun([POD_IS_UP, SCAN_FAILS], p);
    assert [POD_IS_UP, SCAN_FAILS] + [p] == [POD_IS_UP, SCAN_FAILS, p];
    assert AfterPoll(PodMapped({}, 1), p) == PodMapped({}, 1);
    var polls := [POD_IS_UP, SCAN_FAILS, p];
    MappedAreTrackedIff(polls);
    CountsAreExactIff(polls);
    assert Users(map[1 := 0], 0) == {1};
    assert 1 in WorldAfter(polls).book.byPid;
  }

  /** And a lost process that registers again leaves a reference behind: everything is exited and
      unmapped, and the resolver still answers. */
  lemma RemappingLeavesAnAnswer()
    ensures var polls := [POD_IS_UP, SCAN_FAILS, POD_IS_UP, Poll([], false, [1])];
            && LegalRun(polls) && !NeverRemaps(polls) && NoneLost(polls)
            && WorldAfter(polls).processes == {} && WorldAfter(polls).book.byPid == map[]
            && Resolve(WorldAfter(polls).book, "ip") == Some("pod")
  {
    PodIsLost();
    PodIsBack();
    var lost, p := [POD_IS_UP, SCAN_FAILS], Poll([], false, [1]);
    ExtendRun(lost, POD_IS_UP);
    assert lost + [POD_IS_UP] == [POD_IS_UP, SCAN_FAILS, POD_IS_UP];
    PodExits();
    ExtendRun([POD_IS_UP, SCAN_FAILS, POD_IS_UP], p);
    var polls := [POD_IS_UP, SCAN_FAILS, POD_IS_UP, p];
    assert [POD_IS_UP, SCAN_FAILS, POD_IS_UP] + [p] == polls;
    MappedAreTrackedIff(polls);
    CountsAreExactIff(polls);
    assert WorldAfter(polls).book.entries[0].refs == 1 && Users(map[], 0) == {};
  }

  lemma PodIsBack()
    ensures LegalPoll(PodMapped({}, 1), POD_IS_UP) && AfterPoll(PodMapped({}, 1), POD_IS_UP) == PodMapped({1}, 2)
  {
    OneVisit(PodMapped({}, 1), {}, Visit(1, Some(POD)));
  }

  lemma PodExits()
    ensures var p := Poll([], false, [1]);
            && LegalPoll(PodMapped({1}, 2), p)
            && AfterPoll(PodMapped({1}, 2), p) == World({}, map[], Book([Entry(POD, 1)], map["ip" := 0], map[]))
  {
    var p := Poll([], false, [1]);
    OneExit(PodMapped({1}, 2).book, 1);
    assert Scanned(PodMapped({1}, 2), []) == PodMapped({}, 2);
    assert Members([1]) == {1};
  }

  lemma OneExit(b: Book, pid: int)
    requires Sound(b)
    ensures AfterExits(b, [pid]) == Unregister(b, pid)
  {
    assert [pid][..0] == [];
  }

  // ----- What an answer means -----

  /** The hostname most recently accepted for an address. */
  ghost function LatestHost(trace: seq<Event>, addr: string): Option<string> {
    if trace == [] then None
    else match Last(trace)
      case NewAccepted(_, who) => if who.addr == addr then Some(who.host) else LatestHost(Before(trace), addr)
      case _ => LatestHost(Before(trace), addr)
  }

  /** The identity under which a process was most recently accepted. */
  ghost function LatestIdentity(trace: seq<Event>, pid: int): Option<Identity> {
    if trace == [] then None
    else match Last(trace)
      case NewAccepted(p, who) => if p == pid then Some(who) else LatestIdentity(Before(trace), pid)
      case _ => LatestIdentity(Before(trace), pid)
  }

  /** The maps say what the trace said last. */
  ghost predicate Reports(b: Book, trace: seq<Event>)
    requires Sound(b)
  {
    && (forall a | a in b.byAddr :: Resolve(b, a) == LatestHost(trace, a))
    && (forall p | p in b.byPid :: Some(IdentityOf(b, p)) == LatestIdentity(trace, p))
  }

  lemma AcceptedIsReported(b: Book, trace: seq<Event>, pid: int, who: Identity)
    requires Sound(b) && Reports(b, trace)
    ensures Reports(Register(b, pid, who), trace + [NewAccepted(pid, who)])
  {
    assert Before(trace + [NewAccepted(pid, who)]) == trace;
  }

  lemma UnrelatedIsReported(b: Book, trace: seq<Event>, e: Event)
    requires Sound(b) && Reports(b, trace) && !e.NewAccepted?
    ensures Reports(b, trace + [e])
  {
    assert Before(trace + [e]) == trace;
  }

  lemma {:induction false} ScanReports(w: World, seen: set<int>, visits: seq<Visit>, trace: seq<Event>)
    requires Sound(w.book) && Reports(w.book, trace)
    ensures Reports(AfterVisits(w, seen, visits).book, trace + EventsOf(w, seen, visits))
  {
    if visits == [] {
      assert trace + [] == trace;
    } else {
      var before, v := Before(visits), Last(visits);
      ScanReports(w, seen, before, trace);
      var r, t := AfterVisits(w, seen, before), trace + EventsOf(w, seen, before);
      var es := EventOf(r, seen, v);
      assert trace + EventsOf(w, seen, visits) == t + es;
      if v.pid in seen {
        assert t + es == t;
      } else if v.found.Some? {
        AcceptedIsReported(r.book, t, v.pid, v.found.value);
      } else {
        UnrelatedIsReported(r.book, t, es[0]);
      }
    }
  }

  lemma ExitReports(b: Book, pid: int, trace: seq<Event>)
    requires Sound(b) && Reports(b, trace)
    ensures Reports(Unregister(b, pid), trace + [Exited(pid)])
  {
    assert Reports(Unregister(b, pid), trace);
    UnrelatedIsReported(Unregister(b, pid), trace, Exited(pid));
  }

  lemma {:induction false} ExitsReport(b: Book, exits: seq<int>, trace: seq<Event>)
    requires Sound(b) && Reports(b, trace)
    ensures Reports(AfterExits(b, exits), trace + ExitsOf(exits))
  {
    if exits == [] {
      assert trace + [] == trace;
    } else {
      ExitsReport(b, Before(exits), trace);
      var t := trace + ExitsOf(Before(exits));
      assert trace + ExitsOf(exits) == t + [Exited(Last(exits))];
      ExitReports(AfterExits(b, Before(exits)), Last(exits), t);
    }
  }

  /** In any run, an answer is the hostname of the most recent registration of that address, and
      every tracked process is mapped to the identity it was last accepted with. */
  lemma {:induction false} AnswersAreLatest(polls: seq<Poll>)
    ensures Reports(WorldAfter(polls).book, Trace(polls))
  {
    if polls != [] {
      AnswersAreLatest(Before(polls));
      PollReports(WorldAfter(Before(polls)), Last(polls), Trace(Before(polls)));
    }
  }

  lemma PollReports(w: World, p: Poll, trace: seq<Event>)
    requires Sound(w.book) && Reports(w.book, trace)
    ensures Reports(AfterPoll(w, p).book, trace + EventsOfPoll(w, p))
  {
    var es := EventsOf(w.(processes := {}), w.processes, p.visits);
    ScanReports(w.(processes := {}), w.processes, p.visits, trace);
    if p.failed {
      assert trace + (es + []) == trace + es;
    } else {
      ExitsReport(Scanned(w, p.visits).book, p.exits, trace + es);
      assert trace + (es + ExitsOf(p.exits)) == trace + es + ExitsOf(p.exits);
    }
  }

  lemma AnsweredForAUser(b: Book, addr: string) returns (pid: int)
    requires Exact(b) && addr in b.byAddr
    ensures pid in b.byPid && Resolve(b, addr) == Some(IdentityOf(b, pid).host) && IdentityOf(b, pid).addr == addr
  {
    assert |Users(b.byPid, b.byAddr[addr])| == b.entries[b.byAddr[addr]].refs;
    pid := Pick(Users(b.byPid, b.byAddr[addr]));
  }

  /** If the inputs of a run neither lose nor remap a process, an answer names a process of the
      latest scan that registered exactly this address and hostname, although scans may have failed. */
  lemma AnswerIsInLatestScan(polls: seq<Poll>, addr: string, host: string)
    requires LegalRun(polls) && NeverRemaps(polls) && NoneLost(polls) && polls != []
    requires Resolve(WorldAfter(polls).book, addr) == Some(host)
    ensures exists pid ::
              && Visits(Last(polls).visits, pid)
              && pid in WorldAfter(polls).book.byPid
              && LatestIdentity(Trace(polls), pid) == Some(Identity(addr, host))
  {
    var b := WorldAfter(polls).book;
    CountsAreExactIff(polls);
    MappedAreTrackedIff(polls);
    AnswersAreLatest(polls);
    var pid := AnsweredForAUser(b, addr);
    var w, p := WorldAfter(Before(polls)), Last(polls);
    ScanOnlyAddsVisited(w.(processes := {}), w.processes, p.visits);
  }

  // ----- When the answers are exactly the tracked processes -----

  /** No two tracked processes disagree on the hostname of an address. */
  ghost predicate Agree(b: Book, except: set<int>)
    requires Sound(b)
  {
    forall p, q | p in b.byPid && q in b.byPid && p !in except && q !in except ::
      IdentityOf(b, p).addr == IdentityOf(b, q).addr ==> IdentityOf(b, p).host == IdentityOf(b, q).host
  }

  /** The address of a tracked process points at the very entry the process is mapped to. */
  ghost predicate Coherent(b: Book, except: set<int>)
    requires Sound(b)
  {
    forall p | p in b.byPid && p !in except ::
      IdentityOf(b, p).addr in b.byAddr && b.byAddr[IdentityOf(b, p).addr] == b.byPid[p]
  }

  ghost predicate AlwaysAgree(polls: seq<Poll>) {
    polls == [] || (AlwaysAgree(Before(polls)) && Agree(WorldAfter(polls).book, {}))
  }

  lemma RegisterKeepsCoherence(b: Book, pid: int, who: Identity, except: set<int>)
    requires Sound(b) && pid !in b.byPid && pid !in except
    requires Agree(Register(b, pid, who), except)
    requires Coherent(b, except)
    ensures Coherent(Register(b, pid, who), except)
  {
    var b' := Register(b, pid, who);
    assert IdentityOf(b', pid) == who && b'.byAddr[who.addr] == b'.byPid[pid];
    forall p | p in b.byPid && p !in except && p != pid
      ensures IdentityOf(b', p).addr in b'.byAddr && b'.byAddr[IdentityOf(b', p).addr] == b'.byPid[p]
    {
      RegisteredBeside(b, pid, who, p);
    }
  }

  /** A process whose address leads to its own entry keeps it beside a newcomer that agrees with it. */
  lemma RegisteredBeside(b: Book, pid: int, who: Identity, p: int)
    requires Sound(b) && pid !in b.byPid && p in b.byPid
    requires IdentityOf(b, p).addr in b.byAddr && b.byAddr[IdentityOf(b, p).addr] == b.byPid[p]
    requires IdentityOf(Register(b, pid, who), p) == IdentityOf(b, p)
    requires IdentityOf(b, p).addr == who.addr ==> IdentityOf(b, p).host == who.host
    ensures var b' := Register(b, pid, who);
            IdentityOf(b', p).addr in b'.byAddr && b'.byAddr[IdentityOf(b', p).addr] == b'.byPid[p]
  {
  }

  lemma RegisterReflectsAgreement(b: Book, pid: int, who: Identity, except: set<int>)
    requires Sound(b) && pid !in b.byPid
    requires Agree(Register(b, pid, who), except)
    ensures Agree(b, except)
  {
    var b' := Register(b, pid, who);
    assert forall p | p in b.byPid :: IdentityOf(b', p) == IdentityOf(b, p);
  }

  lemma {:induction false} ScanKeepsCoherence(w: World, seen: set<int>, visits: seq<Visit>, except: set<int>)
    requires Sound(w.book) && !Remaps(w.book.byPid, seen, visits) && w.processes == {} && DistinctPids(visits)
    requires except <= seen && Coherent(w.book, except)
    requires Agree(AfterVisits(w, seen, visits).book, except)
    ensures Coherent(AfterVisits(w, seen, visits).book, except)
  {
    if visits != [] {
      var v, r := Last(visits), AfterVisits(w, seen, Before(visits));
      RemapsMore(w.book.byPid, seen, visits);
      StillUnmapped(w, seen, visits);
      if v.pid !in seen && v.found.Some? {
        RegisterReflectsAgreement(r.book, v.pid, v.found.value, except);
        ScanKeepsCoherence(w, seen, Before(visits), except);
        RegisterKeepsCoherence(r.book, v.pid, v.found.value, except);
      } else {
        ScanKeepsCoherence(w, seen, Before(visits), except);
      }
    }
  }

  lemma {:induction false} ExitsKeepCoherence(b: Book, exits: seq<int>, except: set<int>)
    requires NeverBelow(b) && Members(exits) <= except && Coherent(b, except)
    ensures Coherent(AfterExits(b, exits), except)
  {
    if exits != [] {
      var r, pid := AfterExits(b, Before(exits)), Last(exits);
      assert forall x | x in Before(exits) :: x in exits;
      ExitsKeepCoherence(b, Before(exits), except);
      ExitsKeepCounts(b, Before(exits));
      var r' := Unregister(r, pid);
      assert pid in exits;
      forall p | p in r'.byPid && p !in except
        ensures IdentityOf(r', p).addr in r'.byAddr && r'.byAddr[IdentityOf(r', p).addr] == r'.byPid[p]
      {
        var a := IdentityOf(r, p).addr;
        assert p in Users(r'.byPid, r.byAddr[a]);
        if a !in r'.byAddr {
          DroppedOnlyWhenUnused(r, pid, a);
          assert false;
        }
      }
    }
  }

  lemma {:induction false} RunStaysCoherent(polls: seq<Poll>)
    requires LegalRun(polls) && NeverRemaps(polls) && AlwaysAgree(polls)
    ensures Coherent(WorldAfter(polls).book, {})
  {
    if polls != [] {
      var w, p := WorldAfter(Before(polls)), Last(polls);
      RunStaysCoherent(Before(polls));
      CountsNeverBelow(Before(polls));
      InputsDoNotRemap(polls);
      var s, gone := Scanned(w, p.visits), Members(p.exits);
      ExitsOnlyRemove(s.book, p.exits);
      var f := WorldAfter(polls).book;
      assert forall q | q in s.book.byPid && q !in gone :: q in f.byPid && IdentityOf(f, q) == IdentityOf(s.book, q);
      assert Agree(s.book, gone);
      ScanKeepsCoherence(w.(processes := {}), w.processes, p.visits, gone);
      ScanKeepsCounts(w.(processes := {}), w.processes, p.visits);
      ExitsKeepCoherence(s.book, p.exits, gone);
    }
  }

  /** If no scan remaps a lost process and, after each poll, no two mapped processes disagree on an
      address, the resolver is exactly the map from mapped processes' addresses to their hostnames;
      and if the run leaves none lost, these are the tracked ones. */
  lemma AnswersAreExactlyTheTracked(polls: seq<Poll>, addr: string, host: string)
    requires LegalRun(polls) && NeverRemaps(polls) && AlwaysAgree(polls)
    ensures var b := WorldAfter(polls).book;
            Resolve(b, addr) == Some(host) <==>
            exists pid :: pid in b.byPid && IdentityOf(b, pid) == Identity(addr, host)
    ensures NoneLost(polls) ==> AllTracked(WorldAfter(polls))
  {
    var b := WorldAfter(polls).book;
    RunStaysCoherent(polls);
    CountsAreExactIff(polls);
    MappedAreTrackedIff(polls);
    if Resolve(b, addr) == Some(host) {
      var pid := AnsweredForAUser(b, addr);
    }
  }

  // ----- The order of exits -----

  ghost function EntryLeft(b: Book, gone: set<int>, i: nat): Entry
    requires i < |b.entries|
  {
    Entry(b.entries[i].who, b.entries[i].refs - |Users(b.byPid, i) * gone|)
  }

  /** What a batch of exits leaves, in terms of the set of exiting processes alone. */
  ghost predicate IsLeft(b: Book, gone: set<int>, r: Book)
    requires Sound(b)
  {
    && r.byPid == b.byPid - gone
    && |r.entries| == |b.entries|
    && (forall i: nat | i < |b.entries| :: r.entries[i] == EntryLeft(b, gone, i))
    && AddressesAreLeft(b, gone, r.byAddr)
  }

  ghost predicate AddressesAreLeft(b: Book, gone: set<int>, byAddr: map<string, nat>)
    requires Sound(b)
  {
    && (forall a | a in byAddr :: a in b.byAddr && byAddr[a] == b.byAddr[a])
    && (forall a | a in b.byAddr :: a in byAddr <==> EntryLeft(b, gone, b.byAddr[a]).refs != 0)
  }

  lemma GoneUsers(b: Book, gone: set<int>, pid: int, i: nat)
    requires pid !in gone && i < |b.entries|
    ensures EntryLeft(b, gone + {pid}, i).refs
         == EntryLeft(b, gone, i).refs - if pid in b.byPid && b.byPid[pid] == i then 1 else 0
  {
    var u := Users(b.byPid, i);
    if pid in u {
      assert u * (gone + {pid}) == u * gone + {pid};
    } else {
      assert u * (gone + {pid}) == u * gone;
    }
  }

  lemma AddressesLeft(b: Book, gone: set<int>, r: Book, pid: int)
    requires Sound(b) && IsLeft(b, gone, r) && NeverBelow(r) && pid !in gone && pid in b.byPid
    ensures AddressesAreLeft(b, gone + {pid}, Unregister(r, pid).byAddr)
  {
    var i := b.byPid[pid];
    assert r.byPid[pid] == i && pid in Users(r.byPid, i);
    assert Users(r.byPid, i) != {};
    assert 1 <= r.entries[i].refs;
    forall a | a in b.byAddr
      ensures a in Unregister(r, pid).byAddr <==> EntryLeft(b, gone + {pid}, b.byAddr[a]).refs != 0
    {
      GoneUsers(b, gone, pid, b.byAddr[a]);
    }
  }

  lemma UnmappedLeaves(b: Book, gone: set<int>, r: Book, pid: int)
    requires Sound(b) && IsLeft(b, gone, r) && pid !in gone && pid !in b.byPid
    ensures IsLeft(b, gone + {pid}, r)
  {
    assert b.byPid - (gone + {pid}) == b.byPid - gone;
    forall i: nat | i < |b.entries| ensures EntryLeft(b, gone + {pid}, i) == EntryLeft(b, gone, i) {
      GoneUsers(b, gone, pid, i);
    }
  }

  lemma UnregisterLeaves(b: Book, gone: set<int>, r: Book, pid: int)
    requires Sound(b) && IsLeft(b, gone, r) && NeverBelow(r) && pid !in gone
    ensures IsLeft(b, gone + {pid}, Unregister(r, pid))
  {
    if pid !in b.byPid {
      UnmappedLeaves(b, gone, r, pid);
    } else {
      var r' := Unregister(r, pid);
      assert r'.byPid == b.byPid - (gone + {pid});
      forall i: nat | i < |b.entries| ensures r'.entries[i] == EntryLeft(b, gone + {pid}, i) {
        GoneUsers(b, gone, pid, i);
      }
      AddressesLeft(b, gone, r, pid);
    }
  }

  lemma {:induction false} ExitsLeave(b: Book, exits: seq<int>)
    requires NeverBelow(b) && NoRepeats(exits)
    ensures IsLeft(b, Members(exits), AfterExits(b, exits))
  {
    if exits == [] {
      LeavesAll(b);
      assert Members(exits) == {};
    } else {
      var x, before := Last(exits), Before(exits);
      MembersRejoin(exits);
      ExitsLeave(b, before);
      ExitsKeepCounts(b, before);
      UnregisterLeaves(b, Members(before), AfterExits(b, before), x);
    }
  }

  lemma LeavesAll(b: Book)
    requires NeverBelow(b)
    ensures IsLeft(b, {}, b)
  {
    forall i: nat | i < |b.entries| ensures b.entries[i] == EntryLeft(b, {}, i) {
      assert Users(b.byPid, i) * {} == {};
    }
  }

  lemma LeftIsUnique(b: Book, gone: set<int>, r: Book, t: Book)
    requires Sound(b) && IsLeft(b, gone, r) && IsLeft(b, gone, t)
    ensures r == t
  {
    assert forall i: nat | i < |b.entries| :: r.entries[i] == t.entries[i];
    assert r.entries == t.entries;
    assert r.byAddr == t.byAddr;
  }

  /** Exits may be handled in any order. */
  lemma ExitOrderDoesNotMatter(b: Book, exits: seq<int>, other: seq<int>)
    requires NeverBelow(b) && NoRepeats(exits) && NoRepeats(other)
    requires Members(exits) == Members(other)
    ensures AfterExits(b, exits) == AfterExits(b, other)
  {
    ExitsLeave(b, exits);
    ExitsLeave(b, other);
    LeftIsUnique(b, Members(exits), AfterExits(b, exits), AfterExits(b, other));
  }
}
