/**
 References that nobody will give back. Whenever a process is registered that is mapped already, the
 entry it was mapped to keeps one reference too many for ever. With the processes that are mapped but
 forgotten, these are all that keeps an address when every process has gone.
 */
module ResolverSurplus {
  import opened Basics
  import opened ResolverSpec
  import opened MonitorSpec
  import opened PidRuns
  import opened ResolverRuns

  /** How many references of entry `j` belong to no process. */
  ghost function Surplus(b: Book, j: nat): int {
    if j < |b.entries| then b.entries[j].refs - |Users(b.byPid, j)| else 0
  }

  ghost predicate MappedTo(byPid: map<int, nat>, pid: int, j: nat) {
    pid in byPid && byPid[pid] == j
  }

  lemma UsersAfterRemapping(byPid: map<int, nat>, pid: int, i: nat, j: nat)
    ensures |Users(byPid[pid := i], j)| + (if MappedTo(byPid, pid, j) then 1 else 0)
         == |Users(byPid, j)| + (if i == j then 1 else 0)
  {
    var before, after := Users(byPid, j), Users(byPid[pid := i], j);
    CountWithout(before, pid);
    CountWithout(after, pid);
    assert after - {pid} == before - {pid};
  }

  lemma CountWithout<T>(s: set<T>, x: T)
    ensures |s| == |s - {x}| + if x in s then 1 else 0
  {
    if x in s {
      assert s == (s - {x}) + {x};
    } else {
      assert s == s - {x};
    }
  }

  lemma RegisterSurplus(b: Book, pid: int, who: Identity, j: nat)
    requires Sound(b)
    ensures Surplus(Register(b, pid, who), j) == Surplus(b, j) + if MappedTo(b.byPid, pid, j) then 1 else 0
  {
    UsersAfterRemapping(b.byPid, pid, Register(b, pid, who).byPid[pid], j);
    NoUsers(b, |b.entries|);
  }

  lemma UnregisterSurplus(b: Book, pid: int, j: nat)
    requires Sound(b)
    ensures Surplus(Unregister(b, pid), j) == Surplus(b, j)
  {
    if pid in b.byPid {
      UsersAfterUnmapping(b.byPid, pid, j);
    }
  }

  /** How many visits of a scan register a process that is mapped to entry `j`. */
  ghost function RemapsIn(byPid: map<int, nat>, seen: set<int>, visits: seq<Visit>, j: nat): nat {
    if visits == [] then 0
    else
      var v := Last(visits);
      RemapsIn(byPid, seen, Before(visits), j) +
          if v.pid !in seen && v.found.Some? && MappedTo(byPid, v.pid, j) then 1 else 0
  }

  /** A scan comes to each process once, so it finds it mapped as it was before. */
  lemma {:induction false} MappedAsBefore(w: World, seen: set<int>, visits: seq<Visit>, pid: int)
    requires Sound(w.book) && !Visits(visits, pid)
    ensures At(AfterVisits(w, seen, visits).book.byPid, pid) == At(w.book.byPid, pid)
  {
    if visits != [] {
      VisitsMore(visits, pid);
      MappedAsBefore(w, seen, Before(visits), pid);
    }
  }

  lemma {:induction false} ScanSurplus(w: World, seen: set<int>, visits: seq<Visit>, j: nat)
    requires Sound(w.book) && DistinctPids(visits)
    ensures Surplus(AfterVisits(w, seen, visits).book, j)
            == Surplus(w.book, j) + RemapsIn(w.book.byPid, seen, visits, j)
  {
    if visits != [] {
      var v, r := Last(visits), AfterVisits(w, seen, Before(visits));
      ScanSurplus(w, seen, Before(visits), j);
      LastPidIsNew(visits);
      MappedAsBefore(w, seen, Before(visits), v.pid);
      if v.pid !in seen && v.found.Some? {
        RegisterSurplus(r.book, v.pid, v.found.value, j);
      }
    }
  }

  lemma {:induction false} ExitsSurplus(b: Book, exits: seq<int>, j: nat)
    requires Sound(b)
    ensures Surplus(AfterExits(b, exits), j) == Surplus(b, j)
  {
    if exits != [] {
      ExitsSurplus(b, Before(exits), j);
      UnregisterSurplus(AfterExits(b, Before(exits)), Last(exits), j);
    }
  }

  /** How often the scans of a run have registered a process that was mapped to entry `j`. */
  ghost function RemapsFrom(polls: seq<Poll>, j: nat): nat {
    if polls == [] then 0
    else
      var w := WorldAfter(Before(polls));
      RemapsFrom(Before(polls), j) + RemapsIn(w.book.byPid, w.processes, Last(polls).visits, j)
  }

  /** In any run, failed scans included, an entry has a reference for each process mapped to it, and one
      for each time a process was registered while it was mapped to it. */
  lemma {:induction false} ReferencesExactly(polls: seq<Poll>, j: nat)
    requires LegalRun(polls)
    ensures Surplus(WorldAfter(polls).book, j) == RemapsFrom(polls, j)
  {
    if polls != [] {
      var w, p := WorldAfter(Before(polls)), Last(polls);
      ReferencesExactly(Before(polls), j);
      ScanSurplus(w.(processes := {}), w.processes, p.visits, j);
      ExitsSurplus(Scanned(w, p.visits).book, p.exits, j);
    }
  }

  /** The processes mapped to entry `j` that the monitor has forgotten. */
  ghost function LostUsers(polls: seq<Poll>, j: nat): set<int> {
    set pid | pid in Users(WorldAfter(polls).book.byPid, j) && Lost(PidAfter(polls, pid))
  }

  lemma UsersAreTrackedOrLost(polls: seq<Poll>, j: nat)
    requires LegalRun(polls)
    ensures var w := WorldAfter(polls); var u := Users(w.book.byPid, j);
            |u| == |u * w.processes| + |LostUsers(polls, j)|
  {
    var w := WorldAfter(polls);
    var u, lost := Users(w.book.byPid, j), LostUsers(polls, j);
    forall pid | pid in u ensures pid in lost <==> pid !in w.processes {
      RunOnePid(polls, pid);
    }
    assert u == u * w.processes + lost && (u * w.processes) !! lost;
  }

  /** When all processes are gone, an address goes on being answered after a successful scan exactly if a
      process was ever registered again while it was mapped to the entry, or one is mapped to it and lost. */
  lemma AddressOutlivesIff(polls: seq<Poll>, p: Poll, a: string)
    requires LegalRun(polls) && LegalPoll(WorldAfter(polls), p) && !p.failed && p.visits == []
    requires a in WorldAfter(polls).book.byAddr
    ensures var j := WorldAfter(polls).book.byAddr[a];
            a in WorldAfter(polls + [p]).book.byAddr <==> RemapsFrom(polls, j) > 0 || LostUsers(polls, j) != {}
  {
    var w := WorldAfter(polls);
    CountsNeverBelow(polls);
    ExtendRun(polls, p);
    EmptyScanClearsIff(w, p);
    ReferencesExactly(polls, w.book.byAddr[a]);
    UsersAreTrackedOrLost(polls, w.book.byAddr[a]);
  }

  /** So, in any run, whether or not addresses were taken over, every answer is held by tracked processes
      alone exactly if this holds for none of the entries the addresses lead to. */
  lemma HeldIff(polls: seq<Poll>)
    requires LegalRun(polls)
    ensures var b := WorldAfter(polls).book;
            HeldByTracked(WorldAfter(polls)) <==>
            forall a | a in b.byAddr :: RemapsFrom(polls, b.byAddr[a]) == 0 && LostUsers(polls, b.byAddr[a]) == {}
  {
    var b := WorldAfter(polls).book;
    forall a | a in b.byAddr
      ensures b.entries[b.byAddr[a]].refs == |Users(b.byPid, b.byAddr[a]) * WorldAfter(polls).processes| <==>
              RemapsFrom(polls, b.byAddr[a]) == 0 && LostUsers(polls, b.byAddr[a]) == {}
    {
      ReferencesExactly(polls, b.byAddr[a]);
      UsersAreTrackedOrLost(polls, b.byAddr[a]);
    }
  }
}
