/**
 The process monitor driving the resolver, as a value: what one poll does, given what the
 scan reported, whether it failed, and the order in which exits were handled.
 */
module MonitorSpec {
  import opened Basics
  import opened ResolverSpec

  const MAX_RETRIES := 3

  /** One callback of the scan: a pid, and its identity if it could be extracted. */
  datatype Visit = Visit(pid: int, found: Option<Identity>)

  datatype Poll = Poll(visits: seq<Visit>, failed: bool, exits: seq<int>)

  datatype World = World(processes: set<int>, failing: map<int, int>, book: Book)

  /** What the monitor told its callbacks, and what they answered. */
  datatype Event =
    | NewAccepted(pid: int, who: Identity)
    | NewFailed(pid: int)
    | NewGivenUp(pid: int)
    | Exited(pid: int)

  const START := World({}, map[], EMPTY)

  function Failures(failing: map<int, int>, pid: int): int {
    if pid in failing then failing[pid] else 0
  }

  function AfterVisit(w: World, seen: set<int>, v: Visit): (r: World)
    requires Sound(w.book)
    ensures Sound(r.book)
  {
    if v.pid in seen then w.(processes := w.processes + {v.pid})
    else match v.found
      case Some(who) => w.(processes := w.processes + {v.pid}, book := Register(w.book, v.pid, who))
      case None =>
        var failures := Failures(w.failing, v.pid) + 1;
        if failures <= MAX_RETRIES then w.(failing := w.failing[v.pid := failures])
        else w.(failing := w.failing - {v.pid}, processes := w.processes + {v.pid})
  }

  function AfterVisits(w: World, seen: set<int>, visits: seq<Visit>): (r: World)
    requires Sound(w.book)
    ensures Sound(r.book)
  {
    if visits == [] then w
    else AfterVisit(AfterVisits(w, seen, visits[..|visits| - 1]), seen, visits[|visits| - 1])
  }

  function AfterExits(b: Book, exits: seq<int>): (r: Book)
    requires Sound(b)
    ensures Sound(r)
  {
    if exits == [] then b else Unregister(AfterExits(b, exits[..|exits| - 1]), exits[|exits| - 1])
  }

  /** The scan starts from an empty process set; the exits follow only if it did not fail. */
  ghost function Scanned(w: World, visits: seq<Visit>): (r: World)
    requires Sound(w.book)
    ensures Sound(r.book)
  {
    AfterVisits(w.(processes := {}), w.processes, visits)
  }

  ghost function AfterPoll(w: World, p: Poll): (r: World)
    requires Sound(w.book)
    ensures Sound(r.book)
  {
    var s := Scanned(w, p.visits);
    if p.failed then s else s.(book := AfterExits(s.book, p.exits))
  }

  ghost predicate DistinctPids(visits: seq<Visit>) {
    forall i, j | 0 <= i < j < |visits| :: visits[i].pid != visits[j].pid
  }

  ghost predicate Visits(visits: seq<Visit>, pid: int) {
    exists i :: 0 <= i < |visits| && visits[i].pid == pid
  }

  /** A scan that completes is followed by an exit for each process seen last time and not now,
      in any order. A scan never reports a pid twice. */
  ghost predicate LegalPoll(w: World, p: Poll)
    requires Sound(w.book)
  {
    && DistinctPids(p.visits)
    && NoRepeats(p.exits)
    && Members(p.exits) == if p.failed then {} else w.processes - Scanned(w, p.visits).processes
  }

  /** The state after a run of polls from the start. */
  ghost function WorldAfter(polls: seq<Poll>): (w: World)
    ensures Sound(w.book)
  {
    if polls == [] then START else AfterPoll(WorldAfter(Before(polls)), Last(polls))
  }

  ghost predicate LegalRun(polls: seq<Poll>) {
    polls == [] || (LegalRun(Before(polls)) && LegalPoll(WorldAfter(Before(polls)), Last(polls)))
  }

  lemma ExtendRun(polls: seq<Poll>, p: Poll)
    requires LegalRun(polls) && LegalPoll(WorldAfter(polls), p)
    ensures LegalRun(polls + [p]) && WorldAfter(polls + [p]) == AfterPoll(WorldAfter(polls), p)
  {
    assert Before(polls + [p]) == polls;
  }

  ghost predicate NeverFails(polls: seq<Poll>) {
    forall p | p in polls :: !p.failed
  }

  // ----- The callbacks of a run -----

  ghost function EventOf(w: World, seen: set<int>, v: Visit): seq<Event> {
    if v.pid in seen then []
    else match v.found
      case Some(who) => [NewAccepted(v.pid, who)]
      case None => if Failures(w.failing, v.pid) < MAX_RETRIES then [NewFailed(v.pid)] else [NewGivenUp(v.pid)]
  }

  ghost function EventsOf(w: World, seen: set<int>, visits: seq<Visit>): seq<Event>
    requires Sound(w.book)
  {
    if visits == [] then []
    else EventsOf(w, seen, Before(visits)) + EventOf(AfterVisits(w, seen, Before(visits)), seen, Last(visits))
  }

  ghost function ExitsOf(exits: seq<int>): seq<Event> {
    if exits == [] then [] else ExitsOf(Before(exits)) + [Exited(Last(exits))]
  }

  ghost function EventsOfPoll(w: World, p: Poll): seq<Event>
    requires Sound(w.book)
  {
    EventsOf(w.(processes := {}), w.processes, p.visits) + if p.failed then [] else ExitsOf(p.exits)
  }

  ghost function Trace(polls: seq<Poll>): seq<Event> {
    if polls == [] then [] else Trace(Before(polls)) + EventsOfPoll(WorldAfter(Before(polls)), Last(polls))
  }

  // ----- Facts about one scan -----

  lemma {:induction false} ScanOnlyAddsVisited(w: World, seen: set<int>, visits: seq<Visit>)
    requires Sound(w.book)
    ensures var r := AfterVisits(w, seen, visits);
            && w.processes <= r.processes
            && (forall pid | pid in r.processes :: pid in w.processes || Visits(visits, pid))
            && (forall pid | pid in seen && Visits(visits, pid) :: pid in r.processes)
            && (forall pid | pid in r.book.byPid :: pid in w.book.byPid || pid in r.processes)
            && (forall pid | pid in w.book.byPid :: pid in r.book.byPid)
  {
    if visits != [] {
      var before, v := Before(visits), Last(visits);
      ScanOnlyAddsVisited(w, seen, before);
      forall pid ensures Visits(visits, pid) <==> Visits(before, pid) || pid == v.pid {
        VisitsMore(visits, pid);
      }
    }
  }

  lemma VisitsMore(visits: seq<Visit>, pid: int)
    requires visits != []
    ensures Visits(visits, pid) <==> Visits(Before(visits), pid) || pid == Last(visits).pid
  {
    var before := Before(visits);
    assert forall i | 0 <= i < |before| :: before[i] == visits[i];
    assert visits[|visits| - 1] == Last(visits);
    if Visits(before, pid) {
      var i :| 0 <= i < |before| && before[i].pid == pid;
      assert visits[i].pid == pid;
    }
  }

  lemma {:induction false} ExitsOnlyRemove(b: Book, exits: seq<int>)
    requires Sound(b)
    ensures var r := AfterExits(b, exits);
            && r.byPid == b.byPid - Members(exits)
            && |r.entries| == |b.entries|
            && (forall i | 0 <= i < |b.entries| :: r.entries[i].who == b.entries[i].who)
            && (forall a | a in r.byAddr :: a in b.byAddr && r.byAddr[a] == b.byAddr[a])
  {
    if exits != [] {
      ExitsOnlyRemove(b, Before(exits));
      MembersRejoin(exits);
    } else {
      assert b.byPid - Members(exits) == b.byPid;
    }
  }
}
