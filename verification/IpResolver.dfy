/**
 The reference-counted IP resolver and the process monitor that drives it, updating shared
 heap entries in place. Each method is proved against the value-level functions of
 ResolverSpec and MonitorSpec, on which the results about whole runs are proved.
 */
module IpResolver {
  import opened Basics
  import opened ResolverSpec
  import opened MonitorSpec

  class HostEntry {
    const ipAddr: string
    const hostname: string
    var processRefCount: int
    ghost const id: nat

    constructor (ipAddr: string, hostname: string, ghost id: nat)
      ensures this.ipAddr == ipAddr && this.hostname == hostname && this.id == id && processRefCount == 1
    {
      this.ipAddr, this.hostname, this.id, processRefCount := ipAddr, hostname, id, 1;
    }

    ghost function View(): Entry
      reads this
    {
      Entry(Identity(ipAddr, hostname), processRefCount)
    }
  }

  ghost function Ids<K>(m: map<K, HostEntry>): map<K, nat> {
    map k | k in m :: m[k].id
  }

  lemma IdsAfterUpdate<K>(m: map<K, HostEntry>, k: K, e: HostEntry)
    ensures Ids(m[k := e]) == Ids(m)[k := e.id]
  {
  }

  lemma IdsAfterRemove<K>(m: map<K, HostEntry>, k: K)
    ensures Ids(m - {k}) == Ids(m) - {k}
  {
  }

  class ProcFSIPResolver {
    var byAddr: map<string, HostEntry>
    var byPid: map<int, HostEntry>
    ghost var registered: seq<HostEntry>
    ghost var repr: set<HostEntry>

    /** Every entry ever made is known by its position, and both maps hold such entries. */
    ghost predicate Valid()
      reads this, repr
    {
      && (forall i | 0 <= i < |registered| :: registered[i] in repr && registered[i].id == i)
      && (forall a | a in byAddr :: byAddr[a].id < |registered| && registered[byAddr[a].id] == byAddr[a])
      && (forall p | p in byPid :: byPid[p].id < |registered| && registered[byPid[p].id] == byPid[p])
      && (forall a | a in byAddr :: byAddr[a].ipAddr == a)
    }

    ghost function View(): (b: Book)
      requires Valid()
      reads this, repr
      ensures Sound(b)
    {
      Book(seq(|registered|, i requires 0 <= i < |registered| && registered[i] in repr reads this, repr =>
                               registered[i].View()),
           Ids(byAddr), Ids(byPid))
    }

    constructor ()
      ensures Valid() && View() == EMPTY && repr == {}
    {
      byAddr, byPid, registered, repr := map[], map[], [], {};
    }

    method ResolveIP(ipaddr: string) returns (hostname: string, ok: bool)
      requires Valid()
      ensures Resolve(View(), ipaddr) == if ok then Some(hostname) else None
      ensures !ok ==> hostname == ""
    {
      if ipaddr in byAddr {
        return byAddr[ipaddr].hostname, true;
      }
      return "", false;
    }

    /** `found` is what the process files say, if they could be read. */
    method OnProcessNew(pid: int, found: Option<Identity>) returns (ok: bool)
      requires Valid()
      modifies this, repr
      ensures Valid() && ok == found.Some?
      ensures View() == if ok then Register(old(View()), pid, found.value) else old(View())
      ensures fresh(repr - old(repr))
    {
      if found.None? {
        return false;
      }
      var ipaddr, hostname := found.value.addr, found.value.host;
      if ipaddr in byAddr && byAddr[ipaddr].hostname == hostname {
        AddReference(pid, byAddr[ipaddr]);
      } else {
        AddMapping(pid, ipaddr, hostname);
      }
      return true;
    }

    method AddReference(pid: int, entry: HostEntry)
      requires Valid() && entry.id < |registered| && registered[entry.id] == entry
      modifies this`byPid, entry
      ensures Valid()
      ensures View() == old(View()).(entries := old(View()).entries[entry.id :=
                                       Entry(old(entry.View()).who, old(entry.processRefCount) + 1)],
                                     byPid := old(View()).byPid[pid := entry.id])
    {
      byPid := byPid[pid := entry];
      entry.processRefCount := entry.processRefCount + 1;
      IdsAfterUpdate(old(byPid), pid, entry);
    }

    method AddMapping(pid: int, ipaddr: string, hostname: string)
      requires Valid()
      modifies this
      ensures Valid() && fresh(repr - old(repr))
      ensures var b := old(View());
              View() == Book(b.entries + [Entry(Identity(ipaddr, hostname), 1)],
                             b.byAddr[ipaddr := |b.entries|], b.byPid[pid := |b.entries|])
    {
      var newEntry := NewEntry(ipaddr, hostname);
      byPid := byPid[pid := newEntry];
      byAddr := byAddr[ipaddr := newEntry];
      IdsAfterUpdate(old(byPid), pid, newEntry);
      IdsAfterUpdate(old(byAddr), ipaddr, newEntry);
    }

    method NewEntry(ipaddr: string, hostname: string) returns (newEntry: HostEntry)
      requires Valid()
      modifies this`registered, this`repr
      ensures Valid() && fresh(repr - old(repr))
      ensures newEntry.id == |old(registered)| && registered == old(registered) + [newEntry]
      ensures newEntry.ipAddr == ipaddr && newEntry.hostname == hostname
      ensures View() == old(View()).(entries := old(View()).entries + [Entry(Identity(ipaddr, hostname), 1)])
    {
      newEntry := new HostEntry(ipaddr, hostname, |registered|);
      registered, repr := registered + [newEntry], repr + {newEntry};
      assert View().entries == old(View().entries) + [newEntry.View()];
    }

    method OnProcessExit(pid: int)
      requires Valid()
      modifies this, repr
      ensures Valid() && repr == old(repr)
      ensures View() == Unregister(old(View()), pid)
    {
      if pid !in byPid {
        return;
      }
      var entry := byPid[pid];
      DropReference(entry);
      RemoveIfUnused(entry);
      ForgetPid(pid);
    }

    method ForgetPid(pid: int)
      requires Valid()
      modifies this`byPid
      ensures Valid()
      ensures View() == old(View()).(byPid := old(View()).byPid - {pid})
    {
      byPid := byPid - {pid};
      IdsAfterRemove(old(byPid), pid);
    }

    /** The last reference takes the address with it, if this is still the entry it points at. */
    method RemoveIfUnused(entry: HostEntry)
      requires Valid() && entry.id < |registered| && registered[entry.id] == entry
      modifies this`byAddr
      ensures Valid()
      ensures var a, m := entry.ipAddr, old(View()).byAddr;
              View() == if entry.processRefCount == 0 && a in m && m[a] == entry.id
                        then old(View()).(byAddr := m - {a}) else old(View())
    {
      if entry.processRefCount == 0 {
        if entry.ipAddr in byAddr && byAddr[entry.ipAddr] == entry {
          byAddr := byAddr - {entry.ipAddr};
          IdsAfterRemove(old(byAddr), entry.ipAddr);
        }
      }
    }

    method DropReference(entry: HostEntry)
      requires Valid() && entry.id < |registered| && registered[entry.id] == entry
      modifies entry
      ensures Valid() && entry.processRefCount == old(entry.processRefCount) - 1
      ensures View() == old(View()).(entries :=
                old(View()).entries[entry.id := Entry(old(entry.View()).who, old(entry.processRefCount) - 1)])
    {
      entry.processRefCount := entry.processRefCount - 1;
    }
  }

  /** Polls the process list and reports new and exited processes to the resolver. The ghost log
      records the polls; the state is always where that run leads. */
  class ProcessMonitor {
    var processes: set<int>
    var failingProcesses: map<int, int>
    const resolver: ProcFSIPResolver
    ghost var polls: seq<Poll>

    ghost predicate Valid()
      reads this, resolver, resolver.repr
    {
      && resolver.Valid()
      && LegalRun(polls)
      && Current() == WorldAfter(polls)
    }

    ghost function Current(): (w: World)
      requires resolver.Valid()
      reads this`processes, this`failingProcesses, resolver, resolver.repr
      ensures Sound(w.book)
    {
      World(processes, failingProcesses, resolver.View())
    }

    constructor ()
      ensures Valid() && polls == [] && fresh(resolver) && resolver.repr == {}
    {
      processes, failingProcesses, polls := {}, map[], [];
      resolver := new ProcFSIPResolver();
    }

    /** One scan of the process directory: its callbacks in order, and whether it then failed. */
    method Poll(visits: seq<Visit>, failed: bool) returns (ok: bool)
      requires Valid() && DistinctPids(visits)
      modifies this, resolver, resolver.repr
      ensures Valid() && ok == !failed
      ensures polls != [] && Before(polls) == old(polls)
      ensures Last(polls).visits == visits && Last(polls).failed == failed
      ensures fresh(resolver.repr - old(resolver.repr))
    {
      ghost var exits := Diff(visits, failed);
      ghost var poll := MonitorSpec.Poll(visits, failed, exits);
      ExtendRun(polls, poll);
      polls := polls + [poll];
      ok := !failed;
    }

    method Diff(visits: seq<Visit>, failed: bool) returns (ghost exits: seq<int>)
      requires resolver.Valid() && DistinctPids(visits)
      modifies this`processes, this`failingProcesses, resolver, resolver.repr
      ensures resolver.Valid() && fresh(resolver.repr - old(resolver.repr))
      ensures LegalPoll(old(Current()), MonitorSpec.Poll(visits, failed, exits))
      ensures Current() == AfterPoll(old(Current()), MonitorSpec.Poll(visits, failed, exits))
    {
      var processesSeenLastTime := processes;
      Scan(visits);
      exits := [];
      if !failed {
        exits := ReportExits(processesSeenLastTime - processes);
      }
    }

    method Scan(visits: seq<Visit>)
      requires resolver.Valid()
      modifies this`processes, this`failingProcesses, resolver, resolver.repr
      ensures resolver.Valid() && fresh(resolver.repr - old(resolver.repr))
      ensures Current() == Scanned(old(Current()), visits)
    {
      var processesSeenLastTime := processes;
      processes := {};
      ghost var start := Current();
      for n := 0 to |visits|
        invariant resolver.Valid() && fresh(resolver.repr - old(resolver.repr))
        invariant Current() == AfterVisits(start, processesSeenLastTime, visits[..n])
      {
        assert Before(visits[..n + 1]) == visits[..n] && Last(visits[..n + 1]) == visits[n];
        OnScanned(visits[n], processesSeenLastTime);
      }
      assert visits[..|visits|] == visits;
    }

    /** The callback for one scanned process. */
    method OnScanned(v: Visit, processesSeenLastTime: set<int>)
      requires resolver.Valid()
      modifies this`processes, this`failingProcesses, resolver, resolver.repr
      ensures resolver.Valid() && fresh(resolver.repr - old(resolver.repr))
      ensures Current() == AfterVisit(old(Current()), processesSeenLastTime, v)
    {
      if v.pid !in processesSeenLastTime {
        var retry := HandleNew(v);
        if retry {
          return;
        }
      }
      processes := processes + {v.pid};
    }

    /** Report a new process; on failure, say whether to try again next time. */
    method HandleNew(v: Visit) returns (retry: bool)
      requires resolver.Valid()
      modifies this`failingProcesses, resolver, resolver.repr
      ensures resolver.Valid() && fresh(resolver.repr - old(resolver.repr))
      ensures var w, failures := old(Current()), Failures(old(failingProcesses), v.pid);
              && retry == (v.found.None? && failures < MAX_RETRIES)
              && Current() == match v.found
                   case Some(who) => w.(book := Register(w.book, v.pid, who))
                   case None => w.(failing := if retry then w.failing[v.pid := failures + 1] else w.failing - {v.pid})
    {
      var accepted := resolver.OnProcessNew(v.pid, v.found);
      if accepted {
        return false;
      }
      retry := CountFailure(v.pid);
    }

    /** Count one more failure, or give the process up and forget its count. */
    method CountFailure(pid: int) returns (retry: bool)
      modifies this`failingProcesses
      ensures retry == (Failures(old(failingProcesses), pid) < MAX_RETRIES)
      ensures failingProcesses == if retry then old(failingProcesses)[pid := Failures(old(failingProcesses), pid) + 1]
                                  else old(failingProcesses) - {pid}
    {
      var failures := 0;
      if pid in failingProcesses {
        failures := failingProcesses[pid];
      }
      failures := failures + 1;
      if failures <= MAX_RETRIES {
        failingProcesses := failingProcesses[pid := failures];
        return true;
      }
      failingProcesses := failingProcesses - {pid};
      return false;
    }

    method ReportExits(exitedProcesses: set<int>) returns (ghost exits: seq<int>)
      requires resolver.Valid()
      modifies resolver, resolver.repr
      ensures resolver.Valid() && resolver.repr == old(resolver.repr)
      ensures NoRepeats(exits) && Members(exits) == exitedProcesses
      ensures resolver.View() == AfterExits(old(resolver.View()), exits)
    {
      exits := [];
      var remaining := exitedProcesses;
      while |remaining| > 0
        invariant resolver.Valid() && resolver.repr == old(resolver.repr)
        invariant remaining <= exitedProcesses && Members(exits) == exitedProcesses - remaining
        invariant NoRepeats(exits)
        invariant resolver.View() == AfterExits(old(resolver.View()), exits)
      {
        assert exists p :: p in remaining by {
          var p := Pick(remaining);
        }
        var pid :| pid in remaining;
        assert pid !in Members(exits);
        AppendMember(exits, pid);
        assert Before(exits + [pid]) == exits;
        resolver.OnProcessExit(pid);
        remaining := remaining - {pid};
        exits := exits + [pid];
      }
    }
  }

  lemma AppendMember<T>(s: seq<T>, x: T)
    requires NoRepeats(s) && x !in Members(s)
    ensures NoRepeats(s + [x]) && Members(s + [x]) == Members(s) + {x}
  {
  }
}
