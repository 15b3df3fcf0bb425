/**
 The reference-counted IP resolver as a value.

 The two maps of the resolver share heap entries; an entry is identified here by its position
 in `entries`, where it stays for ever. Two entries may carry the same address and hostname
 and still be different: which one the address map points at decides when it is removed.
 */
module ResolverSpec {
  import opened Basics

  /** What the process files of one pid say it is. */
  datatype Identity = Identity(addr: string, host: string)

  datatype Entry = Entry(who: Identity, refs: int)

  datatype Book = Book(entries: seq<Entry>, byAddr: map<string, nat>, byPid: map<int, nat>)

  const EMPTY := Book([], map[], map[])

  /** Both maps point at entries, and an address at an entry of that address. */
  ghost predicate Sound(b: Book) {
    && (forall a | a in b.byAddr :: b.byAddr[a] < |b.entries| && b.entries[b.byAddr[a]].who.addr == a)
    && (forall p | p in b.byPid :: b.byPid[p] < |b.entries|)
  }

  /** A new process of a known identity joins its entry; any other gets an entry of its own,
      which takes over the address. */
  function Register(b: Book, pid: int, who: Identity): Book
    requires Sound(b)
  {
    if who.addr in b.byAddr && b.entries[b.byAddr[who.addr]].who.host == who.host then
      var i := b.byAddr[who.addr];
      b.(entries := b.entries[i := b.entries[i].(refs := b.entries[i].refs + 1)], byPid := b.byPid[pid := i])
    else
      Book(b.entries + [Entry(who, 1)], b.byAddr[who.addr := |b.entries|], b.byPid[pid := |b.entries|])
  }

  /** The entry of an exiting process loses a reference; the last one takes the address with it,
      if the address still points at this entry. */
  function Unregister(b: Book, pid: int): Book
    requires Sound(b)
  {
    if pid !in b.byPid then b
    else
      var i := b.byPid[pid];
      var e := b.entries[i].(refs := b.entries[i].refs - 1);
      var a := e.who.addr;
      Book(b.entries[i := e],
           if e.refs == 0 && a in b.byAddr && b.byAddr[a] == i then b.byAddr - {a} else b.byAddr,
           b.byPid - {pid})
  }

  function Resolve(b: Book, addr: string): Option<string>
    requires Sound(b)
  {
    if addr in b.byAddr then Some(b.entries[b.byAddr[addr]].who.host) else None
  }

  /** The identity under which a tracked process was registered. */
  ghost function IdentityOf(b: Book, pid: int): Identity
    requires Sound(b) && pid in b.byPid
  {
    b.entries[b.byPid[pid]].who
  }

  /** The processes mapped to entry `i`. */
  ghost function Users(byPid: map<int, nat>, i: nat): set<int> {
    set p | p in byPid && byPid[p] == i
  }

  /** No entry has fewer references than processes mapped to it, and the address map holds only
      entries with a reference. */
  ghost predicate NeverBelow(b: Book) {
    && Sound(b)
    && (forall i: nat | i < |b.entries| :: |Users(b.byPid, i)| <= b.entries[i].refs)
    && (forall a | a in b.byAddr :: 1 <= b.entries[b.byAddr[a]].refs)
  }

  /** Every entry has exactly as many references as processes mapped to it. */
  ghost predicate Exact(b: Book) {
    && NeverBelow(b)
    && (forall i: nat | i < |b.entries| :: |Users(b.byPid, i)| == b.entries[i].refs)
  }

  // ----- Counting users -----

  lemma UsersAfterMapping(byPid: map<int, nat>, pid: int, i: nat, j: nat)
    ensures var after := |Users(byPid[pid := i], j)|;
            var before := |Users(byPid, j)|;
            && (j != i ==> after <= before)
            && (j == i ==> after <= before + 1)
            && (pid !in byPid ==> after == before + if i == j then 1 else 0)
  {
    var before, after := Users(byPid, j), Users(byPid[pid := i], j);
    if j == i {
      assert after == before + {pid};
    } else {
      assert after == before - {pid};
    }
  }

  lemma UsersAfterUnmapping(byPid: map<int, nat>, pid: int, j: nat)
    requires pid in byPid
    ensures |Users(byPid - {pid}, j)| == |Users(byPid, j)| - if byPid[pid] == j then 1 else 0
  {
    var before, after := Users(byPid, j), Users(byPid - {pid}, j);
    if byPid[pid] == j {
      assert before == after + {pid};
    } else {
      assert before == after;
    }
  }

  lemma NoUsers(b: Book, i: nat)
    requires Sound(b) && |b.entries| <= i
    ensures Users(b.byPid, i) == {}
  {
    assert forall p | p in b.byPid :: b.byPid[p] != i;
  }

  // ----- What one call keeps -----

  lemma RegisterKeepsCounts(b: Book, pid: int, who: Identity)
    requires NeverBelow(b)
    ensures NeverBelow(Register(b, pid, who))
    ensures Exact(b) && pid !in b.byPid ==> Exact(Register(b, pid, who))
  {
    var b' := Register(b, pid, who);
    var i := b'.byPid[pid];
    NoUsers(b, |b.entries|);
    forall j: nat | j < |b'.entries|
      ensures |Users(b'.byPid, j)| <= b'.entries[j].refs
      ensures Exact(b) && pid !in b.byPid ==> |Users(b'.byPid, j)| == b'.entries[j].refs
    {
      UsersAfterMapping(b.byPid, pid, i, j);
    }
  }

  lemma UnregisterKeepsCounts(b: Book, pid: int)
    requires NeverBelow(b)
    ensures NeverBelow(Unregister(b, pid))
    ensures Exact(b) ==> Exact(Unregister(b, pid))
  {
    if pid in b.byPid {
      var b' := Unregister(b, pid);
      var i := b.byPid[pid];
      assert pid in Users(b.byPid, i);
      forall j: nat | j < |b'.entries|
        ensures |Users(b'.byPid, j)| <= b'.entries[j].refs
        ensures Exact(b) ==> |Users(b'.byPid, j)| == b'.entries[j].refs
      {
        UsersAfterUnmapping(b.byPid, pid, j);
      }
      forall a | a in b'.byAddr ensures 1 <= b'.entries[b'.byAddr[a]].refs {
        assert a in b.byAddr && b.entries[b.byAddr[a]].who.addr == a;
      }
    }
  }

  /** An entry with a reference too many keeps it, whatever is registered. */
  lemma RegisterKeepsSurplus(b: Book, pid: int, who: Identity, j: nat)
    requires NeverBelow(b) && j < |b.entries| && |Users(b.byPid, j)| < b.entries[j].refs
    ensures var b' := Register(b, pid, who); |Users(b'.byPid, j)| < b'.entries[j].refs
  {
    UsersAfterMapping(b.byPid, pid, Register(b, pid, who).byPid[pid], j);
  }

  /** Mapping a process that is mapped already leaves a reference that nobody will give back. */
  lemma RemappingAddsSurplus(b: Book, pid: int, who: Identity)
    requires NeverBelow(b) && pid in b.byPid
    ensures var b' := Register(b, pid, who); |Users(b'.byPid, b.byPid[pid])| < b'.entries[b.byPid[pid]].refs
  {
    var b' := Register(b, pid, who);
    var i, j := b'.byPid[pid], b.byPid[pid];
    if i == j {
      assert b.byPid[pid := i] == b.byPid;
    } else {
      assert Users(b.byPid, j) == Users(b'.byPid, j) + {pid};
    }
  }

  /** A registration keeps the counts exact exactly if the process was not mapped. */
  lemma RegisterKeepsExactIff(b: Book, pid: int, who: Identity)
    requires NeverBelow(b)
    ensures Exact(Register(b, pid, who)) <==> Exact(b) && pid !in b.byPid
  {
    RegisterKeepsCounts(b, pid, who);
    if pid in b.byPid {
      RemappingAddsSurplus(b, pid, who);
    } else if !Exact(b) {
      var j: nat :| j < |b.entries| && |Users(b.byPid, j)| != b.entries[j].refs;
      RegisterKeepsSurplus(b, pid, who, j);
    }
  }

  /** An exit neither makes nor mends a surplus. */
  lemma UnregisterKeepsExactIff(b: Book, pid: int)
    requires NeverBelow(b)
    ensures Exact(Unregister(b, pid)) <==> Exact(b)
  {
    UnregisterKeepsCounts(b, pid);
    if pid in b.byPid && !Exact(b) {
      var j: nat :| j < |b.entries| && |Users(b.byPid, j)| != b.entries[j].refs;
      UsersAfterUnmapping(b.byPid, pid, j);
      assert |Users(Unregister(b, pid).byPid, j)| != Unregister(b, pid).entries[j].refs;
    }
  }

  /** An address is only given up together with the last process mapped to its entry. */
  lemma DroppedOnlyWhenUnused(b: Book, pid: int, a: string)
    requires NeverBelow(b) && a in b.byAddr && a !in Unregister(b, pid).byAddr
    ensures Users(Unregister(b, pid).byPid, b.byAddr[a]) == {}
  {
    UsersAfterUnmapping(b.byPid, pid, b.byAddr[a]);
  }
}
