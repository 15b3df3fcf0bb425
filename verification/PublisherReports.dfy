/**
 Which of the addresses that a round resolves itself it also publishes, and when a round reports an
 update, from the client, the cache and the resolver alone. Time stands still throughout.
 */
module PublisherReports {
  import opened Basics
  import opened PublisherSpec

  /** The cache knows nothing of a plain name, and the resolver does. */
  ghost predicate Missed(c: Cache, r: Resolver, name: string) {
    !IsWildcard(name) && Answer(c, name) == {} && name in r
  }

  /** The name is asked for again after its first turn. */
  ghost predicate Twice(names: seq<string>, name: string) {
    exists i :: 0 <= i < |names| && names[i] == name && name in names[..i]
  }

  lemma TwiceMore(names: seq<string>, name: string)
    requires names != []
    ensures Twice(names, name) <==> Twice(Before(names), name) || (Last(names) == name && name in Before(names))
  {
    var n := |names| - 1;
    assert forall i | 0 <= i < n :: Before(names)[i] == names[i] && Before(names)[..i] == names[..i];
    if Twice(Before(names), name) {
      var i :| 0 <= i < n && Before(names)[i] == name && name in Before(names)[..i];
      assert names[i] == name && name in names[..i];
    }
    if Last(names) == name && name in Before(names) {
      assert names[n] == name && names[..n] == Before(names);
    }
  }

  // ----- The cache and the addresses in the course of a round -----

  lemma AnswerAfter(c: Cache, r: Resolver, asked: string, name: string)
    requires !IsWildcard(name)
    ensures Answer(CacheAfter(c, r, asked), name) ==
            if asked == name && Missed(c, r, name) then r[name] else Answer(c, name)
  {
    var d, a := CacheAfter(c, r, asked), Answer(CacheAfter(c, r, asked), name);
    assert c <= d;
    forall ip ensures ip in a <==> (name, ip) in d {
    }
    forall ip ensures ip in Answer(c, name) <==> (name, ip) in c {
    }
    if asked == name && Missed(c, r, name) {
      assert forall ip :: (name, ip) in d <==> ip in r[name];
      assert a == r[name];
    } else {
      assert forall ip :: (name, ip) in d <==> (name, ip) in c;
      assert a == Answer(c, name);
    }
  }

  /** Of a plain name, the cache has learnt what the resolver says if the name was missed. */
  lemma {:induction false} AnswerAfterNames(c: Cache, r: Resolver, names: seq<string>, name: string)
    requires !IsWildcard(name)
    ensures Answer(CacheAfterNames(c, r, names), name)
         == if name in names && Missed(c, r, name) then r[name] else Answer(c, name)
  {
    if names != [] {
      Rejoin(names);
      AnswerAfterNames(c, r, Before(names), name);
      AnswerAfter(CacheAfterNames(c, r, Before(names)), r, Last(names), name);
    }
  }

  /** The map of addresses after the turns of these names. */
  ghost function Turned(c: Cache, r: Resolver, m: Published, names: seq<string>): Progress {
    AfterNames(m, names, OutcomesOf(c, r, names))
  }

  lemma TurnedNext(c: Cache, r: Resolver, m: Published, names: seq<string>)
    requires names != []
    ensures var p, o := Turned(c, r, m, Before(names)), OutcomeOf(CacheAfterNames(c, r, Before(names)), r, Last(names));
            var q := AfterName(p.published, Last(names), o);
            Turned(c, r, m, names) == Progress(q.published, p.found || q.found)
  {
    assert Before(OutcomesOf(c, r, names)) == OutcomesOf(c, r, Before(names));
  }

  /** What becomes of a missed name: its set is extended in place if it has one; otherwise its addresses
      are lost until a later turn finds them in the cache. */
  lemma {:induction false} MissedName(c: Cache, r: Resolver, m: Published, names: seq<string>, name: string)
    requires Missed(c, r, name) && r[name] != {}
    ensures At(Turned(c, r, m, names).published, name) ==
              if name !in names then At(m, name)
              else if name in m then Some(m[name] + r[name])
              else if Twice(names, name) then Some(r[name]) else None
  {
    if names == [] {
      return;
    }
    var before, last := Before(names), Last(names);
    Rejoin(names);
    TwiceMore(names, name);
    TurnedNext(c, r, m, names);
    MissedName(c, r, m, before, name);
    AnswerAfterNames(c, r, before, name);
    TwiceIsListed(before, name);
    var own := r[name];
    assert own + own == own == {} + own && (Under(m, name) + own) + own == Under(m, name) + own;
    MissedTurn(Turned(c, r, m, before).published, last, OutcomeOf(CacheAfterNames(c, r, before), r, last), name);
  }

  /** One turn of the name itself, or of another one. */
  lemma MissedTurn(p: Published, last: string, o: Outcome, name: string)
    requires !IsWildcard(name)
    ensures At(AfterName(p, last, o).published, name) ==
              if last != name then At(p, name)
              else if o.cached != {} then Some(Under(p, name) + o.cached)
              else if name in p && o.own.Some? then Some(p[name] + o.own.value)
              else At(p, name)
  {
    if last == name && o.cached != {} && o.cached <= Under(p, name) {
      assert Under(p, name) + o.cached == p[name];
    }
  }

  lemma TwiceIsListed(names: seq<string>, name: string)
    ensures Twice(names, name) ==> name in names
  {
  }

  /** An address of this name is new at turn `i`: something cached that is not published, or, of a missed
      name that is not published, what its first turn has put into the cache. */
  ghost predicate Finds(c: Cache, r: Resolver, m: Published, names: seq<string>, i: int)
    requires 0 <= i < |names|
  {
    var name := names[i];
    if IsWildcard(name) then !(Answer(CacheAfterNames(c, r, names[..i]), name) <= Under(m, name))
    else if Answer(c, name) != {} then !(Answer(c, name) <= Under(m, name))
    else name !in m && name in names[..i] && name in r && r[name] != {}
  }

  /** Until something is found, sets only gain what the resolver says of missed names. */
  lemma {:induction false} UnlessFound(c: Cache, r: Resolver, m: Published, names: seq<string>)
    requires !Turned(c, r, m, names).found
    ensures var p := Turned(c, r, m, names).published;
            && p.Keys == m.Keys
            && forall n | n in m :: p[n] == if n in names && Missed(c, r, n) then m[n] + r[n] else m[n]
  {
    if names != [] {
      TurnedNext(c, r, m, names);
      UnlessFound(c, r, m, Before(names));
      Rejoin(names);
      if !IsWildcard(Last(names)) {
        AnswerAfterNames(c, r, Before(names), Last(names));
      }
    }
  }

  /** The last turn is the first to find something exactly if it does so from the status alone. */
  lemma LastFinds(c: Cache, r: Resolver, m: Published, names: seq<string>)
    requires names != [] && !Turned(c, r, m, Before(names)).found
    ensures Turned(c, r, m, names).found <==> Finds(c, r, m, names, |names| - 1)
  {
    var before, name := Before(names), Last(names);
    TurnedNext(c, r, m, names);
    UnlessFound(c, r, m, before);
    assert names[..|names| - 1] == before && names[|names| - 1] == name;
    if !IsWildcard(name) {
      AnswerAfterNames(c, r, before, name);
    }
  }

  ghost predicate FindsSome(c: Cache, r: Resolver, m: Published, names: seq<string>) {
    exists i :: 0 <= i < |names| && Finds(c, r, m, names, i)
  }

  lemma FindsEarlier(c: Cache, r: Resolver, m: Published, names: seq<string>, i: int)
    requires 0 <= i < |names| - 1
    ensures Finds(c, r, m, Before(names), i) <==> Finds(c, r, m, names, i)
  {
    assert Before(names)[i] == names[i] && Before(names)[..i] == names[..i];
  }

  lemma FindsSomeMore(c: Cache, r: Resolver, m: Published, names: seq<string>)
    requires names != []
    ensures FindsSome(c, r, m, names) <==> FindsSome(c, r, m, Before(names)) || Finds(c, r, m, names, |names| - 1)
  {
    if FindsSome(c, r, m, Before(names)) {
      var i :| 0 <= i < |names| - 1 && Finds(c, r, m, Before(names), i);
      FindsEarlier(c, r, m, names, i);
    }
    if FindsSome(c, r, m, names) {
      var i :| 0 <= i < |names| && Finds(c, r, m, names, i);
      if i < |names| - 1 {
        FindsEarlier(c, r, m, names, i);
      }
    }
  }

  lemma {:induction false} FoundIff(c: Cache, r: Resolver, m: Published, names: seq<string>)
    ensures Turned(c, r, m, names).found <==> FindsSome(c, r, m, names)
  {
    if names != [] {
      FoundIff(c, r, m, Before(names));
      TurnedNext(c, r, m, names);
      FindsSomeMore(c, r, m, names);
      if !Turned(c, r, m, Before(names)).found {
        LastFinds(c, r, m, names);
      }
    }
  }

  // ----- Main results -----

  /** A round reports an update exactly if a published name is no longer asked for, or some turn finds an
      address that the status lacks. */
  lemma ReportsIff(c: Cache, r: Resolver, x: Client)
    ensures Reports(c, r, x) <==>
            (exists n :: n in x.status && n !in x.names) || FindsSome(c, r, x.status, x.names)
  {
    FoundIff(c, r, x.status, x.names);
    var p := Turned(c, r, x.status, x.names).published;
    NamesOnlyGrow(x.status, x.names, OutcomesOf(c, r, x.names));
    if n :| n in x.status && n !in x.names {
      assert n in p && n !in Requested(p, x.names);
    } else {
      assert Requested(p, x.names) == p;
    }
  }

  /** What a round resolves itself, of a name the cache knew nothing of, it publishes exactly if that was
      published before, or the name had addresses and the round reports for whatever reason, or the name had
      none and is asked for twice. */
  lemma OwnAnswerIsPublishedIff(c: Cache, r: Resolver, x: Client, name: string)
    requires name in x.names && Missed(c, r, name) && r[name] != {}
    ensures r[name] <= Under(ClientAfter(c, r, x).status, name) <==>
            if name in x.status then r[name] <= x.status[name] || Reports(c, r, x) else Twice(x.names, name)
  {
    MissedName(c, r, x.status, x.names, name);
    if name !in x.status && Twice(x.names, name) {
      var i :| 0 <= i < |x.names| && x.names[i] == name && name in x.names[..i];
      assert Finds(c, r, x.status, x.names, i);
      ReportsIff(c, r, x);
    }
  }

  /** In any case the next round publishes it, and reports if this one did not publish it. */
  lemma MissIsPublishedNextRound(c: Cache, r: Resolver, x: Client, name: string)
    requires name in x.names && Missed(c, r, name) && r[name] != {}
    ensures var y, d := ClientAfter(c, r, x), CacheAfterNames(c, r, x.names);
            && (!(r[name] <= Under(y.status, name)) ==> Reports(d, r, y))
            && r[name] <= Under(ClientAfter(d, r, y).status, name)
  {
    var y, d := ClientAfter(c, r, x), CacheAfterNames(c, r, x.names);
    AnswerAfterNames(c, r, x.names, name);
    NamesBecomeStable(c, r, x.names);
    StableSettles(d, r, y);
    if !(r[name] <= Under(y.status, name)) {
      var i :| 0 <= i < |y.names| && y.names[i] == name;
      assert Finds(d, r, y.status, y.names, i);
      ReportsIff(d, r, y);
    }
  }

  /** So both rounds can be needed: of a plain name nobody has looked up, the first round finds the
      addresses and reports nothing; the second finds them in the cache and reports them. */
  lemma MissIsReportedNextRound(c: Cache, r: Resolver, name: string)
    requires !IsWildcard(name) && Answer(c, name) == {} && name in r && r[name] != {}
    ensures var x := Client([name], map[]);
            && !Reports(c, r, x) && ClientAfter(c, r, x) == x
            && Reports(CacheAfterNames(c, r, [name]), r, x)
  {
    var x := Client([name], map[]);
    ReportsIff(c, r, x);
    MissIsPublishedNextRound(c, r, x, name);
  }

  /** But a name that is asked for twice is reported by the round that resolves it, */
  lemma RepeatedMissIsReportedAtOnce(c: Cache, r: Resolver, name: string)
    requires Missed(c, r, name) && r[name] != {}
    ensures var x := Client([name, name], map[]);
            Reports(c, r, x) && r[name] <= Under(ClientAfter(c, r, x).status, name)
  {
    var x := Client([name, name], map[]);
    assert x.names[1] == name && x.names[..1] == [name];
    assert Finds(c, r, x.status, x.names, 1);
    ReportsIff(c, r, x);
    OwnAnswerIsPublishedIff(c, r, x, name);
  }

  /** and addresses of a known name are published with those of another. */
  lemma KnownMissIsPublishedBesideAnother(c: Cache, r: Resolver, name: string, other: string, known: set<string>)
    requires Missed(c, r, name) && r[name] != {} && !IsWildcard(other) && other != name && Answer(c, other) != {}
    ensures var x := Client([name, other], map[name := known]);
            Reports(c, r, x) && r[name] <= Under(ClientAfter(c, r, x).status, name)
  {
    var x := Client([name, other], map[name := known]);
    assert x.names[1] == other;
    assert Finds(c, r, x.status, x.names, 1);
    ReportsIff(c, r, x);
    OwnAnswerIsPublishedIff(c, r, x, name);
  }
}
