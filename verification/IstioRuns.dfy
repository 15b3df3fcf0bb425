/**
 Histories of the Istio watcher: which metrics are new, and which connections it holds between two
 reports.
 */
module IstioRuns {
  import opened Basics

  datatype Metric = Metric(name: string, value: int)

  /** A metric is seen, and says of a connection what its name spells out; or the watcher is flushed. */
  datatype Event<C> = Seen(metric: Metric, built: Option<C>, at: int) | Flushed

  ghost predicate IsSeen<C>(e: Event, name: string) {
    e.Seen? && e.metric.name == name
  }

  ghost function LastValue<C>(h: seq<Event<C>>, name: string): Option<int> {
    if h == [] then None
    else if IsSeen(Last(h), name) then Some(Last(h).metric.value)
    else LastValue(Before(h), name)
  }

  /** A metric is new if its value is not the one it last had, ever. */
  ghost predicate IsNew<C>(h: seq<Event<C>>, m: Metric) {
    LastValue(h, m.name) != Some(m.value)
  }

  /** What one event reports. */
  ghost function Reported<C>(h: seq<Event<C>>, e: Event<C>): Option<C> {
    if e.Seen? && IsNew(h, e.metric) then e.built else None
  }

  /** The connections held after the history, with the time of their latest report. */
  ghost function Pending<C>(h: seq<Event<C>>): map<C, int> {
    if h == [] || Last(h).Flushed? then map[]
    else
      var c := Reported(Before(h), Last(h));
      if c.Some? then Pending(Before(h))[c.value := Last(h).at] else Pending(Before(h))
  }

  lemma NextSeen<C>(h: seq<Event<C>>, m: Metric, built: Option<C>, at: int)
    ensures var g := h + [Seen(m, built, at)];
            && Before(g) == h
            && Pending(g) == (if IsNew(h, m) && built.Some? then Pending(h)[built.value := at] else Pending(h))
            && forall name :: LastValue(g, name) == if name == m.name then Some(m.value) else LastValue(h, name)
  {
    assert Before(h + [Seen(m, built, at)]) == h;
  }

  /** Event `i` is the last one that sees the metric. */
  ghost predicate SeenLast<C>(h: seq<Event<C>>, i: nat, name: string) {
    i < |h| && IsSeen(h[i], name) && forall j | i < j < |h| :: !IsSeen(h[j], name)
  }

  /** The remembered value is that of the last time the metric was seen; flushing forgets none. */
  lemma {:induction false} LastValueIsLatest<C>(h: seq<Event<C>>, name: string)
    ensures LastValue(h, name).None? <==> forall i | 0 <= i < |h| :: !IsSeen(h[i], name)
    ensures forall i: nat | SeenLast(h, i, name) :: LastValue(h, name) == Some(h[i].metric.value)
  {
    if h != [] {
      LastValueIsLatest(Before(h), name);
      if !IsSeen(Last(h), name) {
        forall i: nat | SeenLast(h, i, name) ensures LastValue(h, name) == Some(h[i].metric.value) {
          assert SeenLast(Before(h), i, name);
        }
        assert forall i | 0 <= i < |h| - 1 :: Before(h)[i] == h[i];
      }
    }
  }

  lemma SeenHasLast<C>(h: seq<Event<C>>, name: string)
    requires exists i | 0 <= i < |h| :: IsSeen(h[i], name)
    ensures exists i: nat :: SeenLast(h, i, name)
  {
    if IsSeen(Last(h), name) {
      assert SeenLast(h, |h| - 1, name);
    } else {
      SeenHasLast(Before(h), name);
      var i: nat :| SeenLast(Before(h), i, name);
      assert SeenLast(h, i, name);
    }
  }

  /** A sighting reports the connection its name spells out exactly if the metric had another value the
      last time it was seen, or was never seen. */
  lemma {:induction false} ReportedExactly<C>(h: seq<Event<C>>, m: Metric, built: Option<C>, at: int)
    ensures Reported(h, Flushed).None?
    ensures Reported(h, Seen(m, built, at)) ==
            if (exists i: nat | SeenLast(h, i, m.name) :: h[i].metric == m) then None else built
  {
    LastValueIsLatest(h, m.name);
    if LastValue(h, m.name).Some? {
      SeenHasLast(h, m.name);
    }
  }

  /** Event `i` reports the connection, and since then it was neither flushed nor reported again. */
  ghost predicate LatestReport<C>(h: seq<Event<C>>, i: nat, c: C) {
    && i < |h|
    && Reported(h[..i], h[i]) == Some(c)
    && forall j | i < j < |h| :: h[j].Seen? && Reported(h[..j], h[j]) != Some(c)
  }

  lemma LatestReportBefore<C>(h: seq<Event<C>>, i: nat, c: C)
    requires i < |h| - 1
    ensures LatestReport(h, i, c) <==>
            LatestReport(Before(h), i, c) && Last(h).Seen? && Reported(Before(h), Last(h)) != Some(c)
  {
    var g, n := Before(h), |h| - 1;
    assert h[..n] == g;
    assert forall j | 0 <= j < n :: g[j] == h[j] && g[..j] == h[..j];
    if LatestReport(g, i, c) && Last(h).Seen? && Reported(g, Last(h)) != Some(c) {
      forall j | i < j < |h| ensures h[j].Seen? && Reported(h[..j], h[j]) != Some(c) {
        assert j < n ==> g[j].Seen? && Reported(g[..j], g[j]) != Some(c);
      }
    }
  }

  /** Held are exactly the connections reported since the last flush, each with the time of its
      latest report. */
  lemma {:induction false} PendingExactly<C>(h: seq<Event<C>>, c: C)
    ensures c in Pending(h) <==> exists i: nat :: LatestReport(h, i, c)
    ensures forall i: nat | LatestReport(h, i, c) :: c in Pending(h) && Pending(h)[c] == h[i].at
  {
    if h != [] {
      var n := |h| - 1;
      PendingExactly(Before(h), c);
      assert h[..n] == Before(h) && h[n] == Last(h);
      forall i: nat | LatestReport(h, i, c) ensures c in Pending(h) && Pending(h)[c] == h[i].at {
        if i < n {
          LatestReportBefore(h, i, c);
        }
      }
      if c in Pending(h) {
        PendingHasReport(h, c);
      }
    }
  }

  lemma PendingHasReport<C>(h: seq<Event<C>>, c: C)
    requires h != [] && c in Pending(h)
    requires c in Pending(Before(h)) ==> exists i: nat :: LatestReport(Before(h), i, c)
    ensures exists i: nat :: LatestReport(h, i, c)
  {
    if Reported(Before(h), Last(h)) == Some(c) {
      assert h[..|h| - 1] == Before(h);
      assert LatestReport(h, |h| - 1, c);
    } else {
      var i: nat :| LatestReport(Before(h), i, c);
      LatestReportBefore(h, i, c);
    }
  }

  /** A window in which every metric still has its old value reports nothing, although the watcher
      was flushed in between. */
  lemma {:induction false} UnchangedMetricsStayQuiet<C>(h: seq<Event<C>>, w: seq<Event<C>>)
    requires forall e | e in w :: e.Seen? && LastValue(h, e.metric.name) == Some(e.metric.value)
    ensures Pending(h + [Flushed] + w) == map[]
    ensures forall name :: LastValue(h + [Flushed] + w, name) == LastValue(h, name)
  {
    var g := h + [Flushed] + w;
    if w == [] {
      assert g == h + [Flushed] && Before(g) == h;
    } else {
      assert Last(w) in w && forall e | e in Before(w) :: e in w;
      UnchangedMetricsStayQuiet(h, Before(w));
      assert Before(g) == h + [Flushed] + Before(w) && Last(g) == Last(w);
    }
  }
}
