/**
 The two sniffers over one resolver: a refresh of either polls the processes for both, and a report
 settles what is pending before it collects.
 */
module SnifferLoop {
  import opened Basics
  import opened MonitorSpec
  import opened IpResolver
  import opened CaptureSpec
  import opened CaptureRuns
  import opened Sniffers

  /** One scan of the process directory: what it visits, and whether it fails. */
  datatype Scan = Scan(visits: seq<Visit>, failed: bool)

  /** What a report adds to the log of a sniffer, on AWS. */
  ghost function Flushed(steps: seq<Step>, first: Step, second: Step): seq<Step> {
    steps + [first] + [second] + [Collect]
  }

  /** A report whose refresh succeeds leaves nothing waiting: over the whole run every capture that was
      resolved has then been accepted or discarded, once. */
  lemma NothingWaitsAfterReport(keepsUnresolved: bool, steps: seq<Step>, p: Poll, other: Poll, otherFirst: bool)
    requires !p.failed
    ensures var all := if otherFirst then Flushed(steps, OtherRefresh(other), Refresh(p))
                       else Flushed(steps, Refresh(p), OtherRefresh(other));
            AllResolved(all) == AllAccepted(keepsUnresolved, all) + AllDiscarded(keepsUnresolved, all)
  {
    var one := if otherFirst then steps + [OtherRefresh(other)] else steps + [Refresh(p)];
    var two := one + [if otherFirst then Refresh(p) else OtherRefresh(other)];
    var all := two + [Collect];
    assert Before(all) == two && Before(two) == one && Before(one) == steps;
    NothingLostOrRepeated(keepsUnresolved, all);
    assert SnifferAfter(keepsUnresolved, two).pending == [];
  }

  class Sniffer {
    const dnsSniffer: DNSSniffer
    const tcpSniffer: TCPSniffer

    /** Both logs account for the same polls of the one resolver. */
    ghost predicate Valid()
      reads this, dnsSniffer, dnsSniffer.collector, tcpSniffer, tcpSniffer.collector
      reads dnsSniffer.monitor, dnsSniffer.monitor.resolver, dnsSniffer.monitor.resolver.repr
    {
      && tcpSniffer.monitor == dnsSniffer.monitor && tcpSniffer.collector != dnsSniffer.collector
      && tcpSniffer.isRunningOnAWS == dnsSniffer.isRunningOnAWS
      && dnsSniffer.Valid() && tcpSniffer.Valid()
    }

    /** The poll of this scan, which off AWS is not carried out. */
    ghost function LastPoll(scan: Scan): Poll
      reads dnsSniffer.monitor
    {
      if dnsSniffer.isRunningOnAWS && dnsSniffer.monitor.polls != [] then Last(dnsSniffer.monitor.polls)
      else Poll(scan.visits, scan.failed, [])
    }

    constructor (isRunningOnAWS: bool)
      ensures Valid() && dnsSniffer.isRunningOnAWS == isRunningOnAWS
      ensures dnsSniffer.steps == [] && tcpSniffer.steps == []
    {
      var procFSIPResolver := new ProcessMonitor();
      dnsSniffer := new DNSSniffer(procFSIPResolver, isRunningOnAWS);
      tcpSniffer := new TCPSniffer(procFSIPResolver, isRunningOnAWS);
    }

    method HandleDNSPacket(enabled: bool, packet: DnsPacket)
      requires Valid()
      modifies dnsSniffer, dnsSniffer.collector
      ensures Valid() && dnsSniffer.monitor.polls == old(dnsSniffer.monitor.polls)
      ensures dnsSniffer.steps == if enabled && packet.answered
                                  then old(dnsSniffer.steps) + [Packet(DnsSightings(packet, |packet.answers|))]
                                  else old(dnsSniffer.steps)
    {
      dnsSniffer.HandlePacket(enabled, packet);
      Rejoined(dnsSniffer.steps);
    }

    method HandleTCPPacket(enabled: bool, packet: Option<TcpPacket>)
      requires Valid()
      modifies tcpSniffer, tcpSniffer.collector
      ensures Valid() && dnsSniffer.monitor.polls == old(dnsSniffer.monitor.polls)
      ensures tcpSniffer.steps ==
              if enabled && packet.Some? then old(tcpSniffer.steps) + [Packet([TcpSighting(packet.value)])]
                                  else old(tcpSniffer.steps)
    {
      tcpSniffer.HandlePacket(enabled, packet);
      Rejoined(tcpSniffer.steps);
    }

    method RefreshDNS(scan: Scan) returns (ok: bool)
      requires Valid() && DistinctPids(scan.visits)
      modifies dnsSniffer, dnsSniffer.collector, tcpSniffer`steps
      modifies dnsSniffer.monitor, dnsSniffer.monitor.resolver, dnsSniffer.monitor.resolver.repr
      ensures Valid() && fresh(dnsSniffer.monitor.resolver.repr - old(dnsSniffer.monitor.resolver.repr))
      ensures ok == (dnsSniffer.isRunningOnAWS ==> !scan.failed)
      ensures !dnsSniffer.isRunningOnAWS ==>
              dnsSniffer.steps == old(dnsSniffer.steps) && tcpSniffer.steps == old(tcpSniffer.steps)
      ensures dnsSniffer.isRunningOnAWS ==>
                var polls := dnsSniffer.monitor.polls;
                && polls != [] && Last(polls).visits == scan.visits && Last(polls).failed == scan.failed
                && dnsSniffer.steps == old(dnsSniffer.steps) + [Refresh(Last(polls))]
                && tcpSniffer.steps == old(tcpSniffer.steps) + [OtherRefresh(Last(polls))]
    {
      ok := dnsSniffer.RefreshHostsMapping(scan.visits, scan.failed);
      if dnsSniffer.isRunningOnAWS {
        RefreshIsLastPoll(dnsSniffer.steps);
        tcpSniffer.SeeOtherRefresh();
        Rejoin(tcpSniffer.steps);
      }
    }

    method RefreshTCP(scan: Scan) returns (ok: bool)
      requires Valid() && DistinctPids(scan.visits)
      modifies tcpSniffer, tcpSniffer.collector, dnsSniffer`steps
      modifies dnsSniffer.monitor, dnsSniffer.monitor.resolver, dnsSniffer.monitor.resolver.repr
      ensures Valid() && fresh(dnsSniffer.monitor.resolver.repr - old(dnsSniffer.monitor.resolver.repr))
      ensures ok == (dnsSniffer.isRunningOnAWS ==> !scan.failed)
      ensures !dnsSniffer.isRunningOnAWS ==>
              dnsSniffer.steps == old(dnsSniffer.steps) && tcpSniffer.steps == old(tcpSniffer.steps)
      ensures dnsSniffer.isRunningOnAWS ==>
                var polls := dnsSniffer.monitor.polls;
                && polls != [] && Last(polls).visits == scan.visits && Last(polls).failed == scan.failed
                && tcpSniffer.steps == old(tcpSniffer.steps) + [Refresh(Last(polls))]
                && dnsSniffer.steps == old(dnsSniffer.steps) + [OtherRefresh(Last(polls))]
    {
      ok := tcpSniffer.RefreshHostsMapping(scan.visits, scan.failed);
      if tcpSniffer.isRunningOnAWS {
        RefreshIsLastPoll(tcpSniffer.steps);
        dnsSniffer.SeeOtherRefresh();
        Rejoin(dnsSniffer.steps);
      }
    }

    /** Settle what is pending in both sniffers, whatever becomes of the scans, and report. */
    method Report(dnsScan: Scan, tcpScan: Scan)
      returns (dnsResults: seq<RecordedDestinationsForSrc>, tcpResults: seq<RecordedDestinationsForSrc>,
               ghost polls: (Poll, Poll))
      requires Valid() && DistinctPids(dnsScan.visits) && DistinctPids(tcpScan.visits)
      modifies dnsSniffer, dnsSniffer.collector, tcpSniffer, tcpSniffer.collector
      modifies dnsSniffer.monitor, dnsSniffer.monitor.resolver, dnsSniffer.monitor.resolver.repr
      ensures Valid()
      ensures polls.0.failed == dnsScan.failed && polls.1.failed == tcpScan.failed
      ensures polls.0.visits == dnsScan.visits && polls.1.visits == tcpScan.visits
      ensures dnsSniffer.isRunningOnAWS ==>
                && dnsSniffer.steps == Flushed(old(dnsSniffer.steps), Refresh(polls.0), OtherRefresh(polls.1))
                && tcpSniffer.steps == Flushed(old(tcpSniffer.steps), OtherRefresh(polls.0), Refresh(polls.1))
      ensures !dnsSniffer.isRunningOnAWS ==>
                dnsSniffer.steps == old(dnsSniffer.steps) + [Collect] &&
                    tcpSniffer.steps == old(tcpSniffer.steps) + [Collect]
      ensures Groups(StateAfter(dnsSniffer.isRunningOnAWS, false, Before(dnsSniffer.steps)).captured, dnsResults)
      ensures Groups(StateAfter(dnsSniffer.isRunningOnAWS, true, Before(tcpSniffer.steps)).captured, tcpResults)
    {
      polls := Flush(dnsScan, tcpScan);
      dnsResults, tcpResults := Collected();
    }

    method Flush(dnsScan: Scan, tcpScan: Scan) returns (ghost polls: (Poll, Poll))
      requires Valid() && DistinctPids(dnsScan.visits) && DistinctPids(tcpScan.visits)
      modifies dnsSniffer, dnsSniffer.collector, tcpSniffer, tcpSniffer.collector
      modifies dnsSniffer.monitor, dnsSniffer.monitor.resolver, dnsSniffer.monitor.resolver.repr
      ensures Valid()
      ensures polls.0.failed == dnsScan.failed && polls.1.failed == tcpScan.failed
      ensures polls.0.visits == dnsScan.visits && polls.1.visits == tcpScan.visits
      ensures dnsSniffer.isRunningOnAWS ==>
                && dnsSniffer.steps == old(dnsSniffer.steps) + [Refresh(polls.0)] + [OtherRefresh(polls.1)]
                && tcpSniffer.steps == old(tcpSniffer.steps) + [OtherRefresh(polls.0)] + [Refresh(polls.1)]
      ensures !dnsSniffer.isRunningOnAWS ==>
              dnsSniffer.steps == old(dnsSniffer.steps) && tcpSniffer.steps == old(tcpSniffer.steps)
    {
      var ok := RefreshDNS(dnsScan);
      ghost var first := LastPoll(dnsScan);
      ok := RefreshTCP(tcpScan);
      polls := (first, LastPoll(tcpScan));
    }

    method Collected()
      returns (dnsResults: seq<RecordedDestinationsForSrc>, tcpResults: seq<RecordedDestinationsForSrc>)
      requires Valid()
      modifies dnsSniffer`steps, dnsSniffer.collector, tcpSniffer`steps, tcpSniffer.collector
      ensures Valid()
      ensures dnsSniffer.steps == old(dnsSniffer.steps) + [Collect] &&
              tcpSniffer.steps == old(tcpSniffer.steps) + [Collect]
      ensures Groups(StateAfter(dnsSniffer.isRunningOnAWS, false, old(dnsSniffer.steps)).captured, dnsResults)
      ensures Groups(StateAfter(dnsSniffer.isRunningOnAWS, true, old(tcpSniffer.steps)).captured, tcpResults)
    {
      dnsResults := dnsSniffer.CollectResults();
      tcpResults := tcpSniffer.CollectResults();
      Rejoin(dnsSniffer.steps);
      Rejoin(tcpSniffer.steps);
    }
  }

  lemma Rejoined(steps: seq<Step>)
    ensures steps != [] ==> steps == Before(steps) + [Last(steps)]
  {
  }

  /** The poll of the refresh logged last is the last one. */
  lemma RefreshIsLastPoll(steps: seq<Step>)
    requires steps != [] && Last(steps).Refresh?
    ensures var polls := Polls(steps);
            polls != [] && Before(polls) == Polls(Before(steps)) && Last(polls) == Last(steps).poll
            && steps == Before(steps) + [Last(steps)]
  {
    assert Polls(steps) == Polls(Before(steps)) + [Last(steps).poll];
  }
}
