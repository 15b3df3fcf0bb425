# Verified model of the network mapper's stateful core

The network mapper watches DNS answers, TCP connections, sidecar metrics and reported traffic in a
Kubernetes cluster and turns them into intents. Most of the repository is plumbing around a few
small stateful algorithms. This project models those algorithms in Dafny and proves what they
guarantee over whole runs.

`dafny verify dfyconfig.toml` checks everything.

## How it is organised

Each component comes in three layers.

* A **specification** (`*Spec.dfy`): the state as a value, and what one call does to it. What the
  environment decides (clock readings, the order in which Go walks a map, the outcome of a scan or
  of a lookup) is part of the record of the call. What each function means is then said
  of the inputs themselves, without it (`ConnectionCountSpec.CountExactly`, `IntentsSpec.SameKeyIff`,
  `PublisherSpec.WildcardCovers`).
* **Runs** (`*Runs.dfy` and what is named after its subject, such as `TtlCacheCleanup` or
  `PublisherPasses`): what holds of every sequence of calls, in terms of the history alone.
* **Classes**, with the fields, loops and in-place updates of the Go code. The cache, the process
  monitor, both sniffers, the intents holder and the Istio watcher keep a ghost log of their calls, and
  their invariants say that the state is the one the log leads to, so every result about their runs is
  a result about the class. The publisher keeps no state of its own: what it does to the cache is a
  predicate on the cache's log. The other classes (resolver, collector, counters, traffic, upload) are
  proved call by call against the specification.

Mutex-protected methods are atomic steps. A walk over a Go map is a loop that picks an arbitrary
remaining key. Every reading of the wall clock may be later than the one before.

| component | files |
|---|---|
| TTL + LRU cache | `TtlCacheSpec`, `TtlCacheRuns`, `TtlCacheExpiry`, `TtlCacheCalls`, `TtlCacheCleanup`, `TtlCacheShadows`, `TtlCache`, `Clock` |
| reference-counted IP resolver and its process monitor | `ResolverSpec`, `MonitorSpec`, `PidRuns`, `ResolverRuns`, `ResolverSurplus`, `MonitorRuns`, `IpResolver` |
| capture confirmation and reporting of the sniffer | `CaptureSpec`, `CaptureRuns`, `Collectors`, `Sniffers`, `SnifferLoop` |
| connection counters and their differ | `ConnectionCountSpec`, `ConnectionCount` |
| intents holder | `IntentsSpec`, `IntentsRuns`, `IntentsMerge`, `IntentsHolder` |
| traffic collector | `Traffic` |
| DNS cache client and DNS publisher | `DnsCache`, `PublisherSpec`, `PublisherReports`, `PublisherTrace`, `PublisherPasses`, `Publisher`, `Sorting` |
| Istio watcher | `MetricName`, `IstioSpec`, `IstioRuns`, `IstioWatcher`, `IstioMerge` |
| resumable upload | `CloudUpload` |

## What turned out not to hold

* **A failed scan loses processes.** `Poll` empties the process set before it scans, so a process that
  a failed scan does not come to is forgotten: its exit is never reported. This breaks the resolver in
  two ways, each shown by a run. If the process is gone, its mapping stays
  (`ResolverRuns.FailedScanStrandsAMapping`); if it is seen again, it is registered twice and its entry
  keeps a reference that nobody gives back, so that the address is answered for ever after
  (`RemappingLeavesAnAnswer`). What becomes of a pid depends only on what the scans show of it and on
  which scans fail (`PidRuns.RunOnePid`), which gives the exact conditions, on the inputs of a run and
  with failed scans included: the counts are exact if and only if no scan shows a lost process that can
  be registered (`CountsAreExactIff`), and every mapped process is tracked if and only if none is lost
  at the end (`MappedAreTrackedIff`; for one poll, `MappedAreTracked`). When all processes go, the
  resolver forgets every address if and only if each entry is held by exactly its tracked processes
  (`EmptyScanClearsIff`); both conditions on the inputs suffice for that (`InputsKeepHeld`), and they
  are necessary unless an address was taken over by another hostname (`HeldExactlyIff`). In every run
  an entry has one reference for each process mapped to it and one for each time such a process was
  registered again (`ResolverSurplus.ReferencesExactly`), so an address outlives its processes if and
  only if that ever happened at its entry, or a lost process is mapped to it (`AddressOutlivesIff`). The
  callbacks about a process follow their protocol throughout a run if and only if no scan failed before
  it came to the process while that was tracked (`MonitorRuns.CallbacksFollowProtocol`).
* **Failure counts are never cleared.** Accepting a process, or its exit, leaves its count in place,
  so the stored count is the number of all its failures modulo four
  (`StoredCountIsModuloRetries`), and it is given up exactly on every fourth failure since it was
  first seen (`GivenUpOnEveryFourthFailure`), not after three retries of one process. A reused pid can
  be given up on its own first failure (`ReusedPidIsGivenUpAtOnce`).
* **Cleanup is not quite invisible.** It changes nothing that can be seen at once, but it may spare a
  pair that later insertions would have evicted (`TtlCacheExpiry.CleanupCanSpareAPair`). Whatever is
  called afterwards, the caches with and without the cleanup can give exactly the same answers if and
  only if every entry behind a dropped one has expired when the cleanup ends
  (`TtlCacheCleanup.CleanupChangesNoAnswerIff`; for the DNS cache, in every state a run can lead to,
  `DnsCache.CleanupChangesNoDNSAnswerIff`). Where this fails, inserting as many new pairs as there is
  room for behind the live entry and then asking for it tells the two apart
  (`TtlCacheCleanup.StrandedIsSeen`).
* **Reported connection changes can drift.** The differ conserves counts when a key is asked for at
  the end of every window. The intents holder asks only for keys that have an intent in the window,
  so connections that end together with the last intent are never reported as removed, and those that
  follow a window whose intents do not count are never reported as added. The reported changes add up
  to the current count if and only if these two sums are equal
  (`ConnectionCountSpec.ReportedSumIsCurrentIff`, `IntentsRuns.ReportedChangesAddUpIff`), and they do so
  at the end of every window if and only if neither ever happens (`AlwaysCurrentIff`,
  `ReportedChangesAlwaysAddUpIff`).
* **An intent that lists a topic twice can lose operations.** If it opens an entry, the next merge
  reads its topics into a map, where the last element of a name wins. An operation that was shown is
  missing if and only if the opening intent repeats the topic, has the operation only before its last
  occurrence, and no later intent shows it (`IntentsSpec.OperationIsLostIff`); if the opening intent
  names each topic once, nothing is lost (`EntryTopicsExactly`). The Kafka resolver builds one topic
  for each intent (`src/mapper/pkg/resolvers/schema.helpers.resolvers.go:844-849`), so this takes an
  intent of another origin. Of a repeated HTTP path every intent keeps only the last occurrence
  (`EntryResourcesExactly`, `MethodIsLostIff`).
* **A publisher round may not report what it resolves itself.** The length it compares with is taken
  after its own results are in, so these count only once they are in the cache. What a round resolves
  itself, of a name that the cache knew nothing of, it publishes if and only if that was published
  before, or the name had addresses already and the round reports for another reason, or it had none
  and is asked for twice (`PublisherReports.OwnAnswerIsPublishedIff`). When a round reports is decided
  by the status, the cache and the resolver alone (`ReportsIff`). The next round publishes it in any
  case (`MissIsPublishedNextRound`). Two rounds always suffice (`SettlesInTwoRounds`). Over the real
  cache, with patches that may be refused, one pass that reaches every client and a later one without a
  refusal suffice (`PublisherPasses.PassesSettle`).
* **Istio label values are cut at the first dot.** If no token before a label ends with its name, the
  label is read in full exactly when its value has no dot (`MetricName.ReadsUpToTheFirstDot`).
* **The Istio merge key leaves out the namespaces**, so two connections that differ only in them are
  merged, and which namespaces and service name are reported depends on the order in which Go walks
  the map, unless all connections of the pair agree on them (`IstioMerge.RestIsFixedIff`).

Where comments and code disagree the model follows the code: the upload logs that it gives up after
ten retries, but the default back-off it uses is not limited by a number of attempts, so the number
of retries is a parameter here.

## Model

| member | source | states |
|---|---|---|
| TtlCache.TTLCache.Insert | src/mapper/pkg/dnscache/ttl_cache/ttl_cache.go:49-73 | the pair leads the recency list with its new expiration and an older entry of the pair is displaced; if fewer than `maxSize` other entries were listed all of them stay in order, otherwise exactly the back entry goes, so the list never exceeds `maxSize`; index and list stay linked |
| TtlCache.TTLCache.Evict | src/mapper/pkg/dnscache/ttl_cache/ttl_cache.go:76-98 | removes exactly the back entry, if there is one, from the list and the index, with its key when that was its last value |
| TtlCache.TTLCache.GetUnsafe | src/mapper/pkg/dnscache/ttl_cache/ttl_cache.go:109-140 | with the clock re-read at each value, the expired values of the key leave and the live ones come to the front in the order of the walk and are the answer |
| TtlCache.TTLCache.Get | src/mapper/pkg/dnscache/ttl_cache/ttl_cache.go:102-107 | every answer was listed under this key and had not expired when the call began, every value of the key still live when it ends is answered, none twice; what was answered leads the list, last answer first, and behind it are exactly the entries of the other keys; the call is a legal step of the log |
| TtlCache.TTLCache.Filter | src/mapper/pkg/dnscache/ttl_cache/ttl_cache.go:161-174 | the same over every listed key that satisfies the predicate |
| TtlCache.TTLCache.CleanupExpired | src/mapper/pkg/dnscache/ttl_cache/ttl_cache.go:143-158 | drops only entries expired by the end of the call and every one expired at its start, keeps the order of the rest, and says which pairs it dropped |
| TtlCache.TTLCache.Cleanup | src/mapper/pkg/dnscache/ttl_cache/ttl_cache.go:189-192 | what stays was listed and had not expired when the call began, and every entry live when it ends stays; the call is a legal step of the log |
| TtlCache.IndexAndListCorrespond | src/mapper/pkg/dnscache/ttl_cache/ttl_cache.go:24-30 | while index and list are linked, which every method keeps, list elements and indexed pairs correspond one to one |
| TtlCacheRuns.RunKeepsShape | src/mapper/pkg/dnscache/ttl_cache/ttl_cache.go:49-174 | over every run no pair is listed twice and the list never exceeds its size |
| TtlCacheRuns.RunKeepsRecencyOrder | src/mapper/pkg/dnscache/ttl_cache/ttl_cache.go:58-132 | over every run the list is ordered by last touch: whatever stands in front of an entry was touched since |
| TtlCacheRuns.RunIsUpToDate | src/mapper/pkg/dnscache/ttl_cache/ttl_cache.go:63-66 | a listed entry carries the expiration of the latest insertion of its pair |
| TtlCacheRuns.EvictionIsLeastRecentlyUsed | src/mapper/pkg/dnscache/ttl_cache/ttl_cache.go:68-98 | a pair is evicted only from a full list, only when at least as many other pairs as fit were touched since its own last touch, and never by its own insertion |
| TtlCacheRuns.LookupIsSound | src/mapper/pkg/dnscache/ttl_cache/ttl_cache.go:109-140 | every answered pair was inserted under an asked key and its latest expiration had not passed when the call began |
| TtlCacheRuns.LookupIsComplete | src/mapper/pkg/dnscache/ttl_cache/ttl_cache.go:109-140 | a pair live at the end of the call is answered unless as many other pairs as fit were touched since it was |
| TtlCacheRuns.KeptUpToSize | src/mapper/pkg/dnscache/ttl_cache/ttl_cache.go:68-132 | in a cache of a given size, a pair that was inserted and is live is answered by a lookup of its key while fewer than `maxSize` other pairs were touched since it was |
| TtlCacheRuns.InsertedIsAnswered | src/mapper/pkg/dnscache/ttl_cache/ttl_cache.go:49-140 | if the size is at least one, what was just inserted is answered by the next lookup of its key, while it is live |
| TtlCacheRuns.TouchedExactly | src/mapper/pkg/dnscache/ttl_cache/ttl_cache.go:58-132 | what counts as touched: an insertion touches its pair, a lookup the pairs it answers, in their order, and a cleanup none |
| TtlCacheRuns.WithoutEvictionNothingIsMissing | src/mapper/pkg/dnscache/ttl_cache/ttl_cache.go:102-174 | if nothing was ever evicted, a lookup answers as the unbounded timed multimap does |
| TtlCacheExpiry.CacheIsExactlyTheMostRecent | src/mapper/pkg/dnscache/ttl_cache/ttl_cache.go:58-132 | while nothing expires, a pair is cached exactly if it was touched and fewer others than fit were touched since |
| TtlCacheExpiry.CleanupIsInvisible | src/mapper/pkg/dnscache/ttl_cache/ttl_cache.go:143-158 | a cleanup leaves what any later lookup can see as it was, order included |
| TtlCacheExpiry.SameViewSameAnswer | src/mapper/pkg/dnscache/ttl_cache/ttl_cache.go:109-140 | states with the same live entries allow the same answers and still agree afterwards |
| TtlCacheExpiry.CleanupOnlySparesTheVictim | src/mapper/pkg/dnscache/ttl_cache/ttl_cache.go:68-98 | of the insertion next after a cleanup: the live entries differ with and without it exactly when a live entry would have been evicted and the cleanup dropped some other pair |
| TtlCacheExpiry.CleanupCanSpareAPair | src/mapper/pkg/dnscache/ttl_cache/ttl_cache.go:143-158 | a concrete cache where the cleanup saves a live pair from eviction |
| TtlCacheCleanup.CleanupChangesNoAnswerIff | src/mapper/pkg/dnscache/ttl_cache/ttl_cache.go:49-192 | the caches with and without a cleanup can give exactly the same answers to all later calls, whatever they are, if and only if every entry behind a dropped one has expired when the cleanup ends |
| TtlCacheCleanup.StrandedIsSeen | src/mapper/pkg/dnscache/ttl_cache/ttl_cache.go:68-140 | if a live entry stands behind a dropped one, as many new pairs as there is room for behind it, and then a lookup of its key, give an answer that is possible only after the cleanup |
| TtlCacheCleanup.RunMatches | src/mapper/pkg/dnscache/ttl_cache/ttl_cache.go:49-192 | caches that differ only in expired entries at the back carry out any calls with the same answers and still differ only so |
| TtlCacheShadows.InsertKeepsViewIff | src/mapper/pkg/dnscache/ttl_cache/ttl_cache.go:49-98 | two caches with the same live entries have the same after an insertion exactly if it evicts a live entry from both or from neither |
| TtlCacheShadows.SameViewsIff | src/mapper/pkg/dnscache/ttl_cache/ttl_cache.go:49-174 | two caches with the same live entries, asked the same calls and answering alike, keep the same live entries throughout exactly if every insertion evicts a live entry from both or from neither |
| TtlCacheShadows.CleanupChangesNoAnswer | src/mapper/pkg/dnscache/ttl_cache/ttl_cache.go:49-192 | for given calls: the answers that are possible are the same with and without the cleanup if it dropped nothing in front of a live entry, or the calls cannot evict a live entry from the cache that was not cleaned |
| TtlCacheShadows.CleanupKeepsRun | src/mapper/pkg/dnscache/ttl_cache/ttl_cache.go:49-192 | for a given run without the cleanup: under that condition, or if it evicts no live entry, it is matched by one with the cleanup that gives the same answers and ends with the same live entries |
| TtlCacheCalls.RunFollowsCalls | src/mapper/pkg/dnscache/ttl_cache/ttl_cache.go:49-192 | every continuation of a legal run carries out some calls in order, so the previous results are about the runs the cache logs |
| DnsCache.DNSCache.constructor | src/mapper/pkg/dnscache/dns_cache.go:22-32 | an empty cache of the given capacity, which may not be zero |
| DnsCache.DNSCache.AddOrUpdateDNSData | src/mapper/pkg/dnscache/dns_cache.go:34-36 | inserts the address under the name, to expire after its TTL |
| DnsCache.DNSCache.GetResolvedIPs | src/mapper/pkg/dnscache/dns_cache.go:38-41 | a lookup of exactly this name: every answer was cached under it and live when the call began, and every address live under it when the call ends is answered |
| DnsCache.DNSCache.GetResolvedIPsForWildcard | src/mapper/pkg/dnscache/dns_cache.go:43-50 | for an asterisk and a suffix, a lookup of exactly the cached names that end in the suffix: every answer was cached under such a name and live when the call began, and every address live under one when the call ends is answered |
| PublisherSpec.WildcardCovers | src/mapper/pkg/dnscache/dns_cache.go:43-48 | an asterisk and a suffix is a wildcard, and covers a name exactly if that is something followed by the suffix |
| PublisherSpec.IsWildcardIff | src/mapper/pkg/dnsintentspublisher/dns_intents_publisher.go:209-211 | a name is a wildcard exactly if it is an asterisk followed by something, possibly empty |
| PublisherSpec.AnswerExactly | src/mapper/pkg/dnscache/dns_cache.go:38-50 | while time stands still, the answer to an asterisk and a suffix is what is cached under names ending in the suffix, and to any other name what is cached under it |
| DnsCache.CleanupChangesNoDNSAnswerIff | src/mapper/pkg/dnscache/ttl_cache/ttl_cache.go:143-158 | the condition is exact for the DNS cache in every state a legal run leads to |
| DnsCache.FrozenGet | src/mapper/pkg/dnscache/dns_cache.go:38-41 | while time stands still, the answer is exactly the live addresses of the name and the live pairs do not change |
| DnsCache.FrozenFilter | src/mapper/pkg/dnscache/dns_cache.go:43-50 | the same for a wildcard |
| DnsCache.FrozenInsert | src/mapper/pkg/dnscache/dns_cache.go:34-36 | while time stands still, an insertion that fits adds exactly its pair to the live ones |
| IpResolver.ProcFSIPResolver.ResolveIP | src/sniffer/pkg/ipresolver/procfs_resolver.go:32-37 | the hostname of the entry the address points at, if there is one |
| IpResolver.ProcFSIPResolver.OnProcessNew | src/sniffer/pkg/ipresolver/procfs_resolver.go:43-80 | in place, on shared entries: a known identity gains a reference, any other gets its own entry, which takes over the address; an unreadable process changes nothing and is an error |
| IpResolver.ProcFSIPResolver.OnProcessExit | src/sniffer/pkg/ipresolver/procfs_resolver.go:82-101 | the entry loses a reference; the last one takes the address along if the address still points at this entry |
| IpResolver.ProcessMonitor.OnScanned | src/sniffer/pkg/ipresolver/process_monitor.go:41-62 | one scan callback: only pids not seen last time are reported, a failure is retried at most three times before it is given up |
| IpResolver.ProcessMonitor.ReportExits | src/sniffer/pkg/ipresolver/process_monitor.go:66-69 | every process seen last time and not now exits once, in some order |
| IpResolver.ProcessMonitor.Poll | src/sniffer/pkg/ipresolver/process_monitor.go:37-72 | the monitor and the resolver together are always in the state the run of polls leads to |
| PidRuns.RunOnePid | src/sniffer/pkg/ipresolver/process_monitor.go:37-72 | in every run, whether a pid is tracked and mapped and how its failures count depends only on what the scans show of it and which of them fail |
| ResolverSpec.RegisterKeepsCounts | src/sniffer/pkg/ipresolver/procfs_resolver.go:57-80 | a new mapping never leaves an entry with fewer references than processes, and keeps exact counts exact if the pid was not mapped |
| ResolverSpec.UnregisterKeepsCounts | src/sniffer/pkg/ipresolver/procfs_resolver.go:82-101 | the same for an exit, unconditionally |
| ResolverSpec.RegisterKeepsExactIff | src/sniffer/pkg/ipresolver/procfs_resolver.go:57-80 | a registration leaves references exact exactly if they were and the process was not mapped |
| ResolverSpec.UnregisterKeepsExactIff | src/sniffer/pkg/ipresolver/procfs_resolver.go:82-101 | an exit leaves references exact exactly if they were |
| ResolverSpec.DroppedOnlyWhenUnused | src/sniffer/pkg/ipresolver/procfs_resolver.go:88-95 | an address is given up only with the last process mapped to its entry |
| ResolverRuns.CountsNeverBelow | src/sniffer/pkg/ipresolver/procfs_resolver.go:57-101 | in every run, failed scans included, no entry has fewer references than processes mapped to it and every reachable entry has one |
| ResolverRuns.CountsAreExactIff | src/sniffer/pkg/ipresolver/procfs_resolver.go:57-101 | in every legal run, failed scans included, references are exactly the mapped processes if and only if no scan shows a lost process that can be registered, which is read off the inputs |
| ResolverRuns.MappedAreTrackedIff | src/sniffer/pkg/ipresolver/process_monitor.go:37-72 | in every legal run every mapped process is tracked if and only if the inputs leave none lost |
| ResolverRuns.CountsAreExact | src/sniffer/pkg/ipresolver/procfs_resolver.go:57-101 | so while no scan fails, references are exactly the mapped processes and every mapped process is tracked |
| ResolverSurplus.ReferencesExactly | src/sniffer/pkg/ipresolver/procfs_resolver.go:57-101 | in every legal run, failed scans included, an entry has one reference for each process mapped to it and one for each time a process was registered while it was mapped to it |
| ResolverRuns.MappedAreTracked | src/sniffer/pkg/ipresolver/process_monitor.go:37-72 | after a successful scan every mapped process is tracked exactly if the scan shows each one that was mapped but not tracked before, and either identifies it or fails on it once too often |
| ResolverRuns.EmptyScanClearsIff | src/sniffer/pkg/ipresolver/process_monitor.go:37-72 | when all processes are gone, a successful scan leaves the resolver without answers exactly if every entry an address leads to was held by tracked processes alone; each other address goes on being answered |
| ResolverRuns.InputsKeepHeld | src/sniffer/pkg/ipresolver/process_monitor.go:37-72 | it is so after every run whose inputs neither lose nor remap a process |
| ResolverRuns.HeldExactlyIff | src/sniffer/pkg/ipresolver/process_monitor.go:37-72 | and only then, in runs in which no registration takes an address over from another hostname |
| ResolverSurplus.AddressOutlivesIff | src/sniffer/pkg/ipresolver/process_monitor.go:37-72 | when all processes are gone, an address goes on being answered exactly if a process was ever registered again while mapped to its entry, or a lost one is mapped to it; takeovers of addresses included |
| ResolverSurplus.HeldIff | src/sniffer/pkg/ipresolver/process_monitor.go:37-72 | in every legal run the answers are held by tracked processes alone exactly if this holds of none of the entries answered from |
| ResolverRuns.FailedScanStrandsAMapping | src/sniffer/pkg/ipresolver/process_monitor.go:38-64 | a run, with a process lost but never remapped, after which the resolver answers for a process that is gone |
| ResolverRuns.RemappingLeavesAnAnswer | src/sniffer/pkg/ipresolver/process_monitor.go:38-64 | a run, with a process remapped but none lost at the end, after which nothing is mapped and the resolver still answers |
| ResolverRuns.AnswersAreLatest | src/sniffer/pkg/ipresolver/procfs_resolver.go:32-80 | in every run an answer is the hostname most recently registered for the address |
| ResolverRuns.AnswerIsInLatestScan | src/sniffer/pkg/ipresolver/procfs_resolver.go:32-101 | if the inputs of a run, failed scans included, neither remap a process nor leave one lost, some process of the latest scan registered exactly the answered address and hostname |
| ResolverRuns.AnswersAreExactlyTheTracked | src/sniffer/pkg/ipresolver/procfs_resolver.go:32-101 | if the inputs never remap a process and after no poll two mapped processes disagree on an address, the resolver is exactly the map of their addresses to their hostnames; if none is lost they are tracked |
| ResolverRuns.ExitOrderDoesNotMatter | src/sniffer/pkg/ipresolver/process_monitor.go:66-69 | exits handled in any order leave the same resolver |
| MonitorRuns.CallbacksFollowProtocol | src/sniffer/pkg/ipresolver/process_monitor.go:37-72 | in every legal run the callbacks of a pid are blocks of failed News, one accepted or given-up New, one Exit, and the process set says which part of the block it is in, exactly if no scan failed before it came to the pid while that was tracked |
| MonitorRuns.CallbacksFollowProtocolUnlessFailing | src/sniffer/pkg/ipresolver/process_monitor.go:37-72 | so in runs without failed scans the callbacks of every pid follow the protocol |
| MonitorRuns.PollFollowsProtocol | src/sniffer/pkg/ipresolver/process_monitor.go:37-72 | a poll keeps the protocol of a pid exactly if it succeeded, or the pid was not tracked, or the scan had reported it |
| MonitorRuns.StoredCountIsModuloRetries | src/sniffer/pkg/ipresolver/process_monitor.go:45-57 | in every run the stored count is the number of all failures of the pid modulo four, and stays within one to three |
| MonitorRuns.GivenUpOnEveryFourthFailure | src/sniffer/pkg/ipresolver/process_monitor.go:50-57 | at any moment of any run a failing pid is given up exactly on every fourth failure since it was first seen |
| MonitorRuns.ReusedPidIsGivenUpAtOnce | src/sniffer/pkg/ipresolver/process_monitor.go:45-57 | a run after which a pid is given up on its first failure since it was reused |
| MonitorRuns.HandledAfterFourPolls | src/sniffer/pkg/ipresolver/process_monitor.go:37-72 | a pid reported by four polls in a row, failed ones included, has been accepted or given up |
| Collectors.NetworkCollector.AddCapturedRequest | src/sniffer/pkg/collectors/collector.go:38-58 | exactly the request with these five fields is recorded, with the time and TTL given and one more source port if there is one, and no other changes |
| Collectors.NetworkCollector.GroupBySource | src/sniffer/pkg/collectors/collector.go:65-83 | in any map order, each source gets exactly its requests, each once and in full |
| Collectors.NetworkCollector.CollectResults | src/sniffer/pkg/collectors/collector.go:60-99 | the report lists each source once with exactly its requests, and the collector starts over |
| CaptureSpec.GroupingIsLossless | src/sniffer/pkg/collectors/collector.go:60-99 | flattening a report gives back exactly the captured requests, and there are as many destinations as requests |
| CaptureSpec.ReportSaysExactly | src/sniffer/pkg/collectors/collector.go:60-99 | field by field: each destination of a source is a captured request of that address and hostname, with its name, address, port, time, TTL and source ports, and each captured request is among them |
| CaptureSpec.RecordedExactly | src/sniffer/pkg/collectors/collector.go:38-58 | recorded are exactly the requests made, each with the union of its source ports and the time and TTL of the last one |
| CaptureSpec.AddedExactly | src/sniffer/pkg/collectors/collector.go:38-58 | the same added to what is recorded already: a request made again takes the time and TTL of its last capture and gains its ports, one not made keeps what it had |
| CaptureSpec.ConfirmedOrDiscarded | src/sniffer/pkg/collectors/dnssniffer.go:196-208 | a refresh accepts or discards each pending capture once |
| Sniffers.GetCNameTranslation | src/sniffer/pkg/collectors/dnssniffer.go:168-185 | exactly the canonical names of CNAME records with both names are translated, each into the name in the last such record |
| Sniffers.CNamesAreLastAliases | src/sniffer/pkg/collectors/dnssniffer.go:168-185 | the same of the function that specifies it, for each name |
| Sniffers.DNSSniffer.HandlePacket | src/sniffer/pkg/collectors/dnssniffer.go:120-166 | off AWS the requests recorded are exactly the earlier ones and one for each address record: the asking pod, no hostname, the address of the record, no port, and as destination the name of the last CNAME record whose canonical name is the record's, or the record's own name if there is none; each has the time of the reply and the TTL of the last such record. On AWS, if the pod resolves, as many captures wait in addition as there are address records, of those requests under its hostname; if not, nothing changes. The packet is logged, and sniffer and resolver stay in the state of the log |
| Sniffers.ReplyIsHandled | src/sniffer/pkg/collectors/dnssniffer.go:126-166 | the same of the step the runs are made of |
| Sniffers.RecordsAreRequests | src/sniffer/pkg/collectors/dnssniffer.go:143-147 | off AWS, which requests the first records of a reply add, with whose TTL, and what stays as it was |
| Sniffers.RecordsWait | src/sniffer/pkg/collectors/dnssniffer.go:149-164 | on AWS, which captures they leave waiting, and how many |
| Sniffers.DNSSniffer.RefreshHostsMapping | src/sniffer/pkg/collectors/dnssniffer.go:187-210 | off AWS nothing happens; after a failed refresh everything still waits; after a successful one none waits, and exactly the waiting requests whose source resolves to the same hostname again join what is recorded, each with the time and TTL of the last such capture and its ports; the poll is logged |
| Sniffers.RefreshSettles | src/sniffer/pkg/collectors/dnssniffer.go:187-210 | a successful refresh does that to any pending captures: a request is recorded exactly if it was, or a waiting capture of it still resolves |
| Sniffers.DNSSniffer.CollectResults | src/sniffer/pkg/collectors/collector.go:60-99 | the report groups exactly the captures of the state the log leads to, and is logged |
| Sniffers.TCPSniffer.HandlePacket | src/sniffer/pkg/collectors/tcpsniffer.go:74-132 | on AWS, if the source resolves, the connection waits under that hostname with its ports and time; otherwise it is recorded at once without a source hostname, with the destination's hostname if on AWS that resolves, and its source port joins those of the request |
| Sniffers.ConnectionIsHandled | src/sniffer/pkg/collectors/tcpsniffer.go:95-132 | the same of the step the runs are made of |
| Sniffers.TCPSniffer.RefreshHostsMapping | src/sniffer/pkg/collectors/tcpsniffer.go:162-185 | as for DNS |
| Sniffers.TCPSniffer.CollectResults | src/sniffer/pkg/collectors/collector.go:60-99 | as for DNS |
| SnifferLoop.Sniffer.HandleDNSPacket | src/sniffer/pkg/sniffer/sniffer.go:128-129 | a DNS packet is one step of the log of its sniffer, and none of the other's |
| SnifferLoop.Sniffer.HandleTCPPacket | src/sniffer/pkg/sniffer/sniffer.go:130-131 | as for DNS |
| SnifferLoop.Sniffer.RefreshDNS | src/sniffer/pkg/sniffer/sniffer.go:132-139 | a refresh of one sniffer is one poll in the logs of both, which go on accounting for all polls of the shared resolver |
| SnifferLoop.Sniffer.Report | src/sniffer/pkg/sniffer/sniffer.go:101-152 | both sniffers are refreshed, whatever becomes of the scans, and then each reports what the log up to there has captured |
| SnifferLoop.NothingWaitsAfterReport | src/sniffer/pkg/sniffer/sniffer.go:144-152 | if its refresh succeeded, a report leaves nothing waiting: every capture resolved in the whole run has been accepted or discarded, once |
| CaptureRuns.PendingExactly | src/sniffer/pkg/collectors/dnssniffer.go:149-210 | in every run a capture waits exactly if some packet showed it and no refresh has succeeded since |
| CaptureRuns.AcceptedExactly | src/sniffer/pkg/collectors/dnssniffer.go:196-208 | a refresh accepts exactly the waiting captures whose address resolves again to the hostname it had at packet time |
| CaptureRuns.AcceptedWasResolvedTwice | src/sniffer/pkg/collectors/tcpsniffer.go:109-185 | an accepted capture was resolved to the same hostname at both moments, and if the polls of the run neither remap a process nor leave one lost, a process of the confirming scan registered exactly that address and hostname |
| CaptureRuns.NothingLostOrRepeated | src/sniffer/pkg/collectors/dnssniffer.go:149-210 | over a whole run, resolved captures are the accepted, the discarded and the waiting ones, counted with multiplicity |
| CaptureRuns.ReportIsRecordedSince | src/sniffer/pkg/collectors/collector.go:38-99 | a report, flattened, is exactly what the steps since the previous report have recorded: each request once with the union of its ports |
| CaptureRuns.RecordedExactlySince | src/sniffer/pkg/collectors/dnssniffer.go:120-210 | and these are exactly the captures that were waiting and confirmed since then and, for TCP, those shown since then whose source does not resolve |
| ConnectionCount.ConnectionCounter.AddConnection | src/mapper/pkg/concurrentconnectioncounter/concurrent_connection_counter.go:40-61 | source ports win over DNS; DNS intents count only until a source-port intent arrives; others do not count |
| ConnectionCount.ConnectionCounter.GetConnectionCount | src/mapper/pkg/concurrentconnectioncounter/concurrent_connection_counter.go:63-80 | the number of distinct ports if source ports count, the number of DNS intents if these count, and nothing if neither has come |
| ConnectionCount.CountMissing | src/mapper/pkg/concurrentconnectioncounter/concurrent_connection_counter.go:112-124 | the counting loop gives the size of the set difference in any order |
| ConnectionCount.ConnectionCounter.GetConnectionCountDiff | src/mapper/pkg/concurrentconnectioncounter/concurrent_connection_counter.go:82-132 | no difference if either side has nothing to count by; all new for all old, each the number of ports or of DNS intents, if the methods differ or are DNS; exact gains and losses between port sets |
| ConnectionCount.ConnectionCountDiffer.Increment | src/mapper/pkg/concurrentconnectioncounter/connection_count_differ.go:27-35 | feeds the counter of the key, fresh if there was none, and no other counter of either window |
| ConnectionCount.ConnectionCountDiffer.Reset | src/mapper/pkg/concurrentconnectioncounter/connection_count_differ.go:22-25 | the open window becomes the previous one and a new one starts empty |
| ConnectionCount.ConnectionCountDiffer.GetDiff | src/mapper/pkg/concurrentconnectioncounter/connection_count_differ.go:37-73 | the difference of the two windows for the key, absence standing for a window without it |
| ConnectionCountSpec.CountedExactly | src/mapper/pkg/concurrentconnectioncounter/concurrent_connection_counter.go:40-80 | a counter holds the union of the ports of all source-port intents, or the number of DNS intents, with no reference to order |
| ConnectionCountSpec.CountExactly | src/mapper/pkg/concurrentconnectioncounter/concurrent_connection_counter.go:63-80 | what is reported for any intents: the number of distinct source ports if any counts by them, otherwise the number of DNS intents if there are any, otherwise nothing |
| ConnectionCountSpec.DiffExactly | src/mapper/pkg/concurrentconnectioncounter/connection_count_differ.go:37-73 | the current, added and removed connections of two windows in terms of their intents, for every pair of methods and for absent windows |
| ConnectionCountSpec.OrderDoesNotMatter | src/mapper/pkg/concurrentconnectioncounter/concurrent_connection_counter.go:40-80 | the same intents in any order give the same method, ports and count |
| ConnectionCountSpec.MethodOnlyAdvances | src/mapper/pkg/concurrentconnectioncounter/concurrent_connection_counter.go:44-57 | over any sequence of intents, the method only moves from unset to DNS to source ports |
| ConnectionCountSpec.DiffConserves | src/mapper/pkg/concurrentconnectioncounter/connection_count_differ.go:37-73 | a difference is valid exactly if some window has the key and each that has it counts; then previous plus added minus removed is current, exactly by set difference between port windows |
| ConnectionCountSpec.RunningSumIsCurrent | src/mapper/pkg/concurrentconnectioncounter/connection_count_differ.go:37-73 | diffed every window, the changes always add up to the current count |
| ConnectionCountSpec.ReportedSumExactly | src/mapper/pkg/intentsstore/holder.go:307-340 | diffed only where the key has an intent, the changes add up to the current count, plus the connections of windows followed by one that does not count, less those of windows that follow one with intents that do not count |
| ConnectionCountSpec.ReportedSumIsCurrentIff | src/mapper/pkg/intentsstore/holder.go:307-340 | so they add up to the current count exactly if those two sums are equal |
| ConnectionCountSpec.AlwaysCurrentIff | src/mapper/pkg/intentsstore/holder.go:307-340 | they add up to the current count at the end of every window exactly if no window with connections is followed by one that does not count, and none whose intents do not count by one with connections |
| ConnectionCountSpec.ReportedSumIsCurrentWhenCounted | src/mapper/pkg/intentsstore/holder.go:307-340 | unless a window that counts follows one with intents that do not, that is exactly if no window with connections is followed by one that does not count |
| ConnectionCountSpec.ReportedSumCanDrift | src/mapper/pkg/intentsstore/holder.go:307-340 | three windows after which five connections are reported and two exist |
| IntentsMerge.MergeKafkaTopics | src/mapper/pkg/intentsstore/holder.go:85-106 | the merged list stands for the existing topics with the operations of each new one added, and names each topic once |
| IntentsMerge.MergeHTTPResources | src/mapper/pkg/intentsstore/holder.go:108-136 | the merged list stands for the union of the two path/method relations, and names each path once |
| IntentsHolder.MergeInto | src/mapper/pkg/intentsstore/holder.go:154-173 | the latest time, merged topics and resources, the new labels, and the fix marker cleared if the new intent was resolved without it; client, server, type and everything else of the entry stay |
| IntentsHolder.AddIntentToStore | src/mapper/pkg/intentsstore/holder.go:138-176 | the entry of the intent's client, server and type, and no other, takes in the intent; a new entry keeps it as it is; every entry still holds an intent with the client, server and type it is stored under |
| IntentsHolder.IntentsHolder.AddIntent | src/mapper/pkg/intentsstore/holder.go:216-241 | both stores and the open counter window take in the intent, unless a namespace is excluded |
| IntentsHolder.IntentsHolder.Reset | src/mapper/pkg/intentsstore/holder.go:78-83 | empties the accumulating store only |
| IntentsHolder.IntentsHolder.GetIntentsFromStore | src/mapper/pkg/intentsstore/holder.go:284-343 | in any map order, exactly the selected entries, each once, with the valid difference of its key |
| IntentsHolder.IntentsHolder.GetIntents | src/mapper/pkg/intentsstore/holder.go:243-265 | handed out are exactly the accumulated intents whose client is in a given namespace and calls the given server, and that have no excluded label, as their own fields say; no two have the same client, server and type; each comes with the change in connections between the last two windows; nothing changes |
| IntentsHolder.HandedOutExactly | src/mapper/pkg/intentsstore/holder.go:307-358 | for any filters, a stored intent is handed out exactly if its own namespace, labels and calls pass them, and no two handed out have the same ends |
| IntentsHolder.SelectsIff | src/mapper/pkg/intentsstore/holder.go:56-76 | an entry is selected exactly if its own intent passes the filters, where the server filter asks that its client is that of some stored intent to the server |
| IntentsHolder.HandedOutCounted | src/mapper/pkg/intentsstore/holder.go:335-339 | in every run, the count handed out with an intent is what its windows give for its own client, server and type |
| IntentsHolder.IntentsHolder.GetNewIntentsSinceLastGet | src/mapper/pkg/intentsstore/holder.go:267-282 | every intent added since the previous call is represented by exactly one handed out with its client, server and type, and each of those represents one; each comes with the change in connections between the last two windows; new windows are started |
| IntentsHolder.DrainedRepresents | src/mapper/pkg/intentsstore/holder.go:267-343 | the same of any hand-out of the pending store |
| IntentsRuns.StoresAreFolds | src/mapper/pkg/intentsstore/holder.go:78-282 | in every run each store holds, per key, the fold of the intents added since it was last emptied |
| IntentsSpec.SameKeyIff | src/mapper/pkg/intentsstore/holder.go:139-143 | two intents share an entry exactly if client, server and type agree, no type and the empty one being the same |
| IntentsRuns.PendingKeysExactly | src/mapper/pkg/intentsstore/holder.go:138-282 | in every run an entry waits to be handed out exactly if an intent with its client, server and type was added since the last hand-out |
| IntentsSpec.FoldIsJoin | src/mapper/pkg/intentsstore/holder.go:85-176 | if the intent that opened it names each topic once, an entry is the join of the intents merged into it: latest time, union of topics and operations, union of paths and methods |
| IntentsSpec.JoinLaws | src/mapper/pkg/intentsstore/holder.go:154-159 | merging is commutative, associative and idempotent |
| IntentsSpec.EntryTopics | src/mapper/pkg/intentsstore/holder.go:85-106 | for any intents, an entry has exactly the topics some merged intent showed, and of each the operations that the opening intent has in its last occurrence or a later intent shows |
| IntentsSpec.EntryTopicsExactly | src/mapper/pkg/intentsstore/holder.go:85-106 | if the opening intent names each topic once, exactly the topics and operations some merged intent showed |
| IntentsSpec.OperationIsLostIff | src/mapper/pkg/intentsstore/holder.go:85-106 | an operation some intent showed is missing from the entry, as the next merge reads it, exactly if the opening intent repeats the topic, has it only before the last occurrence, and no later intent shows it |
| IntentsSpec.EntryResourcesExactly | src/mapper/pkg/intentsstore/holder.go:108-136 | for any intents, an entry has exactly the paths some merged intent showed, and of each the methods some intent has in its last occurrence |
| IntentsSpec.MethodIsLostIff | src/mapper/pkg/intentsstore/holder.go:108-136 | a shown method is missing exactly if every intent that shows it does so only before its last occurrence of the path; if no intent repeats a path, none is |
| IntentsSpec.EntryTimeIsLatest | src/mapper/pkg/intentsstore/holder.go:154-157 | the time of an entry is that of its latest intent |
| IntentsSpec.FixKeptExactly | src/mapper/pkg/intentsstore/holder.go:165-173 | the fix marker of an entry survives exactly while every merged intent carried it or had no resolution data |
| IntentsSpec.LabelsAreLatest | src/mapper/pkg/intentsstore/holder.go:161-163 | labels are those of the newest intent, the kind of resolution that of the first |
| IntentsSpec.RepeatedTopicLosesOperations | src/mapper/pkg/intentsstore/holder.go:86-88 | two intents after which an operation is missing |
| IntentsRuns.AccumulatedIsDrainedPlusPending | src/mapper/pkg/intentsstore/holder.go:216-282 | without a reset, and if intents that open an entry name each topic once, what is accumulated is the join of everything handed out and what still waits |
| IntentsRuns.AccumulatedWhateverTheOrder | src/mapper/pkg/intentsstore/holder.go:138-176 | the same intents in any order accumulate to the same content, if those that open an entry name each topic once |
| IntentsRuns.StoreAndCountersAgree | src/mapper/pkg/intentsstore/holder.go:224-280 | in every run the store to be handed out next and the open counter window have the same keys |
| IntentsRuns.DifferHoldsLastTwoWindows | src/mapper/pkg/intentsstore/holder.go:279-280 | in every run the differ compares exactly the open window with the last closed one |
| IntentsRuns.WindowsDescribed | src/mapper/pkg/concurrentconnectioncounter/countable_intent.go:22-31 | which intents are inputs of a key's windows, which of them count by ports and which by DNS, by the names of their resolution |
| IntentsRuns.RunDiffExactly | src/mapper/pkg/concurrentconnectioncounter/connection_count_differ.go:22-73 | in every run the difference for a key is that of its inputs since the last hand-out and in the window before |
| IntentsRuns.RunReportsChanged | src/mapper/pkg/intentsstore/holder.go:178-340 | in every run the change reported for a key is given by the intents of the last two windows with its client, server and type: their distinct ports if found by socket scans or in TCP traffic, otherwise how many were found in DNS answers |
| IntentsRuns.ReportedChangesAddUpIff | src/mapper/pkg/intentsstore/holder.go:267-340 | over a run, the reported changes of a key add up to its latest count exactly if as many connections were never reported as removed as were never reported as added |
| IntentsRuns.ReportedChangesAlwaysAddUpIff | src/mapper/pkg/intentsstore/holder.go:267-340 | over a run, the reported changes of a key always add up to its latest count exactly if its windows never do that |
| IntentsRuns.ReportedChangesAddUpWhenCounted | src/mapper/pkg/intentsstore/holder.go:267-340 | unless a window that counts follows one with intents that do not, that is exactly if the key never went from connections to a window that does not count |
| Traffic.Collector.Add | src/mapper/pkg/collectors/traffic/collector.go:37-50 | appends a sample taken now, which keeps the samples of every key in order |
| Traffic.Collector.WalkKey | src/mapper/pkg/collectors/traffic/collector.go:72-93 | with the clock re-read at each sample, pops the head once per stale sample and averages the fresh ones, if there are any |
| Traffic.Collector.GetTrafficMap | src/mapper/pkg/collectors/traffic/collector.go:69-97 | does so for every key, reports exactly those with a sample less than 3600 seconds old when it was looked at, each with the average of these, and keeps every key |
| Traffic.PruningIsSafe | src/mapper/pkg/collectors/traffic/collector.go:76-86 | only a prefix is dropped, and nothing in it is younger than an hour when the walk ends |
| Traffic.FixedClockKeepsTheFresh | src/mapper/pkg/collectors/traffic/collector.go:76-86 | with a clock that stands still exactly the fresh samples stay, and they are the ones averaged |
| Traffic.SeenExactly | src/mapper/pkg/collectors/traffic/collector.go:76-81 | averaged are exactly the samples that were less than 3600 seconds old when they were looked at |
| Traffic.AverageTruncates | src/mapper/pkg/collectors/traffic/collector.go:88-93 | an average is the sum over those samples divided by their number, truncated toward zero, of bytes and of flows |
| Traffic.SumsAdd | src/mapper/pkg/collectors/traffic/collector.go:77-81 | the sums behind an average are over all samples, in any grouping |
| Traffic.SumsOfOne | src/mapper/pkg/collectors/traffic/collector.go:77-81 | one sample adds its own bytes and flows |
| Traffic.AverageIsBetween | src/mapper/pkg/collectors/traffic/collector.go:88-93 | with division truncating toward zero, an average lies between the least and the greatest sample |
| Publisher.Publisher.AppendResolvedIps | src/mapper/pkg/dnsintentspublisher/dns_intents_publisher.go:166-207 | asks the cache for the name, or for the names an asterisk and a suffix cover, and the resolver only on a plain miss; a new address was cached and live under such a name or is the resolver's, everything still cached under one is there, and no other name changes; stores the resolver's answers in the cache for two minutes; reports exactly if the cache had something new |
| Publisher.AddCached | src/mapper/pkg/dnsintentspublisher/dns_intents_publisher.go:198-206 | comparing sizes finds exactly whether a cached address was unknown |
| Publisher.RemoveUnrequested | src/mapper/pkg/dnsintentspublisher/dns_intents_publisher.go:156-162 | exactly the names no target asks for are removed, and it says whether there were any |
| Publisher.Publisher.CompareIntentsAndStatus | src/mapper/pkg/dnsintentspublisher/dns_intents_publisher.go:135-164 | one round over the names of a client, from its published status |
| Publisher.DomainsExactly | src/mapper/pkg/dnsintentspublisher/dns_intents_publisher.go:140-154 | the names of a client are exactly those of its internet targets |
| Publisher.DomainsOfBoth | src/mapper/pkg/dnsintentspublisher/dns_intents_publisher.go:140-154 | they come target by target, in order |
| Publisher.DomainsOfOne | src/mapper/pkg/dnsintentspublisher/dns_intents_publisher.go:140-154 | an internet target has its domains, any other none |
| Publisher.StatusMapExactly | src/mapper/pkg/dnsintentspublisher/dns_intents_publisher.go:135-139 | a status says of each name it lists the addresses of the last entry for it |
| Publisher.Publisher.UpdateResolvedIPs | src/mapper/pkg/dnsintentspublisher/dns_intents_publisher.go:109-133 | the status becomes what the round computed, each name once with its addresses ascending, if there is something to update and the patch is accepted, and stays as it is otherwise |
| Sorting.LessIsLexicographic | src/mapper/pkg/dnsintentspublisher/dns_intents_publisher.go:112-122 | the order of the addresses: a proper prefix comes first, and otherwise the smaller character where two first differ |
| Publisher.Publisher.PublishDNSIntents | src/mapper/pkg/dnsintentspublisher/dns_intents_publisher.go:91-107 | one pass: a round for each client in turn over the shared cache, up to the first whose patch is refused, which had something to report; exactly the clients before that one get their new status, and if none is refused all clients do |
| PublisherSpec.RoundOnlyGrowsRequested | src/mapper/pkg/dnsintentspublisher/dns_intents_publisher.go:109-207 | whatever is answered, the addresses of a requested name never shrink, and no unrequested name is published |
| PublisherSpec.NothingInvented | src/mapper/pkg/dnsintentspublisher/dns_intents_publisher.go:190-205 | a newly published address was answered for that name by the cache or the resolver |
| PublisherReports.ReportsIff | src/mapper/pkg/dnsintentspublisher/dns_intents_publisher.go:135-207 | a round of any client reports exactly if a published name is no longer asked for, or at some turn the cache has an address the status lacks, or a missed name that had no addresses has its second turn |
| PublisherReports.OwnAnswerIsPublishedIff | src/mapper/pkg/dnsintentspublisher/dns_intents_publisher.go:179-206 | what a round of any client resolves itself, of a name the cache knew nothing of, it publishes exactly if it was published before, or the name had addresses and the round reports, or it had none and is asked for twice |
| PublisherReports.MissIsPublishedNextRound | src/mapper/pkg/dnsintentspublisher/dns_intents_publisher.go:109-207 | the next round publishes it in any case, and reports if it was not published |
| PublisherSpec.SettlesInTwoRounds | src/mapper/pkg/dnsintentspublisher/dns_intents_publisher.go:91-107 | for any clients sharing the cache, with time frozen, no eviction and a deterministic resolver, no round after the second reports or changes anything |
| PublisherReports.MissIsReportedNextRound | src/mapper/pkg/dnsintentspublisher/dns_intents_publisher.go:179-205 | a client that asks once for one name nobody looked up is told nothing in the first round and has it reported in the second |
| PublisherReports.RepeatedMissIsReportedAtOnce | src/mapper/pkg/dnsintentspublisher/dns_intents_publisher.go:140-154 | a name listed by two targets is reported by the round that resolves it |
| PublisherReports.KnownMissIsPublishedBesideAnother | src/mapper/pkg/dnsintentspublisher/dns_intents_publisher.go:179-206 | new addresses of a known name are published with those of another name |
| PublisherTrace.FrozenRound | src/mapper/pkg/dnsintentspublisher/dns_intents_publisher.go:135-207 | a round of the publisher over the real cache, time frozen and everything fitting, sees the outcomes and leaves the cache of that model |
| PublisherPasses.FrozenPass | src/mapper/pkg/dnsintentspublisher/dns_intents_publisher.go:91-207 | a pass of the publisher over the real cache, time frozen, is a round of that model: same statuses, same cache, same reports |
| PublisherPasses.PassesSettle | src/mapper/pkg/dnsintentspublisher/dns_intents_publisher.go:74-107 | patches may be refused: if one pass reaches every client and what the resolver may add up to then fits, the next pass without a refusal settles all clients over the real cache, and no later pass reports, is refused, or changes a client; without refusals the passes lead where as many rounds of the model do |
| MetricName.ExtractIsTokenAfter | src/istio-watcher/pkg/watcher/watcher.go:293-302 | for every metric name, searching for a label name and a dot reads exactly the token after the first non-final token that ends with the label name, or nothing |
| MetricName.ReadsUpToTheFirstDot | src/istio-watcher/pkg/watcher/watcher.go:298-302 | if no token before a label ends with its name, the first token of its value is read, hence all of it exactly if it has no dot |
| MetricName.JoinSplits | src/istio-watcher/pkg/watcher/watcher.go:32-43 | splitting the dot-join of dot-free tokens gives the tokens back |
| IstioSpec.RoundTrip | src/istio-watcher/pkg/watcher/watcher.go:52-60 | a name that lists the seven labels once, with nothing else ending in a label name, is read back exactly |
| IstioSpec.ParsedExactly | src/istio-watcher/pkg/watcher/watcher.go:52-71 | each of the seven fields holds what the name says under its label, spelled out |
| IstioSpec.BuiltExactly | src/istio-watcher/pkg/watcher/watcher.go:81-89 | a name reports nothing exactly if what it says of a workload or namespace is empty or contains the word unknown, or of the path is empty or that word |
| IstioWatcher.ExtractRegexGroups | src/istio-watcher/pkg/watcher/watcher.go:290-323 | every requested field holds what the name says or is empty; the error arises exactly if an unknown group occurs in the name |
| IstioWatcher.HasMissingInfo | src/istio-watcher/pkg/watcher/watcher.go:81-89 | a workload or namespace is empty or contains the word unknown, or the path is empty or unknown |
| IstioSpec.MissingInfoExactly | src/istio-watcher/pkg/watcher/watcher.go:81-89 | the same of any connection, the word standing somewhere in the text |
| IstioWatcher.BuildConnectionFromMetric | src/istio-watcher/pkg/watcher/watcher.go:325-337 | for the groups the watcher uses, missing information is the only failure |
| IstioWatcher.IstioWatcher.IsMetricNew | src/istio-watcher/pkg/watcher/watcher.go:278-288 | new means that the metric was never seen or had another value the last time, in any window, and the value is remembered |
| IstioWatcher.IstioWatcher.ConvertMetricsToConnections | src/istio-watcher/pkg/watcher/watcher.go:248-270 | every metric of every batch is taken in, in order, and the watcher is in the state that history leads to |
| IstioWatcher.IstioWatcher.Flush | src/istio-watcher/pkg/watcher/watcher.go:136-140 | hands over what is pending and keeps the remembered values |
| IstioRuns.LastValueIsLatest | src/istio-watcher/pkg/watcher/watcher.go:278-288 | over every history the remembered value is that of the last sighting of the metric, across flushes |
| IstioRuns.ReportedExactly | src/istio-watcher/pkg/watcher/watcher.go:248-288 | a sighting reports the connection its name spells out exactly unless the metric had the same value the last time it was seen |
| IstioRuns.PendingExactly | src/istio-watcher/pkg/watcher/watcher.go:248-270 | held are exactly the connections reported by new metrics since the last flush, each with the time of its latest report |
| IstioRuns.UnchangedMetricsStayQuiet | src/istio-watcher/pkg/watcher/watcher.go:136-140 | a window in which all metrics keep their values reports nothing, although the watcher was flushed before it |
| IstioMerge.ToGraphQLIstioConnections | src/istio-watcher/pkg/watcher/helpers.go:28-72 | in any map order there is exactly one result for each source, destination and path among the connections; its namespaces and service name are those of some of these connections, its methods exactly their known ones, and its time their latest |
| IstioMerge.ResultsSayExactly | src/istio-watcher/pkg/watcher/helpers.go:31-71 | the same of any list of the merged groups, each once |
| IstioMerge.MergedExactly | src/istio-watcher/pkg/watcher/helpers.go:31-69 | one result for each source, destination and path, with exactly the known methods of its group, each once, the latest time, and the rest from the connection visited first |
| IstioMerge.KnownMethodsExactly | src/istio-watcher/pkg/watcher/helpers.go:11-20 | exactly eight names are methods, each its own |
| IstioMerge.OrderMovesOnlyTheRest | src/istio-watcher/pkg/watcher/helpers.go:31-69 | two orders agree on pairs, sets of methods and times |
| IstioMerge.RestIsFixedIff | src/istio-watcher/pkg/watcher/helpers.go:32-48 | namespaces and service name do not depend on the order exactly if all connections of the pair agree on them |
| CloudUpload.Chunk | src/mapper/pkg/clouduploader/cloud_upload.go:104 | the chunking the other results are about |
| CloudUpload.ChunksArePrefixes | src/mapper/pkg/clouduploader/cloud_upload.go:104 | the first chunks hold the beginning of the input in order, and all of them hold all of it |
| CloudUpload.ChunkSizes | src/mapper/pkg/clouduploader/cloud_upload.go:104 | no chunk is empty or too large, and only the last may be small |
| CloudUpload.ReportRemaining | src/mapper/pkg/clouduploader/cloud_upload.go:106-116 | one attempt continues with the chunk that failed last and stops at the next failure |
| CloudUpload.AcknowledgedWasSent | src/mapper/pkg/clouduploader/cloud_upload.go:106-116 | acknowledged is exactly what was in a call that succeeded |
| CloudUpload.AcknowledgedOfBoth | src/mapper/pkg/clouduploader/cloud_upload.go:106-116 | what is acknowledged, and how often it failed, add up over successive calls |
| CloudUpload.AcknowledgedOfOne | src/mapper/pkg/clouduploader/cloud_upload.go:106-116 | a call acknowledges its chunk if it succeeds, and is one failure otherwise |
| CloudUpload.NotifyIntents | src/mapper/pkg/clouduploader/cloud_upload.go:102-119 | for every pattern of failures, the acknowledged chunks are an in-order prefix of the chunking, each once; success means exactly that all of them, hence the whole input, were acknowledged, so that every intent was in a call that succeeded; no chunk is empty or above the batch size |

## Left out

- Kubernetes clients and reconcilers, GraphQL and cloud clients, telemetry, configuration, webhooks, certificates: I/O plumbing.
- Packet capture and decoding, reading the process directory, name resolution: their outcomes are parameters. One scan is taken to report each pid once, as a process directory does.
- Goroutine scheduling and unsynchronised access: every method is one atomic step; freedom from data races is not claimed.
- Timers, tickers and the clock behind refresh intervals, except for the wall clock of the cache, the traffic collector and the Istio watcher, which is modelled. Which of its channels the sniffer's loop serves next is the order of calls.
- Machine integers: counts, sums and times are unbounded here.
- Strings are sequences of characters; Go's are bytes. The search for a dot is the same on both.
- Sharing of `Client` and `Server` pointers between stored intents, their callers and snapshots already handed out: intents are values here.
- Labels in handed-out intents: the code filters a copy and returns the original, so the labels to include have no effect on the result and are not modelled. Failures of the JSON copy are not modelled either.
- IntentsHolder.IntentsHolder.GetIntents: takes the labels to exclude as a map; cutting `key=value` strings apart is not modelled.
- `GroupIntentsBySource` and its deduplication: a simpler repeat of the grouping proved for the collector.
- The socket scanner, Kafka log and cloud-provider collectors, and the external, incoming, AWS, GCP and Azure holders: easier repeats of the modelled patterns.
- The caches that report only on change by checksum: they rest on hash collisions. The hash that keys metric values is taken to be injective.
- Chains of CNAME records: the code follows one step, and so does the model.
- The publisher's status patch is a parameter that says whether it was accepted, and the clients of a pass are the ones listed at its start.
- PublisherSpec.SettlesInTwoRounds: speaks of rounds in which every patch is accepted; PublisherPasses.PassesSettle covers refused ones.
- Back-off timing: how often an upload is retried is a parameter, and a chunk the cloud took in although its call failed is counted as not acknowledged.
