# Outline proxy: verified models of its routing, caching, carrier and parsing cores

This project models, in Dafny, the parts of the Outline proxy workspace whose
correctness is hardest to see from the code, and proves what they are for.

**Routing.** `Cidr`, `Domains` and `RoutingTable` cover the path from configured
prefixes and patterns to a decision: prefix to range, sort, merge, partition
point; suffix sets walked label by label; two-pass first-match resolution.
`HotReload` is the lock-free protocol around it: readers that load the version
and then one cell at a time, one watcher per rule that stores two cells and then
bumps the version, and swaps of the whole table. It is an interleaving of atomic
steps under sequential consistency, and its theorems hold in every reachable
state. `ReloadEffects` says what resolves, reloads and swaps achieve in its runs, and
`InvertedRules` follows the demands on inverted rules through them. `DomainPatterns`
says what a pattern means to whoever writes it.

**Caches and indexes.** `DnsStore` and `DnsCache` are the slot vector with its
hash index, under any hash function, with expiry, sweep and sampled eviction.
`IpAlias` is the longest-prefix table, `StickyCache` the cache of pinned sources,
and `OutboundPrefix` the byte-wise prefix mask, shown equal to the two other
prefix implementations of the workspace.

**Carrier queues.** `CarrierQueue` is the byte-budgeted queue with any number of
producers and the WebSocket writer that drains it, as a state machine;
`CarrierProgress` holds what its runs amount to, and `CarrierControl` what becomes of
control frames and covers. `CarrierSink` is the poll-driven producer half.

**Framing.** `PaddingFrames` is the padding frame and its streaming decoder,
`EarlyShape` the shaping planner, `CarrierPadding` the cutting and padding of
messages. `CarrierStream` puts framing and queue together: one sender's bytes from
the sink through queue and writer to the receiver's decoder.

**Parsers.** `CommentMask` and `CommentLexemes` are the comment masker of the
code indexer. `HelloReader`, `ClientHello` and `HelloEncoding` are the TLS
ClientHello parser and the encoding it inverts; `HelloMeaning` says what a parsed
message reports and which inputs parse. `H2Scanner` is the incremental HTTP/2
scanner, and `H2Replies` what a client makes of its output.

`Wrappers`, `Bits`, `Bytes`, `Addresses` and `Sorting` hold what the others share.

Clocks, random draws, file contents and hash functions are arguments or steps.
Code that works by updating variables is written as classes and loops, each
proved against a function or a predicate over values; the theorems are then
about those. `dafny verify dfyconfig.toml` checks the whole project.

Where the code and its own words disagree, the model follows the code:

- The documentation of the domain sets says a trailing dot is ignored. On the
  host `*` it is not: `*.` is stripped as a whole. Nor is a second one: `a..`
  normalises to `a.`, and `a.` to `a`. `Domains.TrailingDotIgnored` gives the exact
  condition, for every host.
- The same documentation has `example.com`, `.example.com` and `*.example.com`
  equivalent and stored suffixes without leading dots. Only one decoration is
  stripped: `..a` keeps a dot and `*.*.a` a star (`DomainPatterns.LeadingDotIgnored` and
  `DomainPatterns.LeadingStarIgnored`). Rejected are not only empty patterns but six
  (`DomainPatterns.RejectedIff`).
- A comment beside the tests of the DNS cache has the eviction sample cover the
  whole map at capacity 8. It does up to capacity 7, and no further
  (`DnsStore.ExactIffWindowCoversAll`, and `DnsCache.SamplingMissesTheOldest` on the
  cache itself).
- Compilation refuses an inverted rule with domains as ambiguous. A reload of such a
  rule tests only for empty prefixes, so domains can enter it later
  (`InvertedRules.ReloadAddsDomains`); `InvertedRules.StaysCleanIff` says exactly when
  they do not.
- The version counter of a swapped table is documented as continuing the old
  one. It exceeds everything the old table shows exactly when none of its
  watchers bumps after the swap's load; `HotReload.LateBumpCounterexample` is the
  run the control code describes as not structurally impossible.
- The carrier queue documents its memory bound as the budget plus one frame in
  flight. The frame in flight keeps its permits, so the budget covers it too;
  only a single frame larger than the whole budget can exceed it.
- The HTTP/2 scanner waits for the length of the connection preface and does not
  compare its bytes.
- Its header literals put every length into one byte. RFC 7541 reads that byte as
  the length only below 127; `H2Replies.BlockReadsBackIff` is the exact condition.

## Model

| member | source | states |
|---|---|---|
| `Cidr.RangeIsPrefix` | crates/outline-routing/src/cidr.rs:100-118 | the range of a prefix holds exactly the addresses that share its first bits, at every length of both families |
| `Cidr.ToRangeBounds` | crates/outline-routing/src/cidr.rs:100-118 | the mask and or idioms give the start with low bits cleared and a block of the right size, length 0 included |
| `Cidr.GrowLast` | crates/outline-routing/src/cidr.rs:126-134 | extending the last range by one that overlaps or touches it covers the union and stays canonical, at the maximum address too |
| `Cidr.Merge` | crates/outline-routing/src/cidr.rs:122-155 | sort and merge keep the covered set and yield ascending, disjoint, non-adjacent ranges |
| `Cidr.CanonicalUnique` | crates/outline-routing/src/cidr.rs:122-155 | two such range lists that cover the same numbers are the same list |
| `Cidr.PartitionPoint` | crates/outline-routing/src/cidr.rs:88-96 | bisection finds the boundary between ranges that start at or below the address and those above |
| `Cidr.ContainsNumber` | crates/outline-routing/src/cidr.rs:88-96 | looking at the one range before the partition point decides membership in the whole set |
| `Cidr.ContainsTarget` | crates/outline-routing/src/cidr.rs:49-55 | an address is contained when a range of its own family covers it, a domain never |
| `Cidr.Parse` | crates/outline-routing/src/cidr.rs:19-44 | parsing succeeds exactly when every entry parses, stops at the first bad one with its error, and otherwise holds an address exactly when some prefix of its family covers it |
| `Cidr.CompiledUnique` | crates/outline-routing/src/cidr.rs:19-44 | lists that denote the same addresses, whatever their order, duplication or splitting, compile to identical sets |
| `Addresses.CoversIff` | crates/outline-routing/src/cidr.rs:19-44 | a prefix string covers the addresses of its family that agree with it above its length, a bare address itself alone, and a malformed one nothing |
| `Addresses.ParsesIff` | crates/outline-routing/src/cidr.rs:23-40 | exactly a bare address, or one with a number up to its width, parses |
| `Cidr.ErrorOf` | crates/outline-routing/src/cidr.rs:28-40 | a length is too long only if it is an 8-bit number above the width; any other bad length is invalid |
| `Addresses.ShrIffClearLow` | crates/outline-net/src/ip_alias.rs:177-186 | agreeing after a right shift is agreeing after clearing the low bits |
| `Domains.ContainsNormalized` | crates/outline-routing/src/domain.rs:66-85 | the walk over dots finds a stored suffix exactly when the host equals one or ends in one right after a dot, or the set matches all |
| `Domains.LabelSuffixIffLabels` | crates/outline-routing/src/domain.rs:8-12 | such a suffix match is a match of whole trailing labels |
| `Domains.Parse` | crates/outline-routing/src/domain.rs:33-51 | parsing fails exactly at the first pattern that normalises to nothing; otherwise the set holds the normalised patterns and the wildcard flag |
| `Domains.ParsedMatches` | crates/outline-routing/src/domain.rs:59-61 | a parsed set matches a host exactly when one of the configured patterns does |
| `Domains.TrailingDotIgnored` | crates/outline-routing/src/domain.rs:106-115 | one more trailing dot changes nothing exactly when the host is not `*` and, its decorations stripped, does not end in a dot already |
| `DomainPatterns.NormalizedIff` | crates/outline-routing/src/domain.rs:101-115 | two hosts normalise alike exactly when, stripped, they are the same but for ASCII case, and the normal form is the one without capitals |
| `DomainPatterns.CaseInsensitive` | crates/outline-routing/src/domain.rs:8-10 | hosts that differ in ASCII case only normalise alike |
| `DomainPatterns.TrimStrips` | crates/outline-routing/src/domain.rs:37-37 | white space on both sides is taken off, and nothing else |
| `DomainPatterns.TrimSplits` | crates/outline-routing/src/domain.rs:37-37 | every text is white space, its trimmed form and white space |
| `DomainPatterns.LeadingDotIgnored` | crates/outline-routing/src/domain.rs:30-32 | a leading dot changes nothing exactly when no other decoration follows it |
| `DomainPatterns.LeadingStarIgnored` | crates/outline-routing/src/domain.rs:30-32 | a leading star label changes nothing exactly when no other one follows it |
| `DomainPatterns.PatternMatchesIff` | crates/outline-routing/src/domain.rs:8-12 | a pattern for a name, decorated or not, padded or not, in any case, matches a host exactly when the host is that name or ends in a dot and that name |
| `DomainPatterns.StarMatchesAll` | crates/outline-routing/src/domain.rs:37-41 | a list with a star in it, padded or not, matches every host |
| `DomainPatterns.RejectedIff` | crates/outline-routing/src/domain.rs:42-47 | rejected are exactly the patterns that, trimmed, are one of six made of decorations only |
| `RoutingTable.MatchDomainRules` | crates/outline-routing/src/table.rs:220-235 | the domain pass returns the decision of the first rule whose domain set matches |
| `RoutingTable.MatchIpRules` | crates/outline-routing/src/table.rs:237-249 | the address pass returns the first rule whose prefixes cover the address, negated where the rule inverts |
| `RoutingTable.ResolveDomainOrIp` | crates/outline-routing/src/table.rs:181-213 | both passes in order, then the default, for every pair of optional keys |
| `RoutingTable.SingleKeyAgrees` | crates/outline-routing/src/table.rs:145-160 | with one key the two-pass resolution is single-key resolution |
| `RoutingTable.CompileRule` | crates/outline-routing/src/table.rs:75-100 | a rule compiles exactly when its lists parse and it is neither inverted and empty nor inverted with domains; an error names the first fault in the order prefixes, patterns, inversion |
| `RoutingTable.Compile` | crates/outline-routing/src/table.rs:73-121 | the table compiles exactly when every rule does, and the error is that of the first rule that does not |
| `RoutingTable.ResolveMeansConfig` | crates/outline-routing/src/table.rs:181-257 | resolution on a compiled table is first match over the configured lists: a wildcard or suffix of the normalised host, else a covering prefix, else the default |
| `HotReload.StepKeeps` | crates/outline-routing/src/table.rs:360-380 | every step of readers, watchers and swaps keeps: readers with a current tag and idle watchers have seen only what the cells still hold, and each table's stamp follows its predecessor's version |
| `HotReload.RunKeeps` | crates/outline-routing/src/table.rs:308-404 | so does every run |
| `HotReload.StaleOnlyDuringReload` | crates/outline-routing/src/table.rs:145-160 | in every reachable state, a decision whose tag is still the table's version differs from a fresh resolve only while some watcher is between its first store and its bump |
| `HotReload.PublicationRisesIffNoLateBump` | crates/outline-routing/src/shared.rs:51-57 | a publication exceeds every version the outgoing table ever shows exactly when no watcher of that table bumps after the swap's load |
| `HotReload.VersionsRise` | crates/outline-routing/src/shared.rs:41-57 | without late bumps, versions strictly rise from each table to every later one |
| `HotReload.CurrentTagIsFresh` | crates/outline-routing/src/shared.rs:41-66 | through the shared handle and the 64-bit counter, a tag equal to the live version means the decision is what the live table decides, once reloads have finished; `ReloadEffects.ResolveReadsLive` says which tag and decision a resolve gets |
| `HotReload.ObservedIff` | crates/outline-routing/src/table.rs:379-380 | two versions show the same 64-bit number exactly when they are a multiple of 2^64 apart |
| `HotReload.LateBumpCounterexample` | bins/outline-ws-rust/src/http/control/apply.rs:88-101 | a run with one late bump in which an old decision looks current on an idle new table |
| `ReloadEffects.ResolveReadsLive` | crates/outline-routing/src/shared.rs:59-65 | from every reachable state a resolve can run to its end, and under every schedule that leaves its table alone two loads per rule and three more end it, with the decision and the version of the table that was live when it began |
| `ReloadEffects.ScheduleResolves` | crates/outline-routing/src/table.rs:181-213 | whatever else interleaves, enough loads end a resolve with the answer of the table it reads |
| `ReloadEffects.ResolveAlone` | crates/outline-routing/src/shared.rs:63-65 | run alone from any reachable state, a resolve ends with the live table's decision under the live version |
| `ReloadEffects.ReloadPossibleIff` | crates/outline-routing/src/table.rs:308-372 | exactly when a reload may start: at an idle watcher of a published table, replaced or not, unless it would empty an inverted rule |
| `ReloadEffects.ReloadInstalls` | crates/outline-routing/src/table.rs:360-380 | a finished reload that is the last of its rule has both its sets in the cells under a higher version, whatever ran in between, and it can finish |
| `ReloadEffects.CellsLast` | crates/outline-routing/src/table.rs:360-380 | in every run a rule's cells change only by a reload of that rule |
| `ReloadEffects.SwapInstalls` | crates/outline-routing/src/shared.rs:51-57 | however readers and watchers interleave, a published table is live exactly as handed in, under the version its swap chose |
| `ReloadEffects.ResolveAfterSwap` | crates/outline-routing/src/shared.rs:51-65 | after a whole swap from any reachable state a resolve answers for the new table under its live version |
| `InvertedRules.CompiledIsSound` | crates/outline-routing/src/table.rs:83-101 | what compilation accepts has prefixes and no domains in every inverted rule |
| `InvertedRules.StepKeepsSound` | crates/outline-routing/src/table.rs:362-372 | every step of readers, reloads and swaps of compiled tables keeps an inverted rule's prefixes from being empty |
| `InvertedRules.InvertedNeverTakesAll` | crates/outline-routing/src/table.rs:362-372 | so in every run an inverted rule leaves some address to the rules after it |
| `InvertedRules.StaysCleanIff` | crates/outline-routing/src/table.rs:362-380 | inverted rules stay without domains through a run exactly when no reload that gets to its second store read a domain for one |
| `InvertedRules.ReloadAddsDomains` | crates/outline-routing/src/table.rs:359-378 | a run in which an inverted rule that compiled without domains takes a domain after a reload |
| `DnsStore.Store.Find` | crates/outline-net/src/dns_cache.rs:157-162 | a key is found exactly when stored, also under colliding hashes |
| `DnsStore.Store.Push` | crates/outline-net/src/dns_cache.rs:164-170 | appending adds exactly the one binding and files its slot once |
| `DnsStore.SwapRemoveFiled` | crates/outline-net/src/dns_cache.rs:175-195 | the two probes of a removal find exactly the removed slot's element and the moved slot's, and acting on them leaves the index right |
| `DnsStore.SwapRemoveIndexed` | crates/outline-net/src/dns_cache.rs:175-195 | after the swap every slot is indexed exactly once under its own hash |
| `DnsStore.Store.RemoveAt` | crates/outline-net/src/dns_cache.rs:175-195 | removal takes away exactly the one binding and repoints the moved slot |
| `DnsStore.Store.Retain` | crates/outline-net/src/dns_cache.rs:197-209 | the backward loop keeps exactly the entries that pass and returns how many went |
| `DnsStore.PickVictim` | crates/outline-net/src/dns_cache.rs:363-392 | the victim is the first entry of the sampled window whose expiry has been reached, or its least recently accessed one when there is none |
| `DnsStore.NewestSurvives` | crates/outline-net/src/dns_cache.rs:363-392 | the newest entry is never the victim while it is alive |
| `DnsStore.ExactIffWindowCoversAll` | crates/outline-net/src/dns_cache.rs:363-379 | sampling finds the least recently used of all entries, whatever the window, exactly up to capacity 7 |
| `DnsCache.LastIsLatestPut` | crates/outline-net/src/dns_cache.rs:266-335 | the specification of a lookup: the value of the latest insert of the key that no eviction or sweep undid |
| `DnsCache.Cache.Get` | crates/outline-net/src/dns_cache.rs:266-285 | returns the last inserted value exactly when it is unexpired and was neither evicted nor swept, and makes the key the most recent |
| `DnsCache.Cache.GetStale` | crates/outline-net/src/dns_cache.rs:287-302 | the same without regard to expiry |
| `DnsCache.Cache.EvictOne` | crates/outline-net/src/dns_cache.rs:363-392 | removes exactly one entry, chosen in the sampled window, and nothing from an empty store |
| `DnsCache.Cache.Insert` | crates/outline-net/src/dns_cache.rs:304-335 | stays within capacity, evicts exactly when a new key meets a full cache, never evicts the inserted key before its expiry, and is exact LRU up to capacity 7 with nothing expired |
| `DnsCache.SamplingMissesTheOldest` | crates/outline-net/src/dns_cache.rs:363-379 | from capacity 8 on, under any hash function, a cache filled in turn evicts the second oldest entry and keeps the oldest when the window drawn leaves it out |
| `DnsCache.Cache.SweepExpired` | crates/outline-net/src/dns_cache.rs:341-346 | what is left are exactly the entries whose expiry plus the grace period lies ahead, each as it was; the others are counted |
| `DnsCache.EvictLeastIsLru` | crates/outline-net/src/dns_cache.rs:363-392 | evicting the least accessed entry after the access stamps of the cache is insertion into a recency list |
| `IpAlias.MaskBitsIffSamePrefix` | crates/outline-net/src/ip_alias.rs:177-186 | two addresses mask alike exactly when they share the prefix |
| `IpAlias.AddPrefix` | crates/outline-net/src/ip_alias.rs:96-122 | one prefix joins its family's bucket unless the same subnet is there under the same alias; another alias for it is refused |
| `IpAlias.Build` | crates/outline-net/src/ip_alias.rs:84-127 | the table is built exactly on well-formed, unambiguous configuration and holds it; an error names the fault of the first entry that has one |
| `IpAlias.GroupByPrefix` | crates/outline-net/src/ip_alias.rs:158-175 | groups by falling prefix length, ascending inside, with exactly the given entries |
| `IpAlias.BinarySearch` | crates/outline-net/src/ip_alias.rs:140-146 | finds a network exactly when the group has it |
| `IpAlias.Resolve` | crates/outline-net/src/ip_alias.rs:130-148 | the answer is a longest match, and on unambiguous configuration the linear scan's: of the IPv4 address inside an address of ::ffff:0:0/96, and of any other address itself |
| `IpAlias.CanonicaliseFoldsMapped` | crates/outline-net/src/ip_alias.rs:131-134 | every IPv4-mapped address becomes the IPv4 address it carries, and no other address changes |
| `IpAlias.LinearScanIsLongest` | crates/outline-net/src/ip_alias.rs:130-148 | the reference: one scan over all configured pairs finds a longest covering one |
| `IpAlias.ResolveIsLinearScan` | crates/outline-net/src/ip_alias.rs:130-148 | on accepted configuration the longest match and the alias the linear scan returns are the same |
| `IpAlias.OrderIndependent` | crates/outline-net/src/ip_alias.rs:84-148 | neither acceptance nor any answer depends on the order or grouping of entries |
| `OutboundPrefix.MaskToPrefix` | bins/outline-ss-rust/src/outbound.rs:108-115 | the loop over the octets masks every byte |
| `OutboundPrefix.New` | bins/outline-ss-rust/src/outbound.rs:64-73 | lengths above 128 are refused, every other prefix is stored masked |
| `OutboundPrefix.MaskIdempotent` | bins/outline-ss-rust/src/outbound.rs:108-115 | masking a masked address changes nothing |
| `OutboundPrefix.RandomAddr` | bins/outline-ss-rust/src/outbound.rs:75-86 | network bits from the prefix, all other bits from the draw |
| `OutboundPrefix.DrawsAreThePrefix` | bins/outline-ss-rust/src/outbound.rs:75-106 | every draw masks back to its prefix, and every address of the prefix can be drawn |
| `OutboundPrefix.MasksAgree` | bins/outline-ss-rust/src/outbound.rs:95-115 | byte-wise mask, shift mask and range start are one number at every length, and an address is in the range exactly when its mask is the network |
| `StickyCache.StickyIpv6Cache.SourceFor` | bins/outline-ss-rust/src/outbound.rs:368-398 | a live pin answers; otherwise a drawn source is pinned after making room, and a failed or empty draw is passed on |
| `StickyCache.StickyIpv6Cache.EvictIfFull` | bins/outline-ss-rust/src/outbound.rs:400-411 | makes room by dropping expired pins, and only if that is not enough the one soonest to expire |
| `StickyCache.LivePinSurvives` | bins/outline-ss-rust/src/outbound.rs:368-411 | a live pin is gone after a call exactly when the call pins another destination without a live pin, the cache is full of live pins, none of which expires sooner, and this one is dropped; otherwise it is unchanged |
| `StickyCache.PinnedUntilDropped` | bins/outline-ss-rust/src/outbound.rs:368-411 | over every run a pin stays until its expiry or until such a call drops it |
| `StickyCache.SameSourceWhileLive` | bins/outline-ss-rust/src/outbound.rs:368-398 | in every run a destination keeps getting its pinned source while the pin is live and no such call has dropped it |
| `StickyCache.CapHolds` | bins/outline-ss-rust/src/outbound.rs:400-411 | the cap holds throughout every run |
| `StickyCache.NeverExpired` | bins/outline-ss-rust/src/outbound.rs:368-398 | an answer is an unexpired pin or the address just drawn and pinned for the time to live |
| `StickyCache.AnswersWithinTtl` | bins/outline-ss-rust/src/outbound.rs:368-398 | in every run from an empty cache an answered source was drawn for that destination by this call, or by one whose time to live has not passed |
| `StickyCache.StickyForTtl` | bins/outline-ss-rust/src/outbound.rs:368-398 | in every run a drawn source answers every call for its destination for the whole time to live, unless it is dropped from a cache full of live pins |
| `StickyCache.NothingPinned` | bins/outline-ss-rust/src/outbound.rs:368-398 | a call without a source to give leaves none pinned, and neither a live pin's answer nor a failed draw changes anything |
| `CarrierQueue.PermitsFor` | crates/outline-transport/src/carrier_queue.rs:72-74 | at least one permit, never more than exist, one per byte in between |
| `CarrierQueue.StepConserves` | crates/outline-transport/src/carrier_queue.rs:130-153 | every step keeps free, waiting, queued and in-flight permits equal to the budget |
| `CarrierQueue.StepCharges` | crates/outline-transport/src/carrier_queue.rs:130-153 | every step keeps frames past the permit stage fully charged and only the front request partly granted |
| `CarrierQueue.StepOrders` | crates/outline-transport/src/frame_io_ws.rs:141-225 | every step keeps wire and pending frames equal to what was enqueued, in order |
| `CarrierQueue.StepClosesLast` | crates/outline-transport/src/frame_io_ws.rs:174-222 | every step keeps a Close the last thing on the wire |
| `CarrierQueue.RunKeeps` | crates/outline-transport/src/frame_io_ws.rs:141-225 | so does every run of producers, control senders, cover timer, writer and abort, whichever producer with permits takes the next slot |
| `CarrierProgress.ResidentBytesBounded` | crates/outline-transport/src/carrier_queue.rs:16-22 | resident bytes stay within the budget or are those of one single oversized frame |
| `CarrierProgress.ReleaseOnlyAfterWrite` | crates/outline-transport/src/frame_io_ws.rs:177-185 | while the writer runs, permits come back for the frame written last, in full, or from a producer that gave up |
| `CarrierProgress.WireIsFaithful` | crates/outline-transport/src/frame_io_ws.rs:174-189 | data on the wire is a prefix of what was enqueued, nothing follows a Close, every frame queued ahead of it was written, and all frames were when the senders were dropped |
| `CarrierProgress.FrontCanBeGranted` | crates/outline-transport/src/carrier_queue.rs:66-74 | a producer waits only for permits that exist: with the queue drained, all it misses is free |
| `CarrierProgress.NeverWedges` | crates/outline-transport/src/carrier_queue.rs:66-74 | a running carrier can always move on until everything sent is written |
| `CarrierProgress.StepAccounts` | crates/outline-transport/src/carrier_queue.rs:130-153 | every step accounts for every frame: those in the carrier change only by the one asked for or given up, and what is enqueued stays enqueued in order |
| `CarrierProgress.RunAccounts` | crates/outline-transport/src/carrier_queue.rs:130-153 | so does every run, failures included |
| `CarrierProgress.OvertakingReordersIff` | crates/outline-transport/src/carrier_queue.rs:135-141 | permits and slot are awaited one after the other, so any producer with permits may enqueue next; the order in which permits were asked for survives exactly when it passes no different frame |
| `CarrierProgress.OvertakingHappens` | crates/outline-transport/src/carrier_queue.rs:135-141 | a run in which the producer that asked later enqueues first |
| `CarrierProgress.MovingOnWorks` | crates/outline-transport/src/frame_io_ws.rs:157-222 | whichever of its own steps the carrier takes, the work left shrinks and no frame is lost; only overtaking changes their order |
| `CarrierProgress.SchedulesEnd` | crates/outline-transport/src/frame_io_ws.rs:157-222 | in every schedule, new sends, pings, covers and cancellations included, the carrier takes at most as many own steps as there was work and was brought in |
| `CarrierProgress.NothingAfterTheEnd` | crates/outline-transport/src/frame_io_ws.rs:177-189 | in every run, once the writer has ended nothing more is written |
| `CarrierProgress.NoFailureEndsCleanly` | crates/outline-transport/src/frame_io_ws.rs:172-189 | without a failing write or an abort the writer still runs or has ended with a Close on the wire |
| `CarrierProgress.EveryScheduleDelivers` | crates/outline-transport/src/frame_io_ws.rs:353-361 | every schedule of every step without a failing write or an abort: when the carrier has no own step left, the wire holds what was enqueued before, in order, and exactly the frames then in the carrier and asked for since but those given up; or it stopped at a Close behind everything enqueued ahead; after the senders are dropped the wire ends in a Close |
| `CarrierProgress.Drains` | crates/outline-transport/src/frame_io_ws.rs:583-593 | from every running state some schedule delivers everything sent or being sent, in order |
| `CarrierControl.RunControls` | crates/outline-transport/src/frame_io_ws.rs:162-173 | in every run the control frames written and waiting are those there were and those accepted since, in order |
| `CarrierControl.ControlDelivered` | crates/outline-transport/src/frame_io_ws.rs:162-173 | in every run that leaves the carrier running without a step of its own, every control frame accepted is on the wire, in order |
| `CarrierControl.CleanEndAfterControl` | crates/outline-transport/src/frame_io_ws.rs:162-190 | neither a Close nor the end of the queue cuts off a control frame accepted before |
| `CarrierControl.ControlGoesFirst` | crates/outline-transport/src/frame_io_ws.rs:162-196 | in every run, until the control frames waiting at its start are written, at most the data frame then being written goes out, and no cover |
| `CarrierControl.CoverMeansCaughtUp` | crates/outline-transport/src/frame_io_ws.rs:146-196 | a cover goes out only when everything enqueued and every control frame accepted is on the wire |
| `CarrierControl.StepCovers` | crates/outline-transport/src/frame_io_ws.rs:191-196 | covers on the wire are exactly the cover writes that went through |
| `CarrierControl.SlotsFill` | crates/outline-transport/src/carrier_queue.rs:60-64 | any number of frames up to 256 can wait in the queue, and then no producer enqueues |
| `CarrierControl.ChannelFills` | crates/outline-transport/src/frame_io_ws.rs:139-139 | up to eight control frames can wait, and a ninth is refused |
| `CarrierControl.OthersAreFree` | crates/outline-transport/src/carrier_queue.rs:126-153 | whatever the writer is doing, frames may be sent while a sending half is alive, sends under way given up, control frames put into a channel with room, and a running writer aborted |
| `CarrierControl.CloseSkipsBudget` | crates/outline-transport/src/carrier_queue.rs:144-153 | with a free slot a Close is enqueued at once and without permits, however many bytes are queued |
| `CarrierSink.BudgetedSink.Stage` | crates/outline-transport/src/carrier_queue.rs:189-192 | parks one frame with its size and the charge of that size |
| `CarrierSink.BudgetedSink.AcquireMany` | crates/outline-transport/src/carrier_queue.rs:204-210 | one poll of the semaphore: a parked request is resumed, one for another amount is dropped first |
| `CarrierSink.BudgetedSink.PollFlushQueue` | crates/outline-transport/src/carrier_queue.rs:196-218 | one poll: permits, then a slot, with conservation and order kept |
| `CarrierSink.BudgetedSink.Close` | crates/outline-transport/src/carrier_queue.rs:221-225 | drops the staged frame and gives its permits back |
| `CarrierSink.RepollIsNoOp` | crates/outline-transport/src/carrier_queue.rs:180-183 | polling a waiting sink again changes nothing and never holds more than one charge |
| `CarrierSink.FlushSucceedsIff` | crates/outline-transport/src/carrier_queue.rs:196-218 | a poll succeeds exactly when nothing is staged, or permits, an open queue and a slot are there, and then enqueues the frame at its charge; it fails exactly when the permits are there and the queue is closed |
| `CarrierSink.CaughtUpFlushes` | crates/outline-transport/src/carrier_queue.rs:66-74 | once the consumer has caught up a frame of any size goes out |
| `CarrierSink.BudgetBeforeSlot` | crates/outline-transport/src/carrier_queue.rs:203-213 | a sink that waits for permits occupies no slot, one that waits for a slot has its permits |
| `CarrierSink.ClosedReturnsPermits` | crates/outline-transport/src/carrier_queue.rs:221-225 | closing a consumed queue leaves every permit free but those of a parked request |
| `CarrierSink.EveryRun` | crates/outline-transport/src/carrier_queue.rs:167-225 | in every run permits are conserved, the frames staged are those asked for, each charged one permit per byte within one and the budget, and they are enqueued and received in that order, at most once, at that charge |
| `CarrierSink.HeldBytesBounded` | crates/outline-transport/src/carrier_queue.rs:16-22 | in every run the bytes of the frames that hold permits stay within the budget, or are those of one single larger frame |
| `CarrierSink.NothingAfterClose` | crates/outline-transport/src/carrier_queue.rs:221-225 | in every run after closing, nothing more is enqueued |
| `CommentMask.MaskComments` | scripts/code-index.py:112-211 | the loop over flags and counters computes the mask, terminates, keeps length and newlines, and changes characters only to spaces |
| `CommentMask.MaskKeepsLayout` | scripts/code-index.py:113-113 | from every mode, masked text has the same length and newlines |
| `CommentMask.NextOfMasked` | scripts/code-index.py:145-209 | kept text is lexed the same before and after masking what follows it |
| `CommentMask.MaskIdempotent` | scripts/code-index.py:112-211 | masking twice is masking once, on every string |
| `CommentLexemes.NestedBody` | scripts/code-index.py:126-138 | the depth counter blanks exactly a properly nested comment body and is back at its depth after it |
| `CommentLexemes.QuotedBody` | scripts/code-index.py:151-175 | a string or char literal ends at the first quote that is not escaped |
| `CommentLexemes.RawBody` | scripts/code-index.py:140-149 | a raw string ends at the first quote followed by enough hashes |
| `CommentLexemes.MaskIsLexemewise` | scripts/code-index.py:112-211 | masking blanks the comments of a text and leaves every other lexeme as it is |
| `CommentLexemes.EveryTextHasLexemes` | scripts/code-index.py:112-211 | every text is such a sequence of lexemes, unterminated ones included |
| `PaddingFrames.PadLenCoversRange` | crates/outline-wire/src/padding.rs:150-153 | the pad lengths drawn are exactly those of the configured range |
| `PaddingFrames.Scheme.PadLenCapped` | crates/outline-wire/src/padding.rs:163-166 | a capped draw fits the cap and is the ordinary draw when the cap does not bind |
| `PaddingFrames.CappedCoversRange` | crates/outline-wire/src/padding.rs:163-166 | with a cap the drawn lengths are exactly the part of the range that fits, or the cap itself below the range |
| `PaddingFrames.FrameLayout` | crates/outline-wire/src/padding.rs:191-204 | both lengths as two bytes, high byte first, then the payload, then the pad |
| `PaddingFrames.EncodeFrameInto` | crates/outline-wire/src/padding.rs:191-204 | a frame is appended, or the segment that is too large is reported |
| `PaddingFrames.FoldAppend` | crates/outline-wire/src/padding.rs:206-208 | decoding in two parts is decoding at once |
| `PaddingFrames.ChunkingIsIrrelevant` | crates/outline-wire/src/padding.rs:284-287 | the decoder's state and payload do not depend on how the bytes are cut |
| `PaddingFrames.FoldIsBulk` | crates/outline-wire/src/padding.rs:287-345 | copying a run of bytes at once is taking them one by one, the control probe included |
| `PaddingFrames.PaddingDecoder.Push` | crates/outline-wire/src/padding.rs:287-345 | the bulk loop over header, payload and pad computes the byte-by-byte decoding |
| `PaddingFrames.PaddingDecoder.TakeControl` | crates/outline-wire/src/padding.rs:280-282 | hands out the recognised signal once |
| `PaddingFrames.DecodeFrame` | crates/outline-wire/src/padding.rs:191-204 | a frame yields its payload and none of its pad, ends at a boundary, and raises a signal exactly when a pad-only frame carries one |
| `PaddingFrames.PartialFrame` | crates/outline-wire/src/padding.rs:284-345 | after any part of a frame exactly the payload bytes in that part have been handed out |
| `PaddingFrames.SignalRaisedIff` | crates/outline-wire/src/padding.rs:88-96 | a frame raises the signal exactly when it has no payload and its pad starts with the magic, version 1 and operation 1 |
| `PaddingFrames.DecodeControlFrame` | crates/outline-wire/src/padding.rs:174-185 | a control frame delivers its signal and no payload |
| `EarlyShape.Cut` | crates/outline-wire/src/early_shape.rs:102-120 | at least two pieces, all of the size asked for, the tail too, whatever is drawn; a possible draw is the size of its piece |
| `EarlyShape.EarlyShaper.MakePlan` | crates/outline-wire/src/early_shape.rs:80-125 | the pieces sum to the message, only what the window covers is cut, at the drawn sizes, and the window is charged |
| `EarlyShape.SessionBounded` | crates/outline-wire/src/early_shape.rs:51-76 | over a whole session the window bounds the messages cut and the bytes cut, and covers come at most once |
| `EarlyShape.SessionShapes` | crates/outline-wire/src/early_shape.rs:51-125 | in every session, on the message lengths alone: exactly the messages with more than 900 (1500 downlink) bytes inside the window are cut, into pieces of 300 to 850 (600 to 2800) bytes and the rest; covers come exactly before the first of them, if at all; all others go out whole |
| `EarlyShape.ClosedWindowPassesThrough` | crates/outline-wire/src/early_shape.rs:80-83 | once the window is closed every message goes out whole |
| `CarrierPadding.EvenPieces` | crates/outline-transport/src/carrier_padding.rs:300-305 | pieces sum to the length, are within the cap and differ by at most one byte |
| `CarrierPadding.FewestPieces` | crates/outline-transport/src/carrier_padding.rs:300-305 | no cut within the cap has fewer pieces |
| `CarrierPadding.FramePayloadInto` | crates/outline-transport/src/carrier_padding.rs:202-227 | full segments without pad, then the last one with it; no data is one pad-only frame |
| `CarrierPadding.DecodeFramed` | crates/outline-transport/src/carrier_padding.rs:202-227 | decoding gives the payload back at a frame boundary, however many segments it took |
| `CarrierPadding.FramedLength` | crates/outline-transport/src/carrier_padding.rs:194-198 | the wire carries the payload, one header per segment and the pad once |
| `CarrierPadding.PadIsLast` | crates/outline-transport/src/carrier_padding.rs:194-198 | only the last segment is padded |
| `CarrierPadding.CappedFitsOneRecord` | crates/outline-transport/src/carrier_padding.rs:276-293 | a piece within the cap, padded at most and behind its WebSocket header, fits one DATA frame of one TLS record; `CarrierPadding.CapIsLargestFit` says when there is a cap |
| `CarrierPadding.CapIsLargestFit` | crates/outline-transport/src/carrier_padding.rs:271-293 | there is a cap exactly when pieces of 1024 bytes or more can always leave in one record, padding on or off, and it is the largest such length |
| `CarrierPadding.MessageDelivers` | crates/outline-transport/src/carrier_padding.rs:319-330 | a message delivers exactly its piece |
| `CarrierPadding.DeliversAppend` | crates/outline-transport/src/carrier_padding.rs:319-330 | messages one after the other deliver their data one after the other |
| `CarrierPadding.CoverDelivers` | crates/outline-transport/src/carrier_padding.rs:360-366 | a cover delivers nothing to a decoder, and is data like any other without one |
| `CarrierPadding.H2CappedMessages` | crates/outline-transport/src/carrier_padding.rs:311-331 | one message per even piece, in order, framed with its own pad; they carry the frame and each fit one record |
| `CarrierPadding.CutPiecesKeepSum` | crates/outline-transport/src/carrier_padding.rs:350-357 | cutting every planned piece to the cap keeps the total |
| `CarrierPadding.WindowPiecesStay` | crates/outline-transport/src/carrier_padding.rs:338-341 | the cap never changes a client's pieces inside the window and cuts evenly what is past the byte budget |
| `CarrierPadding.ShapedMessages` | crates/outline-transport/src/carrier_padding.rs:342-380 | covers of the planned sizes first, then one message per planned piece, cut to the cap; they carry the frame exactly when padding is on or there are no covers, and each fits one record under the cap |
| `CarrierStream.WsFrameSink.constructor` | crates/outline-transport/src/frame_io_ws.rs:497-533 | the shaping window and its covers are those drawn, covers only with padding on, and the cap on h2 is that of the scheme |
| `CarrierStream.WsFrameSink.MessagesOf` | crates/outline-transport/src/frame_io_ws.rs:292-351 | what a frame becomes follows the plan of the window while it is open, and is one piece otherwise, cut to the cap on h2; it always carries the frame, and fits one record per message on h2 |
| `CarrierStream.StepInOrder` | crates/outline-transport/src/carrier_queue.rs:130-142 | with one sender that awaits each send nobody is overtaken: the carrier holds its messages in the order sent |
| `CarrierStream.RunInOrder` | crates/outline-transport/src/frame_io_ws.rs:292-351 | so in every run of such a sender |
| `CarrierStream.WireDecodes` | crates/outline-transport/src/frame_io_ws.rs:141-225 | what stands on the wire, covers and control frames between, decodes to the pieces written so far |
| `CarrierStream.MessagesArrive` | crates/outline-transport/src/frame_io_ws.rs:141-225 | in every run of one sender, failing writes and dropped sends included, the receiver decodes a prefix of what the messages not taken back carry and stands at a frame boundary; all of it when the writer ended because the sender was dropped |
| `CarrierStream.StreamArrives` | crates/outline-transport/src/frame_io_ws.rs:353-361 | so for the byte stream whose frames were cut into those messages |
| `HelloReader.Take` | scripts/fingerprint-drift/hello.py:44-49 | a read of n bytes succeeds exactly when n are left, and takes those |
| `HelloReader.Reader.TakeN` | scripts/fingerprint-drift/hello.py:44-49 | the offset never passes the end of the input, and a failed read does not move it |
| `HelloReader.Reader.ReadVec` | scripts/fingerprint-drift/hello.py:54-55 | a vector behind its own length |
| `HelloReader.Reader.ReadVarint` | scripts/fingerprint-drift/hello.py:57-62 | the loop of shifts and ors reads the number its size bits announce |
| `HelloReader.VecInverts` | scripts/fingerprint-drift/hello.py:54-55 | reading a vector inverts writing it |
| `HelloReader.VarintInverts` | scripts/fingerprint-drift/hello.py:57-62 | reading inverts the encoding of section 16 of RFC 9000 in every size that fits |
| `HelloReader.VarintReads` | scripts/fingerprint-drift/hello.py:57-62 | every number read is such an encoding, in the size its first byte announces |
| `HelloReader.VarintCovers` | scripts/fingerprint-drift/hello.py:57-62 | every number below 2^62 has such an encoding |
| `ClientHello.GreaseValues` | scripts/fingerprint-drift/hello.py:25-27 | the mask test picks exactly the sixteen GREASE values of RFC 8701 |
| `ClientHello.GreaseParameters` | scripts/fingerprint-drift/hello.py:30-32 | exactly the reserved transport parameters of section 18.1 of RFC 9000 |
| `ClientHello.ReadU16s` | scripts/fingerprint-drift/hello.py:68-73 | the loop reads the whole list or reports truncation |
| `ClientHello.ReadVecs` | scripts/fingerprint-drift/hello.py:76-81 | the same for lists of short vectors |
| `ClientHello.ReadShareGroups` | scripts/fingerprint-drift/hello.py:84-91 | the same for key shares, whose keys are skipped |
| `ClientHello.ReadParams` | scripts/fingerprint-drift/hello.py:111-121 | the same for transport parameters |
| `ClientHello.ReadExt` | scripts/fingerprint-drift/hello.py:151-174 | one extension is listed and its field replaced |
| `ClientHello.ParseClientHello` | scripts/fingerprint-drift/hello.py:124-175 | the parser over nested readers computes the parse of the message, which `HelloMeaning.ParsesIffEncoding` characterises for every input |
| `ClientHello.ParseOutcome` | scripts/fingerprint-drift/hello.py:124-128 | how every input ends: another first byte is another message, missing bytes are truncation, and bytes past the length field are never looked at |
| `HelloEncoding.U16sInvert` | scripts/fingerprint-drift/hello.py:68-73 | reading a list of numbers inverts writing it |
| `HelloEncoding.SharesInvert` | scripts/fingerprint-drift/hello.py:84-91 | the groups of a key-share list come back in order |
| `HelloEncoding.ParamsInvert` | scripts/fingerprint-drift/hello.py:111-121 | transport parameters come back in order, reserved ones masked |
| `HelloEncoding.ParseExtInverts` | scripts/fingerprint-drift/hello.py:154-174 | the content of every known extension comes back |
| `HelloEncoding.ParseInvertsEncode` | scripts/fingerprint-drift/hello.py:124-175 | parsing the encoding of a well-formed message, bytes behind its lists and its extensions included, gives back the fields built from it; `HelloMeaning.ParseReports` says what those are |
| `HelloEncoding.PrefixIsTruncated` | scripts/fingerprint-drift/hello.py:44-46 | every message cut short is refused as truncated |
| `HelloEncoding.ExtensionsListed` | scripts/fingerprint-drift/hello.py:151-153 | extensions are listed once each, in order, and the ciphers stay |
| `HelloEncoding.LastWins` | scripts/fingerprint-drift/hello.py:154-174 | the last extension of a kind decides its field |
| `HelloEncoding.AbsentUnchanged` | scripts/fingerprint-drift/hello.py:136-149 | a field no extension writes keeps its default |
| `HelloMeaning.ParseReports` | scripts/fingerprint-drift/hello.py:35-36 | for every message: ciphers, extension codes, groups, key shares, signature algorithms and versions entry by entry, masked exactly at the sixteen GREASE values; protocol names as ASCII; transport parameters masked exactly at 31 n + 27; the last extension of a field decides it; fields of absent extensions are empty |
| `HelloMeaning.ParsesIffEncoding` | scripts/fingerprint-drift/hello.py:124-175 | an input parses exactly when it is the encoding of a message followed by anything, to what that message reports; otherwise the error is another message on another first byte and truncation on all else |
| `HelloMeaning.ExtReads` | scripts/fingerprint-drift/hello.py:154-174 | content the parser of an extension accepts is the content of such an extension |
| `H2Scanner.Connection.HandleH2` | scripts/fingerprint-drift/tls_sink.py:81-103 | the loop over the buffer handles the complete frames ahead, leaves the unfinished one, and fails at a HEADERS frame whose response does not fit its length fields, past that frame and with nothing sent for it |
| `H2Scanner.Connection.Receive` | scripts/fingerprint-drift/tls_sink.py:130-148 | after any chunk, position, replies and failure are what the bytes so far determine; after a failure nothing is read |
| `H2Scanner.CompleteAppend` | scripts/fingerprint-drift/tls_sink.py:87-91 | more bytes leave the frames found so far as they are, and add none to an ended scan |
| `H2Scanner.FailedIsFinal` | scripts/fingerprint-drift/tls_sink.py:130-148 | what a failed connection has done does not depend on the bytes that follow |
| `H2Scanner.EncodableNeverFails` | scripts/fingerprint-drift/tls_sink.py:95-103 | a scan never ends early when responses fit |
| `H2Scanner.ChunkingIsIrrelevant` | scripts/fingerprint-drift/tls_sink.py:81-103 | any split of the bytes ends where delivering them at once ends, with the same replies and the same failure |
| `H2Scanner.CompleteInverts` | scripts/fingerprint-drift/tls_sink.py:87-95 | the scanner finds exactly the frames that were sent, laid out as in section 4.1 of RFC 9113, up to an unfinished one or the one it fails at |
| `H2Scanner.StreamIdDropsReservedBit` | scripts/fingerprint-drift/tls_sink.py:93-93 | only the reserved bit of the stream number is dropped |
| `H2Scanner.ReplyReadsBack` | scripts/fingerprint-drift/tls_sink.py:95-103 | a response is a HEADERS and a DATA frame on the request's stream, with the page in the second |
| `H2Replies.BlockReadsBackIff` | scripts/fingerprint-drift/tls_sink.py:61-64 | the header block is what RFC 7541 writes exactly when no extra name or value has 127 bytes or more, and then reads back as status 200, the content type and the extra headers, names and values in order |
| `H2Replies.SessionReadsBack` | scripts/fingerprint-drift/tls_sink.py:81-103 | however the client's bytes are split, after 24 bytes, whole frames and an unfinished one the output reads as the settings, their acknowledgement and, for every HEADERS frame in order, the response on its stream, and nothing else |
| `H2Replies.FailsAtFirstRequest` | scripts/fingerprint-drift/tls_sink.py:95-103 | with a response that does not fit its length fields the connection ends exactly when a request comes, having sent the settings only |
| `H2Replies.SilentBeforePreface` | scripts/fingerprint-drift/tls_sink.py:82-86 | until 24 bytes are in nothing is sent |

## Left out

- Sockets, TLS, DNS lookups, file reading and modification times: a reload, a write or a lookup is a step or an argument with any outcome.
- Parsing of address strings: the model starts from parsed numbers; whether the text before and after the slash parses is part of the input.
- Memory orderings weaker than sequential consistency in the routing table.
- Concurrent use of the DNS cache and of the sticky cache: their calls are taken as atomic.
- DnsCache.Cache.Insert: protection of the inserted key and exact LRU are stated for the first 2^64 access stamps, because the stamp counter wraps there.
- DnsStore.Store.Probe: a probe may visit elements of other hashes, because the layout of the hash table is not modelled.
- HotReload.CurrentTagIsFresh: for fewer than 2^64 versions between tag and comparison, because the counter wraps there.
- CarrierProgress.EveryScheduleDelivers: schedules with a failing write or an abort are covered by the safety results only, because such a writer drops what it holds.
- CarrierSink.BudgetedSink.Close: a request parked in the semaphore keeps the permits it was granted, as the underlying semaphore wrapper does.
- Cover timing, keepalive intervals and the bound on waiting for the writer to stop: a cover or a ping may come whenever the writer is idle.
- The distribution of random draws; only their range is modelled.
- Padding of single datagrams against a path limit, beyond the capped draw.
- Hexadecimal rendering in the ClientHello fields: byte strings are kept as bytes.
- The HTTP/1.1 side of the TLS sink, ClientHello record collection, dial planning, health weights, metrics, configuration, user interfaces and platform shells.
