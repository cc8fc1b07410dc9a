# frr-visible: the read plane, verified

frr-visible wraps an FRR router in a read plane: ingesters turn what the routing daemons and the kernel push
(netlink nexthop messages, BMP route monitoring, OSPF neighbor tables) into a cache, and exporters turn streams and
tables into derived views: a path trace, a convergence trace, a merged cross-device timeline, a per-prefix lineage.
This project models those views and proves when they are faithful to what they are derived from.

| module | what it models |
|---|---|
| `PathTrace`, `Fib`, `Orbit` | the bounded walk over (node, label stack), its route lookup, and the unbounded forwarding it stands for |
| `Correlate` | the correlator of one node: a stream of events and timer ticks folded into traces |
| `Sorting`, `Grouping`, `Merge`, `MergeOrder` | the cross-device aggregator: sort, greedy clustering, merging, export times |
| `Lineage` | the tracker that joins three observation planes per prefix, with its edge-triggered alarm |
| `Bytes`, `Netlink`, `Nexthop` | netlink attributes, nested MPLS encapsulation, nexthop objects and their resolution |
| `RouteText`, `Nlri`, `BgpUpdate` | BGP UPDATE messages: attributes, labelled VPN-IPv4 and EVPN lists, route targets |
| `Ospf`, `OspfHistory`, `OspfProtocol` | the OSPF reconciliation, what a series of them amounts to, and the trigger protocol around it |
| `ForwardingLaws`, `FibLaws`, `CorrelateLaws`, `MergeLaws`, `LineageLaws`, `NexthopLaws`, `BgpMessages`, `OspfLaws` | what the specifications of those modules mean in terms of table entries, event times, texts and octets |
| `Text`, `Sequences`, `Wrappers` | the string library calls the program relies on, two facts of arithmetic and lists, and `Option` |

Code that works by changing things step by step is a method or a class, proved against a specification function or
predicate; the lemmas then say what that specification means. An encoder written from the standard is the partner
of each decoder.

Main results:

- The path walk answers true exactly when the packet arrives in fewer than 24 forwarding steps; with at most 24
  reachable configurations that is the same as ever arriving, an exhausted budget is a forwarding loop, and 24 is
  sharp (`Trace`, `BudgetIsComplete`, `ExhaustionIsALoop`, `BudgetIsTight`). Tunnels carry inner labels unread.
- Route lookup depends on the iteration order of a map if and only if the longest matching network is spelled twice.
- Timer ticks never change what the correlator makes of time-ordered input if and only if idle >= window, and of any
  given input if and only if no tick is early (`EarlyTicksDecide`); no event is lost.
- Greedy clustering is optimal, and independent of arrival order and tie-breaking if and only if window >= 0;
  under that condition so are the merged traces, timelines and offsets included (`BuildIsOrderIndependent`).
- The compact lineage record agrees with the whole observation history at every moment; alarms are sound, complete
  and bounded by one more than the resets.
- Decoding undoes encoding, from single labels to whole BGP UPDATE and netlink messages, over lists of any length;
  for VPN routes if and only if every label stack ends with the bottom bit and every address is canonical.
- The depth-limited nexthop recursion is exact if and only if no answer lies beyond the fifth object.
- The OSPF trigger protocol comes to rest by itself and loses no wake-up for a change that it can hear of, that is,
  after its syslog socket is bound. When it is quiet, the recorded adjacencies
  are sure to be those of the router if and only if the last read that did not fail gave the table and the table has
  not changed since. One request heals any earlier failure.
- Each specification is tied to its inputs in their own terms: label operations to table entries
  (`LabelSwitchedPath`, `WalkThroughTunnel`), warm-up to clocks (`WarmUpDecides`, `DroppedIsEarly`, `ChurnIsTraced`),
  merged timelines to the times of events (`EveryEventIsShown`, `OneTraceIsKept`), recorded adjacencies to what the
  router shows (`ShownIsRecorded`, `FromSightToLoss`), gaps to what the kernel says (`KernelOnly`, `FirstAlarm`), routes
  and nexthop objects to the octets of their messages (`AnnouncementInFull`, `MessageOctets`).

Where a property needs a condition, the condition is exact and a concrete input shows what happens without it:
`TwoSpellingsAreAmbiguous` (condition in `LookupIsDetermined`), `MappedDefaultWins` (`LongestIsMostSpecific`),
`TwoInstancesAreMixed` (`EntryFromOneInstance`), `TickCanSplit` (`TimerIsInvisible`, `EarlyTicksDecide`), `TiesShow`
(`OrderIndependence`), `TiedLinksAreAmbiguous` (`LinkIsDetermined`), `DashedNamesHaveTwoKeys` (`KeyIgnoresDirection`),
`SixthIsMissed` (`ResolveIsExact`), `RootCanBeDiscarded` (`RootIsLostIff`), `SecondGapIsSilent` (`EpisodeIsReported`),
`CompatibleWithdrawalsAreMisread` (`VpnRouteRoundTrip`, `VpnWithdrawalIsReported`), `Ipv6NextHopIsMisread`
(`NextHopIsRead`, `VpnAnnouncementIsReported`), `MovedNeighborStaysCached` (`CacheIsExactUnlessMoved`),
`FailedReadLosesAChange` and `SilentChangeIsLost` (`FreshnessIsExact`, `AccountIsExact`). `BudgetIsTight` shows that the
bound in `BudgetIsComplete` cannot be raised.

Where comments and code disagree, the model follows the code:

- internal/ingest/fpm.go:220 speaks of one level of groups; the code follows up to five objects.
- internal/correlate/correlate.go:9 says follow-up events without a root are dropped; after warm-up the code opens a
  churn trace for them (lines 112-120), and such a trace can swallow a root event.
- internal/lineage/lineage.go:13-16 says both contradictions surface through the emit hook; the code emits only
  install gaps, orphans appear in the snapshot alone.
- cmd/trace-aggregator/main.go:319-320 promises a direction-independent key for link events; the code separates the
  ends at the first dash, so names that contain one give a key for each direction, and it also finds "link-" inside
  any other text of the root.

## Model

| member | source | states |
|---|---|---|
| `PathTrace.IpPhase` | cmd/pathtrace-exporter/main.go:154-170 | one IP iteration refines one forwarding step: the hop names the route used and the next configuration is the step's, or the drop is exactly the missing route |
| `PathTrace.MplsPhase` | cmd/pathtrace-exporter/main.go:171-198 | one MPLS iteration refines one forwarding step: swap, penultimate-hop pop or egress pop, with the stack it leaves; the drop is exactly the missing label entry |
| `PathTrace.Trace` | cmd/pathtrace-exporter/main.go:143-206 | the walk is a run of the small-step semantics: it answers true iff the packet arrives in some k < 24 steps; the hops are that run plus its terminal hop (destination, no entry, stray next hop or budget), at most 25 of them and 24 on success, numbered 1..n |
| `PathTrace.HopsAreNumbered` | cmd/pathtrace-exporter/main.go:145-205 | in every way a walk can end the hops are numbered 1..n, n <= 25, and n <= 24 at the destination |
| `PathTrace.RunIsOrbit` | cmd/pathtrace-exporter/main.go:148-205 | an explained run is the deterministic orbit of the start configuration |
| `PathTrace.RunArrival` | cmd/pathtrace-exporter/main.go:148-205 | a walk ends at the destination iff the unbounded semantics arrives in fewer than 24 steps; every other ending excludes it |
| `PathTrace.BudgetIsComplete` | cmd/pathtrace-exporter/main.go:148-152 | when at most 24 configurations are reachable, arriving within the budget and ever arriving are the same |
| `PathTrace.ExhaustionIsALoop` | cmd/pathtrace-exporter/main.go:148-205 | in such a network an exhausted budget is a genuine loop: two configurations of the run coincide, forwarding never stops and never arrives |
| `PathTrace.ChainRun` | cmd/pathtrace-exporter/main.go:148-170 | in a chain of n + 1 routers, each with an address of its own, the packet is at the k-th router after k steps, and the chain ends there |
| `PathTrace.BudgetIsTight` | cmd/pathtrace-exporter/main.go:148 | 24 is sharp: for every n >= 24 there is a network with n + 1 reachable configurations in which the packet arrives after n steps and at no k < 24 |
| `PathTrace.LabelStepIgnoresInner` | cmd/pathtrace-exporter/main.go:171-198 | a labelled step reads only the top label: with any stack below it the same step happens, the same hop is reported, and the lower labels are untouched |
| `PathTrace.TunnelIsTransparent` | cmd/pathtrace-exporter/main.go:171-198 | a labelled stretch that takes (n, s) to (m, t) takes (n, s + inner) to (m, t + inner) in as many steps, for every inner stack and destination; with t empty, inner is delivered |
| `PathTrace.TunnelHopsAreTheSame` | cmd/pathtrace-exporter/main.go:171-198 | and it does so with the same node, kind, next hop and label in each hop; the detail names the same interface or VRF and shows the same stack with the inner one below |
| `PathTrace.VpnDelivery` | cmd/pathtrace-exporter/main.go:160-195 | an L3VPN path of n labelled configurations ends unlabelled at the egress node n + 1 steps after the ingress |
| `ForwardingLaws.SwapFromEntry` | cmd/pathtrace-exporter/main.go:181-187 | an entry with out-labels swaps whatever else it says: they replace the top label, the packet goes to the owner of the next hop, and the hop is an mpls-swap "top->out" |
| `ForwardingLaws.PenultimatePop` | cmd/pathtrace-exporter/main.go:188-193 | an entry with a next hop and no out-label drops the top label on the way to that neighbor, an mpls-pop-php |
| `ForwardingLaws.EgressPop` | cmd/pathtrace-exporter/main.go:194-198 | an entry with an interface only drops the top label in place, an mpls-pop-vrf |
| `ForwardingLaws.UnknownLabel` | cmd/pathtrace-exporter/main.go:175 | only an entry that is empty in all three fields is no entry |
| `ForwardingLaws.LabelSwitchedPath` | cmd/pathtrace-exporter/main.go:171-187 | along nodes whose entries give each label the next one, the packet is at the k-th node with the k-th label after k steps, the stack below untouched, and every hop is a swap "l_i->l_(i+1)" |
| `ForwardingLaws.RouteFromEntry` | cmd/pathtrace-exporter/main.go:153-170 | a route with labels pushes them as ip-push, one without is plain ip, and only next hop, labels and prefix all empty mean no route |
| `ForwardingLaws.AnswerIsDetermined` | cmd/pathtrace-exporter/main.go:143-206 | the tables determine hops and verdict: any two explained answers are equal |
| `ForwardingLaws.WalkThroughTunnel` | cmd/pathtrace-exporter/main.go:143-199 | push two labels, swap the outer, pop it, pop the inner at the egress, arrive: the five hops in full, for any names, addresses and labels |
| `ForwardingLaws.WalkToSelf` | cmd/pathtrace-exporter/main.go:149-151 | a walk that starts at the owner of the destination is one dest hop |
| `ForwardingLaws.WalkWithoutRoute` | cmd/pathtrace-exporter/main.go:156-158 | the answer without a route |
| `ForwardingLaws.WalkWithUnknownLabel` | cmd/pathtrace-exporter/main.go:175-177 | the answer when the next node does not know the label |
| `ForwardingLaws.WalkOffTheMap` | cmd/pathtrace-exporter/main.go:200-202 | the answer when nobody owns the next hop: the route, then "next-hop not in inventory" |
| `Fib.Collect` | cmd/pathtrace-exporter/main.go:235-258 | the collected table holds for each non-empty prefix the latest next-hop (with its instance) and the latest label stack reported, independently |
| `Fib.EntryFromOneInstance` | cmd/pathtrace-exporter/main.go:240-258 | next hop and labels of an entry come from one routing instance if and only if the latest next hop and the latest labels of the prefix, where it has both, were reported in one |
| `Fib.TwoInstancesAreMixed` | cmd/pathtrace-exporter/main.go:240-258 | labels from one instance and a later next hop from another make one entry |
| `Fib.TableIsUnique` | cmd/pathtrace-exporter/main.go:239-258 | the updates determine the collected table |
| `Fib.RouteLookup` | cmd/pathtrace-exporter/main.go:259-277 | whatever order the map is visited in, the answer is a usable matching entry with the longest mask, empty when none matches or the destination is no IPv4 address |
| `Fib.SameLengthSameNetwork` | cmd/pathtrace-exporter/main.go:268-273 | two networks with masks of one size that share an address are equal |
| `Fib.LookupIsDetermined` | cmd/pathtrace-exporter/main.go:263-276 | the answer is independent of map order if and only if the longest matching network is spelled once among the usable entries |
| `Fib.CanonicalTablesAreDetermined` | cmd/pathtrace-exporter/main.go:263-276 | canonically spelled tables always have one answer, and it is empty iff nothing matches |
| `Fib.TwoSpellingsAreAmbiguous` | cmd/pathtrace-exporter/main.go:263-276 | a table with two spellings of the default route has two legitimate answers |
| `Fib.LongestIsMostSpecific` | cmd/pathtrace-exporter/main.go:268-275 | the longest mask is the most specific IPv4 match if and only if no plain prefix that matches is more specific than all matching IPv4-mapped IPv6 prefixes (there being one), whose masks count 96 bits more |
| `Fib.MappedDefaultWins` | cmd/pathtrace-exporter/main.go:268-275 | an IPv4-mapped default route beats a host route |
| `Fib.MplsLookup` | cmd/pathtrace-exporter/main.go:279-292 | the latest reported out-label, next hop and interface of a label, each empty if never reported |
| `FibLaws.NextHopStands` | cmd/pathtrace-exporter/main.go:249-251 | a next hop stands in the table, with its instance, until the prefix gets another one |
| `FibLaws.LabelsStand` | cmd/pathtrace-exporter/main.go:252-253 | labels stand until the prefix gets others |
| `FibLaws.NeverReported` | cmd/pathtrace-exporter/main.go:245-254 | a leaf that was never reported is empty |
| `FibLaws.ContainsIsRange` | cmd/pathtrace-exporter/main.go:272 | a network contains the addresses from its first one on, as many as its host bits number |
| `FibLaws.LongestOfferWins` | cmd/pathtrace-exporter/main.go:263-276 | whenever an entry with a next hop or with labels contains the destination, the answer is such an entry, of no shorter mask, field by field |
| `FibLaws.NoOfferNoAnswer` | cmd/pathtrace-exporter/main.go:262-276 | and when none does, the answer is empty |
| `FibLaws.HostRouteBeatsDefault` | cmd/pathtrace-exporter/main.go:271-275 | a host route is the answer beside any shorter plain prefixes |
| `FibLaws.LeafStands` | cmd/pathtrace-exporter/main.go:281-290 | a leaf of a label entry stands until it is reported again |
| `Correlate.Burst` | internal/correlate/correlate.go:107-110 | the longest prefix of arrivals in which neighbours are at most a window apart, cut only at a larger gap |
| `Correlate.Correlator.constructor` | internal/correlate/correlate.go:67-76 | the defaults: window and idle 3 s, warm-up 15 s, 50 traces kept |
| `Correlate.Correlator.SpansOf` | internal/correlate/correlate.go:144-150 | each event becomes one span, in order, with its offset from the start |
| `Correlate.Correlator.Flush` | internal/correlate/correlate.go:137-168 | publishes the accumulated trace under the next number unless it is churn under three events; the ring stays the last 50 of everything published |
| `Correlate.Correlator.Push` | internal/correlate/correlate.go:162-167 | appending to the ring and cutting its front keeps it the tail of the log |
| `Correlate.Correlator.Handle` | internal/correlate/correlate.go:105-133 | one turn of the select loop is one step of the specification fold |
| `Correlate.Correlator.Run` | internal/correlate/correlate.go:99-135 | over any input the loop is the fold; time-ordered input with idle >= window is segmented exactly like the batch |
| `Correlate.BatchAppended` | internal/correlate/correlate.go:106-127 | one more event changes the batch segmentation only at its end: it joins, is dropped, or starts a segment |
| `Correlate.StreamInStep` | internal/correlate/correlate.go:104-134 | at every moment of a time-ordered stream the settled result equals the batch segmentation of the events so far |
| `Correlate.TimerIsInvisible` | internal/correlate/correlate.go:128-132 | ticks never change the segmentation of any time-ordered input if and only if idle >= window (or the window is negative) |
| `Correlate.TickCanSplit` | internal/correlate/correlate.go:128-132 | one tick splits a segment the batch keeps whole: with idle < window in time order, and with any limits when it is taken before an event that is already waiting |
| `Correlate.EarlyTicksDecide` | internal/correlate/correlate.go:104-134 | for any input, ordered or not, and any limits: the segmentation is that of the batch if and only if no tick that is more than idle after the last arrival of a segment comes before an arrival within the window of it |
| `Correlate.BoundariesAreCuts` | internal/correlate/correlate.go:107-127 | in the batch a fate ends only where the gap exceeds the window or the last arrival was dropped |
| `Correlate.TicksDoNotMatter` | internal/correlate/correlate.go:104-168 | two time-ordered inputs with the same events publish the same traces, namely those of the batch |
| `Correlate.EventsAreConserved` | internal/correlate/correlate.go:106-127 | in any run every event is, in order, in exactly one of: dropped follow-ups, closed segments, the active trace; no root is dropped and every segment is a burst headed by its first event |
| `Correlate.TimelineOfTrace` | internal/correlate/correlate.go:144-158 | the trace of a segment whose events are in order has offsets that start at 0, never decrease and end at SpanMs |
| `Correlate.RunIsInOrder` | internal/correlate/correlate.go:106-127 | in a time-ordered run the events of every segment, closed or active, are in order |
| `Correlate.PublishedTimelines` | internal/correlate/correlate.go:104-158 | every trace a time-ordered run publishes has offsets that start at 0, never decrease and end at SpanMs |
| `Correlate.RingNumbers` | internal/correlate/correlate.go:141-167 | the ring holds min(50, n) traces with consecutive numbers ending at the counter |
| `Correlate.LastNAppended` | internal/correlate/correlate.go:163-166 | trimming after each append keeps the tail of the whole log |
| `Correlate.RootCanBeDiscarded` | internal/correlate/correlate.go:110-143 | a root that lands within the window of a lone follow-up is never published if nothing else follows |
| `Correlate.PublishedUnlessShortChurn` | internal/correlate/correlate.go:137-143 | in any run a closed segment is published if and only if a root opened it or it has at least three events |
| `Correlate.RootUnpublishedIff` | internal/correlate/correlate.go:137-143 | a root event of a segment goes unpublished if and only if the segment is one follow-up and then this event |
| `Correlate.RootsInBatch` | internal/correlate/correlate.go:106-127 | each root event is in the segment that its position in the arrivals gives, which is worth a trace if and only if it is not the case that the arrival before it opens a segment as a follow-up and reaches it while nothing follows within the window |
| `Correlate.RootIsLostIff` | internal/correlate/correlate.go:104-143 | so a time-ordered run with idle >= window publishes the segment of a root event if and only if that pattern, checked on the arrivals, is absent |
| `CorrelateLaws.WarmUpDecides` | internal/correlate/correlate.go:107-121 | in any state an arrival is dropped if and only if it is a follow-up, consumed less than the warm-up time after the start, and no active trace ended within the window before it |
| `CorrelateLaws.NotDroppedIsActive` | internal/correlate/correlate.go:122-127 | every arrival that is not dropped becomes the latest event of the active trace |
| `CorrelateLaws.DroppedIsEarly` | internal/correlate/correlate.go:113-121 | in any run whatever was dropped is a follow-up that was consumed during warm-up |
| `CorrelateLaws.ArrivalJoins` | internal/correlate/correlate.go:107-127 | within the window of the active trace an arrival joins it, and the trace keeps its start, text and kind |
| `CorrelateLaws.ArrivalOpens` | internal/correlate/correlate.go:107-127 | any other arrival that is not dropped closes the active trace and opens one with the text "bus/kind key" or, for a follow-up, "churn/bus-kind key" |
| `CorrelateLaws.TickCloses` | internal/correlate/correlate.go:128-132 | a tick closes the active trace when it has been quiet for longer than idle |
| `CorrelateLaws.LoneRootIsTraced` | internal/correlate/correlate.go:121-158 | a root with nothing after it is published as one trace with one span, during warm-up too |
| `CorrelateLaws.ChurnIsTraced` | internal/correlate/correlate.go:113-158 | after warm-up three follow-ups in a row are published as exactly one more trace, spelled out field by field |
| `CorrelateLaws.PairOfChurnIsNot` | internal/correlate/correlate.go:141-143 | two of them publish nothing |
| `CorrelateLaws.StartUpSyncIsDropped` | internal/correlate/correlate.go:118-120 | during warm-up three of them leave three dropped events and no trace |
| `CorrelateLaws.MillisecondsAreCutOff` | internal/correlate/correlate.go:145-156 | durations are cut off to whole milliseconds towards zero |
| `Grouping.Group` | cmd/trace-aggregator/main.go:261-268 | the incremental loop yields the greedy clusters: repeatedly the longest front run within the window of its first trace |
| `Grouping.GreedyPlaces` | cmd/trace-aggregator/main.go:262-267 | clustering is incremental: one more trace is placed in the last cluster or opens one |
| `Grouping.GroupsAreRuns` | cmd/trace-aggregator/main.go:261-268 | the groups concatenate to the input, each lies within the window of its first trace, and the next group starts beyond it |
| `Grouping.HeadsAreApart` | cmd/trace-aggregator/main.go:263 | in sorted input the heads of any two groups start more than a window apart |
| `Grouping.GreedyIsOptimal` | cmd/trace-aggregator/main.go:259-268 | no cover of the traces by sets of spread <= window has fewer parts than the greedy grouping |
| `Grouping.GreedyIsCover` | cmd/trace-aggregator/main.go:259-268 | the optimum is attained: the greedy groups of a sorted input are such a cover (window >= 0) |
| `Grouping.FirstGroupCounts` | cmd/trace-aggregator/main.go:262-267 | the first group is exactly the traces starting within the window of the earliest, counted with multiplicity |
| `Grouping.GroupsAreDetermined` | cmd/trace-aggregator/main.go:259-268 | any two sorted orders of one multiset of traces yield the same groups as multisets (window >= 0) |
| `Grouping.OrderIndependence` | cmd/trace-aggregator/main.go:246-268 | this independence of arrival order and tie-breaking holds if and only if window >= 0 |
| `Grouping.TiesShow` | cmd/trace-aggregator/main.go:259-268 | with a negative window two tied traces give different groups in different orders |
| `Grouping.LaterTracesExtend` | cmd/trace-aggregator/main.go:262-267 | appended traces leave every group but the last unchanged and only extend the last |
| `Grouping.LaterArrivalsExtend` | cmd/trace-aggregator/main.go:246-268 | the same after re-sorting, for traces that start no earlier than all existing ones, up to order within a group |
| `Sorting.Sort` | cmd/trace-aggregator/main.go:259 | stands for the unstable sort: some sorted permutation |
| `Merge.LinkKeyOfEvent` | cmd/trace-aggregator/main.go:321-340 | the key of "<bus>/link-<what> <iface>" is that of the interface name alone |
| `Merge.PairKeyIsCanonical` | cmd/trace-aggregator/main.go:335-339 | two pairs of names without leading, trailing or doubled dashes have one key iff they are the same pair in either order |
| `Merge.KeyIgnoresDirection` | cmd/trace-aggregator/main.go:319-339 | both ends of a link give one key if and only if neither name has a dash, or the two interface names coincide |
| `Merge.DashedNamesHaveTwoKeys` | cmd/trace-aggregator/main.go:329-339 | between "pe-1" and "p1" the two directions have different keys |
| `Merge.Gather` | cmd/trace-aggregator/main.go:278-294 | one pass collects the nodes, the roots, every span at its absolute time, and the votes for each link |
| `Merge.Elect` | cmd/trace-aggregator/main.go:309-315 | in any map order the elected link has the most votes; it is empty iff no root names a link |
| `Merge.SetOffsets` | cmd/trace-aggregator/main.go:300-306 | offsets are measured from the start and SpanMs is the last of them |
| `Merge.PlaceSpans` | cmd/trace-aggregator/main.go:295-306 | the placed spans are a time-sorted permutation of the collected ones, measured from the first |
| `Merge.MergeGroup` | cmd/trace-aggregator/main.go:277-317 | the merged timeline is a permutation of all input spans sorted by absolute time, offsets measured from the first, with sorted distinct nodes, all roots and an elected link |
| `Merge.OffsetsAdvance` | cmd/trace-aggregator/main.go:300-306 | offsets of a merged timeline start at 0, never decrease and end at SpanMs |
| `Merge.Build` | cmd/trace-aggregator/main.go:245-275 | each output trace is the merge of the greedy group of its number over a sorted permutation of everything fetched |
| `Merge.Export` | cmd/trace-aggregator/main.go:431-453 | every child starts inside the root interval, lasts at least until the next one starts, and its timestamp is within a millisecond before its event; children end up to 999 microseconds after the root, and the last one does |
| `Merge.ChildIsInside` | cmd/trace-aggregator/main.go:437-450 | the timestamp of a child in terms of the root's and its offset, although the two are rounded separately |
| `MergeOrder.TotalsAgree` | cmd/trace-aggregator/main.go:282-294 | what a pass collects from a list is the same, as a multiset, for every order of the list |
| `MergeOrder.SameSpans` | cmd/trace-aggregator/main.go:295-306 | two timelines over the same collected spans hold the same placed spans, offsets included, and begin and end at the same times |
| `MergeOrder.StringSortIsUnique` | cmd/trace-aggregator/main.go:307-308 | sorted node names come out one way only |
| `MergeOrder.LinksAgree` | cmd/trace-aggregator/main.go:309-315 | two elections over the same votes elect links with equally many, and are empty together |
| `MergeOrder.LinkIsDetermined` | cmd/trace-aggregator/main.go:309-315 | the elected link is independent of map order if and only if no two links lead the vote |
| `MergeOrder.TiedLinksAreAmbiguous` | cmd/trace-aggregator/main.go:309-315 | two traces that name two links can elect either |
| `MergeOrder.BuildIsOrderIndependent` | cmd/trace-aggregator/main.go:245-317 | end to end: for window >= 0 any arrival order and any tie-breaking output the same traces: number, start, SpanMs and nodes equal, spans and roots equal as multisets, the link equal where one link leads |
| `MergeLaws.EverySpanIsMerged` | cmd/trace-aggregator/main.go:288-294 | every span of every trace of a group is on the merged timeline, with its node and at its start plus its offset in milliseconds |
| `MergeLaws.EverySpanIsFromTrace` | cmd/trace-aggregator/main.go:288-294 | and every span on the timeline comes from one of them |
| `MergeLaws.SpansAreCounted` | cmd/trace-aggregator/main.go:288-306 | of which there are as many as the traces have together |
| `MergeLaws.EveryEventIsMerged` | cmd/trace-aggregator/main.go:288-306 | every event a node correlated into a trace of the group shows there with its bus, kind, key and detail, less than a millisecond before its time |
| `MergeLaws.EveryEventIsShown` | cmd/trace-aggregator/main.go:245-275 | over all arrivals, every event of every trace is on one of the merged timelines at its time |
| `MergeLaws.PublishedSegment` | internal/correlate/correlate.go:104-158 | each trace that a time-ordered run of a correlator publishes is one of a segment in order, to which the above applies |
| `MergeLaws.OneTraceIsKept` | cmd/trace-aggregator/main.go:288-306 | a trace alone in its group keeps its start, its offsets and its length |
| `MergeLaws.LinkIsNamed` | cmd/trace-aggregator/main.go:319-340 | the key of "bus/link-what a-b" names the two ends in string order |
| `MergeLaws.WhiteSpaceSeparates` | cmd/trace-aggregator/main.go:326 | blank, tab, line end, carriage return, vertical tab and form feed separate the words of a root, and nothing else does |
| `MergeLaws.OtherRootsNameNoLink` | cmd/trace-aggregator/main.go:322-325 | a root without a "k" or without a "-" names no link |
| `MergeLaws.LinkHasMostVotes` | cmd/trace-aggregator/main.go:284-287 | the link of a merged trace is named by at least as many of its traces as any other, and there is one when any trace names one |
| `MergeLaws.RootAt` | cmd/trace-aggregator/main.go:283 | the roots are the texts "node: root" in the order of the traces |
| `MergeLaws.NodesAreNamedOnce` | cmd/trace-aggregator/main.go:307-308 | each node is named once, in string order |
| `MergeLaws.NoSpansNoTime` | cmd/trace-aggregator/main.go:296-306 | without spans the merged trace starts with the year 1 and lasts no time |
| `MergeLaws.ChildLasts` | cmd/trace-aggregator/main.go:438-444 | an exported span lasts until the next one starts if that is more than a millisecond later, and one millisecond otherwise |
| `Lineage.ProtoOfKernelDetail` | internal/lineage/lineage.go:116-127 | the installer's name is recovered from the detail text of a kernel observation |
| `Lineage.Tracker.constructor` | internal/lineage/lineage.go:62-67 | an empty tracker; a grace of zero or less means 3 s |
| `Lineage.Tracker.Observe` | internal/lineage/lineage.go:71-90 | an accepted observation extends the history by exactly itself, the compact record keeps agreeing with the history for every prefix, and nothing is emitted |
| `Lineage.Tracker.ScanTable` | internal/lineage/lineage.go:93-106 | a scan flags exactly the records with an unflagged overdue gap and collects one alarm for each, with its FPM detail |
| `Lineage.Tracker.Reconcile` | internal/lineage/lineage.go:93-113 | a scan emits exactly one alarm for each prefix that is overdue and not already raised in the history, and no other |
| `Lineage.Tracker.RowFor` | internal/lineage/lineage.go:154-171 | a row lists the stages present in the history, their details, and the gap label of the history |
| `Lineage.Tracker.Snapshot` | internal/lineage/lineage.go:149-175 | each tracked prefix appears exactly once, with the stages, details and gap label of the history |
| `Lineage.RaisedStep` | internal/lineage/lineage.go:83-103 | how the alarm state of a prefix evolves: raised by an overdue scan, lowered only by a kernel confirmation or a full withdrawal |
| `Lineage.ObservationAgrees` | internal/lineage/lineage.go:77-89 | updating the compact record of the observed prefix keeps it in agreement with the history, and the deletion test is exactly "no stage present" |
| `Lineage.UntrackedIsNotRaised` | internal/lineage/lineage.go:87-89 | deleting the record loses no alarm state |
| `Lineage.GapIsFire` | internal/lineage/lineage.go:98-103 | the test on the compact record is the firing condition on the history |
| `Lineage.OverdueIsRaised` | internal/lineage/lineage.go:98-105 | completeness: a scan that finds a prefix overdue emits it now or had emitted it with no reset since |
| `Lineage.EmissionsAreBounded` | internal/lineage/lineage.go:83-104 | over any history the alarms for a prefix number at most one more than its kernel confirmations and full withdrawals |
| `Lineage.EpisodeIsReported` | internal/lineage/lineage.go:83-104 | a gap is reported by the first scan of the episode that finds it overdue, if and only if a kernel confirmation or a full withdrawal lies between it and each earlier scan that found the prefix overdue; all other scans of the episode are silent |
| `Lineage.LaterGapIsSilent` | internal/lineage/lineage.go:83-104 | a gap that follows a reported one without such a reset is overdue and not reported |
| `Lineage.SecondGapIsSilent` | internal/lineage/lineage.go:83-104 | a history of five happenings in which this occurs |
| `Lineage.StagesShowPresence` | internal/lineage/lineage.go:155-163 | a stage is listed iff the last observation there was present, with its detail or "yes" |
| `LineageLaws.PushedOnly` | internal/lineage/lineage.go:166-167 | a route last seen pushed and not in the kernel is an install gap, whatever was before |
| `LineageLaws.KernelOnly` | internal/lineage/lineage.go:168-172 | one last seen in the kernel with the detail "proto=x nh=.. table=.." and not pushed is an orphan if and only if x is zebra |
| `LineageLaws.NeverPushed` | internal/lineage/lineage.go:168-172 | the same for a route that was never pushed |
| `LineageLaws.NoGap` | internal/lineage/lineage.go:166-172 | pushed and confirmed, or neither, is no gap |
| `LineageLaws.StageExample` | internal/lineage/lineage.go:26-35 | the three stages by name, with "yes" for a sight without detail |
| `LineageLaws.OverdueAfterGrace` | internal/lineage/lineage.go:100-102 | a pushed route that the kernel lacks is overdue from the first moment after grace |
| `LineageLaws.FirstAlarm` | internal/lineage/lineage.go:93-106 | the first scan of it emits exactly one alarm after grace and none until then, with its text |
| `LineageLaws.LostAgainIsReported` | internal/lineage/lineage.go:82-83 | after a confirmation, losing the route again is reported again |
| `LineageLaws.PushedAgainIsReported` | internal/lineage/lineage.go:86-88 | so is a route that nobody held in between |
| `Netlink.ForEachAttr` | internal/ingest/fpm.go:351-362 | visits exactly the attributes of a stream that is walked in bounds |
| `Netlink.PaddedIsInBounds` | internal/ingest/fpm.go:360 | a stream whose length is a multiple of 4 is always walked in bounds |
| `Netlink.StrayOctetsAreIgnored` | internal/ingest/fpm.go:353 | up to three octets behind the last attribute are ignored |
| `Netlink.CutPaddingOverruns` | internal/ingest/fpm.go:356-360 | a last attribute that is cut behind its payload is walked in bounds if and only if none of its padding is missing |
| `Netlink.WalkGoesThrough` | internal/ingest/fpm.go:351-362 | behind any encoded attributes the walk goes on with whatever follows, in bounds iff that is |
| `Netlink.WalkUndoesEncoding` | internal/ingest/fpm.go:351-362 | on any list of encoded attributes the walk visits exactly that list, flag bits stripped, in order |
| `Netlink.DecodeMplsStack` | internal/ingest/fpm.go:414-425 | the loop reads labels up to the bottom-of-stack bit |
| `Netlink.StackRoundTrip` | internal/ingest/fpm.go:414-425 | decoding an encoded stack (section 2.1 of RFC 3032) yields its 20-bit labels whatever follows its bottom |
| `Netlink.ParseMplsEncap` | internal/ingest/fpm.go:402-410 | the labels of the last destination attribute of the nested stream, none without one |
| `Netlink.EncapRoundTrip` | internal/ingest/fpm.go:402-425 | the stack inside a nested encapsulation is recovered whatever attributes surround it |
| `Netlink.LabelsCsv` | internal/ingest/fpm.go:428-437 | the decimal labels joined with commas |
| `Netlink.LabelTextRoundTrip` | internal/ingest/fpm.go:428-437 | the path walk splits this text back into the very stack, for every stack |
| `NexthopLaws.AttributeOctets` | internal/ingest/fpm.go:351-362 | an attribute in octets: length and type least significant octet first, flags in the top bits, payload, padding |
| `NexthopLaws.FlagsAreStripped` | internal/ingest/fpm.go:351-362 | the top two bits of a type are flags, the other fourteen its number |
| `NexthopLaws.OneLabel` | internal/ingest/fpm.go:414-425 | 0x00011140 is label 17 at the bottom of the stack |
| `NexthopLaws.TwoLabels` | internal/ingest/fpm.go:414-425 | without the bottom bit the next entry belongs to the stack |
| `Nexthop.Table.constructor` | internal/ingest/fpm.go:57-59 | no objects are known at first |
| `Nexthop.Table.HandleNexthop` | internal/ingest/fpm.go:166-218 | the object table after a message is the specified update of the one before: stored, removed or untouched |
| `Nexthop.Table.ScanFields` | internal/ingest/fpm.go:171-204 | the fields a visit of the attributes leaves: the last usable value of each, groups accumulated |
| `Nexthop.MembersOf` | internal/ingest/fpm.go:197-202 | the ids of all whole members of a group attribute, in order |
| `Nexthop.MembersRoundTrip` | internal/ingest/fpm.go:197-202 | decoding encoded group members yields their ids in order |
| `Nexthop.AttributesAreRead` | internal/ingest/fpm.go:177-204 | visiting the encoded attributes of an announcement leaves exactly its fields |
| `Nexthop.AnnouncementRoundTrip` | internal/ingest/fpm.go:166-218 | an announced object is stored exactly, labels and group included, and no other entry changes; as a deletion the message removes it |
| `Nexthop.AnswerIsUnique` | internal/ingest/fpm.go:221-241 | unlimited resolution is well defined: the chain of group heads answers at one place at most |
| `Nexthop.ResolveIsBounded` | internal/ingest/fpm.go:221-241 | the depth-limited recursion finds exactly the answers within its remaining depth, cyclic groups included |
| `Nexthop.ResolveIsExact` | internal/ingest/fpm.go:221-241 | it agrees with unlimited resolution if and only if no answer lies beyond the fifth object |
| `Nexthop.SmallTablesAreExact` | internal/ingest/fpm.go:221-241 | tables of at most five objects are always resolved exactly |
| `Nexthop.SixthIsMissed` | internal/ingest/fpm.go:222-224 | six objects in a chain are not |
| `NexthopLaws.GatewayAndBlackhole` | internal/ingest/fpm.go:187-190 | attribute 6 replaces the gateway, attribute 3 makes a blackhole, whatever came before |
| `NexthopLaws.InterfaceIndex` | internal/ingest/fpm.go:183-186 | attribute 5 is the interface index, four octets least significant first, and ignored when shorter |
| `NexthopLaws.GroupMembers` | internal/ingest/fpm.go:197-202 | attribute 2 adds members behind those so far, each the first four of eight octets |
| `NexthopLaws.OtherEncapsulations` | internal/ingest/fpm.go:191-210 | labels count if attribute 7 is absent or says 1 or 0, and no other encapsulation leaves any |
| `NexthopLaws.LaterEncapsulation` | internal/ingest/fpm.go:195-196 | attribute 8 replaces the labels of the one before |
| `NexthopLaws.StoredUnderItsId` | internal/ingest/fpm.go:179-217 | attribute 1 is the id under which the object is stored, and 0 stores nothing |
| `NexthopLaws.MessageOctets` | internal/ingest/fpm.go:166-218 | a message in octets: behind 24 octets of header id, interface, gateway, encapsulation type and a nested one-label stack give exactly that object |
| `NexthopLaws.BlackholeFirst` | internal/ingest/fpm.go:231-233 | a blackhole resolves to one whatever else it says |
| `NexthopLaws.OwnBeforeGroup` | internal/ingest/fpm.go:234-236 | then a gateway or an interface counts, and a group beside it does not |
| `NexthopLaws.FirstMembersAreFollowed` | internal/ingest/fpm.go:222-239 | along plain groups the first member is followed each time, up to depth 4 and not beyond |
| `RouteText.FormatUndoesEncode` | internal/ingest/bmp.go:585-599 | a route distinguisher of any type renders as its administrator and number (section 4.2 of RFC 4364) |
| `RouteText.TextForgetsOnlyWidth` | internal/ingest/bmp.go:585-599 | two distinguishers render alike if and only if they carry the same numbers, so only the AS width is lost |
| `RouteText.ParseRTs` | internal/ingest/bmp.go:602-620 | the route targets of all whole communities of a value, in order; a trailing fragment is ignored |
| `RouteText.TargetsRoundTrip` | internal/ingest/bmp.go:602-620 | exactly the encoded route targets are found, in order; other communities and trailing bytes are skipped (section 4 of RFC 4360) |
| `Nlri.ParseVpnNlri` | internal/ingest/bmp.go:465-497 | decodes the prefix at the front, or consumes nothing when it is cut short |
| `Nlri.LabelsRoundTrip` | internal/ingest/bmp.go:475-484 | the label scan ends behind the bottom of a marked stack with the bottom label; behind an unmarked one it goes on |
| `Nlri.VpnRouteRoundTrip` | internal/ingest/bmp.go:465-497 | how any labelled VPN route is decoded, marked or not; it comes back with its distinguisher, bottom label, prefix and size if and only if its stack ends with the bottom bit and the octets beyond the prefix are zero |
| `Nlri.UnmarkedIsMisread` | internal/ingest/bmp.go:475-495 | without the bottom bit three octets of the distinguisher become a label and the rest a prefix 24 bits shorter, if the third of them is odd and the prefix has at least three octets; otherwise nothing is decoded |
| `Nlri.CompatibleWithdrawalBytes` | internal/ingest/bmp.go:465-474 | the octets of a withdrawal with the label 0x800000 of section 2.4 of RFC 8277 |
| `Nlri.CompatibleWithdrawalsAreMisread` | internal/ingest/bmp.go:475-495 | two withdrawals with the label 0x800000 of section 2.4 of RFC 8277: one is taken for 0.0.0.0/0, one for nothing |
| `Nlri.VpnListRoundTrip` | internal/ingest/bmp.go:346-355 | a list of encoded routes decodes to exactly that list, in order, if and only if every route is readable in this sense, and then every byte is consumed (section 2.3 of RFC 8277, section 4.3.4 of RFC 4364) |
| `Nlri.ListStopsAt` | internal/ingest/bmp.go:346-350 | at a route without the bottom bit that is taken for nothing the list ends: those before it are decoded, it and the rest are lost |
| `Nlri.EvpnRoundTrip` | internal/ingest/bmp.go:391-431 | MAC, inclusive-multicast and prefix routes decode to their fields; other types report nothing |
| `Nlri.EvpnListRoundTrip` | internal/ingest/bmp.go:358-366 | a list of encoded EVPN routes decodes to exactly its known routes, in order, and every byte is consumed |
| `BgpUpdate.AttrsRoundTrip` | internal/ingest/bmp.go:284-308 | short and extended lengths mixed, the attribute walk visits exactly the encoded attributes (section 4.3 of RFC 4271) |
| `BgpUpdate.OnlyCutHeadersOverrun` | internal/ingest/bmp.go:284-297 | a length is read behind the attributes if and only if the loop ends on exactly three octets with the extended-length flag |
| `BgpUpdate.ReadAttr` | internal/ingest/bmp.go:285-297 | one attribute is split off the front, or the walk ends; a length may be read from the octets behind the attributes |
| `BgpUpdate.SelectAttrs` | internal/ingest/bmp.go:282-308 | the attribute loop computes the selection over the walked attributes and terminates, also when it stops at a cut-off extended header with octets behind it |
| `BgpUpdate.SelectionIsLast` | internal/ingest/bmp.go:298-305 | what is selected are the last MP_REACH, MP_UNREACH and extended-community values present |
| `BgpUpdate.ReadVpnList` | internal/ingest/bmp.go:346-355 | yields the prefixes of the list in order up to the first one that is cut short, and terminates |
| `BgpUpdate.ReadEvpn` | internal/ingest/bmp.go:358-366 | one EVPN route is split off the front, or the list ends |
| `BgpUpdate.ReadEvpnList` | internal/ingest/bmp.go:357-366 | yields the known routes of the list in order up to the first one that is empty or cut short, and terminates |
| `BgpUpdate.HandleMP` | internal/ingest/bmp.go:317-367 | which routes a reachability value reports, with which next hop and targets, for both families and for withdrawals |
| `BgpUpdate.ParseUpdate` | internal/ingest/bmp.go:261-315 | an UPDATE reports the routes of its last MP_REACH with its route targets, then withdraws those of its last MP_UNREACH; malformed framing reports nothing |
| `BgpUpdate.UpdateRoundTrip` | internal/ingest/bmp.go:261-310 | decoding an encoded UPDATE works on exactly its attributes, whatever withdrawn routes and IPv4 reachability stand beside them |
| `BgpUpdate.ReachRoundTrip` | internal/ingest/bmp.go:317-345 | family, next hop and list are recovered from an encoded MP_REACH value (section 3 of RFC 4760) |
| `BgpUpdate.VpnAnnouncementIsReported` | internal/ingest/bmp.go:261-355 | end to end: the bytes of an L3VPN announcement report exactly its routes, in order, each with its next hop and the route targets, if and only if every route is readable and, where there is a route, the next hop has four octets |
| `BgpUpdate.NextHopIsRead` | internal/ingest/bmp.go:371-377 | of the next-hop field of a VPN route the first four octets of the address are read; they are the address if and only if it has four |
| `BgpUpdate.Ipv6NextHopIsMisread` | internal/ingest/bmp.go:371-377 | the IPv6 next hop 2001:db8::1 is read as 32.1.13.184 |
| `BgpUpdate.EvpnWithdrawalIsReported` | internal/ingest/bmp.go:261-366 | end to end: the bytes of an EVPN withdrawal report exactly its known routes as withdrawn |
| `BgpUpdate.VpnWithdrawalIsReported` | internal/ingest/bmp.go:261-355 | end to end: the bytes of an L3VPN withdrawal report exactly its routes as withdrawn, without next hop or targets, if and only if every route is readable: its stack ends with the bottom bit and its address is canonical |
| `BgpUpdate.CompatibleWithdrawalsAreNotReported` | internal/ingest/bmp.go:261-355 | an UPDATE that withdraws routes with the label 0x800000 never reports them |
| `BgpUpdate.WithdrawalsAreLostBehind` | internal/ingest/bmp.go:346-350 | behind a withdrawn route that is taken for nothing no withdrawal is reported |
| `BgpUpdate.EvpnAnnouncementIsReported` | internal/ingest/bmp.go:261-366 | end to end: the bytes of an EVPN announcement report exactly its known routes, with the bare next hop and the route targets |
| `BgpUpdate.UnreachRoundTrip` | internal/ingest/bmp.go:317-328 | family and list are recovered from an encoded MP_UNREACH value (section 4 of RFC 4760) |
| `Bytes.SixteenBits` | internal/ingest/bmp.go:266-292 | the octets of a 16-bit number in both byte orders |
| `Bytes.TwentyFourBits` | internal/ingest/bmp.go:475-482 | the octets of a 24-bit label entry, most significant first |
| `Bytes.ThirtyTwoBits` | internal/ingest/bmp.go:585-620 | the octets of a 32-bit number in both byte orders |
| `BgpMessages.TypeZero` | internal/ingest/bmp.go:585-599 | a type 0 distinguisher in octets and as text |
| `BgpMessages.TypeOne` | internal/ingest/bmp.go:585-599 | a type 1 distinguisher in octets and as text |
| `BgpMessages.TypeTwo` | internal/ingest/bmp.go:585-599 | a type 2 distinguisher in octets and as text |
| `BgpMessages.TargetsFromOctets` | internal/ingest/bmp.go:602-620 | route targets of all three types are found by subtype 2, in order, among other communities and before a cut one |
| `BgpMessages.AttributeOctets` | internal/ingest/bmp.go:280-292 | an attribute in octets, with one octet of length or, under flag 0x10, with two |
| `BgpMessages.ReachFromOctets` | internal/ingest/bmp.go:317-350 | families 1 and 128, a next hop behind eight zero octets, a skipped octet and a list are reported as announced VPN routes with that next hop |
| `BgpMessages.UnreachFromOctets` | internal/ingest/bmp.go:317-350 | families 1 and 128 and a list are reported as withdrawn VPN routes |
| `BgpMessages.EvpnReachFromOctets` | internal/ingest/bmp.go:317-365 | families 25 and 70 are reported as announced EVPN routes with the bare next hop |
| `BgpMessages.AnnouncementFromOctets` | internal/ingest/bmp.go:261-310 | in a whole message of type 2, attribute 14 is announced with the targets of attribute 16 |
| `BgpMessages.WithdrawalFromOctets` | internal/ingest/bmp.go:261-313 | attribute 15 is withdrawn, and attribute 16 beside it does not matter |
| `BgpMessages.BothAreReported` | internal/ingest/bmp.go:297-313 | announcements are reported before withdrawals, and of two attributes of one type the later counts |
| `BgpMessages.AnnouncementInFull` | internal/ingest/bmp.go:261-365 | an L3VPN announcement written out octet by octet, and the one report it leads to, in text |
| `BgpMessages.WithdrawalInFull` | internal/ingest/bmp.go:261-365 | and its withdrawal |
| `BgpMessages.EvpnTypes` | internal/ingest/bmp.go:391-430 | EVPN route types 2, 3 and 5 in octets and the fields they decode to |
| `BgpMessages.MacAlone` | internal/ingest/bmp.go:398-402 | a MAC route without an address |
| `BgpMessages.LongPrefix` | internal/ingest/bmp.go:418-429 | a prefix longer than 32 bits has sixteen octets |
| `BgpMessages.OneEvpnRoute` | internal/ingest/bmp.go:317-430 | one announced EVPN route in octets is one report with its next hop and the targets |
| `BgpMessages.OneEvpnWithdrawal` | internal/ingest/bmp.go:317-430 | one withdrawn EVPN route in octets is one report with neither |
| `BgpMessages.EmptyRouteEndsList` | internal/ingest/bmp.go:359-365 | an EVPN list ends at a route of no length and at one that is cut short |
| `BgpMessages.CutAttributeIsNone` | internal/ingest/bmp.go:280-296 | an attribute cut short in header or value is not read |
| `BgpMessages.OtherFamilies` | internal/ingest/bmp.go:321-326 | no other pair of families is reported |
| `BgpMessages.OtherMessages` | internal/ingest/bmp.go:262-277 | no other type of message is, nor one without room for both lengths |
| `BgpMessages.NextHopSizes` | internal/ingest/bmp.go:371-385 | which octets of a next-hop field are the next hop, for every size and both families |
| `Ospf.AdjStateIgnoresRole` | internal/ingest/ospf.go:205-207 | the role after the slash does not change the recorded state |
| `Ospf.AdjStateIsFaithful` | internal/ingest/ospf.go:205-226 | two states are recorded alike only when they are the same state or unknown |
| `Ospf.ParseNeighbors` | internal/ingest/ospf.go:186-201 | the table of first entries per router-id; neighbors without entries are absent |
| `Ospf.AdjDownMeans` | internal/ingest/ospf.go:137-146 | the kind "adj-down" means a neighbor that is gone or one whose state is Down, and nothing else |
| `Ospf.OSPF.constructor` | internal/ingest/ospf.go:49-52 | nothing is recorded at first |
| `Ospf.OSPF.Reconcile` | internal/ingest/ospf.go:125-156 | a failed command changes nothing; otherwise states, interfaces and cached leaves become the specified function of the table, transitions are reported except first sights, then losses, for every map order |
| `Ospf.OSPF.RecordNeighbors` | internal/ingest/ospf.go:132-145 | for any visiting order, the states and leaves of the table overlay the old ones and the events about each neighbor grow by exactly its transition, if any |
| `Ospf.OSPF.RecordOne` | internal/ingest/ospf.go:133-144 | one neighbor: its state, its leaves and at most one transition event |
| `Ospf.OSPF.ForgetGone` | internal/ingest/ospf.go:146-153 | for any visiting order, exactly the neighbors seen before and missing from the table lose their state and leaves, each with one event |
| `Ospf.OSPF.ForgetOne` | internal/ingest/ospf.go:147-152 | one neighbor that is gone: its leaves, its state and one event |
| `OspfHistory.NewsIsTurn` | internal/ingest/ospf.go:140-151 | the record, which remembers only the last table, tells exactly what changed between two tables |
| `OspfHistory.ReconciledFollows` | internal/ingest/ospf.go:125-156 | reconciling one more table keeps record, cache and per-neighbor events equal to the functions of all tables read |
| `OspfHistory.StoryIsContinuous` | internal/ingest/ospf.go:140-144 | transitions about a neighbor chain up: each starts in the state the one before ended in unless the neighbor was gone, and the last ends in the recorded state |
| `OspfHistory.LiveLeavesAreCached` | internal/ingest/ospf.go:134-138 | every neighbor of the last table is cached with its state and address |
| `OspfHistory.ExactUnlessMoved` | internal/ingest/ospf.go:146-149 | one reconciliation keeps the cache exact if and only if no neighbor changed interface |
| `OspfHistory.MovedNeighborStaysCached` | internal/ingest/ospf.go:146-149 | a neighbor that moves leaves the leaves of its old interface in the cache |
| `OspfHistory.CacheIsExactUnlessMoved` | internal/ingest/ospf.go:125-156 | over any series of tables the cache is exact all along if and only if no neighbor ever moves |
| `OspfLaws.FirstEntryIsParsed` | internal/ingest/ospf.go:186-201 | the first entry shown counts: interface before the colon, address, and the converged state in preference to the other |
| `OspfLaws.ShortStateNames` | internal/ingest/ospf.go:205-214 | Full, 2-Way, Init and Down with any role are FULL, TWO_WAY, INIT and DOWN |
| `OspfLaws.LongStateNames` | internal/ingest/ospf.go:215-222 | ExStart, Exchange, Loading and Attempt with any role are EXCHANGE_START, EXCHANGE, LOADING and ATTEMPT |
| `OspfLaws.OtherStates` | internal/ingest/ospf.go:223-225 | every other state is UNKNOWN |
| `OspfLaws.EventTexts` | internal/ingest/ospf.go:140-151 | the kinds and texts of a transition and of a loss |
| `OspfLaws.FromSightToLoss` | internal/ingest/ospf.go:125-156 | a neighbor that is first seen, then moves and comes up, then is gone: the two events, in full |
| `OspfProtocol.RecordFollowsTables` | internal/ingest/ospf.go:125-156 | in every run, failures included, the record is the history of the tables it was given |
| `OspfProtocol.StepAccounts` | internal/ingest/ospf.go:110-123 | each step of the protocol, other than a change before the socket is bound, keeps an unread change accounted for; an answered read establishes it |
| `OspfProtocol.NoLostWakeUp` | internal/ingest/ospf.go:60-106 | in every run whose last read answered and in which no change since came before the socket was bound, an unread change has a signal in flight, a full trigger or a worker about to read |
| `OspfProtocol.AccountIsExact` | internal/ingest/ospf.go:60-156 | a run guarantees this if and only if it is fresh or something is pending |
| `OspfProtocol.QuiescentConsistency` | internal/ingest/ospf.go:110-156 | when a fresh run is quiet (the last read that did not fail gave the table, which has not changed since), states and interfaces are those of the live table, the cache shows each neighbor, and the events are the story of the tables read |
| `OspfLaws.ShownIsRecorded` | internal/ingest/ospf.go:125-156 | in a quiet fresh run a neighbor whose first shown entry names an interface, an address and a state is recorded with that interface, that state and leaves of both |
| `OspfLaws.UnshownIsForgotten` | internal/ingest/ospf.go:146-156 | and one that is not shown, or shown without entries, is not recorded, nor cached unless it had moved |
| `OspfProtocol.AnsweredIsFresh` | internal/ingest/ospf.go:110-129 | a quiet run whose last read answered is fresh if and only if every change since came after the socket was bound |
| `OspfProtocol.FreshnessIsExact` | internal/ingest/ospf.go:110-156 | freshness is exact: a quiet run is fresh if and only if every run of the same kinds of steps that ends quiet ends up to date, unparsable output included |
| `OspfProtocol.SteeredAstray` | internal/ingest/ospf.go:110-156 | without freshness the same kinds of steps can lead to any live table with no neighbor known |
| `OspfProtocol.LiveTableIsUnseen` | internal/ingest/ospf.go:110-156 | without freshness, and with output that always parses, the same readings and the same final record are compatible with any live table |
| `OspfProtocol.FailedReadLosesAChange` | internal/ingest/ospf.go:127-129 | a last read that fails can leave a quiet system out of date |
| `OspfProtocol.SilentChangeIsLost` | internal/ingest/ospf.go:65-79 | a change between the start-up reading and the binding of the socket can leave a quiet system out of date although the read answered |
| `OspfProtocol.KickHeals` | internal/ingest/ospf.go:60-63 | after a request, whatever was lost or failed before, a quiet run whose later reads answered has such a read, and it is fresh, and then up to date, if and only if no change since the last read was silent |
| `OspfProtocol.InternalRunsEnd` | internal/ingest/ospf.go:110-123 | left alone, the protocol takes only as many steps as its work measure |
| `OspfProtocol.StuckOnlyWhenQuiescent` | internal/ingest/ospf.go:110-123 | until everything is quiet some internal step is enabled |
| `OspfProtocol.ComesToRest` | internal/ingest/ospf.go:110-156 | every maximal internal run ends quiet |
| `OspfProtocol.ReadsAreBounded` | internal/ingest/ospf.go:110-123 | the router is asked at most once per request, besides the first time |
| `OspfProtocol.BurstsCoalesce` | internal/ingest/ospf.go:118-123 | however many requests arrive, a stretch in which the worker takes none has at most one read |

## Left out

Boundaries of the model:

- The tables are fixed for the length of one walk, and addresses are never owned by nodes named "" or "?". Fetching
  and dissecting gNMI paths is not modelled: `Fib` starts from the updates, `PathTrace` from the two lookups as
  functions of node and destination or label.
- Parsing of CIDR text and of the destination address is a parameter of `RouteLookup`. Text that denotes no network of
  IPv4 addresses answers None; an IPv4-mapped IPv6 text such as ::ffff:0:0/96 denotes one, with 96 bits of mask more.
- Integers are unbounded: overflow of 64-bit durations and counters is not modelled. Truncation to milliseconds,
  rounding down to microseconds and the widths of wire fields are.
- The correlator reads a finite prefix of one merged input of events and ticks. That the channel delivers events in
  timestamp order is the hypothesis `Ordered`; the clock read for warm-up is part of each arrival. Events dropped
  because the channel is full never reach the model.
- Unstable sorting is any sorted permutation; ranging over a map is any order.
- `Fields` treats ASCII white space only.
- Lineage times are inputs of the calls. The mutex is taken to make each call atomic, emission after unlocking is
  part of the scan, and a tracker without an emit hook is not modelled. The rendering of the grace period is a
  parameter. The key is the prefix alone, as in the code, so tables and VRFs share one record.
- Netlink streams and nested streams must be walked in bounds: a stream that ends in the middle of the padding of its
  last attribute makes the code advance past its end, where it stops with a run-time error.
- An UPDATE that ends with a cut-off extended attribute header needs octets behind its attributes; without any the
  code reads past the end of its buffer, with a run-time error.
- EVPN and next-hop addresses are kept as bytes; only IPv4 text is modelled.
- The neighbor table starts after JSON decoding. Output that does not decode is the reading `Garbled`, which the code
  takes for an empty table. The settling delay of the worker is part of the state `Woken`. A change of
  the table is signalled if the syslog socket is bound, and syslog lines that the router or the kernel drops are not
  modelled; a socket that cannot be bound is one that is never bound.

Not modelled:

- TCP accept loops, gNMI and gRPC, HTTP endpoints, Loki and Tempo calls, JSON, logs, metrics text, inventory and flow
  parsing: input and output around libraries.
- Transaction attribution (`matchTxn`, `txnTags`), trace identifiers by hash, and the map of traces already pushed.
- `handleRoute` in internal/ingest/fpm.go: an exported route is resolved once and not revisited when nexthop objects
  change later.
- Per-peer headers, peer up and down, the RD-to-VRF map and the cache writes of internal/ingest/bmp.go; MAC text.
- internal/ingest/netlink.go, vrf.go, cgroup.go, lldp.go, internal/state, internal/gnmiserver and
  cmd/topology-exporter: thin wrappers, or simpler versions of what is modelled.
- Filling in the node name of a fetched trace that has none (cmd/trace-aggregator/main.go:253-255).
- Which of several links with equal votes is elected, and the order of events about different neighbors, which
  depend on map order.

Statements that are weaker than they might be:

- Merge.PairKeyIsCanonical: only for names without leading, trailing or doubled dashes; `KeyIgnoresDirection` as well.
- Merge.LinkKeyOfEvent: only for a bus without "-" and text without white space.
- Grouping.LaterArrivalsExtend: groups are compared as multisets, since ties may be sorted differently.
- Correlate.RootIsLostIff: for idle >= window, which the defaults satisfy; otherwise ticks decide too.
