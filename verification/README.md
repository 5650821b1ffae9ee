# Verified model of the DPDK router

This project models the routing tables, the packet path, the option parsers and the worker
start-up of the router, and the burst loop of the crypto throughput test, and proves what they do.
`dafny verify dfyconfig.toml` checks everything.

## What is modelled

- **The two-level routing table** (`Bits`, `Routes`, `Ranges`, `RoutingTable`, `RoutingRuns`). The class
  `RoutingTable` keeps the static arrays as arrays and updates them in place. Longest-prefix matching
  is stated separately in `Routes` (section 5.2.4.3 of RFC 1812). Every run of adds, builds and lookups is
  proved to give the answers computed from the calls alone.
- **The list-based table and the growable array under it** (`PointerList`, `DummyTable`,
  `TableRefinement`), and the exact conditions under which both tables select the same route and give the
  same next hop.
- **The packet path** (`Frames`, `Decisions`, `Wire`, `Hops`, `Nic`, `Router`, `Conservation`, `QueueOrder`,
  `Receive`). Frames are bytes. `Decisions` says what is to happen to a frame, and `Wire` says it again of the
  plain bytes; the class `RouterThread` rewrites the buffers in place and is proved to do just that. The checksum code of DPDK is modelled, not assumed.
- **Start-up** (`Workers`): which worker gets which interface and which queues.
- **The option parsers** (`CStrings`, `Numbers`, `Ipv4Text`, `MacText`, `RouteOption`), which overwrite and
  restore separators in the argument buffer. `Startup` joins them to the table and the packet path: from
  the route options to the port a packet leaves by.
- **The crypto throughput loop** (`Bursts`, `Throughput`, `Sharing`): what becomes of the operations and of
  the mbufs they hold, for any device.

## Choices

- Where C leaves a shift undefined, the value it takes is a parameter. `routing_table.c:112` shifts by 32
  for prefix 0: `shift32` is that result, and `Build` succeeds exactly when its low byte is zero for every
  prefix-0 route; otherwise the loop leaves the table. A shift that yields 0, and a shift count taken
  modulo 32 for the route 0.0.0.0/0, both satisfy this. `dummy_routing_table.c:46` shifts by -1 for cidr 0:
  `undef` is the mask there.
- A first-level entry is the 16-bit value with the is_long bit on top, the layout that the comparison
  with `INVALID_NH_ID` relies on.
- Calls that end the program are results: a 256th route, an exhausted group table (proved not to occur), a
  list that cannot grow, a reallocation to size 0 that yields NULL (a parameter of the list).
- The network card is a function that says which transmit attempts succeed. Another says how many buffers the
  card has to offer at its k-th receive call; it hands over that many from the front of the queue, as far as the
  queue and the room in the burst allow. The crypto device accepts any part of a burst and returns any of the
  operations it holds, and the loops that need not end are followed for an arbitrary number of rounds.
- The burst array of a worker may hold anything before it is filled. The mbufs of the throughput test are
  only read, so they are a sequence.
- 16-bit header words are read little-endian. Numbers that do not fit are cut to 32 bits by `Atoi`.

## What turned out not to hold

- A lookup between an add and the next build can answer with the next hop of an unrelated route, because
  the add reuses the slot of a compiled route (`StaleLookup`, `StaleLookupHappens`). Before the first build
  every lookup answers with the first route added, or with zeros, since the tables start zeroed
  (`UnbuiltLookup`). `LookupIsRightExactly` says for every run when a lookup is right.
- The checksum code covers 20 bytes, whatever the header length says. A packet whose option words do not sum
  to zero modulo 65535 is therefore dropped when its checksum is right (`OptionsAreRefused`,
  `OptionsCanBeRight`), and goes out with a wrong one when it is accepted (`WrittenChecksumExactly`). Without
  options the test refuses a header whose checksum field is 0x0000, which RFC 1071 can require
  (`ZeroChecksumIsDropped`, `ZeroChecksumCanBeRight`). `ChecksumTestExactly` gives the exact condition.
- The two tables differ on routes with host bits set and on repeated networks
  (`HostBitsSeparateTables`, `RepeatsSeparateTables`); `SelectSameExactly` and `RunBothTables` give the exact
  conditions.
- A prefix need not be the numeral of the number it is taken for: "", "12abc", " 8", "-0" and "4294967304"
  pass (`LoosePrefixes`, `WrappedPrefix`), although the comment in `router.c` only speaks of values between 0
  and 32. `PrefixReadExactly` says which texts are read as which prefix, `PrefixIsNumeralExactly` when that is
  the numeral. An empty interface number is taken for 0 (`EmptyPortAccepted`). `OptionAcceptedExactly` says all
  of this of a whole option.
- Transmit queue ids are distinct only up to 65536 workers and below the configured count only below that
  (`QueueIdsDistinctExactly`, `QueueIdsConfiguredExactly`); an interface named twice can be polled by two
  workers (`PolledTwice`, `QueuesPolledOnceExactly`).
- The address parsers accept groups with no digits, such as "..1." and ":::::ff" (the two
  `EmptyGroupsAccepted` lemmas), although the comments speak of the usual format. The texts accepted are given
  exactly by the two `AcceptedExactly` lemmas.
- Two crypto operations in use can share an mbuf, because the mbuf index starts again while the device still
  holds operations. `EnqueueRound` says exactly when a round does this. Some device does it whenever bursts
  are not empty, the pool holds a burst and at least two operations, and total_ops exceeds both the burst and
  the pool less a burst plus one (`SharingHappens`); otherwise no device does (`EnqueueLoop`).
- Where reallocating to size 0 yields NULL, emptying a pointer list can end the program (`EmptyingExits`);
  `RunList` says exactly when.

## Model

| member | source | states |
|---|---|---|
| Bits.AndLowMask | routing_table.c:126 | masking with 2^n - 1 keeps the low n bits, for all values |
| Bits.AndHighMask | routing_table.c:126 | masking with the complement clears the low n bits |
| Bits.OrLowMask | routing_table.c:113 | or-ing 2^n - 1 into a value with clear low bits adds it |
| Routes.BestIsLongestMatch | routing_table.c:195-257 | deciding route by route, with a later equal prefix taking over, finds the longest match, the latest among equals, and nothing exactly when nothing matches |
| Routes.OrderIndependence | routing_table.c:46-59 | any permutation of routes without repeated networks gives every address the same next hop |
| Routes.OrderMattersForRepeats | routing_table.c:97-100 | with a repeated network the order does show |
| Ranges.ShortRangeBounds | routing_table.c:112-113 | for prefixes 1 to 24 the shifts lose no bits and the range lies inside the table |
| Ranges.ShortRange | routing_table.c:108-120 | the indexes of the range are exactly those of covered addresses |
| Ranges.DefaultRange | routing_table.c:112-113 | with prefix 0 the range is the table moved by the low byte of the undefined shift |
| Ranges.LongRangeBounds | routing_table.c:126-127 | the offsets of a long route lie inside one group |
| Ranges.LongRange | routing_table.c:122-131 | index and offset range are exactly the covered addresses |
| RoutingTables.NextId | routing_table.c:18-26 | the id is the low 15 bits of the entry |
| RoutingTables.WithNextId | routing_table.c:18-26 | writing the id keeps the is_long bit |
| RoutingTables.WithIsLong | routing_table.c:18-26 | writing the is_long bit keeps the id |
| RoutingTables.RangeIsCovered | routing_table.c:112-119 | the run of indexes is the covered set, or starts beyond the table exactly for a bad prefix-0 shift |
| RoutingTables.RoutingTable.constructor | routing_table.c:40-44 | the zeroed tables are a valid start |
| RoutingTables.RoutingTable.AddRoute | routing_table.c:46-59 | adds exactly this route, prefix cut to 32, and fails exactly when 255 are waiting |
| RoutingTables.RoutingTable.BuildRouteLte24LongIdx | routing_table.c:61-81 | merges a route into all cells of one group and into no other cell |
| RoutingTables.RoutingTable.BuildRouteLte24Idx | routing_table.c:83-106 | merges a short route at one index, whatever is there |
| RoutingTables.RoutingTable.BuildRouteLte24 | routing_table.c:108-120 | changes exactly the covered cells whose winner is absent or no longer; leaves the table exactly for a bad prefix-0 shift |
| RoutingTables.RoutingTable.BuildRouteGt24LongIdx | routing_table.c:122-146 | merges a long route into its offsets of one group only |
| RoutingTables.RoutingTable.BuildRouteGt24Idx | routing_table.c:148-170 | a fresh group holds the route at its offsets and nothing else; fails exactly when no group is left |
| RoutingTables.RoutingTable.PushDown | routing_table.c:182-189 | a short route moves into the cells of the new group that the long route leaves free |
| RoutingTables.RoutingTable.BuildRouteGt24 | routing_table.c:172-193 | all three cases, including pushing a short route down, merge the long route at its cells; at most one group is taken |
| RoutingTables.RoutingTable.BuildRoute | routing_table.c:211-218 | one insertion changes exactly the covered addresses whose winner is absent or no longer, and keeps the groups disjoint and the unused ones empty |
| RoutingTables.RoutingTable.InsertStep | routing_table.c:76-97 | merging route k is longest-prefix matching over one more route |
| RoutingTables.RoutingTable.BuildNextRoute | routing_table.c:209-219 | every address finds the longest match of one more route |
| RoutingTables.RoutingTable.ClearTables | routing_table.c:197-206 | every entry and cell is unused, whatever was there |
| RoutingTables.RoutingTable.Build | routing_table.c:195-221 | after a build every address finds the longest match of the waiting routes; the group table is never exceeded; fails exactly when a prefix-0 range leaves the table |
| RoutingTables.RoutingTable.CellsNameCoveringRoutes | routing_table.c:14-44 | a cell is unused or names a compiled route covering it; long entries never look unused and own a group below the allocation index |
| RoutingTables.RoutingTable.GetNextHop | routing_table.c:241-257 | two reads give the answer determined by the calls so far |
| RoutingTables.RoutingTable.PrintRoutes | routing_table.c:223-236 | the scan stops and lists the slots of the busiest build |
| RoutingTables.SplitAddress | routing_table.c:243-252 | index and offset together are the address |
| RoutingRuns.Run | routing_table.c:46-257 | every run of adds, builds and lookups answers as computed from its calls |
| RoutingRuns.BuiltAnswersAreLongestMatches | routing_table.c:241-257 | answers after a build are longest matches, absent exactly when nothing matches |
| RoutingRuns.PendingIsAddedSinceBuild | routing_table.c:209-220 | a build compiles the routes added since the previous build, never more than 255 |
| RoutingRuns.BuiltUntilNextBuild | routing_table.c:195-221 | until the next build the compiled routes stay those |
| RoutingRuns.RebuildForgets | routing_table.c:195-221 | lookups after a build and before the next add depend only on the routes added between the last two builds |
| RoutingRuns.StaleLookup | routing_table.c:53-58 | a lookup after further adds is right exactly when the winner's slot was not reused for another next hop |
| RoutingRuns.StaleLookupHappens | routing_table.c:53-58 | a run in which it is wrong |
| RoutingRuns.LastAnswerIsReplayed | routing_table.c:241-257 | what a lookup answers is the last answer of the run that goes on with it |
| RoutingRuns.HistoryOfRun | routing_table.c:46-221 | all a run leaves behind is what its last build compiled and what was added since |
| RoutingRuns.UnbuiltLookup | routing_table.c:40-44 | before the first build every lookup answers with the first hop added, or with zeros |
| RoutingRuns.LookupIsRightExactly | routing_table.c:46-257 | a run that goes on with a lookup answers it by longest match over the compiled routes exactly when there was a build and the winner's slot was not reused for another next hop |
| RoutingRuns.RunsAreOrderIndependent | routing_table.c:46-221 | permuting the adds changes neither answers nor outcome when no network is repeated |
| RoutingRuns.StopsAtEnd | routing_table.c:48-52 | a run that has ended is not changed by later calls |
| RoutingRuns.RunEndsExactly | routing_table.c:46-221 | a run ends exactly at the 256th route since the last build and at a build with a prefix-0 route whose shift has a nonzero low byte |
| PointerLists.GrowthTestIsExact | utils/pointer_list.c:24-33 | the overflow test fires exactly when the new capacity wraps |
| PointerLists.ContractedCap | utils/pointer_list.c:35-47 | below the capacity unless that is 0, and about two thirds of it from 3 on |
| PointerLists.CapAfterRemoveExactly | utils/pointer_list.c:35-57 | the capacity after a removal in numbers: a third goes, rounded down, where the rest fits, and one place below three |
| PointerLists.PointerList.Realloc | utils/pointer_list.c:13-22 | keeps the contents; fails exactly for size 0 where that yields NULL |
| PointerLists.PointerList.Expand | utils/pointer_list.c:24-33 | keeps the contents and grows, or fails exactly on wrap-around |
| PointerLists.PointerList.Contract | utils/pointer_list.c:49-57 | shrinks without losing an element |
| PointerLists.PointerList.Append | utils/pointer_list.c:59-67 | the sequence gains the element at its end |
| PointerLists.PointerList.Remove | utils/pointer_list.c:69-81 | the sequence loses exactly this element, or nothing for an index past the end; the capacity goes down a step exactly where the rest fits |
| PointerLists.PointerList.Pop | utils/pointer_list.c:83-90 | the last element is returned and removed, NULL from an empty list |
| PointerLists.PointerList.Get | utils/pointer_list.c:92-97 | the element, or NULL past the end |
| PointerLists.PointerList.Set | utils/pointer_list.c:99-104 | replaces the element, or nothing past the end |
| PointerLists.PointerList.Insert | utils/pointer_list.c:116-129 | the sequence gains the element at the position, the rest moves on in order |
| PointerLists.AppendAll | utils/pointer_list.c:24-67 | n appends to an empty list move fewer than 3n elements |
| PointerLists.RunList | utils/pointer_list.c:13-129 | any run of operations acts on a plain sequence; it exits exactly when a full list cannot grow or, where realloc of size 0 yields NULL, the only element leaves a list of capacity 1 |
| PointerLists.ShortRunsDoNotExit | utils/pointer_list.c:13-129 | up to 2^31 operations do not exit where realloc of size 0 does not yield NULL; the capacity stays within one and a half times their number |
| PointerLists.ExitIsFinal | utils/pointer_list.c:16-20 | a run that has exited is not changed by later calls |
| PointerLists.EmptyingExits | utils/pointer_list.c:13-22 | a run of two operations that exits on such a platform and not on others |
| DummyTables.MaskIsPrefix | dummy_routing_table.c:46 | the shifted INT_MIN is the mask of the first cidr bits |
| DummyTables.MatchesIsCovers | dummy_routing_table.c:46-49 | an entry matches exactly when it covers the address and its host bits are zero |
| DummyTables.InsertKeepsOrder | dummy_routing_table.c:22-37 | inserting before the first shorter prefix keeps the list sorted, earlier entries first among equals |
| DummyTables.DummyTable.PositionFor | dummy_routing_table.c:24-30 | finds the first shorter prefix |
| DummyTables.DummyTable.AddRoute | dummy_routing_table.c:22-37 | the list stays the stable sort of the entries added |
| DummyTables.DummyTable.GetNextHop | dummy_routing_table.c:39-52 | the first match is the longest, the earliest added among equals; none exactly when nothing matches |
| TableRefinement.SelectSameExactly | dummy_routing_table.c:22-52 | both tables select the same route for an address exactly when the latest longest match has zero host bits and no other longest match has |
| TableRefinement.TablesAgree | routing_table.c:241-257 | with zero host bits and no repeated network they agree on every address |
| TableRefinement.FirstMatchExactly | dummy_routing_table.c:39-52 | the simple table selects the longest match without host bits, the earliest added; without such routes that is the earliest longest match |
| TableRefinement.SameHopExactly | dummy_routing_table.c:39-52 | the answers have the same next hop exactly when no route matches or the latest longest match and the simple table's pick lead to the same hop |
| TableRefinement.RunBothTables | routing_table.c:195-257 | both programs on the same routes answer alike exactly under that condition, and wherever they select the same route |
| TableRefinement.HostBitsSeparateTables | dummy_routing_table.c:48 | a route with host bits set is found by one table only |
| TableRefinement.RepeatsSeparateTables | dummy_routing_table.c:28 | a repeated network is decided differently |
| Throughput.BurstLoop.SizeBurst | dpdk/app/test-crypto-perf/cperf_test_throughput.c:344-350 | the 16-bit subtraction does not wrap and the fresh operations end before the kept ones |
| Throughput.BurstLoop.BulkAlloc | dpdk/app/test-crypto-perf/cperf_test_throughput.c:353-363 | takes all or none, never over a kept operation |
| Throughput.BurstLoop.PopulateOps | dpdk/app/test-crypto-perf/cperf_test_throughput.c:366-369 | each fresh operation gets the mbuf at its place and no other operation changes its own |
| Throughput.BurstLoop.Compact | dpdk/app/test-crypto-perf/cperf_test_throughput.c:376-382 | the burst is the fresh operations followed by the kept ones |
| Bursts.FreshAreNew | dpdk/app/test-crypto-perf/cperf_test_throughput.c:353-363 | fresh operations are different and neither kept nor in the device |
| Throughput.BurstLoop.PrepareBurst | dpdk/app/test-crypto-perf/cperf_test_throughput.c:344-382 | the burst is the fresh operations, each with the mbuf at its place, followed by the kept ones; no other operation changes its mbuf; every mbuf lies in the pool; fails exactly on an exhausted pool |
| Bursts.EnqueuedConsistent | dpdk/app/test-crypto-perf/cperf_test_throughput.c:344-406 | after sending every operation is still in one place only and has an mbuf unless it is free |
| Bursts.BurstExample | dpdk/app/test-crypto-perf/cperf_test_throughput.c:344-406 | a burst of the free operations 1, 2 and the kept 7, of which the device takes two: what is sent, kept and free, and the mbufs handed out |
| Throughput.BurstLoop.EnqueueRound | dpdk/app/test-crypto-perf/cperf_test_throughput.c:344-406 | sends a front part of that burst and keeps the rest, losing and doubling nothing; afterwards no two operations in use share an mbuf exactly when none did before and the mbufs handed out were different and free |
| Throughput.BurstLoop.Collect | dpdk/app/test-crypto-perf/cperf_test_throughput.c:410-430 | whatever the device returns of what it holds goes back to the pool, every operation stays in one place |
| Throughput.BurstLoop.AdvanceMbufs | dpdk/app/test-crypto-perf/cperf_test_throughput.c:432-434 | the mbuf index moves on or starts again so that a whole burst fits |
| Throughput.BurstLoop.Round | dpdk/app/test-crypto-perf/cperf_test_throughput.c:342-435 | one round for any device behaviour: the whole new state |
| Bursts.SharingExactly | dpdk/app/test-crypto-perf/cperf_test_throughput.c:366-369 | handing out mbufs keeps those of operations in use different exactly when they repeat none and none of them is in use |
| Bursts.RoundShares | dpdk/app/test-crypto-perf/cperf_test_throughput.c:344-406 | the same of the mbufs of a whole round |
| Sharing.SharingHappens | dpdk/app/test-crypto-perf/cperf_test_throughput.c:342-435 | for all sizes that satisfy `CanShare` some device makes two operations in it hold the same mbuf |
| Bursts.StaysOrderly | dpdk/app/test-crypto-perf/cperf_test_throughput.c:342-435 | for all other sizes a round of any device keeps them different |
| Bursts.NeverExhausted | dpdk/app/test-crypto-perf/cperf_test_throughput.c:353-363 | along every run of a device that returns all it holds, a pool of at least a burst is never exhausted |
| Bursts.ChainProgress | dpdk/app/test-crypto-perf/cperf_test_throughput.c:384-406 | along every run of a device that always takes something, at least one operation is sent a round |
| Bursts.ChainOrderly | dpdk/app/test-crypto-perf/cperf_test_throughput.c:342-435 | along every run of any device, where the sizes do not satisfy `CanShare`, no two operations in use share an mbuf |
| Throughput.BurstLoop.EnqueueLoop | dpdk/app/test-crypto-perf/cperf_test_throughput.c:342-435 | every round follows from the one before by what the device accepts and returns in it; when the loop ends exactly total_ops operations were sent and none is left; it fails exactly when a round needs more operations than are free; a device that always takes something makes it end, and one that also returns all it holds makes it succeed wherever the pool holds a burst; for all sizes that do not satisfy `CanShare` no two operations in use ever share an mbuf |
| Throughput.BurstLoop.DrainLoop | dpdk/app/test-crypto-perf/cperf_test_throughput.c:439-454 | every round returns what the device gives back in it; when the loop ends every operation is back in the pool; a device that returns something whenever it holds something makes it end within total_ops rounds |
| Bursts.DrainProgress | dpdk/app/test-crypto-perf/cperf_test_throughput.c:439-454 | a device that returns something whenever it holds something is left with fewer operations in every round |
| Frames.Reduce | dpdk/lib/librte_net/rte_ip.h:205-211 | two folds keep the residue modulo 65535 and give 0 only for 0 |
| Frames.FixedTestExactly | router.c:214-219 | the checksum test passes exactly when the first 20 bytes verify and the field is not zero |
| Frames.ChecksumTestExactly | router.c:214-219 | where the option words sum to zero modulo 65535 the test is that of RFC 1071 and a nonzero field; elsewhere what one accepts the other refuses |
| Frames.WrittenChecksumExactly | router.c:266-268 | a checksum the router writes passes its own test, and that of RFC 1071 exactly when the option words sum to zero modulo 65535 |
| Frames.VersionAndIhl | router.c:220-227 | the masks split the first byte into version and header length |
| Decisions.ForwardedStaysValid | router.c:255-272 | a forwarded packet is valid to the next router, one TTL lower, and otherwise unchanged but for checksum and MAC addresses; it verifies by RFC 1071 exactly when the packet received did |
| Wire.FrameValidExactly | router.c:396-430 | in bytes: destination all ones or our own, type 0x0800, 0x86DD or 0x0806 and at least 34, 54 or 42 bytes, at most 1514 |
| Wire.HeaderValidExactly | router.c:212-240 | in bytes: version 4, at least five words, a total length that holds the header and lies in the frame, a nonzero TTL, ten header words that sum to zero modulo 65535 with a nonzero checksum |
| Wire.Ipv4DecidedExactly | router.c:212-299 | in bytes: which IPv4 frames are sent on, and that the next hop is that of bytes 30 to 33; all others are discarded |
| Wire.ForwardedExactly | router.c:245-272 | the packet sent, byte for byte: the MAC addresses, the TTL and the checksum are new, and the header words sum to zero |
| Wire.ArpVerdictExactly | router.c:305-390 | in bytes: an ARP frame is answered exactly when bytes 14 to 21 are those of a request and bytes 38 to 41 are the address of one of the interfaces |
| Wire.ArpDecidedExactly | router.c:335-430 | the same of a whole ARP frame, with its destination |
| Wire.ArpReplyBytes | router.c:340-355 | the reply, byte for byte |
| Wire.OthersAreDiscarded | router.c:444-463 | every frame of another type, or too short or too long for its type, is discarded |
| Decisions.ArpReplyAnswers | router.c:335-355 | the reply carries our MAC for the asked address and goes to the asker (RFC 826) |
| Decisions.RepliesAreNotAnswered | router.c:381-389 | a reply is discarded by any router |
| Decisions.ZeroChecksumIsDropped | router.c:214-219 | a packet with a zero checksum field is discarded |
| Decisions.ZeroChecksumCanBeRight | router.c:214-219 | a header right in every other respect whose correct checksum field is zero |
| Decisions.OptionsAreRefused | dpdk/lib/librte_net/rte_ip.h:313-319 | a packet that verifies by RFC 1071 is discarded whenever its option words do not sum to zero modulo 65535 |
| Decisions.OptionsCanBeRight | dpdk/lib/librte_net/rte_ip.h:313-319 | a header with a router alert option, right in every respect, that the test refuses |
| Hops.OneHop | router.c:245-299 | what one router sends on is the same packet, valid, with a TTL one lower and nonzero |
| Hops.TtlBoundsTravel | router.c:212-299 | through any sequence of routers a packet with TTL t is sent at most t - 1 times, each time with the expected TTL |
| Hops.TravelIsExact | router.c:212-299 | on a connected way it is sent exactly t - 1 times, or by every router |
| Nics.Nic.SendOrFree | router.c:274-279 | up to ten attempts, then freed: exactly one event |
| Routers.RouterThread.IsIpv4HdrValid | router.c:212-240 | the header checks, leaving the checksum field zero |
| Routers.RouterThread.SendIpv4Packet | router.c:245-280 | sends the forwarded packet to the next hop or frees the buffer |
| Routers.RouterThread.HandleEtherIpv4 | router.c:285-299 | carries out the decision on an IPv4 frame, with the next hop that the routing table gives for the address in bytes 30 to 33 |
| Routers.RouterThread.IsArpMsgValid | router.c:305-328 | the ARP checks against all interfaces |
| Routers.RouterThread.RewriteArp | router.c:340-355 | the field-by-field rewriting yields the reply |
| Routers.RouterThread.HandleEtherArp | router.c:335-390 | answers exactly a request (bytes 14 to 21) for the address of one of the interfaces (bytes 38 to 41), discards every other ARP frame |
| Routers.RouterThread.IsFrameValid | router.c:396-430 | the frame checks |
| Routers.RouterThread.HandleFrame | router.c:444-463 | exactly one event per frame, the one its bytes decide |
| Routers.RouterThread.HandleFrames | router.c:437-465 | the first rx places of the burst array give the events of their frames in order |
| Conservation.TriesUntilTaken | router.c:274-279 | the attempts stop at the first success; without one all are made |
| Conservation.EveryBufferOnce | router.c:437-465 | event number i is about buffer number i: sent as decided at the first success of its own up to ten attempts, freed as decided without any, or freed after exactly ten refusals |
| Conservation.RunConserves | router.c:478-497 | the same over any number of bursts, with the attempts counted through |
| Receive.RxDevice.Recv | dpdk_init.h:12-20 | the queues are asked in turn until the burst is full, each giving as much as the room, the queue and the card's offer allow; the array is filled from its front with that and not touched beyond; the rest stays queued, nothing is overwritten or doubled |
| Receive.Poll | router.c:483-490 | a poll asks every queue unless 32 buffers have come in, handles exactly what it received, queue by queue from the front of each, and writes to no other buffer |
| Receive.TakesSome | dpdk_init.h:12-20 | from a card that always offers something a poll takes something, unless nothing is queued |
| QueueOrder.PlacesIncrease | dpdk_init.h:12-20 | what is taken from a queue is received in the order of the queue, over any number of polls |
| QueueOrder.FirstQueuedFirstHandled | router.c:437-465 | of two buffers of one receive queue each has one event, and the one queued first the earlier |
| Receive.ReceivedOnce | router.c:470-500 | no buffer is received twice |
| Receive.RunThread | router.c:470-500 | over any number of rounds every interface is polled once a round, in turn; every queue is emptied from its front, every buffer gone from it has exactly one event, in the order of the queue, and it is the one called for by its bytes at the start on the interface it came in by; what is still queued is untouched; from cards that always offer something everything is received within as many rounds as buffers were queued |
| Receive.EverythingReceived | router.c:478-497 | where every round takes something from each interface that has something, all queues are received whole once there were as many rounds as buffers |
| Workers.StartRouter | router.c:607-663 | every worker is created, configured and started exactly once |
| Workers.ShareOut | router.c:640-654 | interface i goes to worker i modulo the count, in order |
| Workers.ShareOf | router.c:648-653 | the shares are exactly the residue classes |
| Workers.ShareSize | router.c:600-602 | loads differ by at most one |
| Workers.LaunchOrder | router.c:656-663 | the slaves start workers 1, 2 and so on in order, then the master starts worker 0 |
| Workers.QueueIdsDistinctExactly | router.c:635 | queue ids are pairwise distinct exactly up to 65536 workers |
| Workers.QueueIdsConfiguredExactly | router.c:647 | they lie below the configured number exactly below 65536 workers |
| Workers.QueuesPolledOnceExactly | router.c:485 | no receive queue has two workers exactly when equal interface ids share a worker or the count is cut to 0 in 16 bits |
| Workers.PolledTwice | router.c:640-654 | an interface named twice, with two workers, has a queue polled by both |
| CStrings.IndexOfFirstChar | utils/utils.c:9-22 | the first place of the character, terminator included, among the first max + 1, or anywhere for a negative max; -1 if there is none |
| CStrings.AreAllCharDecimal | utils/utils.c:28-39 | whether every character is a decimal digit |
| CStrings.AreAllCharHexadecimal | utils/utils.c:45-56 | whether every character is a hexadecimal digit |
| Numbers.CharactersExactly | utils/utils.c:24-56 | which characters count as decimal digits, hexadecimal digits in either case, and blanks |
| Numbers.DigitValues | utils/utils.c:143 | what each digit is worth, in either case |
| Numbers.CaseIrrelevant | utils/utils.c:143 | a hexadecimal text is worth the same in lower case |
| Ipv4Text.GroupValOfGood | utils/utils.c:62-71 | the -1 sentinel is never the value of a good group |
| Ipv4Text.ReadGroup | utils/utils.c:86-102 | one group is read and its dot put back unless it is not a number |
| Ipv4Text.Ipv4AddrFromStr | utils/utils.c:78-119 | the in-place parser computes the specified outcome and restores the buffer unless a group is not a number |
| Ipv4Text.AcceptedExactly | utils/utils.c:73-119 | exactly four groups of up to three digits, each at most 255, with their base-256 value |
| Ipv4Text.EmptyGroupsAccepted | utils/utils.c:62-71 | "..1." is read as 0.0.1.0 |
| Ipv4Text.DottedRoundTrip | utils/utils.c:73-119 | parsing undoes printing for every address |
| MacText.RangeTestNeverFails | utils/utils.c:145-147 | two hexadecimal digits are always a byte |
| MacText.MacAddrFromStr | utils/utils.c:126-167 | the in-place parser computes the specified outcome and restores the buffer unless a group is not hexadecimal; `CapitalMacRoundTrip` and `CaseOfMacIrrelevant` pin that outcome for capital digits |
| MacText.AcceptedExactly | utils/utils.c:121-167 | exactly six groups of up to two digits, the last of two |
| MacText.EmptyGroupsAccepted | utils/utils.c:126-167 | ":::::ff" is read as 00:00:00:00:00:ff |
| MacText.MacRoundTrip | utils/utils.c:121-167 | parsing undoes printing for every hardware address |
| MacText.CapitalMacRoundTrip | utils/utils.c:121-167 | parsing undoes printing in capital digits too |
| MacText.CaseOfMacIrrelevant | utils/utils.c:121-167 | a text and its lower-case form name the same address, or both none |
| RouteOption.ReadOption | router.c:133-192 | the in-place parser computes the specified route and restores an accepted option |
| RouteOption.ParseOptionR | router.c:133-196 | an accepted option adds exactly its route and is left unchanged; a refused one changes no route |
| RouteOption.RouteRoundTrip | router.c:129-196 | parsing undoes printing for every route |
| RouteOption.OptionExample | router.c:133-196 | "10.0.0.0/8,AA:BB:CC:DD:EE:FF,1" is read as that route |
| RouteOption.OptionAcceptedExactly | router.c:133-196 | an option is accepted and names route r exactly when it is four address groups, a slash, a text read as the prefix, a comma, six hardware groups, a comma and the interface in digits |
| Numbers.AtoiExactly | router.c:160 | the texts read as v are exactly blanks, an optional sign, digits and a tail, with v the signed number cut to 32 bits |
| RouteOption.PrefixReadExactly | router.c:153-164 | a text of at most ten characters without a comma is read as prefix p exactly when it is such a text for p, and refused when its number is not between 0 and 32 |
| RouteOption.PrefixIsNumeralExactly | router.c:158-164 | an accepted prefix is the numeral of its number exactly when it is not empty, all digits and below 2^31 |
| RouteOption.LoosePrefixes | router.c:158-164 | four accepted texts that are not the numeral of their prefix |
| RouteOption.WrappedPrefix | router.c:158-164 | a fifth, too large for an int |
| RouteOption.EmptyPortAccepted | router.c:181-191 | an interface without digits is read as 0 |
| Startup.LoadRoutes | router.c:556-597 | the table built from the route options holds the accepted routes in order; the start fails exactly for more than 255 of them or a prefix-0 range that leaves the table |
| Startup.PrintedRoutesAccepted | router.c:580-595 | routes written out as options are accepted as they are |
| Startup.ForwardsToLongestMatch | router.c:285-299 | an IPv4 frame that is right in its bytes goes to the next hop of the longest match for bytes 30 to 33 among the routes of the start, and is discarded exactly when none matches |
| RouteOption.JunkPrefixMeansDefault | router.c:158-164 | the case of a text that starts like no number: it is read as 0 |

## Left out

- Memory allocation failure: allocation always succeeds, except for the modelled reallocation to size 0.
- Frames of more than one segment: a buffer is one segment as long as the packet.
- Reuse of a buffer by the card during a run: the receive queues of all devices together hold each buffer's memory once.
- Statistics, timing and the outer iteration over burst sizes of the throughput test: no hard property.
- `parse_option_p`, the rest of `parse_args` and the signal handler: thin wrappers over what is modelled.
- Clearing, printing and sorting of pointer lists: easy members, or the C library's sort.
- Device configuration in `dpdk_init.c` and the launch of lcores: foreign calls; only their arguments are modelled.
- `forwarder/fwd.c`: forwards unconditionally.
- The latency and verify variants of the crypto test: near copies of the throughput loop.
- Numbers.Atoi: a number that does not fit an int is undefined in C; here it is cut to 32 bits.
- Receive.RxDevice.RxBurst: hands over what the card offers at that call, for any card; why it offers so many, and arrivals during a run, are not modelled.
