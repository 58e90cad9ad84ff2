# Verified model of the HPCC simulation tools

A Dafny model of the parts of the repository that decide something: the routing engine of the
simulation, the test runner's worker pool, the trace-filter language of the analysis tools, the traffic
generator with the scheduler it feeds, and the slicing of flow-completion times into quantiles.
`dafny verify dfyconfig.toml` checks the whole project.

**Routing** (`Topology`, `Search`, `Addressing`, `Routing`, `Forwarding`). Routes, hop distances and
equal-cost next hops are defined from the links alone. The class `Fabric` holds the maps that the
simulation keeps and runs its loops on them: the breadth-first search from every host (hosts are never
passed through), the installation of table entries, the removal of a link with rerouting, and the maxima of
round-trip time and bandwidth-delay product. The next-hop lists are proved to be the equal-cost sets, the
recorded totals to be those of one shortest route, and the installed tables to bring every packet to its
destination in its hop distance, whichever entries it follows. `Forwarding.Simulate` carries this through a
whole run: any list of links, then any list of take-downs.

**Worker pool** (`WorkerPool`, `JobFates`). A state machine over the steps of the main thread, the workers and an
interrupt; a run is any interleaving. Every job is in one place at every moment, tokens are taken only after
all real jobs, every schedule is bounded and some thread can always move. What happens to a job is told by
the steps of the threads, not by the records that come back: each job is turned away, passed over or run, once,
and counters and status report just that. With no worker at all the pool hangs; that condition is exact.

**Trace filters** (`FilterText`, `TraceFilters`, `FilterGrammar`, `FilterMeaning`, `FilterObject`,
`FilterRecords`, `FlowKeys`). The parser, with its regular expressions as scanning functions, is proved to accept exactly the
texts of a grammar stated apart from it and to give them their meaning, defined by field, number and tuple;
the imperative parser refines the functional one. Printing and parsing are inverse exactly for filters whose
values fit their fields. Shorthands, whose expansion makes the text longer, still terminate, and accept
exactly the records of their flow or queue. The object's own `str()`, described as printing the expression,
prints byte offsets for field names: for an object with a tree its output never parses back. An expression
that does not parse leaves an object that passes every record; its user has to look for that, and does.

**Traffic** (`CustomRand`, `FlowBins`, `TrafficGen`, `TrafficFile`, `FlowScheduling`). The piecewise-linear
distribution over exact reals, its two inverse readings and its integral; the size bins; the heap loop that
merges the arrivals of all hosts, proved to emit exactly the flows that the draws determine; the file header
that is overwritten in place; and the scheduler that starts the flows. The header reads back right only under
an exact condition on the lengths of the two numbers.

**Flow completion times** (`FctAnalysis`). Both slicing branches, in place on an array. The code reads behind
a slice that is empty, and outside the array if that slice is at its end. Both conditions are exact and stated
in the steps and the samples given.

Conventions. The routing maps are keyed by node pointers, so their iteration order is arbitrary: the
loops here take any next key, and lists are exact up to order. A missing map entry reads as zero or as a link
that is down, which is what the default insertion of the original gives. A node is its index in the node
container, which is also its id. Unsigned 64-bit, 32-bit and 16-bit arithmetic wraps where the code's does.
Variables that `sscanf` leaves unset read as an arbitrary number, given by the parameter `junk`. A read outside
an array, undefined in the original, gives no value.

## Model

| member | source | states |
|---|---|---|
| Topology.HopsUniqueUpToOrder | simulation/scratch/fat_tree.cc:350-353 | An equal-cost next-hop list is determined by the links alone, up to order |
| Search.QueueBound | simulation/scratch/fat_tree.cc:319-348 | No node is enqueued twice, so the search loop ends |
| Search.Discover | simulation/scratch/fat_tree.cc:341-348 | Discovering a node keeps the search invariant: queue in order of distance, every discovered node reached by a route of its recorded length |
| Search.DistancesExact | simulation/scratch/fat_tree.cc:332-355 | At the end a node has a recorded distance exactly when a route of up links through switches leads to it, and the distance is the fewest hops of such a route |
| Search.HopsExact | simulation/scratch/fat_tree.cc:350-353 | The next hops recorded by one search are exactly the equal-cost neighbours, each once |
| Topology.PathBwIsBottleneck | simulation/scratch/fat_tree.cc:345 | The rate of a route is at most that of each of its links and equals one of them, or is the rate without limit |
| Addressing.AddressRoundTrip | simulation/scratch/fat_tree.cc:229-235 | Decoding a server address gives the node id modulo 2^16, so the round trip holds exactly for ids below 2^16 |
| Addressing.AddressesDistinct | simulation/scratch/fat_tree.cc:229-231 | Two nodes share an address exactly when their ids agree modulo 2^24 |
| Routing.ExtendTotals | simulation/scratch/fat_tree.cc:343-345 | Delay, transmission time and bottleneck rate of a route extended by one link, in 64-bit arithmetic; per link the transmission time is eight billion times the packet size divided by the rate |
| Routing.VisitNew | simulation/scratch/fat_tree.cc:341-349 | A discovery keeps the search invariant and labels the new node with the totals of its route |
| Routing.VisitHop | simulation/scratch/fat_tree.cc:350-353 | The current node joins a neighbour's list exactly when it is one hop nearer to the host |
| Routing.ReachedAreWitnessed | simulation/scratch/fat_tree.cc:332-355 | After the search exactly the reachable nodes are labelled, each with the three totals of one single shortest route |
| Routing.ListsAreComplete | simulation/scratch/fat_tree.cc:332-355 | After the search each list has gained exactly the equal-cost next hops towards the host |
| Routing.Fabric.constructor | simulation/scratch/fat_tree.cc:889-897 | A new network has no routes or entries, and every link record reads as zero and down |
| Routing.Fabric.InstallDevice | simulation/scratch/fat_tree.cc:965-982 | A new device gets the next index of its node, from 1 |
| Routing.Fabric.AddLink | simulation/scratch/fat_tree.cc:965-985 | Both directions of the link are up with its delay and rate, every other link is unchanged, and interfaces stay distinct |
| Routing.Fabric.CalculateRoute | simulation/scratch/fat_tree.cc:317-362 | Appends the equal-cost sets towards the host and records the totals of a shortest route for each node that reaches it; every other entry is unchanged |
| Routing.Fabric.SearchFrom | simulation/scratch/fat_tree.cc:317-355 | The search labels exactly the reachable nodes, each with the totals of a shortest route, and appends the equal-cost sets |
| Routing.Fabric.RecordColumn | simulation/scratch/fat_tree.cc:356-361 | Writes one column of a pair map and nothing else |
| Routing.Fabric.CalculateRoutes | simulation/scratch/fat_tree.cc:364-370 | One search per host and none per switch: every host's equal-cost sets are appended and its column of totals recorded |
| Routing.Fabric.SetRoutingEntries | simulation/scratch/fat_tree.cc:372-395 | Each table gains, under the address of each destination, exactly the interfaces towards its recorded next hops |
| Routing.Fabric.SetUpRouting | simulation/scratch/fat_tree.cc:1085-1087 | After the first routing the next-hop map and the tables are right for the network and all totals are recorded |
| Routing.Fabric.ClearTables | simulation/scratch/fat_tree.cc:405-411 | No node keeps an entry |
| Routing.Fabric.RouteAgain | simulation/scratch/fat_tree.cc:403-415 | Routing from scratch with cleared tables makes routes and tables right and records all totals |
| Routing.Fabric.TakeDownLink | simulation/scratch/fat_tree.cc:398-416 | On an up link, routes and tables are right for the network without it and its two devices are down; on any other link nothing changes, so a second call does nothing |
| Routing.Fabric.ComputeBdp | simulation/scratch/fat_tree.cc:1089-1111 | Round-trip time and bandwidth-delay product of every host pair; the two maxima bound all pairs and are attained when positive |
| Forwarding.ForwardsIffHop | simulation/scratch/fat_tree.cc:372-395 | An entry leads from a node to a neighbour exactly when that neighbour is an equal-cost next hop |
| Forwarding.EntriesAreLive | simulation/scratch/fat_tree.cc:384-391 | Every entry names the interface of an up link to an equal-cost next hop |
| Forwarding.ShortestRouteEndsWithHop | simulation/scratch/fat_tree.cc:350-353 | The last step of a shortest route is an equal-cost hop, and what is before it is a shortest route |
| Forwarding.PacketsArrive | simulation/scratch/fat_tree.cc:332-395 | Whatever entries a packet follows, each step brings it one hop nearer, it passes switches only, meets no node twice, is never stuck and arrives after exactly its hop distance |
| Forwarding.EntryIffReachable | simulation/scratch/fat_tree.cc:372-395 | A node holds an entry for a host exactly when it is another node that can reach it |
| Forwarding.TakeDownNeverShortens | simulation/scratch/fat_tree.cc:398-404 | Taking a link down brings no node nearer to any host |
| Forwarding.DownDevicesUnused | simulation/scratch/fat_tree.cc:411-415 | No entry uses a device that was taken down |
| Forwarding.UnusedLinkKeepsHops | simulation/scratch/fat_tree.cc:398-404 | Taking down a link that no next hop towards a host uses changes no equal-cost set towards that host |
| Forwarding.RoutesDetermined | simulation/scratch/fat_tree.cc:403-404 | Two correct next-hop maps of one network agree up to order, so rerouting gives what routing from scratch gives |
| Forwarding.TablesDetermined | simulation/scratch/fat_tree.cc:405-415 | The same for the installed tables, at every node and address |
| Forwarding.MaximaAreWorst | simulation/scratch/fat_tree.cc:1092-1111 | The largest round-trip time and the largest bandwidth-delay product bound those of a shortest route for every connected host pair, and belong to one when positive |
| Forwarding.LinkCut | simulation/scratch/fat_tree.cc:398-402 | Taking a link down removes it in both directions, and only it |
| Forwarding.BuildNetwork | simulation/scratch/fat_tree.cc:932-996 | Exactly the listed links are up, each with the delay and rate listed last for it |
| Forwarding.Simulate | simulation/scratch/fat_tree.cc:930-1189 | After building, routing, computing the maxima and any take-downs, the links up are exactly those listed and not cut, routes and tables are right for them, every connected pair has the totals of one shortest route over them, and the two maxima are still those of the network as built |
| WorkerPool.StepConserves | simulation/test.py:921-989 | Any step of any thread keeps each dispatched job in exactly one place: input queue, a worker, output queue, collected |
| WorkerPool.StepKeepsTokens | simulation/test.py:1571-1578 | Break tokens stay behind all real jobs, none is lost, and no worker takes one early |
| WorkerPool.StepKeepsGenuine | simulation/test.py:935-948 | Jobs keep their skip flag, skipped jobs are never run, and only an interrupt marks a job as broken |
| WorkerPool.StepKeepsMain | simulation/test.py:1590-1619 | The counters are the tally of the jobs collected so far, and the main thread has passed only workers that returned |
| WorkerPool.RunKeepsInv | simulation/test.py:921-989 | All of this holds after every interleaving, interrupted at any step or not |
| WorkerPool.StepWorks | simulation/test.py:921-989 | Every step but an interrupt takes some of the remaining work away |
| WorkerPool.RunsAreBounded | simulation/test.py:1571-1597 | In every schedule the threads take at most 8 steps per job and per worker, and 4 more |
| WorkerPool.SomeThreadCanMove | simulation/test.py:1594-1597 | No deadlock: until the end some thread can move, if there is a worker or there are no jobs, whatever a finishing job returns |
| WorkerPool.NoWorkersNoResults | simulation/test.py:1298-1316 | Without workers and with jobs, no run ever collects a result or ends |
| WorkerPool.EveryRunCanFinish | simulation/test.py:1571-1737 | With a worker, or without jobs, every run, interrupted or not, can be brought to its end by thread steps alone, within the bound on all runs, whatever the jobs return |
| WorkerPool.OneTokenEach | simulation/test.py:923-929 | A worker that is leaving has taken exactly one token, any other none |
| WorkerPool.TallyAddsUp | simulation/test.py:1594-1619 | The five counters and the interrupted jobs sum to the jobs collected; passed and skipped alone do exactly when every job was skipped or returned 0, without interruption |
| WorkerPool.TallyCountsOutcomes | simulation/test.py:1604-1619 | Each counter is the number of collected jobs with its outcome |
| WorkerPool.FinalRecords | simulation/test.py:1736-1803 | At the end every job has exactly one record, nothing is queued, every worker has taken exactly one token and returned, and counters and status are those of the records |
| WorkerPool.NoEarlyExit | simulation/test.py:923-929 | When a worker has returned, all jobs are dispatched and only tokens are left in the input queue |
| WorkerPool.ExitMeansInterrupted | simulation/test.py:546-551 | In every run the exit flag is set exactly when an interrupt came |
| WorkerPool.AnyRunCanBeInterrupted | simulation/test.py:546-551 | An interrupt may come at any moment, and only sets the flag |
| WorkerPool.InterruptDrains | simulation/test.py:930-938 | After an interrupt no job is started any more: at most the jobs running at that moment still finish, in every continuation |
| WorkerPool.CollectResults | simulation/test.py:1590-1619 | The collecting loop computes the tally of its results and the exit status, 0 or 1 |
| JobFates.HeldOnlyThere | simulation/test.py:921-989 | A job that a worker holds is dispatched, and nowhere else |
| JobFates.RunKeepsFates | simulation/test.py:921-989 | In every run nothing is decided about a job before a worker checks it or while it runs; after that exactly one thing is, and the job's record reports it: turned away, passed over, or run with the return code it finished with |
| JobFates.OneFateAtMost | simulation/test.py:921-989 | In every run a job runs at most once, and not if it was turned away or passed over |
| JobFates.FateIsDecided | simulation/test.py:928-989 | Every fate was decided by a step of its own: turned away when a worker checked the job after an interrupt earlier in the run, run when the worker running it finished with that code |
| JobFates.FinishedRun | simulation/test.py:1590-1619 | At the end every job has exactly one fate, which fits the plan; none was turned away without an interrupt; each counter is the number of jobs with its fate |
| JobFates.StatusIsFates | simulation/test.py:1800-1803 | The status is 0 when every job to be skipped was passed over and every other job ran, with return code 0; otherwise it is 1 |
| JobFates.EveryOutcomeIsPossible | simulation/test.py:921-1619 | Whatever the jobs return, some run without an interrupt ends with each job passed over if it is to be skipped and otherwise run with its return code |
| FilterText.ReadDec | analysis/trace_filter.hpp:191-192 | Decimal text of a number reads back as the number, with both numeric conversions |
| FilterText.ReadPrefixed | analysis/trace_filter.hpp:191-192 | Hexadecimal text after 0x and octal text after 0 read back as the number |
| FilterText.ReadDecAt | analysis/trace_filter.hpp:354-373 | Decimal text reads back as the number wherever it stands, up to a comma or the end |
| FilterText.CharacterClasses | analysis/trace_filter.hpp:237-238 | Spaces, digits, field and value characters and connectives, by ASCII code |
| FilterText.DigitValues | analysis/trace_filter.hpp:191-192 | The values of decimal and hexadecimal digits, by ASCII code |
| FilterText.BarePrefixUnreadable | analysis/trace_filter.hpp:191-192 | A prefix 0x without a hexadecimal digit after it cannot be read |
| FilterText.CloseIndexIsFirst | analysis/trace_filter.hpp:284-291 | The scan for a closing bracket stops at the first position where the depth returns to zero, or at the end |
| FilterText.ClosesAfter | analysis/trace_filter.hpp:326-336 | A bracket opened before a text closes just behind it exactly when the text is balanced |
| TraceFilters.ComparisonsAgree | analysis/trace_filter.hpp:56-67 | The six comparisons fit together as those of numbers do |
| TraceFilters.Expansion | analysis/trace_filter.hpp:347-380 | A shorthand's expansion has no letter that every shorthand name has: expanding it can never lead to another shorthand |
| FilterGrammar.MatchBaseComplete | analysis/trace_filter.hpp:237-244 | A text that splits into spaces, field, operator and value, and then ends or meets a connective, is matched with just these parts |
| FilterGrammar.MatchBaseSound | analysis/trace_filter.hpp:237-244 | Whatever the base pattern matches splits in that way |
| FilterGrammar.SplitComplete | analysis/trace_filter.hpp:300-304 | Spaces, a connective, a right part on one line and trailing spaces are split into connective and right part |
| FilterGrammar.SplitSound | analysis/trace_filter.hpp:300-304 | Whatever is split after a bracket has that form |
| FilterGrammar.StripIdempotent | analysis/trace_filter.hpp:320-346 | Stripping outer brackets twice is stripping them once |
| FilterGrammar.WrappingKeepsMeaning | analysis/trace_filter.hpp:240-241 | Brackets around a balanced text, with any spaces outside, never change what it parses to |
| FilterGrammar.EnclosingKeepsMeaning | analysis/trace_filter.hpp:320-346 | Any number of bracket pairs, with spaces around each, leaves the parse unchanged |
| FilterGrammar.ParseBaseChain | analysis/trace_filter.hpp:259-318 | An unbracketed chain groups to the right whatever its connectives |
| FilterGrammar.ParseBracketChain | analysis/trace_filter.hpp:276-318 | A bracketed left part is joined with the parse of everything behind its connective |
| FilterGrammar.ParseRender | analysis/trace_filter.hpp:240-346 | Every text of the grammar parses to what it denotes, given how its base expressions parse |
| FilterGrammar.ParseSound | analysis/trace_filter.hpp:240-346 | Every text that parses is a text of the grammar that denotes the result |
| FilterGrammar.ParsesExactlyGrammar | analysis/trace_filter.hpp:240-346 | A text parses to a filter exactly when some tree of the grammar renders to it and denotes that filter |
| FilterMeaning.PrintParseRoundTrip | analysis/trace_filter.hpp:138-148 | A printed filter parses back to itself exactly when its values fit their fields and a signed long |
| FilterMeaning.ParsedFits | analysis/trace_filter.hpp:189-235 | Every value the parser puts in a filter fits its field and a signed long, if unset variables do |
| FilterMeaning.PrintedFormIsStable | analysis/trace_filter.hpp:240-319 | The printed form of an accepted filter parses to the same filter |
| FilterMeaning.StrNeverParses | analysis/trace_filter.hpp:381-391 | The object's own output never parses to a tree, so the object comes back from it exactly when it has none |
| FilterMeaning.FlowShorthands | analysis/trace_filter.hpp:347-366 | flow, rflow and biflow mean the filters of the tuple, of the reversed tuple, and of either; an unreadable tuple or another operator makes them fail |
| FilterMeaning.QueueShorthand | analysis/trace_filter.hpp:367-378 | queue means the filter of its three numbers, or fails in the same way |
| FilterMeaning.ParsesBaseMeaning | analysis/trace_filter.hpp:189-235 | The parser reads every base expression as a field comparison with the value cut to its field, or as the filter of its flow or queue |
| FilterMeaning.ParsesExactlyMeaning | analysis/trace_filter.hpp:240-380 | A text parses to a filter exactly when some tree of the grammar renders to it and means that filter, with base expressions read by field, number and tuple |
| FilterMeaning.ExpansionsFitBuffer | analysis/trace_filter.hpp:355-376 | Every expansion, with its terminator, fits the 512-byte buffer |
| FilterObject.SkipSpace | analysis/trace_filter.hpp:183-187 | Stops at the first character that is not a space |
| FilterObject.FindClosing | analysis/trace_filter.hpp:284-291 | Finds the first position where as many brackets are closed as opened |
| FilterObject.StripBracket | analysis/trace_filter.hpp:320-346 | The scanning loops compute the stripping function |
| FilterObject.ParseBaseText | analysis/trace_filter.hpp:245-255 | The imperative reading of a base expression refines the functional one |
| FilterObject.ParseText | analysis/trace_filter.hpp:240-319 | The imperative parser terminates on every text and refines the functional one |
| FilterObject.TraceFilter.constructor | analysis/trace_filter.hpp:171-171 | A new filter object has no tree |
| FilterObject.TraceFilter.SetExpression | analysis/trace_filter.hpp:172-182 | The object holds the parse of the expression and tests records by it; an expression that does not parse leaves an object that passes every record |
| FilterRecords.ComparisonAccepts | analysis/trace_filter.hpp:56-119 | For each of the twenty names and six operators: name, operator and decimal number pass a record exactly when the component so named compares with the number, cut to a signed long and to the component's width |
| FilterRecords.UnknownNameFails | analysis/trace_filter.hpp:189-235 | Any other name, shorthands apart, makes a comparison fail |
| FilterRecords.FourTupleReadsBack | analysis/trace_filter.hpp:350-354 | Four decimal numbers with commas are read as addresses and ports in their order, cut to 32 and 16 bits |
| FilterRecords.QueueTupleReadsBack | analysis/trace_filter.hpp:369-373 | Three decimal numbers with commas are read as node, interface and queue in their order, cut to 16, 8 and 8 bits |
| FilterRecords.QueueAccepts | analysis/trace_filter.hpp:367-376 | queue accepts exactly the records of its node, interface and queue |
| FlowKeys.FlowFilterAccepts | analysis/utils.hpp:32-45 | The flow filter accepts exactly the records of the known kinds whose own tuple is the given one |
| FlowKeys.ShorthandsAccept | analysis/trace_filter.hpp:347-366 | flow accepts the records of the tuple; rflow those with its addresses and its ports exchanged; biflow those of either; accepted records have the tuple's forward or reverse key |
| FlowKeys.StandardKeyJoinsDirections | analysis/utils.hpp:61-67 | Data of a flow and acknowledgements coming back share its standard key |
| FlowKeys.KeyFields | analysis/utils.hpp:25-31 | The 64-bit key holds source bits, destination bits and the two ports, 16 bits each, in this order |
| FlowKeys.RecordKeys | analysis/utils.hpp:25-59 | The keys of a record, by kind: source, destination, source port, destination port forward, and each pair exchanged in reverse |
| FlowKeys.KeyInjective | analysis/utils.hpp:25-31 | Keys are equal exactly when the ports and the node bits of both addresses are |
| FlowKeys.KeyIdentifiesFlow | analysis/utils.hpp:25-45 | Between server addresses, flow accepts exactly the records with its key |
| CustomRand.ValueRises | traffic_gen/custom_rand.py:39-44 | The quantile function rises strictly from the first value to the last, across all segments |
| CustomRand.PercentileRises | traffic_gen/custom_rand.py:31-38 | The distribution function rises strictly from size zero to the last value |
| CustomRand.PercentileOfValue | traffic_gen/custom_rand.py:31-44 | Reading the percentile of a quantile that is not negative gives the percentile back |
| CustomRand.ValueOfPercentile | traffic_gen/custom_rand.py:31-44 | Reading the quantile of the percentile of any size from zero to the last value gives the size back |
| CustomRand.InverseAtIff | traffic_gen/custom_rand.py:31-44 | The two readings are inverse at a percentile exactly when its quantile is not negative |
| CustomRand.InverseIffNonNegative | traffic_gen/custom_rand.py:31-33 | They are inverse on all percentiles exactly when no value is negative |
| CustomRand.NegativeValueIsLost | traffic_gen/custom_rand.py:5-44 | An accepted distribution from -10 to 5000 whose lowest percentile is not found again |
| CustomRand.IntegralIsAverage | traffic_gen/custom_rand.py:19-27 | The integral over all percentiles equals the average |
| CustomRand.IntegralBounds | traffic_gen/custom_rand.py:45-56 | Between two percentiles the integral lies between the rectangles of the lower and the upper quantile |
| CustomRand.CustomRandom.TestCdf | traffic_gen/custom_rand.py:5-13 | Accepts exactly the lists that start at 0 percent, end at 100 and rise strictly in both coordinates |
| CustomRand.CustomRandom.SetCdf | traffic_gen/custom_rand.py:14-18 | Installs a list exactly when it is accepted, and keeps the old one otherwise |
| CustomRand.CustomRandom.GetAvg | traffic_gen/custom_rand.py:19-27 | The loop computes the mean of the distribution |
| CustomRand.CustomRandom.GetPercentileFromValue | traffic_gen/custom_rand.py:31-38 | The search computes the distribution function, -1 outside its range |
| CustomRand.CustomRandom.GetValueFromPercentile | traffic_gen/custom_rand.py:39-44 | The search computes the quantile function, and nothing above 100 percent |
| CustomRand.CustomRandom.GetIntegralY | traffic_gen/custom_rand.py:45-56 | The loop computes the integral of the quantile function |
| FlowBins.PercentileStep | traffic_gen/flow_bins.py:34-40 | On every accepted distribution a step of one percentile does not raise the size and lowers the rounded-up percentile: the loop ends |
| FlowBins.TruncateTowardsZero | traffic_gen/flow_bins.py:28-40 | Sizes are quantiles truncated towards zero |
| FlowBins.HalvingStep | traffic_gen/flow_bins.py:41-43 | Going to the half of a size stays on the distribution, between the current percentile and the next |
| FlowBins.ReverseSorts | traffic_gen/flow_bins.py:50-50 | Sorting the descending bins is reversing them |
| FlowBins.GenerateBins | traffic_gen/flow_bins.py:28-50 | On every accepted distribution the loop ends, never takes its error exit, starts at the largest size, and gives strictly descending positive bins, each the quantile one percentile below the one before or, where that is less than half of one above 1000, its half, down to the first percentile or to zero |
| TrafficGen.RunDetermined | traffic_gen/traffic_gen.py:80-95 | The draws determine the run, round by round: the least host that has not left, ties by number, emits or leaves |
| TrafficGen.LeastArrivesFirst | traffic_gen/traffic_gen.py:79-81 | The host whose round it is arrives first and, among those that arrive at the same time, has the smallest number |
| TrafficGen.RunOrdered | traffic_gen/traffic_gen.py:80-95 | Flows come in order of their start times, and no next arrival is earlier than a flow already emitted |
| TrafficGen.FlowIsDrawn | traffic_gen/traffic_gen.py:81-95 | Each flow has a round of its own: source and start are those of the least next arrival, destination and size those drawn in that round, the next arrival follows after that round's gap, and the earlier rounds emitted the flows before it |
| TrafficGen.DropIsDrawn | traffic_gen/traffic_gen.py:87-88 | Every other round drops the least host, because the gap drawn in that round takes it past the end |
| TrafficGen.FlowsAreSound | traffic_gen/traffic_gen.py:84-94 | Every flow goes to another host, has positive size and starts before the end |
| TrafficGen.RoundKeepsHeap | traffic_gen/traffic_gen.py:88-95 | Removing the front entry, and putting back its next arrival if the host stays, keeps in the heap exactly the next arrival of each host that has not left |
| TrafficGen.RoundsBounded | traffic_gen/traffic_gen.py:80-95 | With gaps of at least one, no host has more rounds than there are nanoseconds to the end, and one: the loop ends |
| TrafficGen.GenerateFlows | traffic_gen/traffic_gen.py:76-95 | The heap loop emits exactly the flows of the one run that the draws determine, in order of start time, and counts them; with gaps of at least one it ends with an empty heap |
| TrafficGen.GenerateAndStart | traffic_gen/traffic_gen.py:80-95 | Whatever is drawn, the simulation starts every flow of the run that the draws determine once: from its source to its destination, with its size, in priority group 3 to port 100, at its time |
| TrafficFile.HeaderReadsBackIff | traffic_gen/traffic_gen.py:96-97 | The overwritten header and the flows behind it read back right exactly when the count has as many digits as the estimate or one more, or is zero before zeros |
| TrafficFile.StaleDigitIsRead | traffic_gen/traffic_gen.py:96-97 | With 100 flows estimated and 99 generated the header is wrong |
| FlowScheduling.PortsRepeatEvery65536 | simulation/scratch/fat_tree.cc:194-195 | The source port of a flow is 10000 plus its number within its host pair, modulo 65536; two flows of a pair share one exactly when their numbers differ by a multiple of 65536 |
| FlowScheduling.Scheduler.constructor | simulation/scratch/fat_tree.cc:1168-1181 | Every host pair counts its ports from 10000 and the first flow is read |
| FlowScheduling.Scheduler.ReadFlowInput | simulation/scratch/fat_tree.cc:148-157 | Reads the next flow if one is left, and keeps the old one otherwise |
| FlowScheduling.Scheduler.ScheduleFlowInputs | simulation/scratch/fat_tree.cc:192-227 | Starts exactly the flows due now, each once with the next port of its pair, and asks to be called at the next start time |
| FlowScheduling.Scheduler.Run | simulation/scratch/fat_tree.cc:1177-1181 | The scheduler's events run through exactly when the flows are in order of start time, and then every flow is started once, at its time |
| FctAnalysis.SortRange | analysis/fct_analysis.cpp:98-98 | Sorts a range by a key, as a permutation, and touches nothing outside it |
| FctAnalysis.SliceStep | analysis/fct_analysis.cpp:103-113 | Sorting the next slice by slowdown keeps earlier slices and the samples not yet read |
| FctAnalysis.OrderStatistic | analysis/fct_analysis.cpp:108-110 | In a slice sorted by slowdown the value read is the order statistic of its rank |
| FctAnalysis.QuantilesInOrder | analysis/fct_analysis.cpp:108-110 | The three indices of a slice that is not empty are inside it and their values do not decrease |
| FctAnalysis.SampleInItsSlice | analysis/fct_analysis.cpp:103-106 | The slices partition the samples up to the last step: a sample lies in a slice exactly when its step is the first not exceeded |
| FctAnalysis.SliceByInput | analysis/fct_analysis.cpp:103-106 | By the samples alone: a slice is empty exactly when no sample has its step as the first not exceeded, and starts at the end of the array exactly when no sample exceeds all earlier steps |
| FctAnalysis.RowByInput | analysis/fct_analysis.cpp:107-110 | By the samples alone: a step's row carries its size and the quantiles of its slice if that is not empty; otherwise a next larger sample's slowdown three times; and reads outside the array exactly when no sample exceeds all earlier steps |
| FctAnalysis.SecondStepReadsOutside | analysis/fct_analysis.cpp:103-110 | Two samples of size 1 and the steps 1 and 2: the second row is read outside the array |
| FctAnalysis.StepSlices | analysis/fct_analysis.cpp:98-113 | The steps branch: slices in place, their sizes, every row read from its slice, and, by the samples given, which slices are empty and which rows are read outside the array |
| FctAnalysis.DividingStepInRange | analysis/fct_analysis.cpp:115-118 | For a step that divides 100 all accesses are in range exactly when step times samples is at least 100 |
| FctAnalysis.UnevenStepsFail | analysis/fct_analysis.cpp:115-118 | Of ten samples, 25 percent at a time are in range; 30 percent at a time and 1 percent at a time are not |
| FctAnalysis.ShareRowMeans | analysis/fct_analysis.cpp:116-123 | A row of the percentage branch carries the largest size of its slice and the slice's quantiles |
| FctAnalysis.ShareSlices | analysis/fct_analysis.cpp:98-124 | The percentage branch cuts at the multiples of the step in percent of the samples, runs through exactly when all its accesses are in range, and then its slices are contiguous, cover the array and give the rows |

## Left out

- The ns-3 library: devices, queues, congestion control, sketches, hashing, the table lookup with its choice among equal-cost entries (any choice is allowed here) and the event queue itself.
- The assignment of interface indices by the device helper, which is not part of this model: interfaces are numbered in the order of installation, 0 being the loopback device.
- Networks of more than 2^24 nodes, whose server addresses collide; a link rate of zero, by which the original would divide.
- Redistribution of queue pairs after a link is lost, and the window and round-trip arguments handed to the client applications.
- Routing.Fabric.TakeDownLink: the recorded totals of a pair that becomes unreachable keep their old values, and the round-trip and bandwidth-delay maxima are not computed again, as in the original.
- The other programs in the scratch directory, which repeat the same routing code with other tracing and parameters.
- Running the shell commands of a test: a job run ends with an arbitrary return code. Output, reports and temporary files of the test runner.
- FilterObject.ParseText: filter nodes are values, so deleting the left part after a failed right part, and what the original leaks, are not modelled.
- The regular-expression engine: the two patterns are scanning functions, proved against the texts they decompose. Characters outside ASCII are neither spaces nor field characters.
- Number scanning follows the C standard for "0x" without digits, which it takes as unreadable; some libraries read a zero.
- The byte layout of a trace record, declared in trace-format.h, which is not part of this model: the port fields of data, acknowledgement and queue-pair records are kept apart.
- Floating-point rounding in the distribution, in the interarrival times and in the quantile indices: reals and rationals are exact, and times are integer nanoseconds.
- FctAnalysis.RanksInSlice: the indices at 50, 95 and 99 percent are rounded down from exact rationals.
- FctAnalysis.ShareSlices: a step of zero, with which the original loops for ever, is excluded.
- Random draws, which are arbitrary inputs; the redraw of a destination is taken to have ended with another host.
- The heap functions and the sort of the libraries, which are used by what they promise: the least entry in front, a sorted permutation.
- TrafficGen.GenerateFlows: with an unlimited supply of zero gaps the original need not end, so the loop also stops when the draws run out.
- Reading the flow lines of the traffic file and the conversion of its decimal seconds; only the header and where the lines begin are modelled.
- Configuration files, command lines, traces and plots, and the small scripts that compare or count output files.
