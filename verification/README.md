# Verified models of the travel planner, the DNS relay and the Pokemon protocol

This Dafny 4.11 project models four components of the repository and proves what they do and do
not guarantee. `dafny verify dfyconfig.toml` checks all of it.

**Travel planner** (TermWork_DS). `Schedule` loads the timetable; `Timetable`, `SearchLabels`,
`RouteSearch` are the greedy search with its waits modulo a day, time limit and label vectors;
`RiskValues` gives the risks and times in
numbers; `Optimality` says what the search finds; `Itinerary` and `Traveller` turn labels into tasks and
replay them with the 36-second clock; `Backend` joins them. The search compares single legs, not
sums: the risk it minimises is the greatest one on the route. `TotalRisk` shows that the total is
not minimised, although the README offers the route of least risk, how far off it can be, and when
it is least.

**DNS relay** (DNS_Server). `HashChains` and `HashTable` are the hash table as the C code leaves
it in memory, with keys that point into other tables and a `prev` link that insertion sets one
node too early. `DnsAddress`, `DnsNames`, `DnsRecords` and `IdRing` are addresses as text, names
in questions, resource records and the ring of identifiers. `RelayState` is the relay as a state
machine over datagrams, `Relay` the callbacks on arrays, proved against it. `RelayOutputs` says in
octets what is sent, `RelayExpiry` how long an answer lives. The other `Relay` files
speak about whole runs with any interleaving of requests and answers: isolation of clients (`RelayIsolation`), genuineness of cached
answers (`RelayCache`, `RelayRuns`), what a reused identifier slot does (`RelaySlots`, `RelayReuse`),
and exactly which runs and which names the faulty links spoil (`RelayRefinement`, `RelayExactness`,
`RelayStatics`, `RelayStability`).

**Message codecs** (Pokemon/protocol). `Wire` holds varints, tags, blocks and the loop-free size
formula; `Schemas` says for a list of field kinds what clearing, merging, serializing and parsing
mean; `CodecLaws` and `CodecSizes` prove the laws for every schema; `UserInfo` and `PokemonData`
are generated classes, proved against their schemas, cached sizes included; `PokemonFields` ties the
twenty fields of PokemonInfo to the octets that announce them.

**Frame reader** (Pokemon/README.md). `Frames` is the client's reader of length-prefixed messages,
fed in arbitrary pieces.

The bodies of the hash table are in DNS_Server/DNS_Server/src/hash_table/hash_table.c, lines 57 to
191, those of reading names and addresses and of the search for the answers in
DNS_Server/DNS_Server/src/utils_helper/utils_helper.c, lines 33 to 75 and 106 to 161. These two
files are not UTF-8, so the table below cites the declarations of their functions in
DNS_Server/README.md; the model follows the bodies.

`Octets`, `Options` and `Ranges` are shared. In the DNS model `wild` marks a state reached by using
memory that is not there or not its own; nothing is claimed afterwards. Exact conditions are stated where
a promise fails: `RemoveIsExact`, `RemovalDropsOneIff`, `FollowsIffClean`, `StableIffFirst`,
`TakingASlotIsHarmlessIff`, `ReusedSlotMisleadsIff`, `LoadedIsValidIff`, `RoundTripIff`,
`CachedSizeMustBeCurrent`, `ExactIff`, `CompletesIffOnTime`, `QueryModeCompletesIff`,
`ReadmeWaitFormula`.

Where code and documentation differ the code is followed: the wait is computed by a loop, not by
the README's formula, and the risk compared is that of one leg. DNS hash nodes only refer to key
memory, as that README says; a later request may overwrite it.

## Model

| member | source | states |
|---|---|---|
| `Schedule.LoadData` | TermWork_DS/src/Backend/BackendBase.cpp:106-140 | the routes out of each city are the rows of the schedule out of it, in table order |
| `Schedule.EveryRowIsARoute` | TermWork_DS/src/Backend/BackendBase.cpp:106-140 | loading conserves rows: all cities together have as many routes as the table has rows, and every row is a route out of its city |
| `Schedule.RowIsFound` | TermWork_DS/src/Backend/BackendBase.cpp:106-140 | each row is found in its city behind as many routes as rows out of that city come before it, with its target, number and vehicle, its start in minutes and its arrival in minutes as start plus ride |
| `Schedule.LoadedIsValidIff` | TermWork_DS/src/Backend/BackendBase.cpp:106-140 | rows that are otherwise well formed give what the planner demands of a timetable if and only if no row arrives before it starts; the ride time is arrival minus start, as AbstractData.h computes it |
| `Schedule.OvernightRowIsInvalid` | TermWork_DS/src/Backend/DataModel/AbstractData.h:29-40 | a well-formed row from 23:00 to 1:00 becomes a route of negative duration |
| `Timetable.DepartureIsEarliest` | TermWork_DS/src/Backend/AlgorithmHelper.cpp:73-77 | the departure taken is the earliest moment, not before the arrival, that is congruent to the printed time modulo a day, and the wait is under a day |
| `Timetable.NextDeparture` | TermWork_DS/src/Backend/AlgorithmHelper.cpp:73-77 | the loop that adds whole days computes that departure |
| `Timetable.ReadmeWaitFormula` | TermWork_DS/README.md:411-413 | the closed formula printed in the README agrees with the loop if and only if the traveller arrives at most a day after the printed time or at that minute of the day |
| `SearchLabels.RelaxedKeepsTree` | TermWork_DS/src/Backend/AlgorithmHelper.cpp:91-98 | recording a better leg leaves the labels, witnesses and cut minimality of every visited city intact |
| `SearchLabels.RelaxedKeepsFrontier` | TermWork_DS/src/Backend/AlgorithmHelper.cpp:124-160 | after each leg looked at, the label of an unvisited city is the least risk over the legs looked at so far, with a real leg that attains it |
| `SearchLabels.RelaxedUpToKeepsTree` | TermWork_DS/src/Backend/AlgorithmHelper.cpp:124-160 | the same for all legs out of a city: the tree of visited cities survives |
| `SearchLabels.RelaxedUpToKeepsFrontier` | TermWork_DS/src/Backend/AlgorithmHelper.cpp:124-160 | the same for all legs out of a city: the frontier stays exact |
| `SearchLabels.VisitKeepsTree` | TermWork_DS/src/Backend/AlgorithmHelper.cpp:104-116 | visiting the city of least label keeps the tree, and that city is minimal over the whole cut between visited and unvisited cities |
| `SearchLabels.VisitKeepsFrontier` | TermWork_DS/src/Backend/AlgorithmHelper.cpp:104-116 | the frontier stays exact when the chosen city crosses to the visited side |
| `SearchLabels.OrderIsBounded` | TermWork_DS/src/Backend/AlgorithmHelper.cpp:104-104 | no more cities than there are can be visited, so the counted loop suffices |
| `RouteSearch.InitialIsTree` | TermWork_DS/src/Backend/AlgorithmHelper.cpp:40-64 | the initial vectors describe a tree of the start city alone and an exact frontier |
| `RouteSearch.RelaxStartLeg` | TermWork_DS/src/Backend/AlgorithmHelper.cpp:71-99 | one leg out of the start city, charged per whole hour, updates the four vectors together or not at all |
| `RouteSearch.RelaxStart` | TermWork_DS/src/Backend/AlgorithmHelper.cpp:66-100 | the first loop is the relaxation of every leg out of the start city |
| `RouteSearch.RelaxLeg` | TermWork_DS/src/Backend/AlgorithmHelper.cpp:127-160 | one leg out of a later city: skipped, pruned, or recorded in all four vectors |
| `RouteSearch.RelaxFrom` | TermWork_DS/src/Backend/AlgorithmHelper.cpp:120-161 | the inner loop is the relaxation of every leg out of the city at its fixed arrival time |
| `RouteSearch.SelectNext` | TermWork_DS/src/Backend/AlgorithmHelper.cpp:105-117 | the first unvisited city of least label is chosen, and the city stays what it was exactly when no unvisited label is below INF |
| `RouteSearch.EmptyFrontier` | TermWork_DS/src/Backend/AlgorithmHelper.cpp:115-117 | when nothing can be chosen, no leg in time and of risk below INF leads out of the visited cities |
| `RouteSearch.Search` | TermWork_DS/src/Backend/AlgorithmHelper.cpp:40-162 | the search ends with a tree of cut-minimal choices that ends at the destination, or with an empty frontier; the round limit never cuts it short |
| `RiskValues.LegRiskIs` | TermWork_DS/src/Backend/AlgorithmHelper.cpp:83-87 | the risk of a leg is the number of whole units in the wait at the factor of the city an hour and the ride at 9, 5 or 2 an hour, for full hours only out of the start city |
| `RiskValues.VisitedByRoute` | TermWork_DS/src/Backend/AlgorithmHelper.cpp:66-161 | every visited city is recorded with a route out of a city visited before it, a wait under a day that ends at the printed minute, an arrival within the limit and the risk of that wait and ride |
| `RiskValues.ChoiceIsLeast` | TermWork_DS/src/Backend/AlgorithmHelper.cpp:104-117 | no leg that leaves the cities visited before a choice, in time, weighs less than the choice, with waits in minutes and the rates in numbers |
| `RiskValues.NothingIsLeft` | TermWork_DS/src/Backend/AlgorithmHelper.cpp:115-117 | a search that gives up leaves no leg in time of a risk below 0x3F3F3F3F |
| `RiskValues.OnlySmallerIsRecorded` | TermWork_DS/src/Backend/AlgorithmHelper.cpp:142-160 | a leg in time and of smaller risk than the recorded one is entered in all four vectors with its arrival; one that is late, or only as good, changes nothing |
| `RiskValues.WaitingCounts` | TermWork_DS/src/Backend/AlgorithmHelper.cpp:83-98 | in a city of factor 6 a car in ten hours weighs 62 and one at once that takes two hours 4: under every limit the second is taken if and only if there are 120 minutes for it |
| `Optimality.Crossing` | TermWork_DS/src/Backend/AlgorithmHelper.cpp:104-162 | every sequence of routes from inside a set of cities to its outside has a leg that leaves the set |
| `Optimality.EveryTrailCrossesEveryCut` | TermWork_DS/src/Backend/AlgorithmHelper.cpp:104-162 | every route to the destination has a leg at least as risky as each choice the search made |
| `Optimality.TreePathIsTrail` | TermWork_DS/src/Backend/AlgorithmHelper.cpp:176-183 | the legs along `prev` form a sequence of real routes, in time, with the recorded risks |
| `Optimality.BottleneckOptimal` | TermWork_DS/src/Backend/AlgorithmHelper.cpp:104-183 | no route to the destination, weighed and pruned at the final labels, has a smaller greatest risk than the one returned |
| `Optimality.ReachedIffAllowedRoute` | TermWork_DS/src/Backend/AlgorithmHelper.cpp:104-173 | for any time limit: the destination is reached if and only if some route is in time at the labels with every risk below INF |
| `Optimality.LabelBound` | TermWork_DS/src/Backend/AlgorithmHelper.cpp:120-149 | the k-th visited city is reached at most k times a day's wait and the longest ride after the start |
| `Optimality.Pruned` | TermWork_DS/src/Backend/AlgorithmHelper.cpp:142-144 | with a limit of (n-1) times a day's wait and the longest ride, pruning never fires |
| `Optimality.ReachedIffReachable` | TermWork_DS/src/Backend/AlgorithmHelper.cpp:104-173 | under such a limit the destination is reached if and only if some sequence of routes leads there |
| `TotalRisk.SumIsNotMinimal` | TermWork_DS/README.md:827-827 | the promise of least total risk fails: on a concrete timetable every search reaches the destination, and every route it can return costs 12 in total, the direct one 10 |
| `TotalRisk.TotalIsBounded` | TermWork_DS/src/Backend/AlgorithmHelper.cpp:146-153 | how far off the total can be, on every timetable: no route out of visited cities has a total below that of the returned route divided by its number of legs |
| `TotalRisk.DirectIsLeast` | TermWork_DS/src/Backend/AlgorithmHelper.cpp:104-153 | when the total is least: if the safest leg out of the start that is in time goes straight to the destination, it is the route returned, and no allowed route has a smaller total |
| `TotalRisk.SingleLegIsLeast` | TermWork_DS/src/Backend/AlgorithmHelper.cpp:104-153 | a returned route of one leg has the least total among the routes out of visited cities |
| `Itinerary.Rebuild` | TermWork_DS/src/Backend/AlgorithmHelper.cpp:165-188 | walking back along `prev` ends at the start, never underflows the index, and gives a simple path |
| `Itinerary.LabelsAreArrivals` | TermWork_DS/src/Backend/AlgorithmHelper.cpp:85-98 | along the path the recorded times are the arrivals of a journey that always takes the next departure, each within the limit |
| `Itinerary.EmitLeg` | TermWork_DS/src/Backend/AlgorithmHelper.cpp:222-254 | one leg becomes waiting, riding and arriving, at the times the timetable gives |
| `Itinerary.Emit` | TermWork_DS/src/Backend/AlgorithmHelper.cpp:192-258 | the report lists the legs of the path in order; when setting off, the queue is extended by exactly their tasks, three for each hop, which wait, ride and arrive as the timetable says |
| `Itinerary.TasksAreLived` | TermWork_DS/src/Backend/AlgorithmHelper.cpp:222-255 | the tasks come in threes, one for each hop: waiting in its city until the first run of the route that is not before the arrival there, riding to its target for as long as the route takes, and arriving; with number and vehicle |
| `Itinerary.LegsAreTold` | TermWork_DS/src/Backend/AlgorithmHelper.cpp:200-220 | each leg is told with its city, A, T or C for plane, train or car, and its number |
| `Itinerary.TasksTileTheJourney` | TermWork_DS/src/Backend/AlgorithmHelper.cpp:222-255 | the tasks tile the journey without gap or overlap in time and place |
| `Itinerary.TimeAdds` | TermWork_DS/src/Backend/AlgorithmHelper.cpp:260-264 | the arrival is the departure plus the sum of all waits and rides |
| `Itinerary.TilesAreOrdered` | TermWork_DS/src/Backend/AlgorithmHelper.cpp:222-255 | start times never decrease along the queue |
| `Itinerary.TilesAreOnTime` | TermWork_DS/src/Backend/AlgorithmHelper.cpp:222-255 | such a queue can be replayed by a clock not past its beginning |
| `Backend.RunWithAlgorithmDij` | TermWork_DS/src/Backend/AlgorithmHelper.cpp:22-273 | the whole query: the report fits the labels, the tasks are those of the reported path, three for each hop, which wait, ride and arrive as the timetable says |
| `Backend.PlannedJourney` | TermWork_DS/src/Backend/AlgorithmHelper.cpp:165-266 | a reported journey leads from start to destination, is bottleneck-optimal, within the limit; hours and minutes are the sum of its waits and rides, the risk is that of its last leg, and each leg is told with its city, vehicle and number |
| `Backend.NoPathIff` | TermWork_DS/src/Backend/AlgorithmHelper.cpp:168-173 | "No such path found" is reported if and only if no allowed route exists, and under a generous limit if and only if the destination is unreachable |
| `Backend.StartMinuteIsNext` | TermWork_DS/src/Backend/BackendBase.cpp:203-206 | the start time is moved to the next occurrence of that minute, less than a day ahead |
| `Backend.DriftIsConstant` | TermWork_DS/src/Backend/BackendBase.cpp:150-169 | while a journey lasts, traveller clock minus system clock minus 36 times the counter never changes, over any number of rounds |
| `Backend.ClockLeaps` | TermWork_DS/src/Backend/BackendBase.cpp:150-169 | the system clock stands still for ten rounds and leaps six minutes in the eleventh |
| `Backend.ClockShows` | TermWork_DS/src/Backend/BackendBase.cpp:199-201 | the minute a query sets the traveller to is that of the day, hour and minute of the system clock |
| `Backend.Backend.Iterate` | TermWork_DS/src/Backend/BackendBase.cpp:150-169 | one round of the main loop advances the two clocks and the traveller as specified |
| `Backend.Backend.StartQuery` | TermWork_DS/src/Backend/BackendBase.cpp:171-223 | every refusal, in order, with the policies 0 and 1; the clock reset even in query mode, and when a journey survives it; the normalised query, its limit of 0x7FFFFFF under policy 0, and its result |
| `Backend.TilesAreReplayed` | TermWork_DS/src/Backend/Customer/Customer.cpp:11-82 | tasks that tile a journey are started once each, in order, in their own minute |
| `Backend.JourneyIsReplayed` | TermWork_DS/src/Backend/Customer/Customer.cpp:11-82 | a planned journey is lived as planned, the ride of each hop beginning in the minute of the first run of its route; the queue is emptied by the update after the ceil(5(arrival-now)/3)-th clock step and not before |
| `Backend.QueryModeCompletesIff` | TermWork_DS/src/Backend/BackendBase.cpp:199-201 | a query that should only print resets the clock of a traveller under way, whose journey still comes to its end if and only if it is ordered and its next task is not in the past of the system clock |
| `Backend.QueryStrands` | TermWork_DS/README.md:834-834 | such a query can leave a traveller on the road for ever who would have arrived without it |
| `Traveller.TickKeepsLog` | TermWork_DS/src/Backend/Customer/Customer.cpp:11-82 | what has been started plus what is due in its own minute never changes |
| `Traveller.Replay` | TermWork_DS/src/Backend/Customer/Customer.cpp:11-82 | an ordered queue not in the past is worked off task by task, each in its own minute, after an exact number of updates |
| `Traveller.StepsFromMinute` | TermWork_DS/src/Backend/Customer/Customer.cpp:79-79 | 36-second steps reach minute s after ceil(5(s-now)/3) steps |
| `Traveller.CompletesIffOnTime` | TermWork_DS/src/Backend/Customer/Customer.cpp:11-82 | a queue is ever worked off if and only if it is ordered and not in the past; any other leaves the traveller on the road for ever |
| `Traveller.Customer.UpdateStatus` | TermWork_DS/src/Backend/Customer/Customer.cpp:11-82 | one update starts what is due and moves the clock by 36 seconds |
| `Traveller.Customer.SetSysTime` | TermWork_DS/src/Backend/Customer/Customer.h:72-76 | the clock is set |
| `Traveller.Customer.AddTask` | TermWork_DS/src/Backend/Customer/Customer.cpp:3-9 | a task goes to the end of the queue |
| `HashChains.FindSeesLive` | DNS_Server/README.md:392-393 | a lookup sees the entries before the first vacant node and nothing else |
| `HashChains.InsertIsSeen` | DNS_Server/README.md:388-389 | an insertion is felt if and only if no vacant node hides behind an occupied head; otherwise lookups stay as they were |
| `HashChains.RemoveLosesARange` | DNS_Server/README.md:386-387 | a removal loses the removed entry and every entry between it and the node its `prev` names |
| `HashChains.RemoveIsExact` | DNS_Server/README.md:364-389 | a removal takes out its entry and no other if and only if `prev` is NULL or names the node right before it; insertion stores the node before that one |
| `HashChains.InsertThenRemove` | DNS_Server/README.md:386-389 | inserting and removing again loses the last old entry of a bucket of two or more |
| `HashChains.VacantNodeBlocks` | DNS_Server/README.md:386-389 | with a vacant node behind the head no insertion is seen; a removal leaves that so if it leaves any entry, and otherwise the next insertion is seen again |
| `HashChains.BlockedUntilEmptied` | DNS_Server/README.md:386-389 | over any sequence of insertions and removals that never empties the bucket, lookups see old entries only |
| `HashChains.FreedNodeIsReached` | DNS_Server/README.md:386-389 | five insertions and two removals after which freed memory is used |
| `HashChains.SuccessorIsTakenOver` | DNS_Server/README.md:386-387 | without `prev` the removed node takes over the entry of its successor, and the node behind that points back to it; alone it becomes vacant |
| `HashChains.SuccessorIsHungBehind` | DNS_Server/README.md:386-387 | with `prev` everything behind the node it names goes, up to the successor, which points back there |
| `HashChains.InsertedInMemory` | DNS_Server/README.md:388-389 | an insertion reuses a vacant head and cuts off what followed; the second node has no `prev`, later ones point two nodes back |
| `HashTables.ElfHash` | DNS_Server/README.md:372-375 | the loop computes the ELF hash that picks the bucket (hash_table.c, lines 171 to 191) |
| `HashTables.TopOctetIsFolded` | DNS_Server/README.md:372-375 | a round puts the letter into the lowest octet, moves the rest up by eight bits, and folds the octet that leaves the word, bit by bit, into the one above the letter (hash_table.c, lines 171 to 191) |
| `HashTables.NamesCollide` | DNS_Server/README.md:372-375 | a family of two-letter names that share a bucket (hash_table.c, lines 171 to 191) |
| `HashTables.NamesAbound` | DNS_Server/README.md:372-375 | every bucket that holds a name holds 4096 different names of five letters (hash_table.c, lines 171 to 191) |
| `HashTables.HashTable.FindNodeByKey` | DNS_Server/README.md:392-393 | the lookup loop returns the first node with that text, stopping at a vacant one (hash_table.c, lines 134 to 154) |
| `HashTables.HashTable.InsertHashItem` | DNS_Server/README.md:388-389 | the bucket afterwards, with the link that the loop stores (hash_table.c, lines 91 to 122) |
| `HashTables.HashTable.RemoveHashItemByNode` | DNS_Server/README.md:386-387 | the bucket afterwards in each of the four cases, and when there is no defined result (hash_table.c, lines 57 to 89) |
| `DnsAddress.PrintAddress` | DNS_Server/DNS_Server/src/main.c:484-495 | the printing loop writes the octets in decimal with dots between them |
| `DnsAddress.ReadAddress` | DNS_Server/README.md:502-506 | the reading loop takes a number after each dot, and zeros when the dots run out (utils_helper.c, lines 153 to 161) |
| `DnsAddress.SignIsRead` | DNS_Server/README.md:502-506 | signs and leading blanks count as in the C library, and the octet kept is the number modulo 256 (utils_helper.c, lines 153 to 161) |
| `DnsAddress.KnownTexts` | DNS_Server/DNS_Server/src/main.c:484-495 | the octets 192 and 168 are printed as 192.168 |
| `DnsAddress.AddressRoundTrip` | DNS_Server/DNS_Server/src/main.c:317-345 | octets printed into the cache are read back unchanged |
| `DnsAddress.BannedIffZero` | DNS_Server/DNS_Server/src/main.c:302-314 | the banned text stands for the address of zeros and no other |
| `DnsNames.ParseUrlFromData` | DNS_Server/README.md:472-474 | the loop over the labels reads the dotted name, and gives up on compressed names and labels past the end (utils_helper.c, lines 33 to 75) |
| `DnsNames.NameRoundTrip` | DNS_Server/README.md:472-474 | every name of labels of 1 to 63 octets, written into a question, is read back, whatever follows |
| `DnsNames.ParsedIsEncoded` | DNS_Server/README.md:472-474 | the other way round: without dots inside labels the name that is read determines the octets |
| `DnsNames.DotsAreConfused` | DNS_Server/README.md:472-474 | with dots inside labels two different questions are read as one name |
| `DnsRecords.WalkVisitsTheRecords` | DNS_Server/DNS_Server/src/main.c:461-480 | the walk over an answer section visits exactly the encoded records, whatever follows them (sections 4.1.3 and 4.1.4 of RFC 1035) |
| `DnsRecords.WalkReencodes` | DNS_Server/DNS_Server/src/main.c:461-575 | what the walk returns encodes to the octets it passed over, so its end is the sum of 12 and the data length over the records |
| `DnsRecords.RecordOctets` | DNS_Server/DNS_Server/src/main.c:461-480 | which octets are name, type, class, time to live and length, the higher one first, and that the data is what follows (section 4.1.3 of RFC 1035) |
| `DnsRecords.ReplyRecordIsAnA` | DNS_Server/DNS_Server/src/main.c:317-345 | the sixteen octets of a local answer are one A record |
| `DnsRecords.OctetsSurviveTheCache` | DNS_Server/DNS_Server/src/main.c:317-345 | octets from an answer, through the cache, arrive in the reply unchanged |
| `IdRing.KeepsSlotIff` | DNS_Server/DNS_Server/src/main.c:685-703 | on any run a slot keeps its taker if and only if fewer than 1024 slots are taken after it |
| `IdRing.NearbySlotsDiffer` | DNS_Server/DNS_Server/src/main.c:685-703 | slots taken fewer than 1024 takings apart differ |
| `RelayState.StepKeepsShape` | DNS_Server/DNS_Server/src/main.c:143-608 | every datagram keeps the tables in shape |
| `RelayState.LineIsRead` | DNS_Server/DNS_Server/src/main.c:705-738 | a line is the address before its first blank and the name behind it without the last character, whatever that is; no blank, or nothing behind it, is no line |
| `RelayState.LineBecomesRow` | DNS_Server/DNS_Server/src/main.c:705-738 | such a line becomes an A row with expiry 0x3F3F3F3F in the next place |
| `RelayState.AnswersAreFound` | DNS_Server/DNS_Server/src/main.c:445-480 | the records behind a question of any name, its zero octet, its type and class are the ones walked, whatever follows |
| `RelayState.NameIsCarried` | DNS_Server/DNS_Server/src/main.c:143-180 | the name and the type that a question was written with are those the relay sees |
| `RelayOutputs.ReplyIsAnswer` | DNS_Server/DNS_Server/src/main.c:286-371 | a local answer has the identifier of the request and the flags 0x8180, repeats the rest of it, and ends in the sixteen octets of one A record with the cached address; the answer count is 0 for 0.0.0.0 and 1 for every other address |
| `RelayOutputs.IgnoredIff` | DNS_Server/DNS_Server/src/main.c:143-180 | a request does nothing if and only if it is over 1024 octets long, has no room for a question, or no name was found in it |
| `RelayOutputs.PtrIsAnswered` | DNS_Server/DNS_Server/src/main.c:180-276 | query type 12 is answered at once if and only if there is room for 16 more octets and the fourth dot stands within the first sixteen characters; otherwise it is undefined |
| `RelayOutputs.FourParts` | DNS_Server/DNS_Server/src/main.c:187-198 | which names have a fourth dot, and where |
| `RelayOutputs.ForwardedUnderItsSlot` | DNS_Server/DNS_Server/src/main.c:376-403 | a forwarded request is changed in its identifier only, which is the slot that keeps client, old identifier, time and name |
| `RelayOutputs.DeliveredIff` | DNS_Server/DNS_Server/src/main.c:409-440 | a response over 1024 octets or more than two seconds after its request does nothing; any other is delivered where it is defined |
| `RelayOutputs.AskedIsAnswered` | DNS_Server/DNS_Server/src/main.c:376-605 | the round trip through the upstream server: the answer under the forwarded identifier reaches the client that asked, under its own identifier, if fewer than 1024 requests came in between |
| `Relays.FourthDot` | DNS_Server/DNS_Server/src/main.c:187-198 | the loop finds the fourth dot of the name, or that there is none |
| `Relays.Relay.GetNewID` | DNS_Server/DNS_Server/src/main.c:685-703 | the slot written and the counter advanced round the ring |
| `Relays.Relay.LoadDnsTableData` | DNS_Server/DNS_Server/src/main.c:705-738 | the loading loop: split at the first blank, the last character dropped, an eternal row per line |
| `Relays.Relay.OnReadRequest` | DNS_Server/DNS_Server/src/main.c:143-406 | the callback does what the state machine says: ignored, PTR, answered if the reply fits its buffer and undefined if not, or forwarded after an expired row was removed |
| `Relays.Relay.CacheAnswer` | DNS_Server/DNS_Server/src/main.c:484-522 | an address is cached unless the name is there |
| `Relays.Relay.WalkAnswers` | DNS_Server/DNS_Server/src/main.c:461-575 | the loop over the answers, record by record, is the caching of the whole section |
| `Relays.Relay.OnReadResponse` | DNS_Server/DNS_Server/src/main.c:409-608 | the callback does what the state machine says: oversized, late, walked and delivered |
| `RelayIsolation.SlotsAfterRun` | DNS_Server/DNS_Server/src/main.c:685-703 | after any run every slot holds the request of the last event that took it |
| `RelayIsolation.AnswerGoesToLastOwner` | DNS_Server/DNS_Server/src/main.c:577-605 | an accepted answer goes to the client that last took its slot, with that client's identifier |
| `RelayIsolation.OnlyAskedForIsDelivered` | DNS_Server/DNS_Server/src/main.c:427-433 | from the start of the program, an answer is delivered only under a slot that a request of the run took; any other is late |
| `RelayIsolation.Isolation` | DNS_Server/DNS_Server/src/main.c:427-605 | on any interleaving an answer goes back to its own client, with its own identifier, as long as fewer than 1024 requests were taken up since, and to a later one otherwise |
| `RelayIsolation.NearbyIdsDiffer` | DNS_Server/DNS_Server/src/main.c:685-703 | requests fewer than 1024 allocations apart have different identifiers |
| `RelayCache.LookupIsFindRow` | DNS_Server/DNS_Server/src/main.c:278-284 | while every live key shows its row's name, a lookup finds the first live row of that name |
| `RelayCache.LookupIsGenuine` | DNS_Server/DNS_Server/src/main.c:278-284 | a found row is genuine and has the name asked for |
| `RelayCache.RemoveKeepsSound` | DNS_Server/DNS_Server/src/main.c:376-378 | whatever a removal loses, what stays is genuine |
| `RelayRuns.WriteKeepsSound` | DNS_Server/DNS_Server/src/main.c:500-521 | a new row keeps every bucket genuine |
| `RelayRuns.RunKeepsSound` | DNS_Server/DNS_Server/src/main.c:143-608 | soundness of the cache is kept by every run, of any number of requests, in which each slot was free for the name it was given |
| `RelayRuns.FirstRoundIsSafe` | DNS_Server/DNS_Server/src/main.c:685-703 | before the ring of slots comes round every slot is free |
| `RelayRuns.AnswersAreGenuine` | DNS_Server/DNS_Server/src/main.c:286-371 | after any number of requests, one answered locally gets a genuine, unexpired address of its name, whatever the table has lost, if no slot was given a name of the very bucket in which an entry of another name depends on it; the reply carries the octets of that row |
| `RelayRuns.FirstRoundIsGenuine` | DNS_Server/DNS_Server/src/main.c:286-371 | without that condition on every run of at most 1024 requests |
| `RelaySlots.TakingASlotIsHarmlessIff` | DNS_Server/DNS_Server/src/main.c:500-521 | taking an identifier slot leaves all lookups alone if and only if no live entry takes its name from that slot under another name |
| `RelaySlots.ReusedSlotMisleadsIff` | DNS_Server/DNS_Server/src/main.c:510-516 | after a request for a name that is not cached the name is found, in the row of another one, if and only if an entry of its bucket takes its name from the slot |
| `RelayReuse.MisledAfterOneRound` | DNS_Server/DNS_Server/src/main.c:278-521 | for any two names of a bucket that questions can carry: a run from the start of the program, 1024 requests for one and one for the other, each with its name in the datagram, after which the other is answered with the address of the first |
| `RelayRefinement.RemovalDropsOneIff` | DNS_Server/DNS_Server/src/main.c:376-378 | removing an expired row drops its name and affects no other if and only if for the name of every neighbour taken along an entry stands before those lost, or the first one behind them leads to a row equal to the first among them |
| `RelayRefinement.HarmlessIffLinked` | DNS_Server/DNS_Server/src/main.c:376-378 | without repeated names in the bucket that is the case if and only if the stored `prev` is NULL or names the node right before |
| `RelayRefinement.AnswerAddsOne` | DNS_Server/DNS_Server/src/main.c:500-521 | the first address of an answer adds its name exactly where the bucket hides no vacant node, and changes no other lookup |
| `RelayRefinement.FileIsServed` | DNS_Server/DNS_Server/src/main.c:705-738 | after loading, lookups are those of the file, first line for a name first, collisions and repeated names included |
| `RelayExactness.ServedFromSimpleCache` | DNS_Server/DNS_Server/src/main.c:278-403 | after a clean run from any file a request is answered locally if and only if a simple map of the file and the answers holds an unexpired row and the reply fits, and with that row; the reply carries the octets of that row |
| `RelayExactness.StepAgreesIffClean` | DNS_Server/DNS_Server/src/main.c:278-521 | at each step the lookups go on agreeing with a simple map if and only if the step is clean |
| `RelayExactness.FirstAddressIff` | DNS_Server/DNS_Server/src/main.c:498-521 | an answer caches its first address and nothing else if and only if the bucket hides no vacant node or the answer holds one address |
| `RelayExactness.FollowsIffClean` | DNS_Server/DNS_Server/src/main.c:143-608 | over a whole run, of any number of requests, the cache refines a simple map if and only if every event is clean |
| `RelayExactness.FileRunFollowsIffClean` | DNS_Server/DNS_Server/src/main.c:143-738 | the same from the start of the program, for files of any content |
| `RelayStatics.FirstNamesAreStable` | DNS_Server/DNS_Server/src/main.c:286-371 | a name first in its bucket is answered with one A record holding the address of the file, not counted if that is 0.0.0.0, at every moment of every run that does not wrap the rows |
| `RelayStatics.RoundDropsLast` | DNS_Server/DNS_Server/src/main.c:376-403 | asking, being answered and asking again after expiry takes the last old entry of the bucket along |
| `RelayStability.RoundsLose` | DNS_Server/DNS_Server/src/main.c:376-521 | as many rounds as there are entries from a name on lose that name |
| `RelayStability.QuestionsExist` | DNS_Server/DNS_Server/src/main.c:143-522 | for every name a question can carry there are a request with that name in it and an answer that repeats the question, which drive such rounds |
| `RelayStability.StableIffFirst` | DNS_Server/DNS_Server/src/main.c:278-738 | a name of the file that questions can carry is answered with one A record holding the address of the file at every moment of every run if and only if no earlier name of the file is in its bucket |
| `RelayExpiry.AnswersExpire` | DNS_Server/DNS_Server/src/main.c:286-521 | an answer to a name not yet cached is served from the cache, with its octets, until exactly TTL seconds after it came in, and from that second on the request goes upstream |
| `Wire.VarintRoundTrip` | Pokemon/protobuf_headers/google/protobuf/parse_context.h:475-490 | reading a varint undoes writing it, whatever follows |
| `Wire.Varint64RoundTrip` | Pokemon/protobuf_headers/google/protobuf/parse_context.h:583-587 | the same for 64-bit values in at most ten octets |
| `Wire.TagRoundTrip` | Pokemon/protobuf_headers/google/protobuf/parse_context.h:499-514 | the same for tags in at most five |
| `Wire.VarintBits` | Pokemon/protobuf_headers/google/protobuf/parse_context.h:475-490 | every octet of a varint but the last has its top bit set, and the other bits are the number, the lowest seven first |
| `Wire.BlockIsRefusedIff` | Pokemon/protobuf_headers/google/protobuf/parse_context.h:566-577 | a block is refused if and only if its length is over 2^31 - 17 or over what follows |
| `Wire.LongVarintsAreRefused` | Pokemon/protobuf_headers/google/protobuf/parse_context.h:475-514 | numbers are refused if and only if none of the first ten octets ends them, tags if and only if none of the first five does |
| `Wire.BlockRoundTrip` | Pokemon/protobuf_headers/google/protobuf/parse_context.h:566-577 | the same for a length and its octets, up to the longest length the reader takes |
| `Wire.Int32RoundTrip` | Pokemon/protobuf_headers/google/protobuf/io/coded_stream.h:1602-1605 | a signed number survives sign extension to 64 bits and truncation to 32 |
| `Wire.MinusOne` | Pokemon/protobuf_headers/google/protobuf/io/coded_stream.h:1602-1605 | minus one travels as 2^64 - 1, in ten octets |
| `Wire.VarintSizeIsExact` | Pokemon/protobuf_headers/google/protobuf/io/coded_stream.h:1656-1674 | the loop-free size formula gives the number of octets written |
| `Wire.Int32SizeIsExact` | Pokemon/protobuf_headers/google/protobuf/io/coded_stream.h:1676-1682 | the size of a signed field is right, ten octets for every negative number |
| `CodecLaws.ParseInPieces` | Pokemon/protocol/UserProtocol.pb.cc:1871-1970 | input that parses may arrive in two pieces: the second continues where the first stopped |
| `Schemas.RefusedOctets` | Pokemon/protocol/UserProtocol.pb.cc:1871-1970 | octets that can begin no field are refused |
| `CodecLaws.FieldRoundTrip` | Pokemon/protocol/UserProtocol.pb.cc:1972-2045 | parsing a field as it was written merges it, for every kind of field |
| `CodecLaws.SingleNumberIsAppended` | Pokemon/protocol/UserProtocol.pb.cc:1933-1941 | a number of a list may also come alone behind a tag of its own; it is appended |
| `CodecLaws.SubsRoundTrip` | Pokemon/protocol/UserProtocol.pb.cc:3362-3372 | the same for a list of nested messages |
| `CodecLaws.SerializedIsMerged` | Pokemon/protocol/UserProtocol.pb.cc:1871-2045 | parsing the encoding of a message into another one merges it into that one |
| `CodecLaws.ConcatenationIsMerge` | Pokemon/protocol/UserProtocol.pb.cc:1871-2176 | parsing two encodings one after the other from a cleared message merges the two messages |
| `CodecLaws.CopyIsEqualIff` | Pokemon/protocol/UserProtocol.pb.cc:2144-2176 | merging into a cleared message copies it if and only if no double in it is -0.0 |
| `CodecLaws.RoundTripIff` | Pokemon/protocol/UserProtocol.pb.cc:1871-2045 | a message comes back from its encoding if and only if it holds no -0.0 |
| `CodecLaws.CopySerializesAlike` | Pokemon/protocol/UserProtocol.pb.cc:1972-2045 | what comes back is encoded like the original |
| `CodecLaws.SameEncodingIff` | Pokemon/protocol/UserProtocol.pb.cc:1972-2045 | two messages have the same encoding if and only if they differ in the sign of zeros only |
| `CodecSizes.ByteSizeIsExact` | Pokemon/protocol/UserProtocol.pb.cc:2047-2127 | the computed size is the number of octets written, at any depth |
| `CodecSizes.TagSizes` | Pokemon/protocol/UserProtocol.pb.cc:2981-3136 | the constants for tag lengths, one for fields 1 to 15 and two from 16 on, are right |
| `CodecSizes.PackedSize` | Pokemon/protocol/UserProtocol.pb.cc:2055-2068 | the loop adds up the size of a packed list |
| `CodecSizes.CachedSizeMustBeCurrent` | Pokemon/protocol/UserProtocol.pb.cc:2023-2030 | a packed list is written right if and only if the cached size is that of the present list |
| `Writers.WriteInt32Packed` | Pokemon/protobuf_headers/google/protobuf/io/coded_stream.h:877-889 | the loop writes tag, cached size and elements |
| `UserInfo.UserInfoResponse.constructor` | Pokemon/protocol/UserProtocol.pb.cc:1857-1869 | a new message is cleared |
| `UserInfo.UserInfoResponse.Clear` | Pokemon/protocol/UserProtocol.pb.cc:1857-1869 | all fields are defaults; cached sizes stay |
| `UserInfo.UserInfoResponse.MergeFrom` | Pokemon/protocol/UserProtocol.pb.cc:2144-2176 | the fields afterwards are the merge of both messages |
| `UserInfo.UserInfoResponse.ByteSizeLong` | Pokemon/protocol/UserProtocol.pb.cc:2047-2127 | the fields, added in the order of the code, give the specified size; both caches are set |
| `UserInfo.UserInfoResponse.InternalSerialize` | Pokemon/protocol/UserProtocol.pb.cc:1972-2045 | with a current cached size, exactly the specified octets are appended |
| `UserInfo.UserInfoResponse.SerializeAsString` | Pokemon/protocol/UserProtocol.pb.cc:1972-2127 | size then write: the octets are the specified ones and as many as were computed |
| `UserInfo.UserInfoResponse.InternalParse` | Pokemon/protocol/UserProtocol.pb.cc:1871-1970 | the loop with its dispatch on field number and low octet computes the specified parse |
| `UserInfo.UserInfoRoundTripIff` | Pokemon/protocol/UserProtocol.pb.cc:1996-2000 | a UserInfoResponse comes back if and only if its winRate is not -0.0 |
| `PokemonData.UserPokemonDataResponseInfo.Clear` | Pokemon/protocol/UserProtocol.pb.cc:3326-3336 | all fields are defaults |
| `PokemonData.UserPokemonDataResponseInfo.MergeFrom` | Pokemon/protocol/UserProtocol.pb.cc:3483-3497 | the elements are appended as copies, the other fields merged |
| `PokemonData.UserPokemonDataResponseInfo.ByteSizeLong` | Pokemon/protocol/UserProtocol.pb.cc:3431-3466 | the specified size; every element's cached size is set |
| `PokemonData.UserPokemonDataResponseInfo.InternalSerialize` | Pokemon/protocol/UserProtocol.pb.cc:3396-3429 | with current cached sizes, exactly the specified octets are appended |
| `PokemonData.UserPokemonDataResponseInfo.SerializeAsString` | Pokemon/protocol/UserProtocol.pb.cc:3396-3466 | size then write: the octets are the specified ones and as many as were computed, the cached sizes of the elements being current when they are needed |
| `PokemonData.UserPokemonDataResponseInfo.InternalParse` | Pokemon/protocol/UserProtocol.pb.cc:3338-3394 | the loop computes the specified parse |
| `PokemonData.UserPokemonDataResponseInfo.ParseElements` | Pokemon/protocol/UserProtocol.pb.cc:3362-3372 | the inner loop, which compares one octet instead of going back to the dispatch, reads the same elements |
| `PokemonData.PokemonRoundTrip` | Pokemon/protocol/UserProtocol.pb.cc:2667-2979 | every PokemonInfo comes back from its encoding, negative numbers and two-octet tags included |
| `PokemonFields.TagOctets` | Pokemon/protocol/UserProtocol.pb.cc:2675-2842 | the octets that announce each of the twenty fields |
| `PokemonFields.PokemonHasTwentyFields` | Pokemon/protocol/UserProtocol.pb.cc:2667-2842 | there are twenty fields, numbers in places 1, 2 and 4 to 11 and texts in the others |
| `PokemonFields.NumberIsRead` | Pokemon/protocol/UserProtocol.pb.cc:2667-2842 | a number behind one of its tags is stored in its field and changes no other, from any message |
| `PokemonFields.TextIsRead` | Pokemon/protocol/UserProtocol.pb.cc:2667-2842 | so is a text behind one of its tags |
| `PokemonFields.NumberIsWritten` | Pokemon/protocol/UserProtocol.pb.cc:2844-2979 | a message in which only one number is set is written as its tag and that number |
| `PokemonFields.TextIsWritten` | Pokemon/protocol/UserProtocol.pb.cc:2844-2979 | one in which only one text is set is written as its tag, its length and that text |
| `PokemonData.PokemonDataRoundTrip` | Pokemon/protocol/UserProtocol.pb.cc:3338-3429 | so does every UserPokemonDataResponseInfo |
| `Frames.NetworkHelper.ReadyRead` | Pokemon/README.md:111-138 | the callback computes the specified draining of the socket |
| `Octets.LowestFirst` | Pokemon/README.md:111-138 | the four octets of a length have the lowest one first, written and read |
| `Frames.DrainTracks` | Pokemon/README.md:111-138 | one callback keeps track: what was received is the emitted messages, in order, and the beginning of the rest |
| `Frames.EmptyMessageDropsTheRest` | Pokemon/README.md:111-138 | a header of length zero makes the reader throw away everything that has arrived behind it |
| `Frames.ReceiveTracks` | Pokemon/README.md:111-138 | the same over any sequence of pieces: nothing is dropped, doubled or reordered |
| `Frames.IdleReaderLag` | Pokemon/README.md:111-138 | between callbacks at most the last complete message is outstanding, and only one of fewer than four octets |
| `Frames.EmitsTheComplete` | Pokemon/README.md:73-138 | with payloads of four octets or more, exactly the complete messages have been emitted, whatever the pieces |
| `Frames.ExactIff` | Pokemon/README.md:73-138 | for every way to cut the stream the complete messages are emitted if and only if no payload has fewer than four octets |

## Left out

- Total risk: minimality of the sum of risks is not a property of the code; `TotalRisk.SumIsNotMinimal` gives the input, `TotalRisk.TotalIsBounded` the bound that holds.
- Planner arithmetic: risks are exact reals truncated to an integer, not doubles and floats; machine integers do not overflow.
- Cities are their ids; names, the colours of the map and all texts of log messages are not modelled, nor are unknown city names in the schedule.
- Traveller.Customer.UpdateStatus: stops when the queue runs empty, where the code looks at the front of an empty queue.
- Backend.JourneyIsReplayed: speaks of a journey during which no further query resets the clock; `Backend.Backend.StartQuery` states that reset.
- Threads, pausing, sleeping and the database behind the schedule; a paused main loop makes no round.
- The system clock of the planner is a number of seconds since a midnight; dates are not modelled.
- DNS: the clock, the datagrams and the lines of the file are inputs, and so is the name found in a question: theorems for all runs hold for any, the runs exhibited have the one their datagrams carry (`Honest`). Sockets, closing them, printing and the ini file are left out. The clock is read once per callback.
- DnsNames.ParseUrlFromData: does not follow compressed names and does not read malformed ones (a length over 63, a label past the end of the name).
- DNS: the record that answers a PTR request, AAAA and CNAME printing, and owner names that are not two octets long. A PTR request whose name has no four dots within sixteen characters is undefined.
- DNS: texts longer than the tables' 64 octets, records and identifiers outside the tables, a failing `malloc`, and a link to a freed node whose memory is in use again. Records and identifiers outside the tables set `wild`; long texts do not.
- DNS: FindAnswerStart counts from the start of the question name, and the model gives no result where that runs past the datagram.
- RelayStability.StableIffFirst: is stated for files that leave as many rows free as entries of the bucket follow the name, so that the run that loses it does not wrap the ring of rows; the direction from first to served needs no such bound in `RelayStatics.FirstNamesAreStable`. The name has labels of 1 to 63 octets and fewer than 64 characters, what questions can carry and the tables can hold.
- RelayRuns.AnswersAreGenuine: gives a sufficient condition on slots; a clash behind an entry that still answers for the name does no harm until that entry goes. Where a request finds nothing cached the condition is exact, `RelaySlots.ReusedSlotMisleadsIff`.
- RelayRuns.RunKeepsSound: speaks of runs that write at most 1024 rows; the ring of rows overwrites rows that entries still lead to.
- TotalRisk.DirectIsLeast: gives a sufficient condition only. A route of several legs can have the least total as well, for instance when there is no other; whether it has depends on the arrival times at all cities on all rivals, which only the search fixes, so no condition on the timetable short of running it is necessary.
- UserInfo.UserInfoResponse.InternalParse: ends at an unknown field, where the code keeps its octets and goes on.
- PokemonData.UserPokemonDataResponseInfo.InternalParse: ends at an unknown field likewise.
- Codecs: PokemonInfo is covered by its schema, the laws and `PokemonFields`; a class of its twenty fields would repeat what UserInfoResponse shows for each kind of field. The elements of a UserPokemonDataResponseInfo are values with their cached sizes beside them, so reuse of cleared elements is not captured.
- Codecs: the fields of UserInfoResponse are one record in the object; the C++ lays them out as members.
- Codecs: unknown fields end the modelled part of a parse as `Foreign`; arenas, reflection, descriptors, buffers of the stream and messages of two gigabytes are left out, and a failed parse promises nothing about the fields.
- Writers.WriteInt32Packed: takes a non-empty list, where a stale positive size for an empty list makes the code read past it.
- The other messages of UserProtocol.proto and BattleProtocol.proto have the same shape and would add only further schemas.
- Frames: the server's reader, which reassembles nothing, the Qt socket and the dispatch on message types; the length is read in little-endian order.
- Battles, storage and user interfaces.
