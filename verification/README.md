# Verified model of the embedded location library

The library collects Wi-Fi access points, cells and a satellite position into a request, keeps a small cache of scans
that were answered before, and exchanges requests and responses with a location server. This project models its
deterministic core in Dafny and proves what that core is for.

* **Request list** (`Beacons`, `RequestList`, `ApEviction`, `Filtering`, `AddRuns`, `Contexts`, `Requests`). One array
  holds access points first and cells after them, sorted, without duplicates and bounded, with one slot for the
  transient overflow. The comparators are shown to agree with a numeric rank. Every sequence of additions, under
  settings that may change at any call, keeps the list sorted, distinct and within the array; filtering cells one at
  a time equals sorting everything and truncating.
* **Stored scans** (`Matching`, `ScanCache`). Greedy pairing of similar addresses is at least half of the best pairing;
  a search hits exactly when some line is similar enough; a scan just stored is always found again.
* **Client runs** (`ClientRuns`, `ExampleRuns`, `Client`). Starting, adding, searching, sizing and decoding as steps of
  one state machine. The methods of `Client` work on the session and request objects and are proved to be such steps; the
  theorems are about all runs, and `ExampleRuns` follows two runs that show what the code does not promise.
* **Authentication** (`Auth`). Registration, tokens and the back-off ladder as a timed state machine.
* **Wire form** (`ProtocolBuffers` in `Wire.dfy`, `BeaconWire`). Varints, packed fields and messages of the Protocol
  Buffers Encoding specification with a reader that gives every field its declared type, the beacon encoders on an output
  stream with its sizing pass, and when a whole request reads back.
* **Virtual access points** (`VirtualAps`), **checksum** (`Crc32`, section 8 of RFC 1952), **random numbers**
  (`ParkMiller`) and **hex text** (`Hex`).

`Prelude`, `SeqFacts` and `Pairing` are general. Lists, stored scans and settings are values; the session, the request
context, the output stream and the arrays the C code writes in place are objects.

## Assumptions

* Settings are well-formed: `1 <= max_ap_beacons <= total_beacons <= 28` and `max_ap_beacons <= 20`. The C code does not
  enforce this between the two limits; its subtractions are unsigned.
* Request times stay below March 2019 plus 2^31 seconds, so ages stay below 2^31; `Beacons.OldAgesWrap` shows the order
  break beyond that. `time_t` has 64 bits, session and request times 32.
* Ratios and priorities are exact numbers where the C code uses floats. The distance between two positions is an
  arbitrary function.
* The server reads each field by the type declared in `libel/protocol/el.pb.h` and truncates wider values, as "Updating A
  Message Type" of the Protocol Buffers Language Guide says. Where the C code adds one to the largest signed 64-bit
  identifier, which C leaves undefined, the sum is taken to wrap.
* One request context is live per session. `CACHE_SIZE` is an arbitrary number of at least one. Wi-Fi, cell and
  satellite support are compiled in.

## Where code and documentation differ

The model follows the code.

* The comment at `plugins/ap_plugin_basic.c:340` says a new removal candidate replaces the current one when its
  properties are worse; the code replaces it when they are better (`ApEviction.VirtualRuleTakesWorstIff`,
  `ApEviction.VirtualRulePrefersUsed`).
* The function comments of `libel/libel.c` give `(time_t)-1` for an unknown scan time; the code takes 0 as unknown and
  rejects -1 as a time before March 2019 (`Requests.AddBeacon`).
* The access-point search never clears the hit flag, so a second search after a hit can report a hit no line supports
  (`ScanCache.StaleHit`), and the request can then exceed the limits (`ClientRuns.SizedWithinIff`,
  `ExampleRuns.StaleHitExceedsLimits`), though not with the default cache of one line
  (`ClientRuns.OneLineStaysSettled`).
* With the weakest access point below the threshold, `set_priorities` need not answer the least priority
  (`ApEviction.WorstIsLeastIff`) and can answer a connected access point while an unconnected one exists
  (`ApEviction.SparesConnectedIff`, `ApEviction.WeakModeFails`), which then goes (`Filtering.ConnectedCanGo`).
* Of two sightings equal in age and flags the comment at `libel/beacons.c:156` promises the stronger; "unknown" counts as
  the strongest there (`RequestList.StrongerStaysIff`, `RequestList.UnknownReplacesStrong`).
* Access points tie in strength when one reading is "unknown" and the other -127, and address order can then break
  (`RequestList.AddressOrderIff`, `RequestList.AddressOrderFails`).
* Validation lets negative identifiers of cells pass, but the fields that carry them are unsigned
  (`libel/protocol/el.pb.h:477-488`): such an identifier arrives 2^32 or 2^64 too large (`BeaconWire.CellReadsBackIff`,
  `BeaconWire.NegativeIdentifierLost`, `Client.RequestReadsBack`). A common age of 2^32 - 1 would be sent as 2^32 and read
  as absent (`BeaconWire.CommonAgeLost`); ages in a request stay far below.
* The count of consecutive cache hits is set back by every missed search and by every response while the flag is clear. It
  counts the substitutions if and only if no such call comes between them (`ClientRuns.HitsAreBounded`), so it does not
  bound those of successive sizing calls (`ExampleRuns.HitsCanCircle`).

## Model

| member | source | states |
|---|---|---|
| Beacons.ValidateIdempotent | libel/utilities.c:63-220 | what validation accepts and rewrites, it accepts unchanged the second time, with the same age and class |
| Beacons.RefusedAddresses | libel/utilities.c:63-82 | an access point is refused exactly if its address is all zeros or all ones |
| Beacons.ApRewritten | libel/utilities.c:63-82 | of an access point only an impossible reading or frequency is rewritten, to "unknown" |
| Beacons.CellRewritten | libel/utilities.c:83-220 | of a cell only a reading its technology cannot give is rewritten, and a neighbour's flag and timing advance |
| Beacons.AcceptedIdentity | libel/utilities.c:83-210 | an accepted cell has all of its primary identity or none, and its codes and identities are within their widths where they are checked |
| Beacons.AcceptedMeasurements | libel/utilities.c:83-210 | so are its physical identity, frequency and timing advance |
| Beacons.ExtremesAccepted | libel/utilities.c:83-210 | the extreme identities of each technology are accepted, and neighbours of all but CDMA |
| Beacons.EqualIsPartialEquivalence | plugins/cell_plugin_basic.c:60-121 | equality is symmetric and transitive, and reflexive on valid beacons except GSM neighbours without identity, so two of those never merge |
| Beacons.SameCellIff | plugins/cell_plugin_basic.c:60-121 | valid cells are equal if and only if technology and identity agree, or for neighbours other than GSM ones physical identity and frequency |
| Beacons.GoesFirstIsRank | libel/beacons.c:91-127 | the pairwise insertion decision agrees with one numeric rank, access points above all cells, and on cells in both directions |
| Beacons.DigitsOrder | plugins/cell_plugin_basic.c:135-167 | the rank of cells is the lexicographic order of priority, age, technology and strength |
| Beacons.YoungerFirstIff | plugins/cell_plugin_basic.c:135-167 | of two cells of one priority the younger goes first if and only if the ages are less than 2^31 apart; further apart the older goes first |
| Beacons.OldAgesWrap | libel/beacons.h:79-80 | without the bound on ages an older cell can be ranked above a younger one: the unsigned difference wraps |
| RequestList.FindDuplicate | libel/beacons.c:146-166 | the duplicate found is the first equal entry, and there is none before it |
| RequestList.Position | libel/beacons.c:177-180 | the insertion place is the first entry the new beacon goes before |
| RequestList.ApsArePrefix | libel/beacons.c:140-210 | in a valid ranked list access points are exactly the first num_ap entries and cells exactly the rest |
| RequestList.RankMeaning | plugins/ap_plugin_basic.c:124-148 | rank order means non-increasing effective strength of access points and non-negative plugin comparison of cells |
| RequestList.CellsInPlainTerms | plugins/cell_plugin_basic.c:135-167 | of two cells in a list a connected one comes first, then an identified one, then the younger, then NR, LTE, UMTS, NBIOT, CDMA, GSM in this order, then the stronger |
| RequestList.PositionSplits | libel/beacons.c:177-180 | everything before the insertion place ranks at least as high as the new beacon, everything after no higher |
| RequestList.WithoutKeeps | libel/beacons.c:63-79 | removing any entry keeps the list valid, ranked and distinct and adjusts the count of access points |
| RequestList.InsertedKeeps | libel/beacons.c:177-195 | inserting a beacon without duplicate keeps the list valid, ranked and distinct |
| RequestList.OneDuplicate | libel/beacons.c:146-170 | a distinct list holds at most one duplicate, so removing the first leaves none |
| RequestList.MergedKeeps | libel/beacons.c:140-210 | insert_beacon keeps the list valid, ranked and distinct, and grows it exactly when there was no duplicate |
| RequestList.BetterSightingStays | libel/beacons.c:146-170 | of two sightings the younger stays; at equal ages the new one if it is connected, with equal flags if its reading is greater; otherwise the list is as it was |
| RequestList.StrongerStaysIff | libel/beacons.c:155-158 | at equal ages and flags the sighting kept is at least as strong if and only if neither reading is unknown while the other is above -127 |
| RequestList.UnknownReplacesStrong | libel/beacons.c:155-158 | a list and a sighting without a reading that replaces one at -50 |
| RequestList.AddressOrderIff | plugins/ap_plugin_basic.c:124-151 | an insertion keeps strength-then-address order if and only if no stored access point ties as "unknown" against -127 with a lower address |
| RequestList.AddressOrderFails | libel/beacons.h:74-84 | a list and a beacon for which that order is lost |
| ApEviction.FindVirtualVictim | plugins/ap_plugin_basic.c:301-348 | the pair scan returns the one loser of a similar unconnected pair that outranks all other losers, and none only if there is no loser |
| ApEviction.ConsiderPair | plugins/ap_plugin_basic.c:310-346 | one step of the scan keeps a candidate that covers all pairs seen so far |
| ApEviction.VirtualVictimIsSafe | plugins/ap_plugin_basic.c:279-355 | the victim is unconnected and unique, and a similar unconnected access point stays whose flags are no worse, with the lower address when flags tie |
| ApEviction.VirtualRuleTakesWorstIff | plugins/ap_plugin_basic.c:338-344 | the victim has the worst flags among the losers, as the comment says, if and only if all losers agree on being used |
| ApEviction.VirtualRulePrefersUsed | plugins/ap_plugin_basic.c:338-344 | a list from which a used access point goes while an unused loser exists |
| ApEviction.FindOldest | plugins/ap_plugin_basic.c:363-389 | the scan finds the first of the greatest age, and declines exactly if all ages agree |
| ApEviction.OldestIsUnique | plugins/ap_plugin_basic.c:363-389 | there is an oldest access point only if ages differ, only one, and it is the first of its age |
| ApEviction.PriorityBands | plugins/ap_plugin_basic.c:650-684 | no deviation exceeds the range of readings, so priorities of connected and unconnected access points lie in disjoint bands |
| ApEviction.PriorityIs | plugins/ap_plugin_basic.c:650-684 | a priority is 128, or 640 if connected, less the deviation from an even spread, computed without fractions; the strongest, the weakest and all of an even spread lose nothing |
| ApEviction.ZigClosedForm | plugins/ap_plugin_basic.c:707-708 | the k-th position of the zigzag loop: 0, n-1, 1, n-2 and so on, always in range |
| ApEviction.ZigzagIsPermutation | plugins/ap_plugin_basic.c:707-708 | the zigzag loop visits every position exactly once |
| ApEviction.SetPriorities | plugins/ap_plugin_basic.c:695-723 | the loop with its jumps computes the choice specified over the visiting order |
| ApEviction.ChosenIsLeastIff | plugins/ap_plugin_basic.c:707-720 | after any number of visits the choice is the least position exactly if it was visited and no weak one of another priority was visited after it |
| ApEviction.WorstIsLeastIff | plugins/ap_plugin_basic.c:695-723 | the answer has the least priority, ties going to the greatest address, if and only if no later weak access point of another priority is visited in weak mode |
| ApEviction.StrongModeIsLeast | plugins/ap_plugin_basic.c:702-720 | when the weakest access point is not below the threshold the answer is always the least |
| ApEviction.StrongModeSparesConnected | plugins/ap_plugin_basic.c:650-723 | then a connected access point is chosen only if all are connected |
| ApEviction.WeakModeIff | plugins/ap_plugin_basic.c:702-704 | weak mode is on if and only if some access point is below the threshold, and never with a threshold of 127 or more |
| ApEviction.DecidingVisitIs | plugins/ap_plugin_basic.c:695-723 | the deciding visit is the last one that lands on a weak access point in weak mode, and the first visit otherwise |
| ApEviction.SparesConnectedIff | plugins/ap_plugin_basic.c:650-723 | in either mode a connected access point is chosen if and only if all access points visited from the deciding visit on are connected |
| ApEviction.WeakModeFails | plugins/ap_plugin_basic.c:710-711 | a list for which in weak mode a connected access point goes although an unconnected one has less priority |
| Filtering.ApsInOrder | plugins/ap_plugin_basic.c:399-425 | the access points of a list meet what the eviction rules rely on: distinct addresses, falling strength, readings in range |
| Filtering.VictimIsUnique | plugins/ap_plugin_basic.c:399-425 | virtual rule, age rule and priorities together name at most one victim |
| Filtering.VictimExists | plugins/ap_plugin_basic.c:399-425 | and they always name one |
| Filtering.AddStepKeeps | libel/beacons.c:268-291 | one add_beacon keeps the list valid, ranked and distinct, stays within the array under any well-formed settings, and keeps the limits once met |
| Filtering.ConnectedCanGo | plugins/ap_plugin_basic.c:399-425 | an add_beacon of an unconnected access point that drops the connected one |
| Filtering.AddStepExists | libel/beacons.c:268-291 | an add_beacon of a valid beacon is never stuck |
| Filtering.AddStepIsDetermined | libel/beacons.c:268-291 | and it has one result only |
| AddRuns.RunsKeepInvariant | libel/beacons.c:237-291 | over every run of add_beacon, settings changing freely, the list is valid, ranked, distinct and leaves the overflow slot free |
| AddRuns.RunsKeepLimits | libel/beacons.c:275-291 | under one setting both limits hold throughout every run |
| AddRuns.RunsInPlainTerms | libel/beacons.c:140-291 | the same spelled out: prefix of access points, no equal pair, falling strength, cells in plugin order, capacities |
| AddRuns.YoungestSightingStays | libel/beacons.c:146-170 | over runs, as long as a beacon stays in the list its entry is never older than any sighting of it that was added |
| AddRuns.ConnectedCellsGoLast | plugins/cell_plugin_basic.c:175-205 | an add_beacon drops a connected cell only if every cell that stays is connected |
| AddRuns.RunsKeepConnectedCells | plugins/cell_plugin_basic.c:175-205 | over runs, a connected cell given up while an unconnected one stays was replaced by a new sighting of itself |
| AddRuns.RunsKeepAddressOrder | plugins/ap_plugin_basic.c:124-151 | strength-then-address order holds throughout every run in which "unknown" never ties with -127 the wrong way round |
| AddRuns.FullSortSorts | plugins/cell_plugin_basic.c:135-167 | the reference sort keeps all cells, orders by rank, and lists equal ranks newest first |
| AddRuns.TruncateInserted | plugins/cell_plugin_basic.c:175-205 | truncating before an insertion and again after it equals truncating once after it |
| AddRuns.CellStepTruncates | plugins/cell_plugin_basic.c:175-205 | adding a new cell inserts it among the cells and keeps the first total minus max_ap |
| AddRuns.ApStepLeavesCells | libel/beacons.c:237-291 | adding an access point never changes the cells |
| AddRuns.StreamingTopK | plugins/cell_plugin_basic.c:175-205 | for every run that adds pairwise unequal cells, with access points among them, the cells kept are the first total minus max_ap of the full sort of all added |
| Contexts.SessionContext.constructor | libel/libel.c:74-180 | an opened session has empty lines, no token and no back-off |
| Contexts.RequestContext.constructor | libel/libel.c:294-314 | a new request context is empty, with no hit and no line chosen |
| Requests.RemoveBeacon | libel/beacons.c:63-79 | the array shift removes exactly the entry at the index and adjusts both counters; a bad index changes nothing |
| Requests.InsertBeacon | libel/beacons.c:140-210 | the search and shift loops compute the specified merge; types without a plugin change nothing |
| Requests.InsertAt | libel/beacons.c:182-195 | the shift inserts at the place and needs no slot beyond the overflow slot |
| Requests.RemoveVirtualAp | plugins/ap_plugin_basic.c:279-355 | removes the virtual victim exactly if there are too many access points and some pair has a loser |
| Requests.RemoveOldestAp | plugins/ap_plugin_basic.c:363-390 | removes the first of the oldest exactly if ages differ |
| Requests.RemoveWorstAp | plugins/ap_plugin_basic.c:399-425 | declines exactly within the limit, else removes the one victim |
| Requests.RemoveWorstCell | plugins/cell_plugin_basic.c:175-205 | declines exactly within the limit, else drops the last beacon, which is a cell |
| Requests.RemoveWorst | libel/plugin.c:158-177 | outside the limits the plugin chain always removes one beacon |
| Requests.BeaconInCacheline | libel/beacons.c:338-356 | finds the beacon exactly if a live line holds an equal one, and marks it used exactly if that one is |
| Requests.BeaconInCache | libel/beacons.c:311-323 | a new access point is marked used exactly if some live line holds it marked used |
| Requests.RecalledMeaning | libel/beacons.c:311-356 | a new access point counts as used exactly if it did or some live line holds its address as used; nothing else changes |
| Requests.PreparedIsValid | libel/beacons.c:246-260 | a beacon that passes the checks and is stamped is one a list may hold |
| Requests.PreparedMeaning | libel/beacons.c:237-266 | which beacons are rejected and with which error, and that the age of an accepted one is that of its scan time by the request's clock, 0 if either is unknown |
| Requests.AddBeacon | libel/beacons.c:237-291 | rejects with the right error and no change, or takes one filtering step; never an internal error, list invariant kept |
| Requests.ValidateRequestCtx | libel/utilities.c:232-271 | passes exactly with a good header, few access points and no bad beacon, and leaves a list as the other calls keep it untouched |
| Macs.MemcmpIsNumericOrder | libel/beacons.h:83-84 | byte order of addresses is the order of their 48-bit numbers |
| Macs.MacNumberInjective | libel/protocol/proto.c:121-136 | different addresses have different numbers |
| Macs.MacSimilar | plugins/ap_plugin_basic.c:169-197 | nonzero exactly for addresses with equal local bit and at most one differing hex digit; negative exactly if the first is lower |
| Macs.SimilarIff | plugins/ap_plugin_basic.c:169-197 | similarity without counting: the same local bit, and of any two digits at least one agrees |
| Macs.SimilarSymmetric | plugins/ap_plugin_basic.c:169-197 | similarity is symmetric and reflexive |
| Macs.SimilarNotTransitive | plugins/ap_plugin_basic.c:169-197 | and not transitive |
| Matching.CountCachedAps | plugins/ap_plugin_basic.c:208-230 | the loops with matched flags compute the size of the greedy pairing |
| Pairing.GreedyIsMatching | plugins/ap_plugin_basic.c:214-223 | the greedy pairing is one-to-one and pairs only related entries |
| Pairing.GreedyIsMaximal | plugins/ap_plugin_basic.c:214-223 | no further related pair could be added to it |
| Pairing.MaximalIsHalfOptimal | plugins/ap_plugin_basic.c:208-230 | no one-to-one pairing is more than twice a maximal one |
| Matching.GreedyIsHalfOptimal | plugins/ap_plugin_basic.c:208-230 | the score is at least half of any one-to-one pairing of similar addresses and at most either scan |
| Matching.HalfIsSharp | plugins/ap_plugin_basic.c:208-230 | one half is attained |
| Matching.CopyScoresFully | plugins/ap_plugin_basic.c:208-230 | a scan pairs perfectly with its own copy |
| Matching.FullScoreIsPerfect | plugins/ap_plugin_basic.c:518-524 | a score that reaches the union leaves no address on either side unpaired |
| Matching.CountUniqVg | plugins/ap_plugin_basic.c:240-266 | the loops with redundant flags count the specified set |
| Matching.UniqVgIsMaximalIndependent | plugins/ap_plugin_basic.c:240-266 | the counted addresses are the unique pairwise dissimilar set to an earlier member of which every other address is similar |
| ScanCache.ExpireLines | plugins/ap_plugin_basic.c:462-478 | exactly the lines older than the limit are emptied, and the last empty one is noted |
| ScanCache.SweptIff | plugins/ap_plugin_basic.c:462-478 | with a threshold that does not wrap, a line stays live exactly if it is at most that many hours old |
| ScanCache.EligibleIff | libel/beacons.c:394-487 | a line is eligible if and only if it is live, has the request's serving cell if both lead with an identified one, and its position is as accurate and within the request's radius if the request has one |
| ScanCache.ScoreLine | plugins/ap_plugin_basic.c:512-528 | the ratio is score over union |
| ScanCache.ScoreLines | plugins/ap_plugin_basic.c:490-543 | the loop keeps the first line of the best ratio, its threshold, and the line to overwrite |
| ScanCache.BestDecides | plugins/ap_plugin_basic.c:530-549 | some line answers if and only if the best one does |
| ScanCache.MatchAps | plugins/ap_plugin_basic.c:446-560 | lines are swept; the flag rises exactly if 100 times score exceeds threshold times union for some eligible line, the line read is the first of the best ratio, and the line to store to is an empty or the worst one |
| ScanCache.FewGroupsNeedAll | plugins/ap_plugin_basic.c:518-524 | with few groups a hit pairs every access point on both sides, because unions are at most 40 |
| ScanCache.CountCells | plugins/cell_plugin_basic.c:297-312 | the score equals the number of cells exactly if every cell is in the line |
| ScanCache.MatchCells | plugins/cell_plugin_basic.c:224-347 | reads the first eligible line that holds every cell, hits exactly if there is one and the threshold is below 100, and clears the flag otherwise |
| ScanCache.SearchCache | libel/beacons.c:501-520 | no search under a bad clock, by access points if there are any, else by cells, else a miss |
| ScanCache.FindOldestLine | libel/beacons.c:364-388 | the first empty line, else the first of the oldest, else line 0 |
| ScanCache.SearchIsDetermined | libel/beacons.c:501-520 | there is one outcome of a search: flag, line to read and line to store to |
| ScanCache.ToCache | plugins/ap_plugin_basic.c:579-629 | a located scan replaces exactly one line by itself; other outcomes empty that line or change nothing |
| ScanCache.OwnCellKept | libel/beacons.c:455-487 | a scan is never ruled out by its own serving cell |
| ScanCache.OwnCopyAnswers | plugins/ap_plugin_basic.c:494-552 | a line holding the request's own scan answers it with ratio one |
| ScanCache.StoreThenSearch | plugins/ap_plugin_basic.c:494-552 | with a match-all threshold below 100 and a line that holds the request's own scan and has not expired, a search always hits, and the line it reads pairs perfectly; a position counts as its own match if distance zero lies within its radius |
| ScanCache.StaleHit | plugins/ap_plugin_basic.c:545-560 | for every query and cache size, the flag tells for all stored scans and positions whether a line answers if and only if it was clear before; a set one survives a search of empty lines |
| ScanCache.LineRead | plugins/ap_plugin_basic.c:545-560 | the request reads a line that answers if there is one; otherwise line 0, and the flag is as before |
| ClientRuns.StepKeepsReady | libel/libel.c:276-357 | every step keeps stored scans and live request valid and in capacity, indices in range and the count within 127 |
| ClientRuns.StepIsDetermined | libel/libel.c:276-1188 | what a call does is determined by the state and what caller, clock and server contribute, but for a back-off that may deny a start |
| ClientRuns.RunsStayReady | libel/libel.c:276-1188 | over all runs of start, add, search, size and decode |
| ClientRuns.LiveLinesAreDated | plugins/ap_plugin_basic.c:579-629 | over all runs, every live line carries a time after March 2019 |
| ClientRuns.StoredIsFound | plugins/ap_plugin_basic.c:579-629 | from any state: a response that brings a location stores the scan, used flags and all, and a search right after it always hits a line that pairs perfectly with the request, if clocks are good, the scan has not expired and the match-all threshold is below 100 |
| ClientRuns.UsedFlagsKeep | libel/protocol/proto.c:568-594 | marking access points used changes neither validity, order, equality nor counts |
| ClientRuns.UsedFlagsMeaning | libel/protocol/proto.c:568-594 | the flags are set by position on access points and nothing else changes |
| ClientRuns.ResultInRange | libel/libel.c:849-899 | a hit names a line in range, live if the flag was clear before the search |
| ClientRuns.HitIsTrue | libel/libel.c:849-899 | a search that starts with the flag clear and hits reads a live line within the age limit, of the same serving cell, of an agreeing position and as alike as the settings ask |
| ClientRuns.StartSettles | libel/libel.c:329-349 | after a start every live line fits the current limits and age limit, and none is live under a bad clock |
| ClientRuns.SizeSettled | libel/libel.c:974-995 | replacing the request by such a line keeps it within the limits |
| ClientRuns.RequestsStaySettled | libel/libel.c:276-1188 | from one start to the next, as long as no response tightens the limits or stores under a bad clock and searches start with the flag clear, every live line and the request fit the limits, so every substitution yields a request within them |
| ClientRuns.StaleHitSubstitutes | libel/libel.c:974-995 | with a stale flag the request becomes whatever line 0 holds, within the limits exactly if that is |
| ClientRuns.SizedWithinIff | libel/libel.c:849-995 | after a search of a settled request by access points that reports a hit, sizing keeps the request within the limits if and only if some line answers or the scan in line 0 fits |
| ClientRuns.OneLineStaysSettled | libel/libel.c:276-1188 | with one line, from one start to the next, without any condition on the flag, every live line and the request fit the limits |
| ExampleRuns.StaleHitExceedsLimits | libel/libel.c:849-995 | a run with two lines from the opening with default settings, lowered by a response, to a settled request that a second search and a sizing call put beyond the limits |
| ClientRuns.HitsCounted | libel/libel.c:849-995 | the count falls exactly at a search that leaves the flag clear, a response while it is clear or a forced miss, and then to 0; otherwise each substitution adds one |
| ClientRuns.HitsAreBounded | libel/libel.c:974-995 | over all runs the count is at most what it was plus the substitutions since, and equal if and only if no such call came while it was positive; then at most 127 sizing calls substitute |
| ExampleRuns.HitsCanCircle | libel/libel.c:908-995 | for every n a run under default settings whose sizing calls all substitute, n of them: size on a hit, ignore it, receive a response, search again |
| ClientRuns.ForcedMiss | libel/libel.c:974-995 | sizing a hit forces a miss exactly at count 127, leaving the beacons alone |
| Client.SkyOpen | libel/libel.c:74-180 | a fresh session is the first state of a client's run and of a run of the authentication protocol |
| Client.RefreshLines | libel/libel.c:329-349 | the loop empties exactly the lines that exceed the limits, meet a bad clock or are too old |
| Client.SkyNewRequest | libel/libel.c:276-357 | denied exactly by a closed session or the back-off, with no change; else a fresh context as the state machines specify |
| Client.SkyAddBeacon | libel/libel.c:372-397 | is the add step of the client's runs |
| Client.SkySearchCache | libel/libel.c:849-899 | is the search step; a location is reported exactly on a hit and is that of the line read |
| Client.SkySizeofRequest | libel/libel.c:974-1003 | is the size step, copying the stored beacons over the request |
| Client.SkyEncodeRequest | libel/libel.c:1034-1080 | refused exactly in a back-off or without content, else all beacons go to the stream, and none while the session is unregistered |
| Client.BareRegistration | libel/protocol/proto.c:345-398 | an unregistered session sends no beacon field, any other sends all |
| Client.SentUnlessUnregistered | libel/protocol/proto.c:350-358 | in every consistent state of the protocol beacons are sent exactly if the live context is not unregistered |
| Client.RequestReadsBack | libel/protocol/proto.c:345-398 | a server reading an encoded request, other fields around the beacons, gets back all access points and cells if and only if no cell has a negative identifier; a registration carries none |
| Client.ServerLearnsAll | libel/protocol/proto.c:217-398 | field by field and in its place, a server learns every access point and cell of a sendable list |
| Client.NegativeIdentifiers | libel/utilities.c:83-210 | which identifiers of an accepted cell can be negative and still be sent |
| Client.ApplyUsedInfo | libel/protocol/proto.c:568-594 | sets the used flags by position and nothing else |
| Client.UsedFlagsCount | libel/protocol/proto.c:568-734 | a located answer brings its used flags; an unreadable one, the answer to a registration and a refused token bring none |
| Client.DigestAuth | libel/protocol/proto.c:684-734 | the switch computes the specified token, state and reported status |
| Client.SettleBackoff | libel/libel.c:1134-1187 | the switch computes the specified back-off and verdict |
| Client.SkyDecodeResponse | libel/libel.c:1099-1188 | is a decode step of the protocol and a receive step of the client's runs |
| Auth.StepConsistent | libel/protocol/proto.c:684-734 | each step keeps state, token, SKU and back-off consistent |
| Auth.RunConsistent | libel/libel.c:305-307 | along every run: disabled exactly without SKU, registered exactly with a token, back-off only under registration without a token |
| Auth.RegistrationYieldsNoLocation | libel/protocol/proto.c:685-699 | the answer to a registration never locates, and a token in it leads to a retry with that token |
| Auth.AdmittedIff | libel/libel.c:233-265 | with a good clock a request is admitted and encoded if and only if 8, 16 or 24 hours have passed since the last response, as the back-off asks; without one, only if there is nothing to wait for |
| Auth.WaitEnds | libel/libel.c:233-357 | in every run a start a day or more after the last response gets a context, and the request then encoded goes out |
| Auth.StepTimed | libel/libel.c:233-265 | each step keeps failures spaced by the waits imposed |
| Auth.BackoffLadder | libel/libel.c:1159-1178 | after n failures the back-off is retry, 8 h, 16 h, then a day for ever, and the n-th failure comes at least n-3 days after the first |
| Auth.UnansweredRuleMatters | libel/libel.c:1159-1178 | answering one registration request four times climbs the whole ladder at once |
| ProtocolBuffers.VarintRoundTrip | libel/protocol/proto.c:92-114 | a varint reads back, whatever follows it |
| ProtocolBuffers.PackedRoundTrip | libel/protocol/proto.c:80-117 | packed values read back |
| ProtocolBuffers.MessageRoundTrip | libel/protocol/proto.c:217-269 | any sequence of fields reads back |
| BeaconWire.EncodeRepeatedIntField | libel/protocol/proto.c:80-117 | the length from the sizing pass is that of the values then written |
| BeaconWire.EncodeOptimizedRepeatedField | libel/protocol/proto.c:196-215 | writes one common value plus one exactly if several values all agree, else the packed values |
| BeaconWire.EncodeConnectedApField | libel/protocol/proto.c:178-194 | writes the index of the first connected access point plus one, nothing if there is none |
| BeaconWire.MacToInt | libel/protocol/proto.c:121-136 | the loop computes the 48-bit number of the address |
| BeaconWire.EncodeApFields | libel/protocol/proto.c:217-230 | appends exactly the bytes of the five fields |
| BeaconWire.ApsLength | libel/protocol/proto.c:321-342 | the access points of a request take at most 855 bytes, so lengths never overflow |
| BeaconWire.OptimizedRoundTrip | libel/protocol/proto.c:196-215 | an optimised field reads back as the values if and only if a common value is not the largest, and separate ones are in the range of the field's type |
| BeaconWire.ApsRoundTrip | libel/protocol/proto.c:217-230 | every address, frequency, strength and age and the first connected index read back if and only if no strength is positive and frequencies and ages fit the form they are sent in |
| BeaconWire.ExampleAps | libel/protocol/el.pb.h:464-471 | the fields of two access points |
| BeaconWire.CommonAgeLost | libel/protocol/el.pb.h:464-471 | two access points of the largest age do not read back |
| BeaconWire.EncodeCellField | libel/protocol/proto.c:245-269 | appends exactly the bytes of the cell's fields |
| BeaconWire.CellRoundTrip | libel/protocol/proto.c:234-269 | what a server gets for any cell at all: every field as sent, except that negative identifiers arrive 2^32 or 2^64 too large and positive strengths 2^32 too low; unknown told from every known value |
| BeaconWire.ExampleCell | libel/protocol/el.pb.h:477-488 | the bytes of one cell, field by field |
| BeaconWire.CellReadsBackIff | libel/protocol/el.pb.h:477-488 | a cell reads back if and only if no identifier that is sent is negative and its strength is not positive |
| BeaconWire.NegativeIdentifierLost | libel/utilities.c:99-110 | a cell that validation accepts and that does not read back |
| BeaconWire.EncodeCellFields | libel/protocol/proto.c:271-295 | appends the cells in order, each behind the length its sizing pass found |
| BeaconWire.EncodeApSubmessage | libel/protocol/proto.c:321-342 | the submessage stands behind its true length |
| BeaconWire.EncodeBeacons | libel/protocol/proto.c:345-377 | a class without beacons adds nothing; otherwise both classes are appended |
| BeaconWire.RequestRoundTrip | libel/protocol/proto.c:345-398 | a request reads back as its access points and, in order, its cells, whatever other fields stand around them, if and only if the beacons fit the types of their fields |
| VirtualAps.DealOneRound | libel/utilities.c:1561-1572 | one round serves every group with children to spare once, in order, and stops when the request is full |
| VirtualAps.Allocate | libel/utilities.c:1550-1573 | terminates with a max-min fair allocation that sums to the smaller of the limit and all children |
| VirtualAps.GroupsSurvive | libel/utilities.c:1550-1587 | as many groups keep a child as the limit allows |
| VirtualAps.SelectVap | libel/utilities.c:1550-1587 | writes that allocation into the patch bytes |
| VirtualAps.GetNumVaps | libel/utilities.c:1482-1504 | counts the groups that kept children |
| VirtualAps.GetVapData | libel/utilities.c:1513-1538 | finds the idx-th of them |
| VirtualAps.EnumerationIsComplete | libel/utilities.c:1482-1538 | counting and indexing enumerate exactly the surviving groups, in order |
| Crc32.SkyCrc32 | libel/crc32.c:24-42 | the byte and bit loops compute the specified checksum |
| Crc32.KnownValues | libel/crc32.c:24-42 | the checksum of no bytes is 0, and the table entry for 0x80 is that of the standard |
| Crc32.StepsLinear | libel/crc32.c:35-38 | bit steps are linear over exclusive or |
| Crc32.StepsInjective | libel/crc32.c:35-38 | bit steps are injective on 32-bit registers |
| Crc32.ChecksumDetectsBurst | libel/crc32.c:24-42 | messages of equal length that differ only inside four consecutive bytes have different checksums |
| Crc32.OneWordDamageDetected | libel/utilities.c:248-250 | changing only magic, only size or only time of a header always fails validation |
| Crc32.WrittenHeaderValid | libel/utilities.c:248-250 | a header written with magic number and checksum is valid, and none with another magic number |
| ParkMiller.Generator.PMrand | sample_client/sample_client.c:278-288 | each draw is exactly 16807 times the seed modulo 2^31 - 1, in range |
| ParkMiller.SchrageIsExact | sample_client/sample_client.c:280-287 | all intermediate values fit 32 bits and the result is the exact residue |
| ParkMiller.DrawsInjective | sample_client/sample_client.c:278-288 | different seeds draw different numbers |
| ParkMiller.DrawsClosedForm | sample_client/sample_client.c:278-288 | the n-th draw is the seed times the n-th power of the multiplier |
| ParkMiller.RunsNeverMerge | sample_client/sample_client.c:278-288 | runs from different seeds never meet at the same step |
| Hex.Bin2Hex | sample_client/config.c:89-109 | prints all bytes and the terminator, or fails without room |
| Hex.Hex2Bin | sample_client/config.c:50-78 | parses the hex digits before the terminator pairwise, as many as fit, and writes nothing else |
| Hex.DigitValues | sample_client/config.c:50-109 | digits and their values, letters in either case |
| Hex.NonHexIgnored | sample_client/config.c:50-78 | characters that are not hex digits do not change what is parsed |
| Hex.PrintedParses | sample_client/config.c:50-109 | printed text parses back to the bytes, whatever follows the terminator |
| Hex.RoundTrip | sample_client/config.c:50-109 | parsing what was printed of any non-empty buffer gives the buffer back |

## Left out

- Logging, dumps and error strings: output only.
- nanopb and AES: the encrypted body, its header and padding; requests are modelled as the plain fields.
- Field copying around the core: sky_set_option, sky_get_option, config defaults and overrides (settings may change to any well-formed ones), last_config_time, application data.
- Restoring a session from raw memory in sky_open, sockets, configuration files and test support: input, output and casts.
- The fields of the satellite submessage: the same packed encoder over scaled floats.
- distance_A_to_B: an arbitrary function stands for its trigonometry.
- Virtual groups inside a beacon: VirtualAps works on their sizes, so neither ap_beacon_in_vg nor the virtual-group bytes of the wire form appear, and sizing a miss does not trim them.
- Cached priorities: the C code stores priorities in the beacons; the model computes them when needed. They depend only on fields that do not change.
- ApEviction.SetPriorities: for no access points the C code reads a slot before the array and ignores the result; for one it divides zero by zero and still answers 0. The model answers 0 in both cases.
- ScanCache.ScoreLine: float rounding is not modelled.
- The eviction scans and the scoring loops read beacons as a sequence taken from the array or the line; the request array itself changes in Requests and Client only.
- ClientRuns.RequestsStaySettled: says nothing after a response has tightened the limits or brought a location under a bad clock, because only the next start clears lines that no longer fit.
- Client.SkySizeofRequest: its effect on the request and the count of hits only; the size it reports, the flag that asks the server for settings and the trimming of virtual groups are not modelled.
- Client.SkyEncodeRequest: the refusals and the beacon fields only; header, padding, encryption, the refusal of a small buffer and the other fields of the request are not modelled.
- The sanity check at the start of each call: Requests.ValidateRequestCtx shows that it passes on contexts as the calls leave them and changes nothing, so the calls are modelled after it.
- Requests.ValidateRequestCtx: the header checksum is a parameter (see Crc32), and the magic numbers of empty slots are not modelled.
