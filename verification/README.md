# Verified model of the tour optimizer and of selected library code

The repository solves an orienteering problem with hotel selection: choose sites to visit
over several days, each day from hotel to hotel, within opening windows and a budget per
day, for the highest total score. It also carries a copy of a standard library. This
project models the optimizer and six pieces of that library, and proves what they promise.
`dafny verify dfyconfig.toml` verifies all of it.

## What is modelled

**The optimizer** (`optimizer.go`, `solver.go`, `validator.go`, `models.go`,
`evaluator.go`). Distances, times and scores are real numbers. `Distances` computes the
table from coordinates and derives the metric axioms (symmetry, zero diagonal, triangle
inequality); all other modules rely on the axioms alone. An instance is sane when opening
times do not exceed closing times, service times, scores and budgets are not negative,
there is at least one day, and the required first and last points are hotels.

* `Schedules` says what a list of stops means: arrival and departure times, length,
  windows and budget. `Tours` counts the sites of a whole plan with multiplicity and
  defines a well-formed plan: hotels at both ends of every day and only sites inside, each
  day starting where the previous one ended, the required first and last hotels, no site
  twice.
* `Solutions` and `Search` hold the mutable objects: the solution with its cached lengths
  and totals, and the visited/unvisited index. A solution is `Valid` when its plan is well
  formed, every cached day length is the true path length and the cached score is the true
  score.
* `Insertion`, `TwoOpt`, `Swap`, `Relocate`, `HotelSwap` are the five neighbourhoods,
  `Descent` the loop over them, `Shake` and `ShakeForces` the destruction steps, `Removal`
  the in-place deletions behind them, `StepSlices` the arrays behind the step lists,
  `Validator` the independent checker, `Greedy` the construction, `Workers` the workers,
  whole runs and the final choice. `Gaps` shows what the code leaves open.

Random numbers are inputs: a shake, an attempt to relocate, a stop of the greedy
construction gets a number of any size and reduces it to its range, so what is proved
holds for each of them and pins what each of them leads to. The clock, which
also stands for the channel by which one worker stops the others, may strike at any test,
and then for good; no neighbourhood, round or worker phase begins once it has, and
as long as it has not every search runs to its own end. Every proof of termination works
without a deadline.

**The library.** `Scanner` is the line scanner of `bufio`, `BufferedReader` and
`BufferedWriter` its reader and writer; `Html` and `HtmlInPlace` are the entity decoder as
a function and as the code runs it in place; `Pipe` is the synchronous pipe and `Contexts`
the tree of cancellable contexts, both as state machines over the atomic steps of
concurrent calls; `Bits`, `StickyShift` and `FusedMultiplyAdd` are the 128-bit arithmetic
of the fused multiply-add, on words that wrap around at 2^64, and `MultiplyAdd` is the
whole operation on all operands.

Fields of a state named as history (the log and lock order of the pipe, the requests of
the context tree, the delivered and accepted bytes of reader and writer) record what
happened; no step looks at them. The reads of a source and the writes to a sink are
recorded in the same way, so that contracts can say where an error came from.

## Main results

1. Every run of greedy construction followed by any interleaving of the five
   neighbourhoods, all shakes and validations keeps the plan well formed and the caches
   true (`Workers.AnyRun`), although the validator does not check how days join. Runs
   without force 2 keep an accepted plan accepted (`Workers.AcceptedRun`). Force 2 keeps
   it accepted if and only if the two emptied days reach and leave the new hotel within
   their budgets (`ShakeForces.ApplyShake`; `Gaps.ForceTwoOverBudget` shows a case where they
   do not).
2. Pruning by the cached length never changes a verdict: insertion applies a move if and
   only if some unvisited site of positive score fits, swap if and only if some exchange
   gains score, and then one that is best over all site, day and position choices
   (`Insertion.BestInsertion`, `Swap.BestSwap`).
3. 2-opt ends on real lengths and leaves every day without a shorter feasible reversal
   (`TwoOpt.Apply2OptAllDays`). The descent ends, never lowers the score, and unless the
   clock strikes goes through the five neighbourhoods in the order of the code until a last pass
   gains nothing: then nothing can be inserted, days are 2-optimal, no exchange gains,
   all random moves were made and every joint was tried (`Descent.ApplyVND`,
   `Descent.LastPass`). Each worker's record, and the plan returned in the end, is the
   start or an accepted trial that no accepted trial outdoes (`Workers.RecordIsBest`,
   `Workers.LocalSearch`).
4. The validator accepts exactly the plans that satisfy its declarative reading, which
   for well-formed plans is the day evaluator's verdict on every day, and then all cached
   fields are recomputed (`Validator.EvaluateSolution`, `Validator.AcceptedMeansFeasible`).
   A day is feasible if and only if it has a timeline: legs of the table's length, service
   on arrival or from opening and not after closing, the end within that day's own budget
   (`Schedules.FeasibleIffTimeline`, `Validator.AcceptedTimeline`).
   Its missing checks are exactly the joints between days (`Gaps.AcceptedIffChained`).
5. The validator accepts a greedy plan if and only if the days without a site fit their
   budgets, for which the last day alone decides (`Greedy.GreedyAccepted`).
6. The scanner delivers exactly the lines of its input however the reader cuts it
   (`Scanner.ScanAll`). Reader and writer conserve bytes over any sequence of calls, and
   every error they return is one that source or sink gave, or one of their own for a
   stated reason (`BufferedReader.Reader.ReadByte`, `BufferedWriter.Writer.Write`).
7. The in-place decoder equals a pure one and inverts the escaper. Every character is
   decoded from its number in decimal or hexadecimal, in any spelling
   (`Html.SpelledDecodes`), and a name from the table, or its longest known beginning, by
   its character (`Html.KnownName`, `Html.KnownBeginning`). For every text, the decoder's result is the one that the WHATWG rule for numeric
   references gives if and only if the text holds, where references are read, none of
   three families: a single decimal digit without a semicolon (`&#9x`), a hexadecimal
   reference without digits but with a semicolon (`&#x;`), and a number that wraps around
   32 bits to another character (`Html.DecoderFollowsStandard`, for one reference
   `Html.NumericRefFollowsStandard`; one text of each family in `Html.LoneDigitExample`,
   `Html.HexWithoutDigitExample` and `Html.WrapExample`).
8. The pipe delivers the consumed parts of writes in lock order under every interleaving,
   as much at a time as the read takes; calls begun on a closed end fail with the error for
   it. After a cancel returned, everything registered below the node is cancelled, with the
   cause handed to a cancel on it or above it, and no interleaving of cancels and
   registrations deadlocks.
9. The fused multiply-add follows IEEE 754-2019 on all operands, given a machine whose
   multiplication and addition do (`MultiplyAdd.FMA`); for finite nonzero operands it is
   the exact product plus addend, rounded once half to even, subnormal results and
   overflow included, by the code's own arithmetic (`FusedMultiplyAdd.RoundOnce`).

## Model

| member | source | states |
|---|---|---|
| Distances.ComputeDistMatrix | models.go:89-98 | every entry of the table is the root of the squared coordinate distance of its two points |
| Distances.Triangle | models.go:85-87 | Euclidean distances satisfy the triangle inequality |
| Distances.TableIsMetric | models.go:85-98 | a table computed this way is symmetric, non-negative, zero on the diagonal and triangular |
| Schedules.TimesGrow | optimizer.go:96-127 | along a day no arrival or departure is earlier than one before it, which is what makes early budget exits sound |
| Schedules.LengthWithinTime | optimizer.go:96-127 | the length travelled never exceeds the time passed |
| Schedules.FeasibleIffTimeline | optimizer.go:55-127 | a day is feasible if and only if some timeline leaves at time 0, takes the table's distance for every leg, serves every site on arrival or from opening and not after closing, and ends within the budget of that day |
| Schedules.FeasibleWithinBudget | optimizer.go:150-196 | a feasible day is no longer than its budget, the fact behind distance pruning |
| Schedules.InsertLength | optimizer.go:160-166 | inserting a stop changes the path length by exactly the pruning term |
| Schedules.ReplaceLength | optimizer.go:279-283 | replacing a stop changes the path length by exactly the pruning term |
| Schedules.SameSuffixNoLater | optimizer.go:676-729 | with the same remaining stops, arriving no later means departing no later and meeting every window met before |
| Schedules.DeleteFeasible | optimizer.go:715-728 | deleting an inner stop keeps a day feasible and does not end it later |
| Schedules.EmptiedFeasible | optimizer.go:731-744 | the two hotels of a feasible day alone form a feasible day |
| Tours.AllSitesUpdate | optimizer.go:139-744 | changing one day changes the counted sites of the plan by exactly the sites of that day |
| Tours.ReplaceDay | optimizer.go:139-744 | changing the inside of a day without repeating a site keeps the plan well formed |
| Tours.PartitionFacts | optimizer.go:10-53 | every site is either visited once or listed once as unvisited |
| Solutions.EvalDay | optimizer.go:55-94 | the verdict is exactly feasibility of the day; on success the length is the path length and the steps carry the schedule of the stops |
| Solutions.EvalDayFast | optimizer.go:96-127 | the same verdict and length as the full evaluator on every input |
| Solutions.LateIsInfeasible | optimizer.go:55-127 | a day late at any stop is infeasible as a whole |
| Solutions.TrueTotals | evaluator.go:4-21 | when every cached leg is true the cached total is the true total length |
| Solutions.Solution.EvaluateScore | evaluator.go:4-21 | the score becomes the worth of the visited sites, the distance the sum of cached legs, which is the true one when the legs are true |
| Solutions.Solution.Clone | models.go:108-125 | a fresh object with equal days and totals |
| Solutions.ReworkedKeeps | optimizer.go:201-551 | days rewritten by a neighbourhood keep feasibility and true legs of the plan |
| Search.SearchState.constructor | optimizer.go:16-37 | flags are true exactly for visited sites and the unvisited list holds every other site once |
| Search.SearchState.MarkVisited | optimizer.go:39-48 | exactly the given site leaves the unvisited list and its flag is set |
| Search.SearchState.MarkUnvisited | optimizer.go:50-53 | exactly the given site joins the unvisited list and its flag is cleared |
| Search.SwapRemove | optimizer.go:41-47 | the swap with the last entry removes one occurrence and nothing else |
| Insertion.PruneSound | optimizer.go:160-166 | a pruned position cannot take the site |
| Insertion.SearchedAll | optimizer.go:150-187 | after the search, nothing found means nothing insertable, otherwise the found move is best by score and then by length |
| Insertion.FindInsertion | optimizer.go:150-187 | the three nested loops with pruning cover all choices |
| Insertion.BestInsertion | optimizer.go:139-197 | inserts if and only if some unvisited site of positive score fits somewhere, then a best one; the score rises by its score and everything stays valid |
| TwoOpt.FlipKeeps | optimizer.go:220-222 | reversing a segment keeps the stops with multiplicity |
| TwoOpt.FlipTwice | optimizer.go:220-234 | reversing again restores the buffer |
| TwoOpt.ReverseSegment | optimizer.go:220-222 | the in-place exchange loop computes the reversal |
| TwoOpt.FindFlip | optimizer.go:218-239 | stops at a feasible shorter reversal, or restores the buffer when there is none |
| TwoOpt.ShorterShrinks | optimizer.go:213-240 | a shorter path leaves strictly fewer lists of stops that are shorter still, so the loop over real lengths ends |
| TwoOpt.TwoOptDay | optimizer.go:207-240 | the day keeps its stops and ends, gets shorter whenever it changes, and ends with no shorter feasible reversal |
| TwoOpt.Apply2OptAllDays | optimizer.go:201-243 | terminates without a clock; every day is 2-optimal afterwards and the visited sites are the same |
| Swap.PruneSound | optimizer.go:279-283 | a pruned exchange is infeasible |
| Swap.SearchedAll | optimizer.go:258-304 | nothing found means no exchange with positive gain, otherwise the found one has maximal gain and then minimal length |
| Swap.TrySwap | optimizer.go:273-301 | one candidate is compared as the order demands and the shared buffer is restored |
| Swap.FindSwap | optimizer.go:258-304 | the nested loops cover all exchanges |
| Swap.SwapCounts | optimizer.go:309-315 | an exchange replaces one visited site by the other and changes the worth by the gain |
| Swap.BestSwap | optimizer.go:247-315 | exchanges if and only if a feasible exchange with positive gain exists, then a best one |
| Relocate.MoveWithin | optimizer.go:340-364 | applied if and only if the moved order is feasible and strictly shorter; the sites stay |
| Relocate.MovedWithinOrder | optimizer.go:347-357 | the moved site ends before the position drawn when that lies behind it, the other stops keep their order, and a move to the next position changes nothing |
| Relocate.PrunedPlace | optimizer.go:393-399 | a pruned place cannot take the site |
| Relocate.FindPlace | optimizer.go:390-410 | the shortest feasible place in the target day, or none exists |
| Relocate.MoveAcross | optimizer.go:366-424 | moves if and only if the source day stays feasible and the target has a place, then to the shortest one; the sites stay |
| Relocate.InsertAnywhere | optimizer.go:426-453 | inserts if and only if the enlarged day is feasible; the sites grow by exactly that one |
| Relocate.RelocateOnce | optimizer.go:330-454 | which day, move, site and place are tried follows from the random numbers, and the move is made exactly when it may be; the visited sites stay or grow by one unvisited site |
| Relocate.ApplyRelocate | optimizer.go:319-456 | one attempt for every draw, one after the other; the solution stays valid and loses no site and no score |
| Relocate.WorthMonotone | optimizer.go:449-450 | more sites are worth no less |
| HotelSwap.JunctionKeeps | optimizer.go:523-543 | another hotel at a joint keeps the plan well formed and its sites |
| HotelSwap.FindHotel | optimizer.go:477-521 | returns the last hotel in list order that is feasible for both days and shortens them together, or none does |
| HotelSwap.SwapJunction | optimizer.go:469-547 | changes the joint if and only if an improving hotel exists, and then strictly shortens the trip |
| HotelSwap.TryHotelSwap | optimizer.go:460-551 | joint by joint, the last improving hotel is taken or there is none; sites and score stay, the trip never gets longer and gets strictly shorter when something changed |
| Descent.RicherShrinks | optimizer.go:555-602 | a higher score leaves strictly fewer richer sets of sites, so restarts come to an end |
| Descent.InsertAll | optimizer.go:564-572 | one best insertion after the other, which ends, keeps the solution valid and does not lower the score; unless time is up, no site left out fits anywhere afterwards |
| Descent.SwapAll | optimizer.go:577-585 | one best exchange after the other, which ends, keeps the solution valid and does not lower the score; unless time is up, no site left out gains by taking another's place afterwards |
| Descent.Neighbourhood | optimizer.go:562-594 | neighbourhood k, when the clock does not stop it, does what that neighbourhood is for, and nothing is lost |
| Descent.ApplyVND | optimizer.go:555-602 | ends without a deadline, and then as runs of the neighbourhoods from the first on, back to it after a gain and on to the next otherwise, up to a last one without gain; cut short exactly when the clock strikes, and stopped anywhere it keeps the solution valid, feasible days feasible and does not lower the score |
| Descent.LastPass | optimizer.go:555-602 | a descent no deadline stopped ended with five runs of equal score: nothing insertable, every day 2-optimal, no gaining exchange, all random moves made, every joint tried |
| Removal.DeletesExactly | optimizer.go:702-721 | deleting the chosen positions one by one, largest first, removes exactly them and keeps the order of the rest |
| Removal.SortDescending | optimizer.go:710-717 | the exchange sort yields the same indices in descending order |
| Removal.ThinnedFeasible | optimizer.go:704-728 | any set of deletions keeps a feasible day feasible |
| Removal.ThinnedShape | optimizer.go:704-721 | deletions keep hotels at the ends and only sites inside |
| StepSlices.Slice.Delete | optimizer.go:719-721 | the in-place shift removes one step and leaves the cells beyond alone |
| StepSlices.Slice.DeleteEach | optimizer.go:718-721 | the loop of in-place deletions has the effect of the specified deletion |
| StepSlices.SliceSolution.Clone | models.go:108-125 | the clone has equal contents in arrays of its own |
| StepSlices.Slice.SetPoint | optimizer.go:637-639 | the in-place write changes the point of one step and nothing else |
| StepSlices.SliceSolution.ShakeAll | optimizer.go:606-744 | deletions, the change of a hotel and the emptied days have the specified effect on every day |
| StepSlices.ShakeClone | optimizer.go:848-849 | shaking a clone, by deletions, by the change of a hotel and by emptying days, writes nothing that existed before |
| StepSlices.SharedDelete | models.go:119-121 | had only the slice been copied, a deletion would show through in the original |
| Shake.Shuffle | optimizer.go:694-697 | every position from the last on is exchanged with the one drawn among those not after it; the positions stay the same distinct ones |
| Shake.ShuffleReaches | optimizer.go:694-697 | every order of the list is the outcome of some random numbers |
| Shake.RemoveSitesRandom | optimizer.go:676-729 | exactly the positions drawn by the shuffle disappear, as many as asked or all, and feasible days stay feasible |
| Shake.ClearDay | optimizer.go:731-744 | only the two hotels remain and the cached length is the direct leg |
| Shake.ClearOne | optimizer.go:646-663 | one day is emptied, the others stay |
| Shake.ClearAll | optimizer.go:665-670 | every day is emptied |
| ShakeForces.RejoinedFeasible | optimizer.go:637-642 | after a hotel change with both days emptied all days are feasible if and only if the new hotel is in reach of both |
| ShakeForces.RejoinDays | optimizer.go:631-644 | the joint moves in both days, both are emptied and the plan stays well formed |
| ShakeForces.CountSites | optimizer.go:617-624 | counts the visited sites |
| ShakeForces.ShakeTwo | optimizer.go:615-645 | as many sites as asked are gone and nothing else away from the moved joint; from a feasible plan the result is feasible if and only if no joint moved or the hotel is in reach of both days in the plan before |
| ShakeForces.ApplyShake | optimizer.go:606-674 | what each force does follows from the random numbers: force 1 removes two or three sites or all, force 2 also moves a joint and meets its exact condition, force 3 empties one day, larger ones all; all but force 2 keep feasible days feasible, and no force adds a site |
| Validator.AcceptedMeansFeasible | validator.go:7-99 | a well-formed plan is accepted if and only if every day is feasible |
| Validator.AcceptedTimeline | validator.go:41-89 | every day of an accepted plan that has stops has a timeline that ends within the budget of that day |
| Validator.WalkDay | validator.go:31-74 | the walk over one day refuses only for a real reason and otherwise rewrites every step to the schedule |
| Validator.EvaluateOneDay | validator.go:20-94 | a passed day satisfies all day checks and holds recomputed fields |
| Validator.EvaluateSolution | validator.go:7-99 | accepts if and only if the declarative checks hold; then all fields of nonempty days and all totals are recomputed from the stops |
| Greedy.TestReturn | solver.go:66-80 | the early exit over hotels decides whether some hotel, or on the last day the required one, is in reach |
| Greedy.CandidatesMean | solver.go:48-126 | the specified candidates are exactly the eligible sites with their ratios |
| Greedy.RatioOrders | solver.go:86-114 | ranking by ratio is ranking by score for way and waiting, by score for the time until closing, by score, or by nearness, stated without quotients |
| Greedy.ChosenPrecedes | solver.go:116-134 | the site chosen in deterministic mode ranks no lower than any eligible site |
| Greedy.FindCandidates | solver.go:48-126 | the loop collects exactly the specified candidates, or keeps the first of the best ones |
| Greedy.SortByRatio | solver.go:137-139 | a permutation in order of falling ratio |
| Greedy.Choose | solver.go:128-150 | finds a site if and only if one is eligible, then the one at the rank drawn among the k best, in deterministic mode the first of the best |
| Greedy.ChooseEnd | solver.go:163-185 | the first nearest hotel in reach, else the required end hotel |
| Greedy.BuildDay | solver.go:39-202 | the day is well shaped, meets windows and budget when it has a site, every stop was the one drawn among the k best eligible ones at its time, no further site was eligible, and the last hotel is the one to choose |
| Greedy.SolveGreedy | solver.go:29-209 | the plan is well formed with true caches and every stop of every day was drawn as the list size, the ratio mode and the random numbers say |
| Greedy.GreedyAccepted | solver.go:163-205 | a greedy plan is accepted if and only if each day without a site fits its budget, and the last day alone decides |
| Workers.Perform | optimizer.go:555-674 | every operation does what it is for and keeps the solution valid; only force 2 may lose feasibility, only shakes may lose score |
| Workers.AnyRun | optimizer.go:748-919 | construction and any operations in any order, each doing what it is for, keep the plan well formed with true lengths and score |
| Workers.AcceptedRun | optimizer.go:201-744 | an accepted solution stays accepted under all operations but force 2 |
| Workers.Judge | optimizer.go:854-868 | validation agrees with acceptance and makes all totals true, or keeps them as they were |
| Workers.VnsWorker | optimizer.go:833-892 | every round shakes the record with the force that is up, descends and judges; the record is replaced exactly by accepted plans that outdo it, and unless the clock strikes all rounds are made or the target is reached |
| Workers.RecordIsBest | optimizer.go:811-815 | a worker's record is the start or an accepted trial, and no accepted trial outdoes it |
| Workers.SixFailures | optimizer.go:855-883 | a force is given up for the next of 1, 2, 3, 4, 1 exactly after six failures in a row with it |
| Workers.GraspWorker | optimizer.go:791-831 | every round builds by the list size and mode of the worker, descends and judges; the record is replaced exactly by accepted plans that outdo it, and unless the clock strikes all rounds are made or the target is reached |
| Workers.Merge | optimizer.go:902-915 | the result is not worse than the start and than every accepted worker result |
| Workers.LocalSearch | optimizer.go:748-919 | whatever the cached totals of the given solution, the returned one has true totals, is the first descent's plan or an accepted trial of some worker and is outdone by none of them, is worth no less than the given plan, and is accepted when the given one was |
| Gaps.AcceptedUnchained | validator.go:7-99 | a concrete accepted plan whose second day starts at another hotel |
| Gaps.AcceptedIffChained | validator.go:7-99 | for well-shaped days, accepted and joined is the same as well formed and feasible |
| Gaps.ForceTwoOverBudget | optimizer.go:637-642 | a concrete accepted plan that force 2 drives over budget |
| Scanner.LinesOfUnlines | go/src/bufio/scan.go:352-372 | splitting the concatenation of plain lines with any terminators gives the lines back |
| Scanner.TokenIsLine | go/src/bufio/scan.go:358-372 | a token cut from the window is the first line of everything still to come |
| Scanner.LineScanner.Slide | go/src/bufio/scan.go:191-195 | sliding keeps the unread bytes |
| Scanner.ReachIsMaximum | go/src/bufio/scan.go:197-208 | for maxima that an int can double, growing ends exactly at the maximum |
| Scanner.LineScanner.Grow | go/src/bufio/scan.go:197-214 | growing keeps the unread bytes and fails exactly at the maximum size or where doubling could overflow |
| Scanner.LineScanner.Fill | go/src/bufio/scan.go:218-238 | reading loses nothing and gives up only after more than 100 empty reads |
| Scanner.LineScanner.Cut | go/src/bufio/scan.go:149-187 | cuts the first pending line, or there is none complete |
| Scanner.LineScanner.Scan | go/src/bufio/scan.go:139-240 | each call returns the first pending line and leaves what follows it, or says why there is none |
| Scanner.ScanAll | go/src/bufio/scan.go:139-240 | at the end of input the tokens are the lines of the whole input for every way of cutting it; too long exactly when a line does not fit |
| BufferedReader.Reader.Fill | go/src/bufio/bufio.go:99-127 | slides and reads into all the free room without losing a byte, until bytes or an error come; after 100 empty reads the error is ErrNoProgress |
| BufferedReader.Reader.Peek | go/src/bufio/bufio.go:135-171 | returns a beginning of what is pending and takes nothing; an error exactly when fewer than n bytes, and then the one on hold or one the source gave during the call; no read when enough is buffered |
| BufferedReader.Reader.Discard | go/src/bufio/bufio.go:173-207 | skips exactly the reported number of bytes, without reading when enough are buffered; an error is the one on hold or one the source gave during the call |
| BufferedReader.Reader.Read | go/src/bufio/bufio.go:209-263 | the returned bytes followed by what is pending are what was pending before; with an empty buffer and no error on hold exactly one read of the source, whose count and error are passed on or kept |
| BufferedReader.Reader.ReadByte | go/src/bufio/bufio.go:265-279 | returns the first pending byte, filling an empty buffer once; an error is the one on hold, the one that fill was given, or ErrNoProgress after its 100 empty reads |
| BufferedReader.Reader.UnreadByte | go/src/bufio/bufio.go:281-301 | succeeds exactly when allowed and then puts the last delivered byte back in front |
| BufferedReader.Reader.ReadSlice | go/src/bufio/bufio.go:338-387 | returns what is pending up to the first delimiter, or everything buffered and no delimiter with the error on hold, one the source gave, or ErrBufferFull for a full buffer |
| BufferedReader.FirstInWindow | go/src/bufio/bufio.go:349-378 | a delimiter found past the part searched before is the first one of all that is pending |
| BufferedReader.Session | go/src/bufio/bufio.go:99-387 | over any sequence of calls, the record a client keeps from the answers alone is a beginning of the stream, and what is pending is exactly the rest |
| BufferedWriter.Writer.Flush | go/src/bufio/bufio.go:635-656 | hands the whole buffer to the sink in one write; success empties it, a partial failure keeps the rest in order, and the error is the stored one, the sink's, or ErrShortWrite after a short write |
| BufferedWriter.Writer.Write | go/src/bufio/bufio.go:672-698 | accepts exactly the reported number of bytes, all of them without an error; what fits does not reach the sink, and an error is that of the last write to the sink; errors stick |
| BufferedWriter.Writer.WriteByte | go/src/bufio/bufio.go:700-711 | accepts the byte if and only if there is no error; the sink is used only for a full buffer |
| BufferedWriter.Session | go/src/bufio/bufio.go:635-711 | sink followed by buffer equals all bytes the answers reported written, failed flushes included |
| BufferedWriter.SessionFlushed | go/src/bufio/bufio.go:570-656 | after a successful flush the sink holds exactly the bytes reported written |
| Html.NumberFollowsStandard | go/src/html/escape.go:112-120 | a number is written as section 13.2.5.80 of the WHATWG HTML standard says if and only if it does not wrap to a character |
| Html.NumericRefFollowsStandard | go/src/html/escape.go:69-121 | for every text that starts with &# the reference is read as sections 13.2.5.75 to 13.2.5.80 say, in output and length, if and only if it is in none of three families |
| Html.OffStandardDiffers | go/src/html/escape.go:69-121 | a reference of one of the families is decoded differently whatever follows |
| Html.DecoderFollowsStandard | go/src/html/escape.go:187-214 | for every text and fitting table the whole result is the standard's if and only if no reference read on the way is in a family |
| Html.LoneDigitExample | go/src/html/escape.go:107-110 | a text with one decimal digit and no semicolon is left as it is, where the standard decodes it |
| Html.HexWithoutDigitExample | go/src/html/escape.go:77-117 | a text without hexadecimal digits is decoded to the replacement character, where the standard leaves it as it is |
| Html.WrapExample | go/src/html/escape.go:82-121 | a text whose number wraps is decoded as a letter, where the standard has the replacement character |
| Html.SpelledNumber | go/src/html/escape.go:82-105 | however a number is spelled in base 10 or 16, the digits read spell it and end where it ends |
| Html.SpelledDecodes | go/src/html/escape.go:69-121 | every character that stands for itself is decoded from its number, and decoding goes on behind the semicolon |
| Html.InvalidText | go/src/html/escape.go:115-118 | zero, surrogates and numbers past the last code point give the replacement character |
| Html.WindowsText | go/src/html/escape.go:16-51 | numbers 0x80 to 0x9F give the character of the table, five of them the number itself |
| Html.AacuteExample | go/src/html/escape.go:181-186 | the two numeric spellings the comment names give the accented letter |
| Html.KnownName | go/src/html/escape.go:123-144 | a name in the table gives its character, with a semicolon or, where nothing goes on, without |
| Html.KnownBeginning | go/src/html/escape.go:149-158 | a name that is in neither table gives way to its longest known beginning; the bound on the search costs nothing |
| Html.EscapeHides | go/src/html/escape.go:166-179 | an escaped text holds no apostrophe, quotation mark, less or greater sign |
| Html.EscapeAmpersands | go/src/html/escape.go:166-179 | an ampersand in an escaped text starts one of the five references |
| Html.EscapePlain | go/src/html/escape.go:166-179 | a text without the five characters stays as it is |
| Html.EncodeScalarInjective | go/src/html/escape.go:120-120 | different code points have different UTF-8 encodings |
| Html.ReferenceFits | go/src/html/escape.go:53-164 | with a fitting table no expansion is longer than the reference it replaces |
| Html.ReferenceOfEscape | go/src/html/escape.go:166-172 | each of the five escapes decodes to its byte whatever follows |
| Html.UnescapeEscape | go/src/html/escape.go:174-214 | decoding inverts escaping on every string |
| HtmlInPlace.ReadNumber | go/src/html/escape.go:82-105 | the digit loop computes the number modulo 2^32 as a signed value and stops behind an optional semicolon |
| HtmlInPlace.FindPrefix | go/src/html/escape.go:150-158 | finds the longest known prefix of a name without semicolon |
| HtmlInPlace.UnescapeEntity | go/src/html/escape.go:56-164 | writes the expansion of the reference at the read cursor and never passes it |
| HtmlInPlace.UnescapeString | go/src/html/escape.go:187-214 | the in-place loop computes what a pure left-to-right decoder of the original string computes |
| HtmlInPlace.EscapeThenUnescape | go/src/html/escape.go:174-214 | escaping and decoding in place returns the string |
| Pipe.StepInv | go/src/io/pipe.go:50-105 | every step of every call keeps the invariant of lock, handshake, data and results |
| Pipe.PipeDelivers | go/src/io/pipe.go:50-105 | for every interleaving, what readers got in handshake order is what writers gave in lock order, and each write returns the number of its bytes delivered |
| Pipe.AcknowledgementPossible | go/src/io/pipe.go:56-60 | a reader that took a slice has exactly one writer waiting for its acknowledgement, also after a close |
| Pipe.HandoverFills | go/src/io/pipe.go:57-60 | a handover gives the read as much as its buffer takes of what the write was called with and still holds |
| Pipe.OffersWhatIsLeft | go/src/io/pipe.go:85-96 | a write offers its slice again only while bytes are left, and an empty one just once |
| Pipe.WriteHandsOver | go/src/io/pipe.go:86-95 | a write that succeeds took part in at least one handover, even with nothing to write |
| Pipe.CloseErrors | go/src/io/pipe.go:67-124 | stored errors are written once, and failed calls on an end never closed return the error of the other end |
| Pipe.ReadCloseStores | go/src/io/pipe.go:67-74 | the error of the first close of the read end is stored, ErrClosedPipe when none is given |
| Pipe.WriteCloseStores | go/src/io/pipe.go:99-106 | the error of the first close of the write end is stored, EOF when none is given |
| Pipe.CloseCloses | go/src/io/pipe.go:67-106 | the pipe is closed once some close has come to its end, and only then |
| Pipe.WriteAfterClose | go/src/io/pipe.go:76-124 | a write begun after its end was closed fails only with ErrClosedPipe; one begun after the pipe was closed writes nothing and fails |
| Pipe.ReadAfterClose | go/src/io/pipe.go:50-115 | a read begun after its end was closed fails only with ErrClosedPipe; one begun after the pipe was closed returns no bytes and fails |
| Pipe.ClosedPipeMoves | go/src/io/pipe.go:50-124 | after a close, as long as a call is unfinished some call can move |
| Contexts.StepInv | go/src/context/context.go:475-579 | every step of registrations and cancels keeps the invariant of tree, locks, children and causes |
| Contexts.WrittenOnce | go/src/context/context.go:549-566 | error and cause of a node never change once set |
| Contexts.CancelReachesAll | go/src/context/context.go:545-579 | once a cancel returned, the node and everything registered below it is cancelled |
| Contexts.LiveIsLinked | go/src/context/context.go:492-505 | a live node is in its parent's set, and its parent is live unless a cancel is passing through it |
| Contexts.QuietTree | go/src/context/context.go:492-579 | at rest a node's set is exactly its live children, so cancelled children are not kept |
| Contexts.CancelStoresItsCause | go/src/context/context.go:549-563 | the first call of cancel to lock a live node gives it its own error and the cause handed to it, or the error when there is none |
| Contexts.CauseHasOrigin | go/src/context/context.go:282-306 | every cancelled node has the error and cause of an earlier call of cancel on it or on a node above it |
| Contexts.InheritedForGood | go/src/context/context.go:245-255 | a node cancelled before any call of cancel on it keeps its parent's cause ever after |
| Contexts.NeverStuck | go/src/context/context.go:549-579 | while a call or registration is under way one of them can go on, so nested locking does not deadlock |
| StickyShift.ShrExact | go/src/math/fma.go:33-37 | the two-word right shift divides by the power of two |
| StickyShift.ShlExact | go/src/math/fma.go:27-31 | the two-word left shift multiplies modulo 2^128 |
| StickyShift.CompressIsSticky | go/src/math/fma.go:39-63 | the compressing shift is the quotient with bit 0 joined by whether a dropped bit was set |
| StickyShift.StickyCompose | go/src/math/fma.go:39-63 | two compressing shifts are one by the sum |
| FusedMultiplyAdd.NearestMultiple | go/src/math/fma.go:169-179 | the rounding meant is to the nearest multiple, even on ties, as in section 4.3.1 of IEEE 754-2019 |
| FusedMultiplyAdd.FinalRoundCorrect | go/src/math/fma.go:179-179 | the masked expression rounds ten bits half to even |
| FusedMultiplyAdd.RoundSticky | go/src/math/fma.go:148-179 | rounding after a sticky shift is rounding the unshifted value |
| FusedMultiplyAdd.LzExact | go/src/math/fma.go:65-71 | counts the leading zeros of the pair |
| FusedMultiplyAdd.SplitExact | go/src/math/fma.go:73-91 | sign, exponent and normalised mantissa stand for the number, subnormal numbers included |
| FusedMultiplyAdd.ProductExact | go/src/math/fma.go:121-135 | the aligned two-word product is exact |
| FusedMultiplyAdd.OrderedAfterSwap | go/src/math/fma.go:137-140 | comparing exponents and high words orders the operands |
| FusedMultiplyAdd.SumExact | go/src/math/fma.go:152-157 | the sum word is the exact sum cut stickily, with its leading bit in place |
| FusedMultiplyAdd.DifferenceExact | go/src/math/fma.go:158-167 | the difference word is the exact difference cut stickily, under deep cancellation too |
| FusedMultiplyAdd.PackExact | go/src/math/fma.go:169-181 | packing rounds once to the nearest double, into subnormal numbers and to infinity |
| FusedMultiplyAdd.RoundOnce | go/src/math/fma.go:115-182 | for finite nonzero operands the result is the exact product plus addend, rounded once |
| MultiplyAdd.SignOfProduct | go/src/math/fma.go:130-130 | the exclusive or of the sign bits is the sign of the exact product |
| MultiplyAdd.SpecialFactor | go/src/math/fma.go:98-101 | with a zero, infinite or undefined factor the machine's product and sum are the fused result |
| MultiplyAdd.ZeroAddend | go/src/math/fma.go:102-108 | with a zero addend the machine's product is the fused result |
| MultiplyAdd.FMA | go/src/math/fma.go:93-182 | for all operands and any machine that multiplies and adds by the standard the result is the fused multiply-add of section 5.4.1 of IEEE 754-2019 |

## Left out

- Rounding of the optimizer's floating-point numbers: lengths, times and scores are exact reals, and the square root of `models.go` is given as an exact function.
- File reading, number parsing, output files and the command line.
- The wall clock and the scheduling of workers: one clock is shared and strikes at any test, workers run one after another on disjoint solutions, and the closing of their `done` channel, whose test and close are not atomic (optimizer.go:824-828), is not part of this model.
- Error texts of the validator; a refusal is one boolean.
- Branches for days with fewer than two steps or with hotels inside: on well-formed plans they cannot run, and every run keeps plans well formed.
- HotelSwap.FindHotel: the code keeps the last improving hotel, not the best one (optimizer.go:517-520), so no minimality is stated.
- Solutions.Solution.EvaluateScore: after a shake the cached legs are stale, so the total distance is the sum of cached legs and not the trip length until the descent or the validator rewrites them.
- Validator.EvaluateSolution: empty days are skipped by the code and keep their cached length; on refusal the days walked so far are already rewritten.
- Solutions.Solution.Clone: step lists are values there; sharing of arrays is the subject of `StepSlices`, which covers the clone and every in-place write of a shake.
- Scanner.ScanAll: only the line splitter; with it the counts of empty tokens, negative or excessive advances and the final-token error cannot occur. Reader errors other than the end of input and negative byte counts are not part of this model.
- BufferedReader.Reader.Read: the slice handed out by `Peek` and `ReadSlice` is a value, so its later overwriting is not shown; runes, `ReadLine`, `WriteTo`, `Reset` and a source that scribbles behind the bytes it reports are not part of this model.
- BufferedWriter.Writer.Write: a sink may take nothing without an error any number of times in a row, but not forever: then the code's loop does not end and returns nothing. `WriteString`, runes and `ReadFrom` are not part of this model.
- Html.DecoderFollowsStandard: code and standard disagree on three families of numeric references, and the model follows the code; the standard's rule for named references is not part of this model, which takes the code's reading of names on both sides.
- MultiplyAdd.FMA: the machine's multiplication and addition are given as two functions that follow the standard; which bits a NaN carries is left open, as the standard does.
- HtmlInPlace.UnescapeString: the entity table is a parameter that must not expand a reference to more bytes than it has; the table itself (entity.go) is not part of this model.
- Pipe.PipeDelivers: calls move by atomic steps; fairness of the mutex and of channel selection, and progress before a close when no partner arrives, are not stated.
- Contexts.StepInv: only native cancellable contexts; timers, `AfterFunc`, foreign contexts and values are not part of this model, and the moment between storing the error and closing the channel, both under the lock, is one step.
