// Whole runs: arbitrary interleavings of the moves, the two kinds of search worker,
// and the final choice among their results. Time and randomness are arbitrary.

module Workers {
  import opened Instances
  import opened Tours
  import opened Solutions
  import opened Descent
  import Search
  import Insertion
  import TwoOpt
  import Swap
  import Relocate
  import HotelSwap
  import opened ShakeForces
  import Validator
  import Greedy

  // ----- Every run keeps the structure -----

  datatype Op =
    | Insert
    | TwoOptAll
    | SwapOne
    | RelocateSome(draws: seq<Relocate.Draw>)
    | SwapHotels
    | ShakeBy(force: nat, luck: Luck)
    | Validate
  {
    predicate MovesHotel() { ShakeBy? && force == 2 }
  }

  // What one operation makes of the days.
  ghost predicate Performed(inst: Instance, op: Op, was: seq<DayTour>, now: seq<DayTour>) {
    match op
    case Insert =>
      InsertedBest(inst, TourOf(was), TourOf(now)) || (Insertion.Saturated(inst, TourOf(was)) && now == was)
    case TwoOptAll => Untangled(inst, TourOf(was), TourOf(now))
    case SwapOne =>
      SwappedBest(inst, TourOf(was), TourOf(now)) || (Swap.SwapOptimal(inst, TourOf(was)) && now == was)
    case RelocateSome(draws) => RelocatedBy(inst, draws, TourOf(was), TourOf(now))
    case SwapHotels => HotelSwap.JunctionByJunction(inst, TourOf(was), TourOf(now))
    case ShakeBy(force, luck) => exists deed :: Shaken(inst, force, luck, was, now, deed)
    case Validate => TourOf(now) == TourOf(was)
  }

  ghost predicate RelocatedBy(inst: Instance, draws: seq<Relocate.Draw>, was: Tour, now: Tour) {
    exists trail: seq<Relocate.Stage> ::
      && |trail| == |draws| + 1 && Relocate.Attempts(inst, draws, trail, |draws|)
      && trail[0].tour == was && trail[|draws|].tour == now
  }

  lemma InsertPerformed(inst: Instance, was: seq<DayTour>, now: seq<DayTour>, unvisited: seq<nat>, improved: bool)
    requires inst.Valid() && Partition(inst, TourOf(was), unvisited)
    requires improved <==> Insertion.CanInsert(inst, TourOf(was), unvisited)
    requires if improved then Insertion.BestInserted(inst, TourOf(was), unvisited, TourOf(now)) else now == was
    ensures Performed(inst, Insert, was, now)
  {
    hide Insertion.CanInsert, Insertion.BestInserted, Partition, Insertion.Saturated;
    if !improved {
      Insertion.NothingLeft(inst, TourOf(was), unvisited);
    }
  }

  lemma SwapPerformed(inst: Instance, was: seq<DayTour>, now: seq<DayTour>, unvisited: seq<nat>, improved: bool)
    requires inst.Valid() && Partition(inst, TourOf(was), unvisited)
    requires improved <==> Swap.CanSwap(inst, TourOf(was), unvisited)
    requires if improved then Swap.BestSwapped(inst, TourOf(was), unvisited, TourOf(now)) else now == was
    ensures Performed(inst, SwapOne, was, now)
  {
    hide Swap.CanSwap, Swap.BestSwapped, Partition, Swap.SwapOptimal;
    if !improved {
      Swap.NothingGains(inst, TourOf(was), unvisited);
    }
  }

  method Perform(sol: Solution, op: Op)
    requires sol.Valid()
    modifies sol
    ensures sol.Valid()
    ensures Performed(sol.inst, op, old(sol.days), sol.days)
    ensures !op.MovesHotel() && old(sol.AllFeasible()) ==> sol.AllFeasible()
    ensures !op.ShakeBy? ==> sol.totalScore >= old(sol.totalScore)
  {
    hide Worth, AllSites, WellFormed, TrueLengths, Reworked, Partition, Search.FlagsTrue, Instance.Valid, AllTrueLegs,
         TotalLen, AllFeasible, Validator.Accepted, Shaken, Untangled, TwoOpt.DayTwoOpted, Relocate.Attempts,
         HotelSwap.JunctionByJunction, InsertedBest, SwappedBest, Insertion.CanInsert, Insertion.BestInserted,
         Insertion.Saturated, Swap.CanSwap, Swap.BestSwapped, Swap.SwapOptimal;
    ghost var was := sol.days;
    ReworkedRefl(sol.inst, was);
    ValidMeans(sol);
    match op {
      case Insert =>
        var state := new Search.SearchState(sol);
        ghost var unvisited := state.unvisited;
        var improved := Insertion.BestInsertion(sol, state);
        InsertPerformed(sol.inst, was, sol.days, unvisited, improved);
      case TwoOptAll =>
        var _ := TwoOpt.Apply2OptAllDays(sol);
        AllUntangled(sol.inst, was, sol.days);
      case SwapOne =>
        var state := new Search.SearchState(sol);
        ghost var unvisited := state.unvisited;
        var improved := Swap.BestSwap(sol, state);
        SwapPerformed(sol.inst, was, sol.days, unvisited, improved);
      case RelocateSome(draws) =>
        var state := new Search.SearchState(sol);
        var _, trail := Relocate.ApplyRelocate(sol, state, draws);
        assert trail[0].tour == TourOf(was) && trail[|draws|].tour == sol.Tour();
      case SwapHotels =>
        var _ := HotelSwap.TryHotelSwap(sol);
      case ShakeBy(force, luck) =>
        ghost var deed := ApplyShake(sol, force, luck);
        return;
      case Validate =>
        var _ := Validator.EvaluateSolution(sol);
        return;
    }
    ReworkedKeeps(sol.inst, was, sol.days);
  }

  // The days before, between and after the operations.
  ghost predicate PerformedAll(inst: Instance, ops: seq<Op>, trail: seq<seq<DayTour>>, n: nat)
    requires n <= |ops|
  {
    |trail| == n + 1 && forall i :: 0 <= i < n ==> Performed(inst, ops[i], trail[i], trail[i + 1])
  }

  lemma PerformedNext(inst: Instance, ops: seq<Op>, trail: seq<seq<DayTour>>, n: nat, now: seq<DayTour>)
    requires n < |ops| && PerformedAll(inst, ops, trail, n) && Performed(inst, ops[n], trail[n], now)
    ensures PerformedAll(inst, ops, trail + [now], n + 1)
  {
    hide Performed;
  }

  // Greedy construction, then any operations in any order.
  method AnyRun(inst: Instance, how: Greedy.Way, ops: seq<Op>) returns (sol: Solution, ghost trail: seq<seq<DayTour>>)
    requires inst.Valid()
    ensures sol.inst == inst && sol.Valid()
    ensures PerformedAll(inst, ops, trail, |ops|)
    ensures Greedy.BuiltThisWay(inst, how, trail[0]) && trail[|ops|] == sol.days
  {
    hide Worth, AllSites, WellFormed, TrueLengths, Instance.Valid, Performed, Greedy.BuiltThisWay, PerformedAll;
    sol := Greedy.SolveGreedy(inst, how);
    trail := [sol.days];
    NothingPerformed(inst, ops, sol.days);
    for i := 0 to |ops|
      invariant fresh(sol) && sol.inst == inst && sol.Valid()
      invariant PerformedAll(inst, ops, trail, i) && |trail| == i + 1
      invariant Greedy.BuiltThisWay(inst, how, trail[0]) && trail[i] == sol.days
    {
      Perform(sol, ops[i]);
      PerformedNext(inst, ops, trail, i, sol.days);
      trail := trail + [sol.days];
    }
  }

  lemma NothingPerformed(inst: Instance, ops: seq<Op>, days: seq<DayTour>)
    ensures PerformedAll(inst, ops, [days], 0)
  {
  }

  // From an accepted solution, operations other than a hotel change keep it accepted.
  method AcceptedRun(sol: Solution, ops: seq<Op>) returns (ghost trail: seq<seq<DayTour>>)
    requires sol.Valid() && Validator.Accepted(sol.inst, sol.Tour())
    requires forall i :: 0 <= i < |ops| ==> !ops[i].MovesHotel()
    modifies sol
    ensures sol.Valid() && Validator.Accepted(sol.inst, sol.Tour())
    ensures PerformedAll(sol.inst, ops, trail, |ops|) && trail[0] == old(sol.days) && trail[|ops|] == sol.days
  {
    hide Worth, AllSites, TrueLengths, Instance.Valid, WellFormed, Validator.Accepted, AllFeasible, Performed,
         PerformedAll;
    AcceptedIsFeasible(sol);
    trail := [sol.days];
    NothingPerformed(sol.inst, ops, sol.days);
    for i := 0 to |ops|
      invariant sol.Valid() && sol.AllFeasible()
      invariant PerformedAll(sol.inst, ops, trail, i) && |trail| == i + 1
      invariant trail[0] == old(sol.days) && trail[i] == sol.days
    {
      Perform(sol, ops[i]);
      PerformedNext(sol.inst, ops, trail, i, sol.days);
      trail := trail + [sol.days];
    }
    AcceptedIsFeasible(sol);
  }

  lemma AcceptedIsFeasible(sol: Solution)
    requires sol.Valid()
    ensures Validator.Accepted(sol.inst, sol.Tour()) <==> sol.AllFeasible()
  {
    Validator.AcceptedMeansFeasible(sol.inst, sol.Tour());
  }

  // ----- The order of solutions: higher score, then shorter distance -----

  predicate NotWorse(score: real, dist: real, score': real, dist': real) {
    score > score' || (score == score' && dist <= dist')
  }

  // A validated solution has all totals recomputed from its stops.
  lemma ValidatedSettled(sol: Solution)
    requires sol.Valid() && sol.TrueTotalDist()
    requires forall d :: 0 <= d < |sol.days| ==>
      Ids(sol.days[d].steps) == [] || sol.days[d] == Validator.Recomputed(sol.inst, sol.Tour()[d])
    ensures Settled(sol)
  {
    forall d | 0 <= d < |sol.days|
      ensures TrueLegs(sol.inst, sol.days[d].steps)
    {
      if Ids(sol.days[d].steps) != [] {
        TimetableTrueLegs(sol.inst, sol.Tour()[d]);
      }
    }
  }

  // Validate a candidate; if it passes, its totals are true.
  method Judge(candidate: Solution) returns (valid: bool)
    requires candidate.Valid()
    modifies candidate
    ensures candidate.Valid() && candidate.Tour() == old(candidate.Tour())
    ensures valid <==> Validator.Accepted(candidate.inst, candidate.Tour())
    ensures valid ==> Settled(candidate)
    ensures old(Settled(candidate)) ==>
      && Settled(candidate)
      && candidate.totalScore == old(candidate.totalScore)
      && candidate.totalDist == old(candidate.totalDist)
  {
    hide Worth, AllSites, WellFormed, TrueLengths, AllTrueLegs, TotalLen, Instance.Valid, Validator.Accepted;
    ValidMeans(candidate);
    valid := Validator.EvaluateSolution(candidate);
    if valid {
      ValidatedSettled(candidate);
    }
  }

  // The record a worker holds: true totals, never below where it started, and validated
  // unless it is still the starting point.
  ghost predicate Record(best: Solution, start: Solution)
    reads best, start
  {
    && Settled(best)
    && best.inst == start.inst
    && NotWorse(best.totalScore, best.totalDist, start.totalScore, start.totalDist)
    && (best.Tour() == start.Tour() || Validator.Accepted(best.inst, best.Tour()))
  }

  // ----- What the workers try, and what becomes of their record -----

  // By score and then by distance, both recomputed from the stops alone.
  ghost predicate Outdoes(inst: Instance, a: Tour, b: Tour) {
    || Worth(inst, AllSites(inst, a)) > Worth(inst, AllSites(inst, b))
    || (Worth(inst, AllSites(inst, a)) == Worth(inst, AllSites(inst, b))
        && TotalLen(inst, a, |a|) < TotalLen(inst, b, |b|))
  }

  // What a descent leaves; without a deadline it ran to its end.
  ghost predicate DescendedTo(inst: Instance, late: bool, was: Tour, now: Tour) {
    && Worth(inst, AllSites(inst, now)) >= Worth(inst, AllSites(inst, was))
    && (Tours.AllFeasible(inst, was) ==> Tours.AllFeasible(inst, now))
    && (!late ==> exists runs :: Runs(inst, runs, was, now, 5))
  }

  // One round of a worker: a shake of its record, or a new construction, and in either
  // case the plan that the descent makes of it.
  datatype Trial =
    | Shaking(force: nat, luck: Luck, record: seq<DayTour>, shaken: seq<DayTour>, tried: Tour)
    | Building(how: Greedy.Way, built: seq<DayTour>, tried: Tour)

  ghost predicate Proper(inst: Instance, late: bool, trial: Trial) {
    match trial
    case Shaking(force, luck, record, shaken, tried) =>
      && (exists deed :: Shaken(inst, force, luck, record, shaken, deed))
      && DescendedTo(inst, late, TourOf(shaken), tried)
    case Building(how, built, tried) =>
      && Greedy.BuiltThisWay(inst, how, built)
      && DescendedTo(inst, late, TourOf(built), tried)
  }

  // The plan tried is accepted and outdoes the record so far.
  ghost predicate Improves(inst: Instance, record: Tour, tried: Tour) {
    Validator.Accepted(inst, tried) && Outdoes(inst, tried, record)
  }

  // The record after some rounds: replaced exactly by the plans that improve it.
  ghost function RecordAfter(inst: Instance, start: Tour, trials: seq<Trial>): Tour {
    if trials == [] then start
    else
      var n := |trials| - 1;
      var before := RecordAfter(inst, start, trials[..n]);
      if Improves(inst, before, trials[n].tried) then trials[n].tried else before
  }

  ghost predicate ImprovedBy(inst: Instance, start: Tour, trials: seq<Trial>, i: nat)
    requires i < |trials|
  {
    Improves(inst, RecordAfter(inst, start, trials[..i]), trials[i].tried)
  }

  // No accepted trial outdoes the record, nor does the start, and the record is the start
  // or an accepted trial.
  lemma {:induction false} RecordIsBest(inst: Instance, start: Tour, trials: seq<Trial>)
    ensures var record := RecordAfter(inst, start, trials);
            && !Outdoes(inst, start, record)
            && (forall i :: 0 <= i < |trials| && Validator.Accepted(inst, trials[i].tried) ==>
                  !Outdoes(inst, trials[i].tried, record))
            && (record == start
                || exists i :: 0 <= i < |trials| && trials[i].tried == record && Validator.Accepted(inst, record))
  {
    hide Worth, AllSites, TotalLen, Validator.Accepted;
    if trials != [] {
      var n := |trials| - 1;
      RecordIsBest(inst, start, trials[..n]);
    }
  }

  // ----- How hard the next shake is -----

  // Rounds without improvement since the force last changed or the record last moved.
  ghost function Fails(inst: Instance, start: Tour, trials: seq<Trial>): nat {
    if trials == [] then 0
    else
      var n := |trials| - 1;
      if ImprovedBy(inst, start, trials, n) || Fails(inst, start, trials[..n]) == 5 then 0
      else Fails(inst, start, trials[..n]) + 1
  }

  // 1 at first and after an improvement; after six failures on to the next of 1, 2, 3, 4, 1.
  ghost function ForceAfter(inst: Instance, start: Tour, trials: seq<Trial>): nat {
    if trials == [] then 1
    else
      var n := |trials| - 1;
      var force := ForceAfter(inst, start, trials[..n]);
      if ImprovedBy(inst, start, trials, n) then 1
      else if Fails(inst, start, trials[..n]) == 5 then force % 4 + 1
      else force
  }

  // The last k rounds all failed with the force that is up next, and no more than five did.
  lemma {:induction false} FailsCount(inst: Instance, start: Tour, trials: seq<Trial>)
    ensures 1 <= ForceAfter(inst, start, trials) <= 4
    ensures var k := Fails(inst, start, trials);
            && k <= 5 && k <= |trials|
            && (forall i :: |trials| - k <= i < |trials| ==>
                  && !ImprovedBy(inst, start, trials, i)
                  && ForceAfter(inst, start, trials[..i]) == ForceAfter(inst, start, trials))
  {
    hide Improves;
    if trials != [] {
      var n := |trials| - 1;
      var less := trials[..n];
      FailsCount(inst, start, less);
      forall i | 0 <= i < n
        ensures trials[..i] == less[..i]
      {
      }
    }
  }

  // A force is given up after exactly six failures in a row with it, and only then.
  lemma SixFailures(inst: Instance, start: Tour, trials: seq<Trial>)
    requires trials != [] && !ImprovedBy(inst, start, trials, |trials| - 1)
    requires ForceAfter(inst, start, trials) != ForceAfter(inst, start, trials[..|trials| - 1])
    ensures |trials| >= 6
    ensures forall i :: |trials| - 6 <= i < |trials| ==>
              && !ImprovedBy(inst, start, trials, i)
              && ForceAfter(inst, start, trials[..i]) == ForceAfter(inst, start, trials[..|trials| - 1])
    ensures ForceAfter(inst, start, trials) == ForceAfter(inst, start, trials[..|trials| - 1]) % 4 + 1
  {
    hide Improves, Fails, ForceAfter, RecordAfter;
    var n := |trials| - 1;
    var less := trials[..n];
    FailsCount(inst, start, less);
    assert trials == less + [trials[n]];
    NextRound(inst, start, less, trials[n]);
    forall i | 0 <= i < n
      ensures trials[..i] == less[..i] && (ImprovedBy(inst, start, trials, i) <==> ImprovedBy(inst, start, less, i))
    {
    }
  }

  // ----- One worker -----

  // The search is over when a target is set and an accepted plan has brought the record there.
  ghost predicate Reached(inst: Instance, start: Tour, target: real, trials: seq<Trial>) {
    && target > 0.0 && trials != []
    && Validator.Accepted(inst, trials[|trials| - 1].tried)
    && var record := RecordAfter(inst, start, trials); Worth(inst, AllSites(inst, record)) >= target
  }

  // Rounds one after the other, none after the target was reached, and without a deadline
  // all of them unless it was reached.
  ghost predicate Searched(inst: Instance, late: bool, start: Tour, target: real, trials: seq<Trial>, rounds: nat) {
    && |trials| <= rounds
    && (forall i :: 0 <= i < |trials| ==> Proper(inst, late, trials[i]))
    && (forall i :: 0 <= i < |trials| ==> !Reached(inst, start, target, trials[..i]))
    && (!late ==> |trials| == rounds || Reached(inst, start, target, trials))
  }

  // The rounds so far, with nothing said yet of why they end.
  ghost predicate Searching(inst: Instance, late: bool, start: Tour, target: real, trials: seq<Trial>) {
    && (forall i :: 0 <= i < |trials| ==> Proper(inst, late, trials[i]))
    && (forall i :: 0 <= i < |trials| ==> !Reached(inst, start, target, trials[..i]))
  }

  // Each shake takes the record so far, with the force that is up and its own random numbers.
  ghost predicate Shakes(inst: Instance, start: Tour, trials: seq<Trial>, lucks: seq<Luck>) {
    && |trials| <= |lucks|
    && forall i :: 0 <= i < |trials| ==>
         && trials[i].Shaking?
         && trials[i].luck == lucks[i]
         && trials[i].force == ForceAfter(inst, start, trials[..i])
         && TourOf(trials[i].record) == RecordAfter(inst, start, trials[..i])
  }

  ghost predicate Builds(trials: seq<Trial>, workerID: nat, rngs: seq<(nat, nat) -> nat>) {
    && |trials| <= |rngs|
    && forall i :: 0 <= i < |trials| ==>
         trials[i].Building? && trials[i].how == Greedy.Way(2 + workerID % 5 + 1, workerID % 4, rngs[i])
  }

  lemma SearchingOn(inst: Instance, late: bool, start: Tour, target: real, trials: seq<Trial>, trial: Trial)
    requires Searching(inst, late, start, target, trials) && !Reached(inst, start, target, trials)
    requires Proper(inst, late, trial)
    ensures Searching(inst, late, start, target, trials + [trial])
  {
    hide Proper, Reached;
    var all := trials + [trial];
    forall i | 0 <= i < |all|
      ensures !Reached(inst, start, target, all[..i])
    {
      assert all[..i] == trials[..i] && trials[..|trials|] == trials;
    }
  }

  lemma ShakesOn(inst: Instance, start: Tour, trials: seq<Trial>, lucks: seq<Luck>, trial: Trial)
    requires Shakes(inst, start, trials, lucks) && |trials| < |lucks|
    requires trial.Shaking? && trial.luck == lucks[|trials|] && trial.force == ForceAfter(inst, start, trials)
    requires TourOf(trial.record) == RecordAfter(inst, start, trials)
    ensures Shakes(inst, start, trials + [trial], lucks)
  {
    hide ForceAfter, RecordAfter;
    var all := trials + [trial];
    forall i | 0 <= i < |all|
      ensures all[..i] == trials[..i] && trials[..|trials|] == trials
    {
    }
  }

  // One more round: the record, and the count and force of the next shake.
  lemma NextRound(inst: Instance, start: Tour, trials: seq<Trial>, trial: Trial)
    ensures var all, record := trials + [trial], RecordAfter(inst, start, trials);
            var improved := Improves(inst, record, trial.tried);
            && RecordAfter(inst, start, all) == (if improved then trial.tried else record)
            && Fails(inst, start, all)
               == (if improved || Fails(inst, start, trials) == 5 then 0 else Fails(inst, start, trials) + 1)
            && ForceAfter(inst, start, all)
               == (if improved then 1
                   else if Fails(inst, start, trials) == 5 then ForceAfter(inst, start, trials) % 4 + 1
                   else ForceAfter(inst, start, trials))
  {
    hide Improves;
    assert (trials + [trial])[..|trials|] == trials;
  }

  // Totals that are true compare as the plans do.
  lemma TotalsCompare(a: Solution, b: Solution)
    requires Settled(a) && Settled(b) && a.inst == b.inst
    ensures Outdoes(a.inst, a.Tour(), b.Tour()) <==>
              a.totalScore > b.totalScore || (a.totalScore == b.totalScore && a.totalDist < b.totalDist)
  {
    hide Worth, AllSites, TotalLen, WellFormed, TrueLengths, Instance.Valid, AllTrueLegs;
  }

  // One candidate: shaken or built, descended and judged, it is a proper trial.
  lemma DescentDone(inst: Instance, late: bool, was: Tour, now: Tour, runs: seq<Run>)
    requires Worth(inst, AllSites(inst, now)) >= Worth(inst, AllSites(inst, was))
    requires Tours.AllFeasible(inst, was) ==> Tours.AllFeasible(inst, now)
    requires !late ==> Runs(inst, runs, was, now, 5)
    ensures DescendedTo(inst, late, was, now)
  {
    hide Runs, Worth, AllSites, Tours.AllFeasible;
  }

  // A clone of the record, shaken and descended.
  method ShakeOnce(localBest: Solution, force: nat, luck: Luck, clock: Clock)
    returns (candidate: Solution, ghost trial: Trial)
    requires localBest.Valid() && !clock.late
    modifies clock
    ensures fresh(candidate) && candidate.inst == localBest.inst && candidate.Valid()
    ensures Proper(candidate.inst, clock.late, trial) && trial.Shaking? && trial.tried == candidate.Tour()
    ensures trial.force == force && trial.luck == luck && trial.record == localBest.days
  {
    hide Worth, AllSites, WellFormed, TrueLengths, Instance.Valid, AllFeasible, Runs, Shaken, DescendedTo;
    candidate := localBest.Clone();
    ghost var deed := ApplyShake(candidate, force, luck);
    ghost var shaken := candidate.days;
    var expired, runs := ApplyVND(candidate, clock);
    DescentDone(candidate.inst, clock.late, TourOf(shaken), candidate.Tour(), runs);
    trial := Shaking(force, luck, localBest.days, shaken, candidate.Tour());
  }

  // A new construction, descended.
  method BuildOnce(inst: Instance, how: Greedy.Way, clock: Clock) returns (candidate: Solution, ghost trial: Trial)
    requires inst.Valid() && !clock.late
    modifies clock
    ensures fresh(candidate) && candidate.inst == inst && candidate.Valid()
    ensures Proper(inst, clock.late, trial) && trial.Building? && trial.tried == candidate.Tour() && trial.how == how
  {
    hide Worth, AllSites, WellFormed, TrueLengths, Instance.Valid, AllFeasible, Runs, Greedy.BuiltThisWay,
         Greedy.GreedyTrip, DescendedTo;
    candidate := Greedy.SolveGreedy(inst, how);
    Recount(candidate);
    ghost var built := candidate.days;
    var expired, runs := ApplyVND(candidate, clock);
    DescentDone(inst, clock.late, TourOf(built), candidate.Tour(), runs);
    trial := Building(how, built, candidate.Tour());
  }

  // Validate a candidate and compare it with the record.
  method Compare(candidate: Solution, localBest: Solution) returns (valid: bool, improved: bool)
    requires candidate.Valid() && Settled(localBest) && candidate.inst == localBest.inst && candidate != localBest
    modifies candidate
    ensures candidate.Valid() && candidate.Tour() == old(candidate.Tour())
    ensures valid <==> Validator.Accepted(candidate.inst, candidate.Tour())
    ensures valid ==> Settled(candidate)
    ensures improved <==> Improves(candidate.inst, localBest.Tour(), candidate.Tour())
  {
    hide Worth, AllSites, WellFormed, TrueLengths, Instance.Valid, AllTrueLegs, TotalLen, Validator.Accepted, Outdoes;
    valid := Judge(candidate);
    improved := false;
    if valid {
      TotalsCompare(candidate, localBest);
      improved := candidate.totalScore > localBest.totalScore
               || (candidate.totalScore == localBest.totalScore && candidate.totalDist < localBest.totalDist);
    }
  }

  // The record after a round is a record again.
  lemma RecordKept(start: Solution, best: Solution, candidate: Solution)
    requires Record(best, start) && Settled(start) && Settled(candidate) && candidate.inst == best.inst
    requires Improves(best.inst, best.Tour(), candidate.Tour())
    ensures Record(candidate, start)
  {
    hide Worth, AllSites, WellFormed, TrueLengths, Instance.Valid, AllTrueLegs, TotalLen, Validator.Accepted, Outdoes;
    TotalsCompare(candidate, best);
  }

  method VnsWorker(bestSol: Solution, targetScore: real, lucks: seq<Luck>, clock: Clock)
    returns (localBest: Solution, ghost trials: seq<Trial>)
    requires Settled(bestSol)
    modifies clock
    ensures fresh(localBest) && Record(localBest, bestSol) && (old(clock.late) ==> clock.late)
    ensures Searched(bestSol.inst, clock.late, bestSol.Tour(), targetScore, trials, |lucks|)
    ensures Shakes(bestSol.inst, bestSol.Tour(), trials, lucks)
    ensures localBest.Tour() == RecordAfter(bestSol.inst, bestSol.Tour(), trials)
  {
    hide Settled, Record, Validator.Accepted, Proper, Improves, Searching, Shakes, Reached, Fails, ForceAfter,
         RecordAfter, Searched, Solution.Valid, TourOf;
    ghost var inst, start := bestSol.inst, bestSol.Tour();
    localBest := bestSol.Clone();
    SameRecord(localBest, bestSol);
    var shakeForce, maxForce, noImproveCount := 1, 4, 0;
    trials := [];
    NoRounds(inst, clock.late, start, targetScore, lucks);
    for round := 0 to |lucks|
      invariant old(clock.late) ==> clock.late
      invariant fresh(localBest) && Record(localBest, bestSol) && Settled(bestSol)
      invariant |trials| == round && Searching(inst, clock.late, start, targetScore, trials)
      invariant Shakes(inst, start, trials, lucks) && !Reached(inst, start, targetScore, trials)
      invariant localBest.Tour() == RecordAfter(inst, start, trials)
      invariant shakeForce == ForceAfter(inst, start, trials) && noImproveCount == Fails(inst, start, trials)
      invariant 1 <= shakeForce <= maxForce == 4 && 0 <= noImproveCount <= 5
    {
      RecordMeans(localBest, bestSol);
      ghost var was := clock.late;
      var done := clock.Strikes();
      SearchingLater(inst, was, clock.late, start, targetScore, trials);
      if done {
        SearchEnds(inst, clock.late, start, targetScore, trials, |lucks|);
        return;
      }
      var candidate, trial := ShakeOnce(localBest, shakeForce, lucks[round], clock);
      SearchingLater(inst, false, clock.late, start, targetScore, trials);
      var valid, improved := Compare(candidate, localBest);
      SearchingOn(inst, clock.late, start, targetScore, trials, trial);
      ShakesOn(inst, start, trials, lucks, trial);
      NextRound(inst, start, trials, trial);
      trials := trials + [trial];
      if improved {
        ImprovedIsValid(inst, localBest.Tour(), candidate.Tour());
        RecordKept(bestSol, localBest, candidate);
        localBest := candidate;
        shakeForce, noImproveCount := 1, 0;
      } else {
        noImproveCount := noImproveCount + 1;
        if noImproveCount > 5 {
          shakeForce := if shakeForce + 1 > maxForce then 1 else shakeForce + 1;
          noImproveCount := 0;
        }
      }
      RecordMeans(localBest, bestSol);
      TargetTest(inst, start, targetScore, trials, valid, localBest);
      if valid && targetScore > 0.0 && localBest.totalScore >= targetScore {
        SearchEnds(inst, clock.late, start, targetScore, trials, |lucks|);
        return;
      }
    }
    SearchEnds(inst, clock.late, start, targetScore, trials, |lucks|);
  }

  lemma SameRecord(copy: Solution, start: Solution)
    requires Settled(start) && copy.inst == start.inst && copy.days == start.days
    requires copy.totalScore == start.totalScore && copy.totalDist == start.totalDist
    ensures Record(copy, start)
  {
    hide Worth, AllSites, WellFormed, TrueLengths, Instance.Valid, AllTrueLegs, TotalLen;
  }

  lemma RecordMeans(best: Solution, start: Solution)
    requires Record(best, start)
    ensures Settled(best) && best.Valid() && best.inst == start.inst
  {
  }

  lemma ImprovedIsValid(inst: Instance, record: Tour, tried: Tour)
    requires Improves(inst, record, tried)
    ensures Validator.Accepted(inst, tried)
  {
  }

  lemma NoRounds(inst: Instance, late: bool, start: Tour, target: real, lucks: seq<Luck>)
    ensures Searching(inst, late, start, target, []) && Shakes(inst, start, [], lucks)
    ensures !Reached(inst, start, target, [])
    ensures RecordAfter(inst, start, []) == start && ForceAfter(inst, start, []) == 1 && Fails(inst, start, []) == 0
  {
  }

  // What is claimed of a search that time has not stopped holds all the more of one it has.
  lemma ProperLater(inst: Instance, was: bool, late: bool, trial: Trial)
    requires Proper(inst, was, trial) && (was ==> late)
    ensures Proper(inst, late, trial)
  {
    hide Shaken, Greedy.BuiltThisWay, Runs, Worth, AllSites, Tours.AllFeasible;
  }

  lemma SearchingLater(inst: Instance, was: bool, late: bool, start: Tour, target: real, trials: seq<Trial>)
    requires Searching(inst, was, start, target, trials) && (was ==> late)
    ensures Searching(inst, late, start, target, trials)
  {
    hide Proper, Reached;
    forall i | 0 <= i < |trials|
      ensures Proper(inst, late, trials[i])
    {
      ProperLater(inst, was, late, trials[i]);
    }
  }

  lemma SearchedLater(inst: Instance, was: bool, late: bool, start: Tour, target: real, trials: seq<Trial>, rounds: nat)
    requires Searched(inst, was, start, target, trials, rounds) && (was ==> late)
    ensures Searched(inst, late, start, target, trials, rounds)
  {
    hide Proper, Reached;
    forall i | 0 <= i < |trials|
      ensures Proper(inst, late, trials[i])
    {
      ProperLater(inst, was, late, trials[i]);
    }
  }

  lemma SearchEnds(inst: Instance, late: bool, start: Tour, target: real, trials: seq<Trial>, rounds: nat)
    requires Searching(inst, late, start, target, trials) && |trials| <= rounds
    requires late || |trials| == rounds || Reached(inst, start, target, trials)
    ensures Searched(inst, late, start, target, trials, rounds)
  {
    hide Proper, Reached;
  }

  lemma TargetTest(inst: Instance, start: Tour, target: real, trials: seq<Trial>, valid: bool, localBest: Solution)
    requires trials != [] && Settled(localBest) && localBest.inst == inst
    requires localBest.Tour() == RecordAfter(inst, start, trials)
    requires valid <==> Validator.Accepted(inst, trials[|trials| - 1].tried)
    ensures Reached(inst, start, target, trials) <==> valid && target > 0.0 && localBest.totalScore >= target
  {
    hide Validator.Accepted, WellFormed, TrueLengths, Instance.Valid, AllTrueLegs, TotalLen, RecordAfter;
  }

  method GraspWorker(bestSol: Solution, workerID: nat, targetScore: real, rngs: seq<(nat, nat) -> nat>, clock: Clock)
    returns (localBest: Solution, ghost trials: seq<Trial>)
    requires Settled(bestSol)
    modifies clock
    ensures fresh(localBest) && Record(localBest, bestSol) && (old(clock.late) ==> clock.late)
    ensures Searched(bestSol.inst, clock.late, bestSol.Tour(), targetScore, trials, |rngs|)
    ensures Builds(trials, workerID, rngs)
    ensures localBest.Tour() == RecordAfter(bestSol.inst, bestSol.Tour(), trials)
  {
    hide Settled, Record, Validator.Accepted, Proper, Improves, Searching, Reached, RecordAfter, Searched,
         Solution.Valid, TourOf;
    ghost var inst, start := bestSol.inst, bestSol.Tour();
    localBest := bestSol.Clone();
    SameRecord(localBest, bestSol);
    var rclSize, ratioMode := 2 + workerID % 5 + 1, workerID % 4;
    trials := [];
    NoRounds(inst, clock.late, start, targetScore, []);
    for round := 0 to |rngs|
      invariant old(clock.late) ==> clock.late
      invariant fresh(localBest) && Record(localBest, bestSol) && Settled(bestSol)
      invariant |trials| == round && Searching(inst, clock.late, start, targetScore, trials)
      invariant Builds(trials, workerID, rngs) && !Reached(inst, start, targetScore, trials)
      invariant localBest.Tour() == RecordAfter(inst, start, trials)
    {
      RecordMeans(localBest, bestSol);
      SettledMeans(bestSol);
      ghost var was := clock.late;
      var done := clock.Strikes();
      SearchingLater(inst, was, clock.late, start, targetScore, trials);
      if done {
        SearchEnds(inst, clock.late, start, targetScore, trials, |rngs|);
        return;
      }
      var candidate, trial := BuildOnce(bestSol.inst, Greedy.Way(rclSize, ratioMode, rngs[round]), clock);
      SearchingLater(inst, false, clock.late, start, targetScore, trials);
      var valid, improved := Compare(candidate, localBest);
      SearchingOn(inst, clock.late, start, targetScore, trials, trial);
      NextRound(inst, start, trials, trial);
      trials := trials + [trial];
      if improved {
        ImprovedIsValid(inst, localBest.Tour(), candidate.Tour());
        RecordKept(bestSol, localBest, candidate);
        localBest := candidate;
      }
      RecordMeans(localBest, bestSol);
      TargetTest(inst, start, targetScore, trials, valid, localBest);
      if valid && targetScore > 0.0 && localBest.totalScore >= targetScore {
        SearchEnds(inst, clock.late, start, targetScore, trials, |rngs|);
        return;
      }
    }
    SearchEnds(inst, clock.late, start, targetScore, trials, |rngs|);
  }

  // ----- The final choice -----

  ghost predicate DistinctSolutions(results: seq<Solution>) {
    forall i, j :: 0 <= i < j < |results| ==> results[i] != results[j]
  }

  // best beats or equals the starting point and every accepted result so far.
  ghost predicate Best(best: Solution, start: Solution, results: seq<Solution>, n: nat)
    requires n <= |results|
    reads best, start, set r | r in results
  {
    && Record(best, start)
    && (best == start || best in results[..n])
    && forall i :: 0 <= i < n && Validator.Accepted(results[i].inst, results[i].Tour()) ==>
         NotWorse(best.totalScore, best.totalDist, results[i].totalScore, results[i].totalDist)
  }

  method Merge(bestSol: Solution, results: seq<Solution>) returns (best: Solution)
    requires Settled(bestSol) && DistinctSolutions(results) && bestSol !in results
    requires forall i :: 0 <= i < |results| ==> Record(results[i], bestSol)
    modifies set r | r in results
    ensures forall i :: 0 <= i < |results| ==> Settled(results[i]) && results[i].Tour() == old(results[i].Tour())
    ensures Best(best, bestSol, results, |results|)
  {
    hide Worth, AllSites, WellFormed, TrueLengths, Instance.Valid, AllTrueLegs, TotalLen, Validator.Accepted,
         NotWorse, Settled;
    best := bestSol;
    NotWorseRefl(bestSol.totalScore, bestSol.totalDist);
    var i := 0;
    while i < |results|
      invariant 0 <= i <= |results|
      invariant Settled(bestSol) && unchanged(bestSol)
      invariant forall k :: 0 <= k < |results| ==> Record(results[k], bestSol)
      invariant forall k :: i <= k < |results| ==> unchanged(results[k])
      invariant forall k :: 0 <= k < |results| ==> results[k].Tour() == old(results[k].Tour())
      invariant Best(best, bestSol, results, i)
    {
      var r := results[i];
      SettledMeans(r);
      var valid := Judge(r);
      if valid && (r.totalScore > best.totalScore
                   || (r.totalScore == best.totalScore && r.totalDist < best.totalDist)) {
        BetterNow(r.totalScore, r.totalDist, best.totalScore, best.totalDist);
        best := r;
      } else if valid {
        StillBest(r.totalScore, r.totalDist, best.totalScore, best.totalDist);
      }
      i := i + 1;
    }
  }

  lemma SettledMeans(sol: Solution)
    requires Settled(sol)
    ensures sol.Valid()
  {
  }

  lemma NotWorseRefl(score: real, dist: real)
    ensures NotWorse(score, dist, score, dist)
  {
  }

  lemma BetterNow(score: real, dist: real, score': real, dist': real)
    requires score > score' || (score == score' && dist < dist')
    ensures NotWorse(score, dist, score, dist)
    ensures forall s: real, t: real :: NotWorse(score', dist', s, t) ==> NotWorse(score, dist, s, t)
  {
  }

  lemma StillBest(score: real, dist: real, score': real, dist': real)
    requires !(score > score' || (score == score' && dist < dist'))
    ensures NotWorse(score', dist', score, dist)
  {
  }

  // ----- The whole search, workers one after another on disjoint solutions -----

  // The random numbers a worker gets, for as many rounds as it may make.
  datatype Chance = Chance(lucks: seq<Luck>, rngs: seq<(nat, nat) -> nat>)

  // The first half of the workers builds, the other half shakes; all start from this plan.
  ghost predicate Worked(inst: Instance, late: bool, start: Tour, target: real, chances: seq<Chance>,
                         trials: seq<seq<Trial>>, w: nat)
    requires w < |chances| && w < |trials|
  {
    if w < |chances| / 2 then
      Searched(inst, late, start, target, trials[w], |chances[w].rngs|) && Builds(trials[w], w, chances[w].rngs)
    else
      && Searched(inst, late, start, target, trials[w], |chances[w].lucks|)
      && Shakes(inst, start, trials[w], chances[w].lucks)
  }

  lemma WorkedLater(inst: Instance, was: bool, late: bool, start: Tour, target: real, chances: seq<Chance>,
                    trials: seq<seq<Trial>>, w: nat)
    requires w < |chances| && w < |trials| && (was ==> late)
    requires Worked(inst, was, start, target, chances, trials, w)
    ensures Worked(inst, late, start, target, chances, trials, w)
  {
    hide Shakes, Builds, Searched;
    if w < |chances| / 2 {
      SearchedLater(inst, was, late, start, target, trials[w], |chances[w].rngs|);
    } else {
      SearchedLater(inst, was, late, start, target, trials[w], |chances[w].lucks|);
    }
  }

  // One more worker is done.
  lemma WorkedNow(inst: Instance, late: bool, start: Tour, target: real, chances: seq<Chance>,
                  trials: seq<seq<Trial>>, more: seq<Trial>)
    requires |trials| < |chances|
    requires var w := |trials|;
             if w < |chances| / 2 then
               Searched(inst, late, start, target, more, |chances[w].rngs|) && Builds(more, w, chances[w].rngs)
             else
               Searched(inst, late, start, target, more, |chances[w].lucks|)
               && Shakes(inst, start, more, chances[w].lucks)
    ensures Worked(inst, late, start, target, chances, trials + [more], |trials|)
    ensures forall w :: 0 <= w < |trials| && Worked(inst, late, start, target, chances, trials, w) ==>
              Worked(inst, late, start, target, chances, trials + [more], w)
  {
    hide Shakes, Builds, Searched;
  }

  method RunWorkers(bestSol: Solution, targetScore: real, chances: seq<Chance>, clock: Clock)
    returns (results: seq<Solution>, ghost trials: seq<seq<Trial>>)
    requires Settled(bestSol) && !clock.late
    modifies clock
    ensures |results| == |trials| == |chances| && DistinctSolutions(results)
    ensures forall i :: 0 <= i < |results| ==> fresh(results[i]) && Record(results[i], bestSol)
    ensures forall i :: 0 <= i < |results| ==>
              && Worked(bestSol.inst, clock.late, bestSol.Tour(), targetScore, chances, trials, i)
              && results[i].Tour() == RecordAfter(bestSol.inst, bestSol.Tour(), trials[i])
  {
    hide Settled, NotWorse, Validator.Accepted, Searched, Shakes, Builds, RecordAfter, Worked, TourOf;
    results, trials := [], [];
    var nbGRASP := |chances| / 2;
    for w := 0 to |chances|
      invariant |results| == |trials| == w && DistinctSolutions(results)
      invariant forall i :: 0 <= i < |results| ==> fresh(results[i]) && Record(results[i], bestSol)
      invariant forall i :: 0 <= i < |results| ==>
                  && Worked(bestSol.inst, clock.late, bestSol.Tour(), targetScore, chances, trials, i)
                  && results[i].Tour() == RecordAfter(bestSol.inst, bestSol.Tour(), trials[i])
    {
      var r: Solution;
      ghost var was := clock.late;
      ghost var more;
      if w < nbGRASP {
        r, more := GraspWorker(bestSol, w, targetScore, chances[w].rngs, clock);
      } else {
        r, more := VnsWorker(bestSol, targetScore, chances[w].lucks, clock);
      }
      forall i | 0 <= i < w
        ensures Worked(bestSol.inst, clock.late, bestSol.Tour(), targetScore, chances, trials, i)
      {
        WorkedLater(bestSol.inst, was, clock.late, bestSol.Tour(), targetScore, chances, trials, i);
      }
      WorkedNow(bestSol.inst, clock.late, bestSol.Tour(), targetScore, chances, trials, more);
      results := results + [r];
      trials := trials + [more];
    }
  }

  lemma OutdoesTotals(inst: Instance, a: Tour, b: Tour)
    ensures Outdoes(inst, a, b) <==>
              !NotWorse(Worth(inst, AllSites(inst, b)), TotalLen(inst, b, |b|),
                        Worth(inst, AllSites(inst, a)), TotalLen(inst, a, |a|))
  {
    hide Worth, AllSites, TotalLen;
  }

  lemma NotOutdone(a: Solution, b: Solution)
    requires Settled(a) && Settled(b) && a.inst == b.inst
    requires NotWorse(a.totalScore, a.totalDist, b.totalScore, b.totalDist)
    ensures !Outdoes(a.inst, b.Tour(), a.Tour())
  {
    hide WellFormed, TrueLengths, Instance.Valid, AllTrueLegs, Worth, AllSites, TotalLen;
    OutdoesTotals(a.inst, b.Tour(), a.Tour());
  }

  lemma OutdoesTrans(inst: Instance, a: Tour, b: Tour, c: Tour)
    requires Outdoes(inst, a, c) && !Outdoes(inst, b, c)
    ensures Outdoes(inst, a, b)
  {
    hide Worth, AllSites, TotalLen;
  }

  // The plan chosen in the end: it is the first one or an accepted trial of some worker,
  // and neither the first one nor any accepted trial of any worker outdoes it.
  ghost predicate BestOfAll(inst: Instance, first: Tour, trials: seq<seq<Trial>>, best: Tour) {
    && !Outdoes(inst, first, best)
    && (forall w, i :: 0 <= w < |trials| && 0 <= i < |trials[w]| && Validator.Accepted(inst, trials[w][i].tried) ==>
          !Outdoes(inst, trials[w][i].tried, best))
    && (best == first || exists w, i :: 0 <= w < |trials| && 0 <= i < |trials[w]| && trials[w][i].tried == best
                                      && Validator.Accepted(inst, best))
  }

  // No trial of a worker outdoes the final choice if the worker's record does not.
  lemma WorkerDone(best: Solution, bestSol: Solution, results: seq<Solution>, w: nat, trials: seq<Trial>)
    requires Best(best, bestSol, results, |results|) && Settled(bestSol) && w < |results| && Settled(results[w])
    requires results[w].inst == bestSol.inst
    requires results[w].Tour() == RecordAfter(bestSol.inst, bestSol.Tour(), trials)
    ensures forall i :: 0 <= i < |trials| && Validator.Accepted(bestSol.inst, trials[i].tried) ==>
              !Outdoes(bestSol.inst, trials[i].tried, best.Tour())
  {
    hide Outdoes, Validator.Accepted, RecordAfter, NotWorse, Settled;
    var inst, start, r := bestSol.inst, bestSol.Tour(), results[w];
    RecordIsBest(inst, start, trials);
    if r.Tour() == start {
      NotOutdone(best, bestSol);
    } else {
      NotOutdone(best, r);
    }
    forall i | 0 <= i < |trials| && Validator.Accepted(inst, trials[i].tried)
      ensures !Outdoes(inst, trials[i].tried, best.Tour())
    {
      if Outdoes(inst, trials[i].tried, best.Tour()) {
        OutdoesTrans(inst, trials[i].tried, r.Tour(), best.Tour());
      }
    }
  }

  lemma MergedBest(best: Solution, bestSol: Solution, results: seq<Solution>, trials: seq<seq<Trial>>)
    requires Best(best, bestSol, results, |results|) && Settled(bestSol) && |trials| == |results|
    requires forall w :: 0 <= w < |results| ==>
               && Settled(results[w]) && results[w].inst == bestSol.inst
               && results[w].Tour() == RecordAfter(bestSol.inst, bestSol.Tour(), trials[w])
    ensures BestOfAll(bestSol.inst, bestSol.Tour(), trials, best.Tour())
  {
    hide Outdoes, Validator.Accepted, RecordAfter, NotWorse, Settled;
    NotOutdone(best, bestSol);
    forall w | 0 <= w < |trials|
      ensures forall i :: 0 <= i < |trials[w]| && Validator.Accepted(bestSol.inst, trials[w][i].tried) ==>
                !Outdoes(bestSol.inst, trials[w][i].tried, best.Tour())
    {
      WorkerDone(best, bestSol, results, w, trials[w]);
    }
    if best != bestSol {
      var w :| 0 <= w < |results| && results[w] == best;
      RecordIsBest(bestSol.inst, bestSol.Tour(), trials[w]);
    }
  }

  // The cached totals of the given solution do not matter: its clone is evaluated afresh.
  // first is the plan after the first descent. Unless it reaches the target, and unless
  // time is up, all workers start from it.
  method LocalSearch(sol: Solution, targetScore: real, chances: seq<Chance>, clock: Clock)
    returns (best: Solution, ghost first: Tour, ghost trials: seq<seq<Trial>>)
    requires sol.inst.Valid() && WellFormed(sol.inst, sol.Tour()) && TrueLengths(sol.inst, sol.days) && sol.TrueSteps()
    modifies clock
    ensures fresh(best) && best.inst == sol.inst
    ensures Settled(best)
    ensures best.totalScore >= Worth(sol.inst, AllSites(sol.inst, sol.Tour()))
    ensures Validator.Accepted(sol.inst, sol.Tour()) ==> Validator.Accepted(best.inst, best.Tour())
    ensures DescendedTo(sol.inst, clock.late, sol.Tour(), first)
    ensures BestOfAll(sol.inst, first, trials, best.Tour())
    ensures !clock.late ==>
      (trials == [] <==>
       chances == [] || (targetScore > 0.0 && Worth(sol.inst, AllSites(sol.inst, first)) >= targetScore))
    ensures trials != [] ==>
      && |trials| == |chances|
      && forall w :: 0 <= w < |trials| ==> Worked(sol.inst, clock.late, first, targetScore, chances, trials, w)
  {
    hide Worth, AllSites, WellFormed, TrueLengths, Instance.Valid, AllTrueLegs, TotalLen, Validator.Accepted,
         AllFeasible, Runs, DescendedTo, BestOfAll, Worked, RecordAfter;
    var bestSol := sol.Clone();
    HotelSwap.TypedDays(bestSol.inst, bestSol.days);
    bestSol.EvaluateScore();
    AcceptedIsFeasible(bestSol);
    var expired, runs := ApplyVND(bestSol, clock);
    DescentDone(sol.inst, clock.late, sol.Tour(), bestSol.Tour(), runs);
    AcceptedIsFeasible(bestSol);
    first, trials := bestSol.Tour(), [];
    FirstIsBest(sol.inst, first);
    if targetScore > 0.0 && bestSol.totalScore >= targetScore {
      best := bestSol;
      return;
    }
    ghost var was := clock.late;
    var tooLate := clock.Strikes();
    DescendedLater(sol.inst, was, clock.late, sol.Tour(), first);
    if tooLate {
      best := bestSol;
      return;
    }
    var results;
    results, trials := RunWorkers(bestSol, targetScore, chances, clock);
    DescendedLater(sol.inst, false, clock.late, sol.Tour(), first);
    best := Merge(bestSol, results);
    MergedBest(best, bestSol, results, trials);
    Recount(best);
  }

  lemma DescendedLater(inst: Instance, was: bool, late: bool, from: Tour, now: Tour)
    requires DescendedTo(inst, was, from, now) && (was ==> late)
    ensures DescendedTo(inst, late, from, now)
  {
    hide Runs, Worth, AllSites, Tours.AllFeasible;
  }

  lemma FirstIsBest(inst: Instance, first: Tour)
    ensures BestOfAll(inst, first, [], first)
  {
    hide Worth, AllSites, TotalLen;
  }
}
