// Variable neighbourhood descent: the five neighbourhoods in turn, back to the first
// after every gain. The deadline may fire at any check, or never.

module Descent {
  import opened Instances
  import opened Schedules
  import opened Tours
  import opened Solutions
  import opened Search
  import opened Moves
  import Insertion
  import TwoOpt
  import Swap
  import Relocate
  import HotelSwap

  // ----- Termination without a clock: finitely many selections of sites are worth more -----

  ghost function Sites(inst: Instance): set<nat> {
    set s | s in inst.siteIds
  }

  ghost function Richer(inst: Instance, score: real): set<set<nat>> {
    set chosen: set<nat> | chosen <= Sites(inst) && Worth(inst, multiset(chosen)) > score
  }

  lemma RicherShrinks(inst: Instance, score: real, tour: Tour)
    requires inst.Valid() && NoRepeat(inst, tour)
    requires Worth(inst, AllSites(inst, tour)) > score
    ensures Richer(inst, Worth(inst, AllSites(inst, tour))) < Richer(inst, score)
  {
    var all := AllSites(inst, tour);
    var chosen := set u | u in all;
    assert multiset(chosen) == all;
    forall u | u in chosen
      ensures u in Sites(inst)
    {
      SitesBeforeAreSites(inst, tour, |tour|, u);
    }
    assert chosen in Richer(inst, score) && chosen !in Richer(inst, Worth(inst, all));
  }

  // ----- What one neighbourhood, and the whole descent, keeps -----

  // The totals are those recomputed from the stops alone.
  ghost predicate Settled(sol: Solution)
    reads sol
  {
    sol.Valid() && sol.TrueSteps() && sol.TrueTotalDist()
  }

  lemma ValidMeans(sol: Solution)
    requires sol.Valid()
    ensures sol.inst.Valid() && NoRepeat(sol.inst, sol.Tour()) && sol.Typed()
    ensures sol.totalScore == Worth(sol.inst, AllSites(sol.inst, sol.Tour()))
  {
    HotelSwap.TypedDays(sol.inst, sol.days);
  }

  method Recount(sol: Solution)
    requires sol.Valid()
    modifies sol`totalScore, sol`totalDist
    ensures sol.Valid() && sol.totalScore == old(sol.totalScore)
    ensures sol.TrueSteps() ==> sol.TrueTotalDist()
  {
    hide Worth, AllSites, WellFormed, TrueLengths;
    HotelSwap.TypedDays(sol.inst, sol.days);
    sol.EvaluateScore();
  }

  // ----- What each neighbourhood does with a plan -----

  ghost predicate InsertedBest(inst: Instance, was: Tour, now: Tour) {
    exists unvisited :: Partition(inst, was, unvisited) && Insertion.BestInserted(inst, was, unvisited, now)
  }

  ghost predicate SwappedBest(inst: Instance, was: Tour, now: Tour) {
    exists unvisited :: Partition(inst, was, unvisited) && Swap.BestSwapped(inst, was, unvisited, now)
  }

  // One best insertion, or one best exchange, after the other.
  ghost predicate Insertions(inst: Instance, trail: seq<Tour>) {
    trail != [] && forall i :: 0 <= i < |trail| - 1 ==> InsertedBest(inst, trail[i], trail[i + 1])
  }

  ghost predicate Exchanges(inst: Instance, trail: seq<Tour>) {
    trail != [] && forall i :: 0 <= i < |trail| - 1 ==> SwappedBest(inst, trail[i], trail[i + 1])
  }

  lemma InsertionsStart(inst: Instance, tour: Tour)
    ensures Insertions(inst, [tour]) && Exchanges(inst, [tour])
  {
  }

  lemma InsertionsOn(inst: Instance, trail: seq<Tour>, unvisited: seq<nat>, now: Tour)
    requires Insertions(inst, trail) && Partition(inst, trail[|trail| - 1], unvisited)
    requires Insertion.BestInserted(inst, trail[|trail| - 1], unvisited, now)
    ensures Insertions(inst, trail + [now])
  {
    hide Partition, Insertion.BestInserted;
    assert InsertedBest(inst, trail[|trail| - 1], now);
    hide InsertedBest;
  }

  lemma ExchangesOn(inst: Instance, trail: seq<Tour>, unvisited: seq<nat>, now: Tour)
    requires Exchanges(inst, trail) && Partition(inst, trail[|trail| - 1], unvisited)
    requires Swap.BestSwapped(inst, trail[|trail| - 1], unvisited, now)
    ensures Exchanges(inst, trail + [now])
  {
    hide Partition, Swap.BestSwapped;
    assert SwappedBest(inst, trail[|trail| - 1], now);
    hide SwappedBest;
  }

  // The same stops in every day, no day longer, and no day with a shorter feasible reversal.
  ghost predicate Untangled(inst: Instance, was: Tour, now: Tour) {
    && |now| == |was|
    && forall d :: 0 <= d < |was| ==>
         && Reordered(inst, was[d], now[d])
         && (now[d] == was[d] || PathLen(inst, now[d]) < PathLen(inst, was[d]))
         && TwoOpt.TwoOptimal(inst, d, now[d], PathLen(inst, now[d]))
  }

  // Random moves, as many as the code makes.
  ghost predicate Relocated(inst: Instance, was: Tour, now: Tour) {
    exists draws, trail: seq<Relocate.Stage> ::
      && |draws| == 2000 && Relocate.Attempts(inst, draws, trail, 2000)
      && trail[0].tour == was && trail[2000].tour == now
  }

  // What neighbourhood k makes of a plan when the clock does not stop it.
  ghost predicate Explored(inst: Instance, k: nat, was: Tour, now: Tour) {
    if k == 0 then
      && Insertion.Saturated(inst, now)
      && exists trail :: Insertions(inst, trail) && trail[0] == was && trail[|trail| - 1] == now
    else if k == 1 then Untangled(inst, was, now)
    else if k == 2 then
      && Swap.SwapOptimal(inst, now)
      && exists trail :: Exchanges(inst, trail) && trail[0] == was && trail[|trail| - 1] == now
    else if k == 3 then Relocated(inst, was, now)
    else HotelSwap.JunctionByJunction(inst, was, now)
  }

  // ----- The neighbourhoods -----

  // The clock against the deadline: it may strike at any test, and then for good.
  class Clock {
    var late: bool

    constructor ()
      ensures !late
    {
      late := false;
    }

    method Strikes() returns (now: bool)
      modifies this
      ensures late <==> now
      ensures old(late) ==> now
    {
      now := *;
      now := now || late;
      late := now;
    }
  }

  // Insertion until nothing fits or time is up; each success shortens the unvisited list.
  method InsertAll(sol: Solution, clock: Clock) returns (expired: bool, ghost trail: seq<Tour>)
    requires sol.Valid() && !clock.late
    modifies sol, clock
    ensures sol.Valid() && Reworked(sol.inst, old(sol.days), sol.days)
    ensures sol.totalScore >= old(sol.totalScore)
    ensures sol.TrueSteps() ==> sol.TrueTotalDist()
    ensures Insertions(sol.inst, trail) && trail[0] == old(sol.Tour()) && trail[|trail| - 1] == sol.Tour()
    ensures expired <==> clock.late
    ensures !expired ==> Insertion.Saturated(sol.inst, sol.Tour())
  {
    hide Worth, AllSites, WellFormed, TrueLengths, Reworked, Partition, FlagsTrue, Instance.Valid, AllTrueLegs,
         TotalLen, Insertion.Saturated, Insertion.CanInsert, Insertion.BestInserted, Insertions;
    ghost var was := sol.days;
    ReworkedRefl(sol.inst, was);
    ValidMeans(sol);
    expired := false;
    trail := [sol.Tour()];
    InsertionsStart(sol.inst, sol.Tour());
    var state := new SearchState(sol);
    while true
      invariant sol.Valid() && state.Synced() && Reworked(sol.inst, was, sol.days)
      invariant sol.totalScore >= old(sol.totalScore) && !expired && !clock.late
      invariant Insertions(sol.inst, trail) && trail != [] && trail[0] == TourOf(was)
      invariant trail[|trail| - 1] == sol.Tour()
      decreases |state.unvisited|
    {
      ghost var before, unvisited := sol.days, state.unvisited;
      var improved := Insertion.BestInsertion(sol, state);
      ReworkedTrans(sol.inst, was, before, sol.days);
      if !improved {
        Insertion.NothingLeft(sol.inst, sol.Tour(), state.unvisited);
        break;
      }
      InsertionsOn(sol.inst, trail, unvisited, sol.Tour());
      trail := trail + [sol.Tour()];
      expired := clock.Strikes();
      if expired {
        break;
      }
    }
    Recount(sol);
  }

  // Swaps until none gains or time is up; each success strictly raises the score.
  method SwapAll(sol: Solution, clock: Clock) returns (expired: bool, ghost trail: seq<Tour>)
    requires sol.Valid() && !clock.late
    modifies sol, clock
    ensures sol.Valid() && Reworked(sol.inst, old(sol.days), sol.days)
    ensures sol.totalScore >= old(sol.totalScore)
    ensures sol.TrueSteps() ==> sol.TrueTotalDist()
    ensures Exchanges(sol.inst, trail) && trail[0] == old(sol.Tour()) && trail[|trail| - 1] == sol.Tour()
    ensures expired <==> clock.late
    ensures !expired ==> Swap.SwapOptimal(sol.inst, sol.Tour())
  {
    hide Worth, AllSites, WellFormed, TrueLengths, Reworked, Partition, FlagsTrue, Instance.Valid, AllTrueLegs,
         TotalLen, Richer, Swap.SwapOptimal, Swap.CanSwap, Swap.BestSwapped, Exchanges;
    ghost var was := sol.days;
    ReworkedRefl(sol.inst, was);
    ValidMeans(sol);
    expired := false;
    trail := [sol.Tour()];
    InsertionsStart(sol.inst, sol.Tour());
    var state := new SearchState(sol);
    while true
      invariant sol.Valid() && state.Synced() && Reworked(sol.inst, was, sol.days)
      invariant sol.totalScore >= old(sol.totalScore) && !expired && !clock.late
      invariant Exchanges(sol.inst, trail) && trail != [] && trail[0] == TourOf(was)
      invariant trail[|trail| - 1] == sol.Tour()
      decreases Richer(sol.inst, sol.totalScore)
    {
      ghost var before, unvisited, score := sol.days, state.unvisited, sol.totalScore;
      var improved := Swap.BestSwap(sol, state);
      ReworkedTrans(sol.inst, was, before, sol.days);
      if !improved {
        Swap.NothingGains(sol.inst, sol.Tour(), state.unvisited);
        break;
      }
      ExchangesOn(sol.inst, trail, unvisited, sol.Tour());
      trail := trail + [sol.Tour()];
      expired := clock.Strikes();
      if expired {
        break;
      }
      ValidMeans(sol);
      RicherShrinks(sol.inst, score, sol.Tour());
    }
    Recount(sol);
  }

  // What the random generator gives: any numbers.
  method Draws(n: nat) returns (draws: seq<Relocate.Draw>)
    ensures |draws| == n
  {
    draws := [];
    while |draws| < n
      invariant |draws| <= n
    {
      var draw: Relocate.Draw := *;
      draws := draws + [draw];
    }
  }

  lemma AllUntangled(inst: Instance, was: seq<DayTour>, now: seq<DayTour>)
    requires TrueLengths(inst, was) && TrueLengths(inst, now) && |now| == |was|
    requires forall d :: 0 <= d < |now| ==> TwoOpt.DayTwoOpted(inst, d, was[d], now[d])
    ensures Untangled(inst, TourOf(was), TourOf(now))
  {
    hide PathLen, TwoOpt.TwoOptimal, Reordered;
    forall d | 0 <= d < |was|
      ensures var p, q := TourOf(was)[d], TourOf(now)[d];
              && Reordered(inst, p, q)
              && (q == p || PathLen(inst, q) < PathLen(inst, p))
              && TwoOpt.TwoOptimal(inst, d, q, PathLen(inst, q))
    {
      assert TwoOpt.DayTwoOpted(inst, d, was[d], now[d]);
    }
  }

  method Neighbourhood(sol: Solution, k: nat, clock: Clock) returns (expired: bool)
    requires sol.Valid() && k < 5 && !clock.late
    modifies sol, clock
    ensures sol.Valid() && Reworked(sol.inst, old(sol.days), sol.days)
    ensures sol.totalScore >= old(sol.totalScore)
    ensures old(Settled(sol)) ==> Settled(sol)
    ensures expired <==> clock.late
    ensures !expired ==> Explored(sol.inst, k, old(sol.Tour()), sol.Tour())
  {
    hide Worth, AllSites, WellFormed, TrueLengths, Reworked, Partition, FlagsTrue, Instance.Valid, AllTrueLegs,
         TotalLen, Insertion.Saturated, Swap.SwapOptimal, Insertions, Exchanges, Relocate.Attempts, Untangled,
         HotelSwap.JunctionByJunction, TwoOpt.DayTwoOpted;
    ghost var was := sol.days;
    ValidMeans(sol);
    expired := false;
    ghost var trail;
    if k == 0 {
      expired, trail := InsertAll(sol, clock);
    } else if k == 1 {
      var _ := TwoOpt.Apply2OptAllDays(sol);
      AllUntangled(sol.inst, was, sol.days);
      Recount(sol);
    } else if k == 2 {
      expired, trail := SwapAll(sol, clock);
    } else if k == 3 {
      var state := new SearchState(sol);
      var draws := Draws(2000);
      var _, stages := Relocate.ApplyRelocate(sol, state, draws);
      assert stages[0].tour == TourOf(was) && stages[2000].tour == sol.Tour();
      Recount(sol);
    } else {
      var _ := HotelSwap.TryHotelSwap(sol);
    }
    ReworkedKeeps(sol.inst, was, sol.days);
  }

  // ----- The whole descent -----

  // One finished run of neighbourhood k, from one plan to the next.
  datatype Run = Run(k: nat, was: Tour, now: Tour)

  ghost predicate Gained(inst: Instance, run: Run) {
    Worth(inst, AllSites(inst, run.now)) > Worth(inst, AllSites(inst, run.was))
  }

  ghost predicate Ran(inst: Instance, run: Run) {
    && run.k < 5
    && Explored(inst, run.k, run.was, run.now)
    && Worth(inst, AllSites(inst, run.now)) >= Worth(inst, AllSites(inst, run.was))
  }

  // Back to the first neighbourhood after a gain, otherwise on to the next.
  ghost function Next(inst: Instance, run: Run): nat {
    if Gained(inst, run) then 0 else run.k + 1
  }

  // Runs one after the other, the first of them insertion; k is the neighbourhood to come.
  ghost predicate Runs(inst: Instance, runs: seq<Run>, was: Tour, now: Tour, k: nat) {
    && (forall i :: 0 <= i < |runs| ==> Ran(inst, runs[i]))
    && (forall i :: 0 <= i < |runs| - 1 ==>
          runs[i + 1].was == runs[i].now && runs[i + 1].k == Next(inst, runs[i]))
    && (if runs == [] then k == 0 && now == was
        else runs[0].k == 0 && runs[0].was == was && runs[|runs| - 1].now == now && k == Next(inst, runs[|runs| - 1]))
  }

  lemma RunsStart(inst: Instance, tour: Tour)
    ensures Runs(inst, [], tour, tour, 0)
  {
  }

  lemma RunsOn(inst: Instance, runs: seq<Run>, was: Tour, mid: Tour, k: nat, now: Tour)
    requires Runs(inst, runs, was, mid, k) && Ran(inst, Run(k, mid, now))
    ensures Runs(inst, runs + [Run(k, mid, now)], was, now, Next(inst, Run(k, mid, now)))
  {
    hide Ran, Next;
    var all := runs + [Run(k, mid, now)];
    forall i | 0 <= i < |all| - 1
      ensures all[i + 1].was == all[i].now && all[i + 1].k == Next(inst, all[i])
    {
      assert all[i] == runs[i];
    }
  }

  lemma BeforeRun(inst: Instance, runs: seq<Run>, was: Tour, now: Tour, k: nat, i: nat)
    requires Runs(inst, runs, was, now, k) && i < |runs| && runs[i].k > 0
    ensures i > 0 && runs[i].was == runs[i - 1].now && runs[i - 1].k == runs[i].k - 1 && !Gained(inst, runs[i - 1])
  {
    assert i > 0 ==> runs[i - 1 + 1].k == Next(inst, runs[i - 1]);
    hide Ran, Gained;
  }

  // The plan after the last pass through all five neighbourhoods, none of which gained.
  ghost predicate Pass(inst: Instance, t0: Tour, t1: Tour, t2: Tour, t3: Tour, t4: Tour) {
    && Insertion.Saturated(inst, t0)
    && Untangled(inst, t0, t1)
    && Swap.SwapOptimal(inst, t2)
    && Relocated(inst, t2, t3)
    && HotelSwap.JunctionByJunction(inst, t3, t4)
    && Worth(inst, AllSites(inst, t0)) == Worth(inst, AllSites(inst, t1)) == Worth(inst, AllSites(inst, t2))
       == Worth(inst, AllSites(inst, t3)) == Worth(inst, AllSites(inst, t4))
  }

  // A descent that no deadline stopped went through a last pass without a gain: saturated
  // by insertion, then 2-optimal in every day, swap-optimal, relocated, every joint tried.
  lemma LastPass(inst: Instance, runs: seq<Run>, was: Tour, now: Tour)
    requires Runs(inst, runs, was, now, 5)
    ensures |runs| >= 5
    ensures var n := |runs|;
            runs[n - 1].now == now
            && Pass(inst, runs[n - 5].now, runs[n - 4].now, runs[n - 3].now, runs[n - 2].now, runs[n - 1].now)
  {
    hide Explored, Gained, Runs;
    var n := |runs|;
    LastRun(inst, runs, was, now);
    BeforeRun(inst, runs, was, now, 5, n - 1);
    BeforeRun(inst, runs, was, now, 5, n - 2);
    BeforeRun(inst, runs, was, now, 5, n - 3);
    BeforeRun(inst, runs, was, now, 5, n - 4);
    NoGain(inst, runs, was, now, n - 5);
    NoGain(inst, runs, was, now, n - 4);
    NoGain(inst, runs, was, now, n - 3);
    NoGain(inst, runs, was, now, n - 2);
    NoGain(inst, runs, was, now, n - 1);
    PassOf(inst, runs[n - 5], runs[n - 4], runs[n - 3], runs[n - 2], runs[n - 1]);
  }

  lemma LastRun(inst: Instance, runs: seq<Run>, was: Tour, now: Tour)
    requires Runs(inst, runs, was, now, 5)
    ensures runs != [] && runs[|runs| - 1].k == 4 && !Gained(inst, runs[|runs| - 1]) && runs[|runs| - 1].now == now
  {
    hide Ran, Gained;
  }

  lemma NoGain(inst: Instance, runs: seq<Run>, was: Tour, now: Tour, i: nat)
    requires Runs(inst, runs, was, now, 5) && i < |runs| && !Gained(inst, runs[i])
    ensures Explored(inst, runs[i].k, runs[i].was, runs[i].now)
    ensures Worth(inst, AllSites(inst, runs[i].now)) == Worth(inst, AllSites(inst, runs[i].was))
  {
    assert Ran(inst, runs[i]);
    hide Explored, Worth, AllSites;
  }

  lemma PassOf(inst: Instance, r0: Run, r1: Run, r2: Run, r3: Run, r4: Run)
    requires r0.k == 0 && r1.k == 1 && r2.k == 2 && r3.k == 3 && r4.k == 4
    requires r1.was == r0.now && r2.was == r1.now && r3.was == r2.now && r4.was == r3.now
    requires Explored(inst, 0, r0.was, r0.now) && Explored(inst, 1, r1.was, r1.now) && Explored(inst, 2, r2.was, r2.now)
    requires Explored(inst, 3, r3.was, r3.now) && Explored(inst, 4, r4.was, r4.now)
    requires Worth(inst, AllSites(inst, r1.now)) == Worth(inst, AllSites(inst, r1.was))
    requires Worth(inst, AllSites(inst, r2.now)) == Worth(inst, AllSites(inst, r2.was))
    requires Worth(inst, AllSites(inst, r3.now)) == Worth(inst, AllSites(inst, r3.was))
    requires Worth(inst, AllSites(inst, r4.now)) == Worth(inst, AllSites(inst, r4.was))
    ensures Pass(inst, r0.now, r1.now, r2.now, r3.now, r4.now)
  {
    hide Worth, AllSites, Insertion.Saturated, Untangled, Swap.SwapOptimal, Relocated, HotelSwap.JunctionByJunction;
  }

  // One run and what it means for the loop.
  lemma RunOf(inst: Instance, k: nat, was: Tour, now: Tour, score: real, score': real)
    requires k < 5 && Explored(inst, k, was, now) && score' >= score
    requires score == Worth(inst, AllSites(inst, was)) && score' == Worth(inst, AllSites(inst, now))
    ensures Ran(inst, Run(k, was, now)) && Next(inst, Run(k, was, now)) == if score' > score then 0 else k + 1
  {
    hide Explored, Worth, AllSites;
  }

  method ApplyVND(sol: Solution, clock: Clock) returns (expired: bool, ghost runs: seq<Run>)
    requires sol.Valid()
    modifies sol, clock
    ensures sol.Valid() && Reworked(sol.inst, old(sol.days), sol.days)
    ensures sol.totalScore >= old(sol.totalScore)
    ensures old(sol.AllFeasible()) ==> sol.AllFeasible()
    ensures old(Settled(sol)) ==> Settled(sol)
    ensures (expired <==> clock.late) && (old(clock.late) ==> clock.late)
    ensures !expired ==> Runs(sol.inst, runs, old(sol.Tour()), sol.Tour(), 5)
  {
    hide Worth, AllSites, WellFormed, TrueLengths, Reworked, Instance.Valid, AllTrueLegs, TotalLen, Richer, AllFeasible,
         Explored, Runs, Ran, Next;
    ghost var was := sol.days;
    ReworkedRefl(sol.inst, was);
    var k := 0;
    expired, runs := false, [];
    RunsStart(sol.inst, sol.Tour());
    while k < 5
      invariant 0 <= k <= 5
      invariant sol.Valid() && Reworked(sol.inst, was, sol.days)
      invariant sol.totalScore >= old(sol.totalScore)
      invariant old(Settled(sol)) ==> Settled(sol)
      invariant (expired ==> clock.late) && (old(clock.late) ==> clock.late)
      invariant k > 0 && !expired ==> !clock.late
      invariant !expired ==> Runs(sol.inst, runs, TourOf(was), sol.Tour(), k)
      decreases Richer(sol.inst, sol.totalScore), 5 - k
    {
      var late := clock.Strikes();
      if late {
        expired := true;
        break;
      }
      ghost var before := sol.days;
      var oldScore := sol.totalScore;
      ValidMeans(sol);
      var stopped := Neighbourhood(sol, k, clock);
      expired := expired || stopped;
      ReworkedTrans(sol.inst, was, before, sol.days);
      ValidMeans(sol);
      if !expired {
        RunOf(sol.inst, k, TourOf(before), sol.Tour(), oldScore, sol.totalScore);
        RunsOn(sol.inst, runs, TourOf(was), TourOf(before), k, sol.Tour());
        runs := runs + [Run(k, TourOf(before), sol.Tour())];
      }
      if sol.totalScore > oldScore {
        RicherShrinks(sol.inst, oldScore, sol.Tour());
        k := 0;
      } else {
        k := k + 1;
      }
    }
    ReworkedKeeps(sol.inst, was, sol.days);
  }
}
