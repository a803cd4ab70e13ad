// Neighbourhood 5, hotel swap: change the hotel where two consecutive days meet.

module HotelSwap {
  import opened Instances
  import opened Schedules
  import opened Tours
  import opened Solutions
  import opened Moves

  // ----- Changing the hotel of a junction -----

  function WithEnd(pts: seq<nat>, h: nat): seq<nat>
    requires |pts| >= 2
  {
    pts[|pts| - 1 := h]
  }

  function WithStart(pts: seq<nat>, h: nat): seq<nat>
    requires |pts| >= 2
  {
    pts[0 := h]
  }

  function WithJunction(tour: Tour, d: nat, h: nat): Tour
    requires d + 1 < |tour| && |tour[d]| >= 2 && |tour[d + 1]| >= 2
  {
    tour[d := WithEnd(tour[d], h)][d + 1 := WithStart(tour[d + 1], h)]
  }

  lemma EndShape(inst: Instance, pts: seq<nat>, h: nat)
    requires DayShape(inst, pts) && inst.IsHotel(h)
    ensures DayShape(inst, WithEnd(pts, h)) && inst.ArePoints(WithEnd(pts, h))
    ensures First(WithEnd(pts, h)) == First(pts) && Last(WithEnd(pts, h)) == h
    ensures SitesOf(inst, WithEnd(pts, h)) == SitesOf(inst, pts)
  {
    SitesOfHotelChange(inst, pts, |pts| - 1, h);
    ShapePoints(inst, WithEnd(pts, h));
  }

  lemma StartShape(inst: Instance, pts: seq<nat>, h: nat)
    requires DayShape(inst, pts) && inst.IsHotel(h)
    ensures DayShape(inst, WithStart(pts, h)) && inst.ArePoints(WithStart(pts, h))
    ensures First(WithStart(pts, h)) == h && Last(WithStart(pts, h)) == Last(pts)
    ensures SitesOf(inst, WithStart(pts, h)) == SitesOf(inst, pts)
  {
    SitesOfHotelChange(inst, pts, 0, h);
    ShapePoints(inst, WithStart(pts, h));
  }

  lemma SameSites(inst: Instance, tour: Tour, d: nat, pts: seq<nat>)
    requires d < |tour| && SitesOf(inst, pts) == SitesOf(inst, tour[d])
    ensures AllSites(inst, tour[d := pts]) == AllSites(inst, tour)
  {
    AllSitesUpdate(inst, tour, d, pts);
    CancelSame(AllSites(inst, tour[d := pts]), SitesOf(inst, pts), AllSites(inst, tour));
  }

  // The two days still meet, and no other day notices.
  lemma JunctionKeeps(inst: Instance, tour: Tour, d: nat, h: nat)
    requires WellFormed(inst, tour) && d + 1 < |tour| && inst.IsHotel(h)
    ensures WellFormed(inst, WithJunction(tour, d, h))
    ensures AllSites(inst, WithJunction(tour, d, h)) == AllSites(inst, tour)
  {
    hide SitesOf, AllSites;
    EndShape(inst, tour[d], h);
    StartShape(inst, tour[d + 1], h);
    var mid := tour[d := WithEnd(tour[d], h)];
    SameSites(inst, tour, d, WithEnd(tour[d], h));
    SameSites(inst, mid, d + 1, WithStart(tour[d + 1], h));
    var now := WithJunction(tour, d, h);
    forall e: nat
      ensures ChainedAt(now, e)
    {
      assert ChainedAt(tour, e);
    }
  }

  // ----- The last improving hotel -----

  ghost predicate ImprovingHotel(inst: Instance, tour: Tour, d: nat, h: nat) {
    && d + 1 < |tour| && |tour[d]| >= 2 && |tour[d + 1]| >= 2
    && h != Last(tour[d])
    && Feasible(inst, d, WithEnd(tour[d], h))
    && Feasible(inst, d + 1, WithStart(tour[d + 1], h))
    && PathLen(inst, WithEnd(tour[d], h)) + PathLen(inst, WithStart(tour[d + 1], h))
       < PathLen(inst, tour[d]) + PathLen(inst, tour[d + 1])
  }

  // Position k of the hotel list holds the last improving hotel among the first n.
  ghost predicate LastImproving(inst: Instance, tour: Tour, d: nat, n: nat, k: nat)
    requires n <= |inst.hotelIds|
  {
    && k < n
    && ImprovingHotel(inst, tour, d, inst.hotelIds[k])
    && forall j :: k < j < n ==> !ImprovingHotel(inst, tour, d, inst.hotelIds[j])
  }

  ghost predicate NoneImproving(inst: Instance, tour: Tour, d: nat, n: nat)
    requires n <= |inst.hotelIds|
  {
    forall j :: 0 <= j < n ==> !ImprovingHotel(inst, tour, d, inst.hotelIds[j])
  }

  method FindHotel(inst: Instance, days: seq<DayTour>, d: nat) returns (best: int)
    requires inst.Valid() && WellFormed(inst, TourOf(days)) && TrueLengths(inst, days) && d + 1 < |days|
    ensures best < |inst.hotelIds|
    ensures best >= 0 ==> LastImproving(inst, TourOf(days), d, |inst.hotelIds|, best)
    ensures best < 0 ==> NoneImproving(inst, TourOf(days), d, |inst.hotelIds|)
  {
    hide Feasible, PathLen, DayShape, TrueLengths, WellFormed, Instance.Metric, Instance.Sane, TourOf, Ids, SitesOf;
    ghost var tour := TourOf(days);
    DayFacts(inst, days, d);
    DayFacts(inst, days, d + 1);
    var ptsD, ptsN := Ids(days[d].steps), Ids(days[d + 1].steps);
    ShapeSize(inst, ptsD);
    ShapeSize(inst, ptsN);
    var currentHotelID := ptsD[|ptsD| - 1];
    best := -1;
    var k := 0;
    while k < |inst.hotelIds|
      invariant 0 <= k <= |inst.hotelIds| && best < k
      invariant best >= 0 ==> LastImproving(inst, tour, d, k, best)
      invariant best < 0 ==> NoneImproving(inst, tour, d, k)
    {
      var hID := inst.hotelIds[k];
      assert hID in inst.hotelIds;
      if hID != currentHotelID {
        EndShape(inst, ptsD, hID);
        StartShape(inst, ptsN, hID);
        var feasD, distD := EvalDayFast(inst, d, ptsD[|ptsD| - 1 := hID]);
        if feasD {
          var feasN, distN := EvalDayFast(inst, d + 1, ptsN[0 := hID]);
          if feasN && distD + distN < days[d].distTotal + days[d + 1].distTotal {
            best := k;
          }
        }
      }
      k := k + 1;
    }
  }

  lemma ShapeSize(inst: Instance, pts: seq<nat>)
    requires DayShape(inst, pts)
    ensures |pts| >= 2
  {
  }

  // ----- One junction -----

  lemma RetimedJunction(inst: Instance, days: seq<DayTour>, d: nat, h: nat)
    requires WellFormed(inst, TourOf(days)) && TrueLengths(inst, days) && inst.IsHotel(h)
    requires d + 1 < |days| && |days[d].steps| >= 2 && |days[d + 1].steps| >= 2
    requires Feasible(inst, d, WithEnd(Ids(days[d].steps), h))
    requires Feasible(inst, d + 1, WithStart(Ids(days[d + 1].steps), h))
    ensures var now := days[d := Retimed(inst, days[d], WithEnd(Ids(days[d].steps), h))]
                           [d + 1 := Retimed(inst, days[d + 1], WithStart(Ids(days[d + 1].steps), h))];
            && TourOf(now) == WithJunction(TourOf(days), d, h)
            && WellFormed(inst, TourOf(now)) && TrueLengths(inst, now) && Reworked(inst, days, now)
            && AllSites(inst, TourOf(now)) == AllSites(inst, TourOf(days))
  {
    hide AllSites, WellFormed, Feasible, PathLen, TrueLegs;
    JunctionKeeps(inst, TourOf(days), d, h);
    var ptsD, ptsN := WithEnd(Ids(days[d].steps), h), WithStart(Ids(days[d + 1].steps), h);
    var mid := days[d := Retimed(inst, days[d], ptsD)];
    RetimedTour(inst, days, d, ptsD);
    RetimedTour(inst, mid, d + 1, ptsN);
    TimetableTrueLegs(inst, ptsD);
    TimetableTrueLegs(inst, ptsN);
    var now := mid[d + 1 := Retimed(inst, days[d + 1], ptsN)];
    forall e | 0 <= e < |days|
      ensures DayReworked(inst, days, now, e)
      ensures now[e].distTotal == PathLen(inst, Ids(now[e].steps))
    {
    }
  }

  lemma {:induction false} TotalLenUpdate(inst: Instance, tour: Tour, d: nat, pts: seq<nat>, n: nat)
    requires d < |tour| && n <= |tour|
    ensures TotalLen(inst, tour[d := pts], n)
         == TotalLen(inst, tour, n) + (if d < n then PathLen(inst, pts) - PathLen(inst, tour[d]) else 0.0)
  {
    if n > 0 {
      TotalLenUpdate(inst, tour, d, pts, n - 1);
    }
  }

  lemma JunctionShortens(inst: Instance, tour: Tour, d: nat, h: nat)
    requires ImprovingHotel(inst, tour, d, h)
    ensures TotalLen(inst, WithJunction(tour, d, h), |tour|) < TotalLen(inst, tour, |tour|)
  {
    var mid := tour[d := WithEnd(tour[d], h)];
    TotalLenUpdate(inst, tour, d, WithEnd(tour[d], h), |tour|);
    TotalLenUpdate(inst, mid, d + 1, WithStart(tour[d + 1], h), |tour|);
  }

  ghost predicate JunctionSwapped(inst: Instance, was: Tour, d: nat, now: Tour) {
    exists k: nat :: LastImproving(inst, was, d, |inst.hotelIds|, k)
                  && now == WithJunction(was, d, inst.hotelIds[k])
  }

  method SwapJunction(sol: Solution, d: nat) returns (improved: bool)
    requires sol.Valid() && d + 1 < |sol.days|
    modifies sol`days
    ensures sol.Valid() && Reworked(sol.inst, old(sol.days), sol.days)
    ensures AllSites(sol.inst, sol.Tour()) == old(AllSites(sol.inst, sol.Tour()))
    ensures improved <==> !NoneImproving(sol.inst, old(sol.Tour()), d, |sol.inst.hotelIds|)
    ensures improved ==> JunctionSwapped(sol.inst, old(sol.Tour()), d, sol.Tour())
    ensures improved ==>
      TotalLen(sol.inst, sol.Tour(), |sol.Tour()|) < old(TotalLen(sol.inst, sol.Tour(), |sol.Tour()|))
    ensures !improved ==> unchanged(sol)
  {
    hide AllSites, Worth, TrueLengths, WellFormed, Reworked, Feasible, PathLen, Instance.Valid, TotalLen, DayShape,
         SitesOf;
    var inst := sol.inst;
    ghost var was := sol.Tour();
    ReworkedRefl(inst, sol.days);
    var k := FindHotel(inst, sol.days, d);
    if k < 0 {
      return false;
    }
    assert LastImproving(inst, was, d, |inst.hotelIds|, k);
    var bestHotel := inst.hotelIds[k];
    HotelListed(inst, k);
    DayFacts(inst, sol.days, d);
    DayFacts(inst, sol.days, d + 1);
    var ptsD, ptsN := Ids(sol.days[d].steps), Ids(sol.days[d + 1].steps);
    EndShape(inst, ptsD, bestHotel);
    StartShape(inst, ptsN, bestHotel);
    JunctionShortens(inst, was, d, bestHotel);
    RetimedJunction(inst, sol.days, d, bestHotel);
    var _, distD, stepsD := EvalDay(inst, d, ptsD[|ptsD| - 1 := bestHotel]);
    var _, distN, stepsN := EvalDay(inst, d + 1, ptsN[0 := bestHotel]);
    sol.days := sol.days[d := sol.days[d].(steps := stepsD, distTotal := distD)];
    sol.days := sol.days[d + 1 := sol.days[d + 1].(steps := stepsN, distTotal := distN)];
    return true;
  }

  lemma HotelListed(inst: Instance, k: nat)
    requires inst.Valid() && k < |inst.hotelIds|
    ensures inst.IsHotel(inst.hotelIds[k])
  {
    assert inst.hotelIds[k] in inst.hotelIds;
  }

  // ----- All junctions -----

  // Junction d has been dealt with: the last improving hotel there, or none improves.
  ghost predicate JunctionTried(inst: Instance, was: Tour, d: nat, now: Tour) {
    JunctionSwapped(inst, was, d, now) || (NoneImproving(inst, was, d, |inst.hotelIds|) && now == was)
  }

  // The plans from one junction to the next, first to last.
  ghost predicate Junctions(inst: Instance, trail: seq<Tour>, n: nat) {
    && |trail| == n + 1
    && forall d :: 0 <= d < n ==> JunctionTried(inst, trail[d], d, trail[d + 1])
  }

  // Every junction in turn, from one plan to the other.
  ghost predicate JunctionByJunction(inst: Instance, was: Tour, now: Tour) {
    exists trail :: Junctions(inst, trail, if |was| == 0 then 0 else |was| - 1) && trail[0] == was
                 && trail[|trail| - 1] == now
  }

  lemma NextJunction(inst: Instance, trail: seq<Tour>, n: nat, now: Tour)
    requires Junctions(inst, trail, n) && JunctionTried(inst, trail[n], n, now)
    ensures Junctions(inst, trail + [now], n + 1)
  {
    hide JunctionTried;
  }

  method SwapEach(sol: Solution) returns (improved: bool)
    requires sol.Valid()
    modifies sol`days
    ensures sol.Valid() && Reworked(sol.inst, old(sol.days), sol.days)
    ensures AllSites(sol.inst, sol.Tour()) == old(AllSites(sol.inst, sol.Tour()))
    ensures JunctionByJunction(sol.inst, old(sol.Tour()), sol.Tour())
    ensures TotalLen(sol.inst, sol.Tour(), |sol.Tour()|) <= old(TotalLen(sol.inst, sol.Tour(), |sol.Tour()|))
    ensures improved ==>
      TotalLen(sol.inst, sol.Tour(), |sol.Tour()|) < old(TotalLen(sol.inst, sol.Tour(), |sol.Tour()|))
    ensures !improved ==> sol.days == old(sol.days)
  {
    hide AllSites, Worth, WellFormed, TrueLengths, Reworked, TotalLen, JunctionTried, Junctions, JunctionByJunction,
         NoneImproving, JunctionSwapped, Instance.Valid;
    var inst := sol.inst;
    ghost var was := sol.days;
    ReworkedRefl(inst, was);
    ghost var trail: seq<Tour> := [sol.Tour()];
    FirstJunction(inst, sol.Tour());
    improved := false;
    var d := 0;
    while d < |sol.days| - 1
      invariant 0 <= d && (d == 0 || d <= |sol.days| - 1)
      invariant sol.Valid() && Reworked(inst, was, sol.days) && |sol.days| == |was|
      invariant |trail| == d + 1 && trail[0] == TourOf(was) && trail[d] == sol.Tour() && Junctions(inst, trail, d)
      invariant AllSites(inst, sol.Tour()) == AllSites(inst, TourOf(was))
      invariant TotalLen(inst, sol.Tour(), |sol.Tour()|) <= TotalLen(inst, TourOf(was), |TourOf(was)|)
      invariant improved ==> TotalLen(inst, sol.Tour(), |sol.Tour()|) < TotalLen(inst, TourOf(was), |TourOf(was)|)
      invariant !improved ==> sol.days == was
      decreases |sol.days| - d
    {
      ghost var before := sol.days;
      var swapped := SwapJunction(sol, d);
      ReworkedTrans(inst, was, before, sol.days);
      ReworkedSize(inst, before, sol.days);
      TriedNow(inst, TourOf(before), d, sol.Tour(), swapped);
      NextJunction(inst, trail, d, sol.Tour());
      trail := trail + [sol.Tour()];
      improved := improved || swapped;
      d := d + 1;
    }
    AllJunctions(inst, trail, TourOf(was), sol.Tour());
  }

  lemma AllJunctions(inst: Instance, trail: seq<Tour>, was: Tour, now: Tour)
    requires Junctions(inst, trail, if |was| == 0 then 0 else |was| - 1)
    requires trail != [] && trail[0] == was && trail[|trail| - 1] == now
    ensures JunctionByJunction(inst, was, now)
  {
  }

  method TryHotelSwap(sol: Solution) returns (improved: bool)
    requires sol.Valid()
    modifies sol`days, sol`totalScore, sol`totalDist
    ensures sol.Valid() && Reworked(sol.inst, old(sol.days), sol.days)
    ensures AllSites(sol.inst, sol.Tour()) == old(AllSites(sol.inst, sol.Tour()))
    ensures JunctionByJunction(sol.inst, old(sol.Tour()), sol.Tour())
    ensures sol.totalScore == old(sol.totalScore)
    ensures TotalLen(sol.inst, sol.Tour(), |sol.Tour()|) <= old(TotalLen(sol.inst, sol.Tour(), |sol.Tour()|))
    ensures improved ==>
      TotalLen(sol.inst, sol.Tour(), |sol.Tour()|) < old(TotalLen(sol.inst, sol.Tour(), |sol.Tour()|))
    ensures !improved ==> sol.days == old(sol.days)
    ensures sol.inst.nbDays <= 1 ==> unchanged(sol)
    ensures sol.inst.nbDays > 1 && sol.TrueSteps() ==> sol.TrueTotalDist()
  {
    hide AllSites, Worth, WellFormed, TrueLengths, Reworked, TotalLen, AllTrueLegs, JunctionByJunction,
         Instance.Metric, Instance.Sane;
    var inst := sol.inst;
    if inst.nbDays <= 1 {
      ReworkedRefl(inst, sol.days);
      OneDay(inst, sol.Tour());
      return false;
    }
    improved := SwapEach(sol);
    TypedDays(inst, sol.days);
    sol.EvaluateScore();
  }

  lemma OneDay(inst: Instance, tour: Tour)
    requires WellFormed(inst, tour) && inst.nbDays <= 1
    ensures JunctionByJunction(inst, tour, tour)
  {
    FirstJunction(inst, tour);
    AllJunctions(inst, [tour], tour, tour);
  }

  lemma FirstJunction(inst: Instance, tour: Tour)
    ensures Junctions(inst, [tour], 0)
  {
  }

  lemma TriedNow(inst: Instance, was: Tour, d: nat, now: Tour, swapped: bool)
    requires swapped <==> !NoneImproving(inst, was, d, |inst.hotelIds|)
    requires if swapped then JunctionSwapped(inst, was, d, now) else now == was
    ensures JunctionTried(inst, was, d, now)
  {
  }

  lemma WellFormedSize(inst: Instance, tour: Tour)
    requires WellFormed(inst, tour)
    ensures |tour| == inst.nbDays
  {
  }

  lemma TypedDays(inst: Instance, days: seq<DayTour>)
    requires WellFormed(inst, TourOf(days))
    ensures forall d :: 0 <= d < |days| ==> inst.ArePoints(Ids(days[d].steps))
  {
    forall d | 0 <= d < |days|
      ensures inst.ArePoints(Ids(days[d].steps))
    {
      assert DayShape(inst, TourOf(days)[d]);
      ShapePoints(inst, Ids(days[d].steps));
    }
  }
}
