// The four strengths of shaking, and exactly when the one that changes a hotel keeps
// every day within its budget.

module ShakeForces {
  import opened Instances
  import opened Schedules
  import opened Tours
  import opened Solutions
  import opened HotelSwap
  import opened Shake
  import opened Wrappers
  import Relocate

  // ----- Force 2: a new hotel at one junction, both days emptied -----

  lemma TwoStopsFeasible(inst: Instance, d: nat, a: nat, b: nat)
    requires inst.IsHotel(a) && inst.IsHotel(b)
    ensures Feasible(inst, d, [a, b]) <==> inst.D(a, b) <= inst.DayMaxDist(d)
  {
    var q := [a, b];
    assert Arrive(inst, q, 0) == Depart(inst, q, 0) == 0.0;
    assert Depart(inst, q, 1) == Arrive(inst, q, 1) == inst.D(a, b);
    assert WindowAt(inst, q, 0) && WindowAt(inst, q, 1);
  }

  function Rejoined(tour: Tour, j: nat, h: nat): Tour
    requires j + 1 < |tour|
  {
    tour[j := [First(tour[j]), h]][j + 1 := [h, Last(tour[j + 1])]]
  }

  lemma RejoinedKeeps(inst: Instance, tour: Tour, j: nat, h: nat)
    requires inst.Valid() && WellFormed(inst, tour) && j + 1 < |tour| && inst.IsHotel(h)
    ensures WellFormed(inst, Rejoined(tour, j, h))
    ensures AllSites(inst, Rejoined(tour, j, h)) <= AllSites(inst, tour)
  {
    hide AllSites, SitesOf, Feasible, PathLen, Instance.Valid;
    JunctionKeeps(inst, tour, j, h);
    var mid := WithJunction(tour, j, h);
    EndShape(inst, tour[j], h);
    StartShape(inst, tour[j + 1], h);
    EmptiedThinner(inst, j, mid[j]);
    EmptiedThinner(inst, j + 1, mid[j + 1]);
    var one := mid[j := Emptied(mid[j])];
    ShrinkCounts(inst, mid, j, Emptied(mid[j]));
    ReplaceDay(inst, mid, j, Emptied(mid[j]));
    ShrinkCounts(inst, one, j + 1, Emptied(mid[j + 1]));
    ReplaceDay(inst, one, j + 1, Emptied(mid[j + 1]));
    assert Rejoined(tour, j, h) == one[j + 1 := Emptied(mid[j + 1])];
  }

  // Whether the two emptied days reach and leave the new hotel in time.
  ghost predicate HotelInReach(inst: Instance, tour: Tour, j: nat, h: nat)
    requires j + 1 < |tour|
  {
    && inst.D(First(tour[j]), h) <= inst.DayMaxDist(j)
    && inst.D(h, Last(tour[j + 1])) <= inst.DayMaxDist(j + 1)
  }

  lemma RejoinedFeasible(inst: Instance, tour: Tour, j: nat, h: nat)
    requires inst.Valid() && WellFormed(inst, tour) && j + 1 < |tour| && inst.IsHotel(h)
    requires AllFeasible(inst, tour)
    ensures AllFeasible(inst, Rejoined(tour, j, h)) <==> HotelInReach(inst, tour, j, h)
  {
    hide Feasible, Instance.Valid, NoRepeat;
    var now := Rejoined(tour, j, h);
    assert DayShape(inst, tour[j]) && DayShape(inst, tour[j + 1]);
    TwoStopsFeasible(inst, j, First(tour[j]), h);
    TwoStopsFeasible(inst, j + 1, h, Last(tour[j + 1]));
    assert now[j] == [First(tour[j]), h] && now[j + 1] == [h, Last(tour[j + 1])];
  }

  method RejoinDays(sol: Solution, j: nat, newHotel: nat)
    requires sol.inst.Valid() && WellFormed(sol.inst, sol.Tour()) && TrueLengths(sol.inst, sol.days)
    requires j + 1 < |sol.days| && sol.inst.IsHotel(newHotel)
    modifies sol`days
    ensures sol.Tour() == Rejoined(old(sol.Tour()), j, newHotel)
    ensures forall e :: 0 <= e < |sol.days| ==> sol.days[e].timeTotal == old(sol.days)[e].timeTotal
    ensures var was, now := old(sol.days), sol.days;
            && |was[j].steps| >= 2 && |was[j + 1].steps| >= 2
            && now[j].steps == [was[j].steps[0], was[j].steps[|was[j].steps| - 1].(pointId := newHotel)]
            && now[j + 1].steps
               == [was[j + 1].steps[0].(pointId := newHotel), was[j + 1].steps[|was[j + 1].steps| - 1]]
            && forall e :: 0 <= e < |was| && e != j && e != j + 1 ==> now[e] == was[e]
    ensures WellFormed(sol.inst, sol.Tour()) && TrueLengths(sol.inst, sol.days)
    ensures AllSites(sol.inst, sol.Tour()) <= old(AllSites(sol.inst, sol.Tour()))
    ensures old(AllFeasible(sol.inst, sol.Tour())) ==>
      (AllFeasible(sol.inst, sol.Tour()) <==> HotelInReach(sol.inst, old(sol.Tour()), j, newHotel))
  {
    hide WellFormed, Instance.Valid, AllSites, AllFeasible, Feasible, PathLen, HotelInReach;
    var inst := sol.inst;
    ghost var was := sol.Tour();
    DayFacts(inst, sol.days, j);
    DayFacts(inst, sol.days, j + 1);
    var stepsD, stepsN := sol.days[j].steps, sol.days[j + 1].steps;
    EndShape(inst, Ids(stepsD), newHotel);
    StartShape(inst, Ids(stepsN), newHotel);
    var n := |stepsD| - 1;
    stepsD := stepsD[n := stepsD[n].(pointId := newHotel)];
    stepsN := stepsN[0 := stepsN[0].(pointId := newHotel)];
    assert Ids(stepsD) == WithEnd(was[j], newHotel);
    assert Ids(stepsN) == WithStart(was[j + 1], newHotel);
    var dayD := ClearDay(inst, sol.days[j].(steps := stepsD));
    var dayN := ClearDay(inst, sol.days[j + 1].(steps := stepsN));
    EmptiedFacts(inst, Ids(stepsD));
    EmptiedFacts(inst, Ids(stepsN));
    sol.days := sol.days[j := dayD];
    sol.days := sol.days[j + 1 := dayN];
    assert sol.Tour() == Rejoined(was, j, newHotel);
    RejoinedKeeps(inst, was, j, newHotel);
    if AllFeasible(inst, was) {
      RejoinedFeasible(inst, was, j, newHotel);
    }
  }

  method CountSites(inst: Instance, days: seq<DayTour>) returns (total: nat)
    requires forall d :: 0 <= d < |days| ==> inst.ArePoints(Ids(days[d].steps))
    ensures total == |AllSites(inst, TourOf(days))|
  {
    hide SitesOf;
    total := 0;
    var d := 0;
    while d < |days|
      invariant 0 <= d <= |days|
      invariant total == |SitesBefore(inst, TourOf(days), d)|
    {
      var steps := days[d].steps;
      ghost var pts, before := Ids(steps), total;
      NoStops(inst, pts);
      var k := 0;
      while k < |steps|
        invariant 0 <= k <= |steps|
        invariant total == before + |SitesOf(inst, pts[..k])|
      {
        OneStop(inst, pts, k);
        if inst.points[steps[k].pointId].kind.Site? {
          total := total + 1;
        }
        k := k + 1;
      }
      assert pts[..k] == TourOf(days)[d];
      d := d + 1;
    }
  }

  lemma NoStops(inst: Instance, pts: seq<nat>)
    ensures |SitesOf(inst, pts[..0])| == 0
  {
  }

  lemma OneStop(inst: Instance, pts: seq<nat>, k: nat)
    requires k < |pts|
    ensures |SitesOf(inst, pts[..k + 1])| == |SitesOf(inst, pts[..k])| + (if inst.IsSite(pts[k]) then 1 else 0)
  {
    assert pts[..k + 1][..k] == pts[..k];
  }

  // ----- All forces -----

  // The random numbers of one shake, each to be reduced to the range asked for.
  datatype Luck = Luck(rng: Random, extra: nat, joint: nat, hotel: nat, day: nat)

  // What a shake did: the visited positions it took out, the joint it moved and the hotel
  // it moved it to, the day it emptied.
  datatype Deed = Deed(chosen: seq<(nat, nat)>, joint: Option<(nat, nat)>, emptied: Option<nat>)

  // Days j and j + 1 meet at hotel h and are empty.
  ghost predicate JointMoved(inst: Instance, was: Tour, now: Tour, j: nat, h: nat) {
    && j + 1 < |was| == |now|
    && inst.IsHotel(h)
    && now[j] == [First(was[j]), h]
    && now[j + 1] == [h, Last(was[j + 1])]
  }

  predicate NearJoint(d: nat, joint: Option<(nat, nat)>) {
    joint.Some? && (d == joint.value.0 || d == joint.value.0 + 1)
  }

  // The joint that is moved, if there is one and a choice of hotels.
  ghost function MovedJoint(inst: Instance, luck: Luck): Option<(nat, nat)> {
    if inst.nbDays > 1 && |inst.hotelIds| > 1
    then Some((luck.joint % (inst.nbDays - 1), inst.hotelIds[luck.hotel % |inst.hotelIds|]))
    else None
  }

  // Force 2: the joint is moved, away from it exactly the chosen sites are gone.
  ghost predicate Rehoused(inst: Instance, was: seq<DayTour>, now: seq<DayTour>, deed: Deed) {
    && |now| == |was|
    && (deed.joint.Some? ==> JointMoved(inst, TourOf(was), TourOf(now), deed.joint.value.0, deed.joint.value.1))
    && forall d :: 0 <= d < |was| && !NearJoint(d, deed.joint) ==> DayRemoved(was[d], now[d], deed.chosen, d)
  }

  // The condition under which force 2 keeps a feasible plan feasible, on the plan before.
  ghost predicate JointInReach(inst: Instance, was: Tour, joint: Option<(nat, nat)>) {
    joint.Some? && joint.value.0 + 1 < |was| ==> HotelInReach(inst, was, joint.value.0, joint.value.1)
  }

  function ForceTwoCount(total: nat): nat {
    if total / 8 < 3 then 3 else total / 8
  }

  lemma ReachBefore(inst: Instance, was: Tour, mid: Tour, j: nat, h: nat)
    requires SameEnds(was, mid) && j + 1 < |was|
    ensures HotelInReach(inst, mid, j, h) <==> HotelInReach(inst, was, j, h)
  {
  }

  lemma RehousedBy(inst: Instance, was: seq<DayTour>, mid: seq<DayTour>, now: seq<DayTour>, deed: Deed)
    requires Removed(was, mid, deed.chosen) && SameEnds(TourOf(was), TourOf(mid))
    requires match deed.joint
             case None => now == mid
             case Some((j, h)) => j + 1 < |mid| && inst.IsHotel(h) && |now| == |mid|
                                  && TourOf(now) == Rejoined(TourOf(mid), j, h)
    ensures Rehoused(inst, was, now, deed)
  {
    forall d | 0 <= d < |was| && !NearJoint(d, deed.joint)
      ensures DayRemoved(was[d], now[d], deed.chosen, d)
    {
      assert DayRemoved(was[d], mid[d], deed.chosen, d);
      assert TourOf(now)[d] == TourOf(mid)[d];
    }
  }

  method ShakeTwo(sol: Solution, luck: Luck) returns (ghost deed: Deed)
    requires sol.inst.Valid() && WellFormed(sol.inst, sol.Tour()) && TrueLengths(sol.inst, sol.days)
    modifies sol`days
    ensures WellFormed(sol.inst, sol.Tour()) && TrueLengths(sol.inst, sol.days)
    ensures AllSites(sol.inst, sol.Tour()) <= old(AllSites(sol.inst, sol.Tour()))
    ensures Picked(sol.inst, old(sol.Tour()), deed.chosen, ForceTwoCount(old(|AllSites(sol.inst, sol.Tour())|)))
    ensures DrawnFrom(sol.inst, old(sol.Tour()), deed.chosen,
                      ForceTwoCount(old(|AllSites(sol.inst, sol.Tour())|)), luck.rng)
    ensures Rehoused(sol.inst, old(sol.days), sol.days, deed) && deed.joint == MovedJoint(sol.inst, luck)
    ensures old(AllFeasible(sol.inst, sol.Tour())) ==>
      (AllFeasible(sol.inst, sol.Tour()) <==> JointInReach(sol.inst, old(sol.Tour()), deed.joint))
  {
    hide WellFormed, AllSites, AllFeasible, Instance.Metric, Instance.Sane, Picked, Destroyed, HotelInReach, Removed,
         TrueLengths, SameEnds, Rehoused, DrawnFrom;
    var inst := sol.inst;
    ghost var was := sol.days;
    TypedDays(inst, was);
    WellFormedSize(inst, sol.Tour());
    var totalSites := CountSites(inst, sol.days);
    var nbRemove := totalSites / 8;
    if nbRemove < 3 {
      nbRemove := 3;
    }
    ghost var chosen := RemoveSitesRandom(sol, nbRemove, luck.rng);
    ghost var mid := sol.days;
    DestroyedMeans(inst, was, mid);
    deed := Deed(chosen, None, None);
    if inst.nbDays > 1 && |inst.hotelIds| > 1 {
      var j := luck.joint % (inst.nbDays - 1);
      var k := luck.hotel % |inst.hotelIds|;
      HotelListed(inst, k);
      RejoinDays(sol, j, inst.hotelIds[k]);
      deed := Deed(chosen, Some((j, inst.hotelIds[k])), None);
      ReachBefore(inst, TourOf(was), TourOf(mid), j, inst.hotelIds[k]);
    }
    RehousedBy(inst, was, mid, sol.days, deed);
  }

  // What a shake of this force does to the days: forces 1 and 2 take out the sites drawn,
  // force 2 also moves a joint, force 3 empties one day, larger forces all of them.
  ghost predicate Shaken(inst: Instance, force: nat, luck: Luck, was: seq<DayTour>, now: seq<DayTour>, deed: Deed) {
    var tour := TourOf(was);
    if force <= 1 then
      && Picked(inst, tour, deed.chosen, 2 + luck.extra % 2)
      && DrawnFrom(inst, tour, deed.chosen, 2 + luck.extra % 2, luck.rng)
      && Removed(was, now, deed.chosen)
    else if force == 2 then
      && Picked(inst, tour, deed.chosen, ForceTwoCount(|AllSites(inst, tour)|))
      && DrawnFrom(inst, tour, deed.chosen, ForceTwoCount(|AllSites(inst, tour)|), luck.rng)
      && deed.joint == MovedJoint(inst, luck)
      && Rehoused(inst, was, now, deed)
    else if force == 3 then
      && deed.emptied == (if |tour| > 1 then Some(luck.day % |tour|) else None)
      && OneEmptied(tour, TourOf(now), deed.emptied)
    else |now| == |was| && forall d :: 0 <= d < |now| ==> TourOf(now)[d] == Emptied(tour[d])
  }

  method ApplyShake(sol: Solution, force: nat, luck: Luck) returns (ghost deed: Deed)
    requires sol.Valid()
    modifies sol
    ensures sol.Valid()
    ensures AllSites(sol.inst, sol.Tour()) <= old(AllSites(sol.inst, sol.Tour()))
    ensures sol.totalScore <= old(sol.totalScore)
    ensures Shaken(sol.inst, force, luck, old(sol.days), sol.days, deed)
    ensures force != 2 && old(sol.AllFeasible()) ==> sol.AllFeasible()
    ensures force == 2 && old(sol.AllFeasible()) ==>
      (sol.AllFeasible() <==> JointInReach(sol.inst, old(sol.Tour()), deed.joint))
  {
    hide WellFormed, AllSites, AllFeasible, TrueLengths, Worth, Rehoused, Picked, DrawnFrom, Removed, JointInReach,
         Destroyed, SameEnds, ForceTwoCount, Instance.Metric, Instance.Sane;
    var inst := sol.inst;
    ghost var was := sol.days;
    deed := Deed([], None, None);
    if force <= 1 {
      var nbRemove := 2 + luck.extra % 2;
      ghost var chosen := RemoveSitesRandom(sol, nbRemove, luck.rng);
      DestroyedMeans(inst, was, sol.days);
      deed := Deed(chosen, None, None);
    } else if force == 2 {
      deed := ShakeTwo(sol, luck);
    } else if force == 3 {
      if |sol.days| > 1 {
        var dayIdx := luck.day % |sol.days|;
        ClearOne(sol, dayIdx);
        DestroyedMeans(inst, was, sol.days);
        deed := Deed([], None, Some(dayIdx));
      }
    } else {
      ClearAll(sol);
      DestroyedMeans(inst, was, sol.days);
    }
    assert Shaken(inst, force, luck, was, sol.days, deed);
    hide Shaken;
    TypedDays(inst, sol.days);
    sol.EvaluateScore();
    Relocate.WorthMonotone(inst, AllSites(inst, sol.Tour()), AllSites(inst, TourOf(was)));
  }

  // Force 3: one day of several is emptied; a single day stays as it is.
  ghost predicate OneEmptied(was: Tour, now: Tour, emptied: Option<nat>) {
    match emptied
    case None => |was| <= 1 && now == was
    case Some(d) => |was| > 1 && d < |was| && now == was[d := Emptied(was[d])]
  }
}
