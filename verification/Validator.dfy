// The independent validator of validator.go: it walks every day, rewrites the cached
// fields as it goes, and checks hotels, windows, repeated sites and the day's budget.

module Validator {
  import opened Instances
  import opened Schedules
  import opened Tours
  import opened Solutions

  // ----- What the validator checks, stated without its loops -----

  ghost predicate DayAccepted(inst: Instance, d: nat, pts: seq<nat>) {
    pts != [] ==>
      && inst.IsHotel(pts[0])
      && (d == 0 ==> pts[0] == inst.startHotel)
      && inst.IsHotel(pts[|pts| - 1])
      && (d == inst.nbDays - 1 ==> pts[|pts| - 1] == inst.endHotel)
      && Feasible(inst, d, pts)
  }

  ghost predicate Accepted(inst: Instance, tour: Tour) {
    && (forall d :: 0 <= d < |tour| ==> DayAccepted(inst, d, tour[d]))
    && NoRepeat(inst, tour)
  }

  // For a well-formed tour only the day evaluator's verdict is left.
  lemma AcceptedMeansFeasible(inst: Instance, tour: Tour)
    requires WellFormed(inst, tour)
    ensures Accepted(inst, tour) <==> AllFeasible(inst, tour)
  {
    if AllFeasible(inst, tour) {
      forall d | 0 <= d < |tour|
        ensures DayAccepted(inst, d, tour[d])
      {
        assert DayShape(inst, tour[d]) && Feasible(inst, d, tour[d]);
      }
    }
    if Accepted(inst, tour) {
      forall d | 0 <= d < |tour|
        ensures Feasible(inst, d, tour[d])
      {
        assert DayShape(inst, tour[d]) && DayAccepted(inst, d, tour[d]);
      }
    }
  }

  // Every day of an accepted plan that has stops has a timeline within its own budget.
  lemma AcceptedTimeline(inst: Instance, tour: Tour, d: nat)
    requires Accepted(inst, tour) && d < |tour| && inst.ArePoints(tour[d]) && tour[d] != []
    ensures exists arrive, depart :: Timeline(inst, d, tour[d], arrive, depart)
  {
    hide Feasible, Timeline;
    assert DayAccepted(inst, d, tour[d]);
    FeasibleIffTimeline(inst, d, tour[d]);
  }

  // ----- Walking one day -----

  // What the validator has learned after the first n stops of day d.
  ghost predicate Walked(inst: Instance, pts: seq<nat>, before: multiset<nat>, n: nat, sites: set<nat>) {
    && n <= |pts|
    && WindowsTo(inst, pts, n)
    && (forall u: nat :: u in sites <==> u in before + SitesOf(inst, pts[..n]))
    && (forall u: nat :: (before + SitesOf(inst, pts[..n]))[u] <= 1)
  }

  lemma WalkStart(inst: Instance, pts: seq<nat>, before: multiset<nat>, sites: set<nat>)
    requires pts != [] && inst.IsHotel(pts[0])
    requires (forall u: nat :: u in sites <==> u in before) && forall u: nat :: before[u] <= 1
    ensures Walked(inst, pts, before, 1, sites)
  {
    assert pts[..1] == [pts[0]] && [pts[0]][..0] == [];
    assert SitesOf(inst, pts[..1]) == multiset{};
    assert before + multiset{} == before;
    assert WindowsTo(inst, pts, 0);
  }

  lemma WalkHotel(inst: Instance, pts: seq<nat>, before: multiset<nat>, n: nat, sites: set<nat>)
    requires Walked(inst, pts, before, n, sites) && n < |pts| && !inst.IsSite(pts[n])
    ensures Walked(inst, pts, before, n + 1, sites)
  {
    assert pts[..n + 1][..n] == pts[..n];
    assert SitesOf(inst, pts[..n + 1]) == SitesOf(inst, pts[..n]);
  }

  lemma WalkSite(inst: Instance, pts: seq<nat>, before: multiset<nat>, n: nat, sites: set<nat>)
    requires Walked(inst, pts, before, n, sites) && n < |pts| && inst.IsSite(pts[n])
    requires pts[n] !in sites && WindowAt(inst, pts, n)
    ensures Walked(inst, pts, before, n + 1, sites + {pts[n]})
  {
    assert pts[..n + 1][..n] == pts[..n];
    var was, now := before + SitesOf(inst, pts[..n]), before + SitesOf(inst, pts[..n + 1]);
    assert now == was + multiset{pts[n]};
  }

  // A second visit is a second visit of the whole tour.
  lemma {:induction false} PrefixSites(inst: Instance, pts: seq<nat>, n: nat)
    requires n <= |pts|
    ensures SitesOf(inst, pts[..n]) <= SitesOf(inst, pts)
    decreases |pts| - n
  {
    if n < |pts| {
      assert pts[..n + 1][..n] == pts[..n];
      PrefixSites(inst, pts, n + 1);
    } else {
      assert pts[..n] == pts;
    }
  }

  lemma RepeatFound(inst: Instance, pts: seq<nat>, before: multiset<nat>, n: nat, sites: set<nat>)
    requires Walked(inst, pts, before, n, sites) && n < |pts| && inst.IsSite(pts[n]) && pts[n] in sites
    ensures exists u: nat :: (before + SitesOf(inst, pts))[u] > 1
  {
    assert pts[..n + 1][..n] == pts[..n];
    PrefixSites(inst, pts, n + 1);
    assert (before + SitesOf(inst, pts))[pts[n]] > 1;
  }

  lemma {:induction false} BeforeGrows(inst: Instance, tour: Tour, n: nat)
    requires n <= |tour|
    ensures SitesBefore(inst, tour, n) <= AllSites(inst, tour)
    decreases |tour| - n
  {
    if n < |tour| {
      BeforeGrows(inst, tour, n + 1);
    }
  }

  // Reasons to refuse a solution, one per error return.

  lemma RefusedByRepeat(inst: Instance, tour: Tour, d: nat)
    requires d < |tour|
    requires exists u: nat :: (SitesBefore(inst, tour, d) + SitesOf(inst, tour[d]))[u] > 1
    ensures !Accepted(inst, tour)
  {
    BeforeGrows(inst, tour, d + 1);
    var u: nat :| (SitesBefore(inst, tour, d) + SitesOf(inst, tour[d]))[u] > 1;
    assert AllSites(inst, tour)[u] > 1;
  }

  lemma RefusedByDay(inst: Instance, tour: Tour, d: nat)
    requires d < |tour| && !DayAccepted(inst, d, tour[d])
    ensures !Accepted(inst, tour)
  {
  }

  lemma LateWindow(inst: Instance, d: nat, pts: seq<nat>, k: nat)
    requires k < |pts| && !WindowAt(inst, pts, k)
    ensures !DayAccepted(inst, d, pts)
  {
  }

  // Acceptance of one day from the facts the walk collected.
  lemma DayOk(inst: Instance, d: nat, pts: seq<nat>)
    requires pts != [] && WindowsTo(inst, pts, |pts|)
    requires inst.IsHotel(pts[0]) && (d == 0 ==> pts[0] == inst.startHotel)
    requires inst.IsHotel(pts[|pts| - 1]) && (d == inst.nbDays - 1 ==> pts[|pts| - 1] == inst.endHotel)
    requires Finish(inst, pts) <= inst.DayMaxDist(d)
    ensures DayAccepted(inst, d, pts)
  {
    WindowsToAll(inst, pts, |pts|);
  }

  datatype Walk = Refused | Passed(dist: real, time: real, sites: set<nat>, score: real)

  // The loop over the stops after the first.
  method WalkDay(inst: Instance, d: nat, steps0: seq<Step>, sites0: set<nat>, ghost before: multiset<nat>)
    returns (steps: seq<Step>, walk: Walk)
    requires inst.Valid() && inst.ArePoints(Ids(steps0)) && steps0 != [] && inst.IsHotel(steps0[0].pointId)
    requires (forall u: nat :: u in sites0 <==> u in before) && forall u: nat :: before[u] <= 1
    ensures Ids(steps) == Ids(steps0)
    ensures TrueLegs(inst, steps0) ==> TrueLegs(inst, steps)
    ensures walk.Refused? ==>
      || (exists u: nat :: (before + SitesOf(inst, Ids(steps0)))[u] > 1)
      || !DayAccepted(inst, d, Ids(steps0))
    ensures walk.Passed? ==>
      && steps == Timetable(inst, Ids(steps0))
      && Walked(inst, Ids(steps0), before, |steps0|, walk.sites)
      && walk.dist == PathLen(inst, Ids(steps0))
      && walk.time == Finish(inst, Ids(steps0))
      && walk.score == Worth(inst, SitesOf(inst, Ids(steps0)))
  {
    hide Walked, Worth, SitesOf, Depart, Arrive, LenTo, DayAccepted, Rewritten, TrueLegs, Timetable,
         Instance.Metric, Instance.Sane;
    ghost var pts := Ids(steps0);
    var sites, score, dist, time := sites0, 0.0, 0.0, 0.0;
    steps := steps0[0 := steps0[0].(arrival := 0.0, wait := 0.0, departure := 0.0, distFromPrev := 0.0)];
    WalkStart(inst, pts, before, sites);
    FirstStop(inst, pts);
    RewriteFirst(inst, steps0);
    NoStopsCounted(inst, pts);
    CountStop(inst, pts, 0);
    var i := 1;
    while i < |steps|
      invariant 1 <= i <= |steps| == |steps0|
      invariant Rewritten(inst, steps0, steps, i)
      invariant Walked(inst, pts, before, i, sites)
      invariant time == Depart(inst, pts, i - 1) && dist == LenTo(inst, pts, i - 1)
      invariant score == Worth(inst, SitesOf(inst, pts[..i]))
    {
      StopAt(inst, pts, i);
      CountStop(inst, pts, i);
      RewrittenMeans(inst, steps0, steps, i);
      var curr := steps[i];
      assert inst.IsPoint(pts[i - 1]) && inst.IsPoint(pts[i]);
      var pt := inst.points[curr.pointId];
      var leg := inst.dist[steps[i - 1].pointId][curr.pointId];
      dist := dist + leg;
      time := time + leg;
      curr := curr.(distFromPrev := leg, arrival := time);
      if pt.kind.Site? {
        if pt.id in sites {
          RepeatFound(inst, pts, before, i, sites);
          RefusedLegs(inst, steps0, steps, i, curr);
          return steps[i := curr], Refused;
        }
        var wait := 0.0;
        if curr.arrival < pt.openTime {
          wait := pt.openTime - curr.arrival;
        }
        curr := curr.(wait := wait);
        var startVisit := curr.arrival + wait;
        if startVisit > pt.closeTime {
          LateWindow(inst, d, pts, i);
          RefusedLegs(inst, steps0, steps, i, curr);
          return steps[i := curr], Refused;
        }
        WalkSite(inst, pts, before, i, sites);
        sites := sites + {pt.id};
        score := score + pt.score;
        time := startVisit + pt.serviceTime;
        curr := curr.(departure := time);
      } else {
        WalkHotel(inst, pts, before, i, sites);
        curr := curr.(wait := 0.0, departure := time);
      }
      RewriteNext(inst, steps0, steps, i, curr);
      steps := steps[i := curr];
      i := i + 1;
    }
    assert pts[..i] == pts;
    RewrittenAll(inst, steps0, steps);
    walk := Passed(dist, time, sites, score);
  }

  // The first n steps carry the times of the schedule, the others are as they were.
  ghost predicate Rewritten(inst: Instance, was: seq<Step>, now: seq<Step>, n: nat) {
    && n <= |now| == |was|
    && Ids(now) == Ids(was)
    && (forall k :: 0 <= k < n ==> now[k] == TimedStep(inst, Ids(was), k))
    && (forall k :: n <= k < |now| ==> now[k] == was[k])
  }

  lemma RewriteFirst(inst: Instance, was: seq<Step>)
    requires was != [] && inst.IsHotel(was[0].pointId)
    ensures var first := was[0].(arrival := 0.0, wait := 0.0, departure := 0.0, distFromPrev := 0.0);
            Rewritten(inst, was, was[0 := first], 1)
  {
    FirstStop(inst, Ids(was));
  }

  lemma RewrittenMeans(inst: Instance, was: seq<Step>, now: seq<Step>, n: nat)
    requires Rewritten(inst, was, now, n) && 0 < n < |now|
    ensures now[n].pointId == Ids(was)[n] && now[n - 1].pointId == Ids(was)[n - 1]
  {
    assert Ids(now)[n] == Ids(was)[n] && Ids(now)[n - 1] == Ids(was)[n - 1];
  }

  lemma RewriteNext(inst: Instance, was: seq<Step>, now: seq<Step>, n: nat, curr: Step)
    requires Rewritten(inst, was, now, n) && n < |now| && curr == TimedStep(inst, Ids(was), n)
    ensures Rewritten(inst, was, now[n := curr], n + 1)
  {
    hide TimedStep;
    assert curr.pointId == Ids(was)[n] by { TimedPoint(inst, Ids(was), n); }
    assert Ids(now)[n] == Ids(was)[n];
  }

  lemma TimedPoint(inst: Instance, pts: seq<nat>, k: nat)
    requires k < |pts|
    ensures TimedStep(inst, pts, k).pointId == pts[k]
  {
  }

  lemma RewrittenAll(inst: Instance, was: seq<Step>, now: seq<Step>)
    requires Rewritten(inst, was, now, |now|)
    ensures Ids(now) == Ids(was) && now == Timetable(inst, Ids(was)) && TrueLegs(inst, now)
  {
    TimetableTrueLegs(inst, Ids(was));
  }

  // Stopping in the middle of a walk leaves legs that were true, true.
  lemma RefusedLegs(inst: Instance, was: seq<Step>, now: seq<Step>, n: nat, curr: Step)
    requires Rewritten(inst, was, now, n) && n < |now|
    requires curr.pointId == now[n].pointId && curr.distFromPrev == Leg(inst, Ids(was), n)
    ensures Ids(now[n := curr]) == Ids(was)
    ensures TrueLegs(inst, was) ==> TrueLegs(inst, now[n := curr])
  {
    assert Ids(now[n := curr]) == Ids(was);
  }

  lemma FirstStop(inst: Instance, pts: seq<nat>)
    requires pts != [] && inst.IsHotel(pts[0])
    ensures TimedStep(inst, pts, 0) == Step(pts[0], 0.0, 0.0, 0.0, 0.0)
    ensures Depart(inst, pts, 0) == 0.0 && LenTo(inst, pts, 0) == 0.0
  {
  }

  // ----- The whole solution -----

  // The day with every cached field recomputed from its stops alone.
  function Recomputed(inst: Instance, pts: seq<nat>): DayTour {
    DayTour(Timetable(inst, pts), PathLen(inst, pts), Finish(inst, pts))
  }

  lemma WalkedMeans(inst: Instance, tour: Tour, d: nat, sites: set<nat>)
    requires d < |tour| && Walked(inst, tour[d], SitesBefore(inst, tour, d), |tour[d]|, sites)
    ensures WindowsTo(inst, tour[d], |tour[d]|)
    ensures Counted(inst, tour, d + 1, sites)
  {
    assert tour[d][..|tour[d]|] == tour[d];
  }

  // sites are the sites of the first n days, each visited once.
  ghost predicate Counted(inst: Instance, tour: Tour, n: nat, sites: set<nat>)
    requires n <= |tour|
  {
    && (forall u: nat :: u in sites <==> u in SitesBefore(inst, tour, n))
    && (forall u: nat :: SitesBefore(inst, tour, n)[u] <= 1)
  }

  lemma CountedMeans(inst: Instance, tour: Tour, n: nat, sites: set<nat>)
    requires n <= |tour| && Counted(inst, tour, n, sites)
    ensures forall u: nat :: u in sites <==> u in SitesBefore(inst, tour, n)
    ensures forall u: nat :: SitesBefore(inst, tour, n)[u] <= 1
    ensures n == |tour| ==> NoRepeat(inst, tour)
  {
  }

  lemma CountedNothing(inst: Instance, tour: Tour)
    ensures Counted(inst, tour, 0, {})
  {
  }

  lemma CountedEmptyDay(inst: Instance, tour: Tour, n: nat, sites: set<nat>)
    requires n < |tour| && tour[n] == [] && Counted(inst, tour, n, sites)
    ensures Counted(inst, tour, n + 1, sites)
    ensures DayAccepted(inst, n, tour[n])
    ensures SitesBefore(inst, tour, n + 1) == SitesBefore(inst, tour, n)
    ensures PathLen(inst, tour[n]) == 0.0
  {
    assert SitesOf(inst, tour[n]) == multiset{};
    assert SitesBefore(inst, tour, n) + multiset{} == SitesBefore(inst, tour, n);
    assert SitesBefore(inst, tour, n + 1) == SitesBefore(inst, tour, n) + SitesOf(inst, tour[n]);
  }

  // One nonempty day: the checks before, during and after the walk.
  method EvaluateOneDay(inst: Instance, d: nat, day: DayTour, sites: set<nat>, ghost before: multiset<nat>)
    returns (now: DayTour, walk: Walk)
    requires inst.Valid() && inst.ArePoints(Ids(day.steps)) && day.steps != []
    requires (forall u: nat :: u in sites <==> u in before) && forall u: nat :: before[u] <= 1
    ensures Ids(now.steps) == Ids(day.steps)
    ensures walk.Refused? ==> now.distTotal == day.distTotal
    ensures TrueLegs(inst, day.steps) ==> TrueLegs(inst, now.steps)
    ensures walk.Refused? ==>
      || (exists u: nat :: (before + SitesOf(inst, Ids(day.steps)))[u] > 1)
      || !DayAccepted(inst, d, Ids(day.steps))
    ensures walk.Passed? ==>
      && DayAccepted(inst, d, Ids(day.steps))
      && now == Recomputed(inst, Ids(day.steps))
      && Walked(inst, Ids(day.steps), before, |day.steps|, walk.sites)
      && walk.dist == PathLen(inst, Ids(day.steps))
      && walk.score == Worth(inst, SitesOf(inst, Ids(day.steps)))
  {
    hide Walked, Worth, SitesOf, Feasible, PathLen, Finish, Timetable, DayAccepted, Instance.Metric, Instance.Sane,
         TrueLegs;
    ghost var pts := Ids(day.steps);
    now := day;
    assert inst.IsPoint(pts[0]) && inst.IsPoint(pts[|pts| - 1]);
    var firstPt := inst.points[day.steps[0].pointId];
    if !firstPt.kind.Hotel? || (d == 0 && firstPt.id != inst.startHotel) {
      WrongEnd(inst, d, pts);
      return now, Refused;
    }
    var steps;
    steps, walk := WalkDay(inst, d, day.steps, sites, before);
    now := now.(steps := steps);
    if walk.Refused? {
      return;
    }
    WalkedWindows(inst, pts, before, walk.sites);
    assert steps[|steps| - 1].pointId == Ids(steps)[|steps| - 1];
    var lastPt := inst.points[steps[|steps| - 1].pointId];
    if !lastPt.kind.Hotel? || (d == inst.nbDays - 1 && lastPt.id != inst.endHotel) {
      WrongEnd(inst, d, pts);
      return now, Refused;
    }
    if walk.time > inst.DayMaxDist(d) {
      OverBudget(inst, d, pts);
      return now, Refused;
    }
    DayOk(inst, d, pts);
    now := now.(distTotal := walk.dist, timeTotal := walk.time);
  }

  lemma WalkedWindows(inst: Instance, pts: seq<nat>, before: multiset<nat>, sites: set<nat>)
    requires Walked(inst, pts, before, |pts|, sites)
    ensures WindowsTo(inst, pts, |pts|)
  {
  }

  // The first n days are accepted and recomputed, the others untouched.
  ghost predicate Passing(inst: Instance, was: seq<DayTour>, now: seq<DayTour>, n: nat) {
    && n <= |was|
    && TourOf(now) == TourOf(was)
    && (forall e :: 0 <= e < n ==>
          && DayAccepted(inst, e, TourOf(was)[e])
          && now[e] == if TourOf(was)[e] == [] then was[e] else Recomputed(inst, TourOf(was)[e]))
    && (forall e :: n <= e < |was| ==> now[e] == was[e])
  }

  lemma PassNothing(inst: Instance, was: seq<DayTour>)
    ensures Passing(inst, was, was, 0)
  {
  }

  lemma PassingMeans(inst: Instance, was: seq<DayTour>, now: seq<DayTour>, n: nat)
    requires Passing(inst, was, now, n)
    ensures |now| == |was| && TourOf(now) == TourOf(was)
    ensures n < |was| ==> TourOf(was)[n] == Ids(now[n].steps) && now[n] == was[n]
    ensures forall e :: 0 <= e < n ==>
      && DayAccepted(inst, e, TourOf(was)[e])
      && now[e] == if TourOf(was)[e] == [] then was[e] else Recomputed(inst, TourOf(was)[e])
  {
    assert |TourOf(now)| == |TourOf(was)|;
  }

  lemma PassEmpty(inst: Instance, was: seq<DayTour>, now: seq<DayTour>, n: nat)
    requires Passing(inst, was, now, n) && n < |was| && TourOf(was)[n] == [] && DayAccepted(inst, n, TourOf(was)[n])
    ensures Passing(inst, was, now, n + 1)
  {
  }

  lemma SameTour(days: seq<DayTour>, d: nat, now: DayTour)
    requires d < |days| && Ids(now.steps) == Ids(days[d].steps)
    ensures TourOf(days[d := now]) == TourOf(days)
  {
  }

  lemma PassedLengths(inst: Instance, was: seq<DayTour>, now: seq<DayTour>, n: nat)
    requires Passing(inst, was, now, n)
    ensures TrueLengths(inst, was) ==> TrueLengths(inst, now)
  {
    hide PathLen, DayAccepted, Timetable;
    PassingMeans(inst, was, now, n);
    if TrueLengths(inst, was) {
      forall e | 0 <= e < |now|
        ensures now[e].distTotal == PathLen(inst, Ids(now[e].steps))
      {
        assert TourOf(now)[e] == TourOf(was)[e];
      }
    }
  }

  lemma PassedLegs(inst: Instance, was: seq<DayTour>, now: seq<DayTour>, n: nat)
    requires Passing(inst, was, now, n)
    ensures AllTrueLegs(inst, was) ==> AllTrueLegs(inst, now)
  {
    hide PathLen, DayAccepted;
    PassingMeans(inst, was, now, n);
    if AllTrueLegs(inst, was) {
      forall e | 0 <= e < |now|
        ensures TrueLegs(inst, now[e].steps)
      {
        TimetableTrueLegs(inst, TourOf(was)[e]);
      }
    }
  }

  lemma LegsUpdate(inst: Instance, days: seq<DayTour>, d: nat, now: DayTour)
    requires d < |days| && (TrueLegs(inst, days[d].steps) ==> TrueLegs(inst, now.steps))
    ensures AllTrueLegs(inst, days) ==> AllTrueLegs(inst, days[d := now])
  {
  }

  lemma RefusedLengths(inst: Instance, was: seq<DayTour>, now: seq<DayTour>, n: nat, day: DayTour)
    requires Passing(inst, was, now, n) && n < |now|
    requires Ids(day.steps) == Ids(now[n].steps) && day.distTotal == now[n].distTotal
    ensures TrueLengths(inst, was) ==> TrueLengths(inst, now[n := day])
  {
    PassedLengths(inst, was, now, n);
  }

  lemma PassDay(inst: Instance, was: seq<DayTour>, now: seq<DayTour>, n: nat, day: DayTour)
    requires Passing(inst, was, now, n) && n < |was| == |now| && TourOf(was)[n] != []
    requires DayAccepted(inst, n, TourOf(was)[n]) && day == Recomputed(inst, TourOf(was)[n])
    ensures Passing(inst, was, now[n := day], n + 1)
  {
    var q := now[n := day];
    SameTour(now, n, day);
    forall e | 0 <= e < n + 1
      ensures DayAccepted(inst, e, TourOf(was)[e])
      ensures q[e] == if TourOf(was)[e] == [] then was[e] else Recomputed(inst, TourOf(was)[e])
    {
    }
  }

  method EvaluateSolution(sol: Solution) returns (ok: bool)
    requires sol.inst.Valid() && sol.Typed()
    modifies sol
    ensures sol.Tour() == old(sol.Tour())
    ensures ok <==> Accepted(sol.inst, sol.Tour())
    ensures ok ==> forall d :: 0 <= d < |sol.days| ==>
      sol.days[d] == if sol.Tour()[d] == [] then old(sol.days)[d] else Recomputed(sol.inst, sol.Tour()[d])
    ensures ok ==> sol.totalScore == Worth(sol.inst, AllSites(sol.inst, sol.Tour()))
    ensures ok ==> sol.TrueTotalDist()
    ensures !ok ==> sol.totalScore == old(sol.totalScore) && sol.totalDist == old(sol.totalDist)
    ensures old(TrueLengths(sol.inst, sol.days)) ==> TrueLengths(sol.inst, sol.days)
    ensures old(sol.TrueSteps()) ==> sol.TrueSteps()
  {
    hide Walked, Worth, SitesBefore, Counted, PathLen, DayAccepted, Recomputed, Instance.Valid, Passing, TourOf,
         TrueLengths, TrueLegs, AllTrueLegs;
    var inst := sol.inst;
    PassNothing(inst, sol.days);
    ghost var tour, was := sol.Tour(), sol.days;
    var visitedSites: set<nat> := {};
    var score, total := 0.0, 0.0;
    CountedNothing(inst, tour);
    NoDaysCounted(inst, tour);
    var d := 0;
    while d < |sol.days|
      invariant 0 <= d <= |sol.days| == |was|
      invariant sol.totalScore == old(sol.totalScore) && sol.totalDist == old(sol.totalDist)
      invariant Counted(inst, tour, d, visitedSites)
      invariant Passing(inst, was, sol.days, d)
      invariant score == Worth(inst, SitesBefore(inst, tour, d))
      invariant total == TotalLen(inst, tour, d)
    {
      PassingMeans(inst, was, sol.days, d);
      if |sol.days[d].steps| == 0 {
        CountedEmptyDay(inst, tour, d, visitedSites);
        PassEmpty(inst, was, sol.days, d);
        d := d + 1;
        continue;
      }
      CountedMeans(inst, tour, d, visitedSites);
      var now, walk := EvaluateOneDay(inst, d, sol.days[d], visitedSites, SitesBefore(inst, tour, d));
      SameTour(sol.days, d, now);
      if walk.Refused? {
        RefusedLengths(inst, was, sol.days, d, now);
        PassedLegs(inst, was, sol.days, d);
        LegsUpdate(inst, sol.days, d, now);
        sol.days := sol.days[d := now];
        if DayAccepted(inst, d, tour[d]) {
          RefusedByRepeat(inst, tour, d);
        } else {
          RefusedByDay(inst, tour, d);
        }
        return false;
      }
      PassDay(inst, was, sol.days, d, now);
      sol.days := sol.days[d := now];
      WalkedMeans(inst, tour, d, walk.sites);
      CountDay(inst, tour, d);
      visitedSites := walk.sites;
      score := score + walk.score;
      total := total + walk.dist;
      d := d + 1;
    }
    CountedMeans(inst, tour, d, visitedSites);
    PassingMeans(inst, was, sol.days, d);
    PassedLengths(inst, was, sol.days, d);
    PassedLegs(inst, was, sol.days, d);
    sol.totalScore := score;
    sol.totalDist := total;
    return true;
  }

  lemma WrongEnd(inst: Instance, d: nat, pts: seq<nat>)
    requires pts != []
    requires || !inst.IsHotel(pts[0]) || (d == 0 && pts[0] != inst.startHotel)
             || !inst.IsHotel(pts[|pts| - 1]) || (d == inst.nbDays - 1 && pts[|pts| - 1] != inst.endHotel)
    ensures !DayAccepted(inst, d, pts)
  {
  }

  lemma OverBudget(inst: Instance, d: nat, pts: seq<nat>)
    requires pts != [] && Finish(inst, pts) > inst.DayMaxDist(d)
    ensures !DayAccepted(inst, d, pts)
  {
  }
}
