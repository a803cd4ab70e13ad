// Solutions with their cached totals (models.go), the two day evaluators of
// optimizer.go, and the score evaluator of evaluator.go.

module Solutions {
  import opened Instances
  import opened Schedules
  import opened Tours

  datatype Step = Step(pointId: nat, arrival: real, wait: real, departure: real, distFromPrev: real)

  datatype DayTour = DayTour(steps: seq<Step>, distTotal: real, timeTotal: real)

  function Ids(steps: seq<Step>): (pts: seq<nat>)
    ensures |pts| == |steps|
  {
    seq(|steps|, k requires 0 <= k < |steps| => steps[k].pointId)
  }

  function TourOf(days: seq<DayTour>): (tour: Tour)
    ensures |tour| == |days|
  {
    seq(|days|, d requires 0 <= d < |days| => Ids(days[d].steps))
  }

  // The steps that a list of stops dictates.
  function TimedStep(inst: Instance, pts: seq<nat>, k: nat): Step
    requires k < |pts|
  {
    Step(pts[k],
         Arrive(inst, pts, k),
         Begin(inst, pts[k], Arrive(inst, pts, k)) - Arrive(inst, pts, k),
         Depart(inst, pts, k),
         Leg(inst, pts, k))
  }

  function Timetable(inst: Instance, pts: seq<nat>): (steps: seq<Step>)
    ensures |steps| == |pts|
    ensures Ids(steps) == pts
  {
    var steps := seq(|pts|, k requires 0 <= k < |pts| => TimedStep(inst, pts, k));
    assert Ids(steps) == pts;
    steps
  }

  // ----- Cached distances -----

  function CachedLen(steps: seq<Step>, n: nat): real
    requires n <= |steps|
  {
    if n == 0 then 0.0 else CachedLen(steps, n - 1) + steps[n - 1].distFromPrev
  }

  function CachedTotal(days: seq<DayTour>, n: nat): real
    requires n <= |days|
  {
    if n == 0 then 0.0 else CachedTotal(days, n - 1) + CachedLen(days[n - 1].steps, |days[n - 1].steps|)
  }

  function TotalLen(inst: Instance, tour: Tour, n: nat): real
    requires n <= |tour|
  {
    if n == 0 then 0.0 else TotalLen(inst, tour, n - 1) + PathLen(inst, tour[n - 1])
  }

  // Every cached leg is the distance it claims to be.
  ghost predicate TrueLegs(inst: Instance, steps: seq<Step>) {
    forall k :: 0 <= k < |steps| ==> steps[k].distFromPrev == Leg(inst, Ids(steps), k)
  }

  // Every cached day length is the length of the day's path.
  ghost predicate TrueLengths(inst: Instance, days: seq<DayTour>) {
    forall d :: 0 <= d < |days| ==> days[d].distTotal == PathLen(inst, Ids(days[d].steps))
  }

  ghost predicate AllTrueLegs(inst: Instance, days: seq<DayTour>) {
    forall d :: 0 <= d < |days| ==> TrueLegs(inst, days[d].steps)
  }

  lemma {:induction false} TrueLegsAddUp(inst: Instance, steps: seq<Step>, n: nat)
    requires TrueLegs(inst, steps) && n < |steps|
    ensures CachedLen(steps, n + 1) == LenTo(inst, Ids(steps), n)
  {
    if n > 0 {
      TrueLegsAddUp(inst, steps, n - 1);
    } else {
      assert CachedLen(steps, 0) == 0.0;
    }
  }

  lemma {:induction false} TrueTotals(inst: Instance, days: seq<DayTour>, n: nat)
    requires AllTrueLegs(inst, days) && n <= |days|
    ensures CachedTotal(days, n) == TotalLen(inst, TourOf(days), n)
  {
    if n > 0 {
      TrueTotals(inst, days, n - 1);
      var steps := days[n - 1].steps;
      if steps != [] {
        TrueLegsAddUp(inst, steps, |steps| - 1);
      }
    }
  }

  lemma TimetableTrueLegs(inst: Instance, pts: seq<nat>)
    ensures TrueLegs(inst, Timetable(inst, pts))
  {
  }

  // ----- Rewriting one day -----

  lemma DayFacts(inst: Instance, days: seq<DayTour>, d: nat)
    requires WellFormed(inst, TourOf(days)) && TrueLengths(inst, days) && d < |days|
    ensures |days| == inst.nbDays && TourOf(days)[d] == Ids(days[d].steps)
    ensures DayShape(inst, Ids(days[d].steps)) && inst.ArePoints(Ids(days[d].steps))
    ensures days[d].distTotal == PathLen(inst, Ids(days[d].steps))
  {
    assert DayShape(inst, TourOf(days)[d]);
    forall k | 0 <= k < |days[d].steps|
      ensures inst.IsPoint(Ids(days[d].steps)[k])
    {
      assert k == 0 || k == |days[d].steps| - 1 || inst.IsSite(Ids(days[d].steps)[k]);
    }
  }

  // What a neighbourhood does to the days: each is untouched, or it is a freshly
  // timetabled day that keeps its windows and its budget.
  ghost predicate DayReworked(inst: Instance, was: seq<DayTour>, now: seq<DayTour>, d: nat)
    requires d < |was| == |now|
  {
    now[d] == was[d] || (Feasible(inst, d, Ids(now[d].steps)) && TrueLegs(inst, now[d].steps))
  }

  ghost predicate Reworked(inst: Instance, was: seq<DayTour>, now: seq<DayTour>) {
    |was| == |now| && forall d :: 0 <= d < |was| ==> DayReworked(inst, was, now, d)
  }

  lemma ReworkedRefl(inst: Instance, days: seq<DayTour>)
    ensures Reworked(inst, days, days)
  {
  }

  lemma ReworkedSize(inst: Instance, was: seq<DayTour>, now: seq<DayTour>)
    requires Reworked(inst, was, now)
    ensures |now| == |was|
  {
  }

  lemma ReworkedTrans(inst: Instance, a: seq<DayTour>, b: seq<DayTour>, c: seq<DayTour>)
    requires Reworked(inst, a, b) && Reworked(inst, b, c)
    ensures Reworked(inst, a, c)
  {
    forall d | 0 <= d < |a|
      ensures DayReworked(inst, a, c, d)
    {
      assert DayReworked(inst, a, b, d) && DayReworked(inst, b, c, d);
    }
  }

  lemma ReworkedKeeps(inst: Instance, was: seq<DayTour>, now: seq<DayTour>)
    requires Reworked(inst, was, now)
    ensures AllFeasible(inst, TourOf(was)) ==> AllFeasible(inst, TourOf(now))
    ensures AllTrueLegs(inst, was) ==> AllTrueLegs(inst, now)
  {
    forall d | 0 <= d < |was|
      ensures AllFeasible(inst, TourOf(was)) ==> Feasible(inst, d, TourOf(now)[d])
      ensures AllTrueLegs(inst, was) ==> TrueLegs(inst, now[d].steps)
    {
      assert DayReworked(inst, was, now, d);
      assert TourOf(was)[d] == Ids(was[d].steps);
    }
  }

  function Retimed(inst: Instance, day: DayTour, pts: seq<nat>): DayTour {
    day.(steps := Timetable(inst, pts), distTotal := PathLen(inst, pts))
  }

  lemma RetimeDay(inst: Instance, days: seq<DayTour>, d: nat, pts: seq<nat>)
    requires WellFormed(inst, TourOf(days)) && TrueLengths(inst, days) && d < |days|
    requires DayShape(inst, pts) && Feasible(inst, d, pts)
    requires First(pts) == First(TourOf(days)[d]) && Last(pts) == Last(TourOf(days)[d])
    requires NoRepeat(inst, TourOf(days)[d := pts])
    ensures TourOf(days[d := Retimed(inst, days[d], pts)]) == TourOf(days)[d := pts]
    ensures WellFormed(inst, TourOf(days)[d := pts])
    ensures TrueLengths(inst, days[d := Retimed(inst, days[d], pts)])
    ensures Reworked(inst, days, days[d := Retimed(inst, days[d], pts)])
  {
    RetimedTour(inst, days, d, pts);
    ReplaceDay(inst, TourOf(days), d, pts);
    TimetableTrueLegs(inst, pts);
    var now := days[d := Retimed(inst, days[d], pts)];
    forall e | 0 <= e < |days|
      ensures DayReworked(inst, days, now, e)
      ensures now[e].distTotal == PathLen(inst, Ids(now[e].steps))
    {
    }
  }

  lemma RetimedTour(inst: Instance, days: seq<DayTour>, d: nat, pts: seq<nat>)
    requires d < |days|
    ensures TourOf(days[d := Retimed(inst, days[d], pts)]) == TourOf(days)[d := pts]
  {
  }

  // ----- The day evaluators -----

  // A day that is late somewhere is late at the end.
  lemma LateIsInfeasible(inst: Instance, day: nat, pts: seq<nat>, k: nat)
    requires inst.Valid() && inst.ArePoints(pts) && k < |pts|
    requires Arrive(inst, pts, k) > inst.DayMaxDist(day) || Depart(inst, pts, k) > inst.DayMaxDist(day)
    ensures !Feasible(inst, day, pts)
  {
    hide Instance.Valid;
    TimesGrow(inst, pts, k, |pts| - 1);
  }

  predicate WindowsTo(inst: Instance, pts: seq<nat>, n: nat)
    requires n <= |pts|
  {
    n == 0 || (WindowsTo(inst, pts, n - 1) && WindowAt(inst, pts, n - 1))
  }

  lemma {:induction false} WindowsToAll(inst: Instance, pts: seq<nat>, n: nat)
    requires n <= |pts|
    ensures WindowsTo(inst, pts, n) <==> forall k :: 0 <= k < n ==> WindowAt(inst, pts, k)
  {
    if n > 0 {
      WindowsToAll(inst, pts, n - 1);
    }
  }

  // What one iteration of either evaluator adds to the schedule.
  lemma StopAt(inst: Instance, pts: seq<nat>, i: nat)
    requires i < |pts|
    ensures Arrive(inst, pts, i) == if i == 0 then 0.0 else Depart(inst, pts, i - 1) + inst.D(pts[i - 1], pts[i])
    ensures LenTo(inst, pts, i) == if i == 0 then 0.0 else LenTo(inst, pts, i - 1) + inst.D(pts[i - 1], pts[i])
    ensures Depart(inst, pts, i) == Leave(inst, pts[i], Arrive(inst, pts, i))
    ensures WindowsTo(inst, pts, i + 1) <==> WindowsTo(inst, pts, i) && WindowAt(inst, pts, i)
  {
  }

  method EvalDay(inst: Instance, dayIdx: nat, dayPoints: seq<nat>)
    returns (ok: bool, dist: real, steps: seq<Step>)
    requires inst.Valid() && dayIdx < inst.nbDays && inst.ArePoints(dayPoints)
    ensures ok <==> Feasible(inst, dayIdx, dayPoints)
    ensures ok ==> dist == PathLen(inst, dayPoints) && steps == Timetable(inst, dayPoints)
    ensures !ok ==> dist == 0.0 && steps == []
  {
    hide Arrive, Depart, LenTo, Instance.Metric;
    dist := 0.0;
    steps := [];
    var t := 0.0;
    var maxDist := inst.DayMaxDist(dayIdx);
    var i := 0;
    while i < |dayPoints|
      invariant 0 <= i == |steps| <= |dayPoints|
      invariant t == if i == 0 then 0.0 else Depart(inst, dayPoints, i - 1)
      invariant dist == if i == 0 then 0.0 else LenTo(inst, dayPoints, i - 1)
      invariant t <= maxDist
      invariant WindowsTo(inst, dayPoints, i)
      invariant forall k :: 0 <= k < i ==> steps[k] == TimedStep(inst, dayPoints, k)
    {
      StopAt(inst, dayPoints, i);
      var pID := dayPoints[i];
      var pt := inst.points[pID];
      var d := 0.0;
      if i > 0 {
        d := inst.dist[dayPoints[i - 1]][pID];
        dist := dist + d;
        t := t + d;
        if t > maxDist {
          LateIsInfeasible(inst, dayIdx, dayPoints, i);
          return false, 0.0, [];
        }
      }
      var arrival := t;
      var wait := 0.0;
      if pt.kind.Site? {
        if t < pt.openTime {
          wait := pt.openTime - t;
        }
        var startVisit := t + wait;
        if startVisit > pt.closeTime {
          assert !WindowAt(inst, dayPoints, i);
          return false, 0.0, [];
        }
        t := startVisit + pt.serviceTime;
        if t > maxDist {
          LateIsInfeasible(inst, dayIdx, dayPoints, i);
          return false, 0.0, [];
        }
      }
      assert WindowAt(inst, dayPoints, i);
      steps := steps + [Step(pID, arrival, wait, t, d)];
      assert steps[i] == TimedStep(inst, dayPoints, i);
      i := i + 1;
    }
    WindowsToAll(inst, dayPoints, i);
    return true, dist, steps;
  }

  method EvalDayFast(inst: Instance, dayIdx: nat, dayPoints: seq<nat>) returns (ok: bool, dist: real)
    requires inst.Valid() && dayIdx < inst.nbDays && inst.ArePoints(dayPoints)
    ensures ok <==> Feasible(inst, dayIdx, dayPoints)
    ensures dist == if ok then PathLen(inst, dayPoints) else 0.0
  {
    dist := 0.0;
    var t := 0.0;
    var maxDist := inst.DayMaxDist(dayIdx);
    var i := 0;
    while i < |dayPoints|
      invariant 0 <= i <= |dayPoints|
      invariant t == if i == 0 then 0.0 else Depart(inst, dayPoints, i - 1)
      invariant dist == if i == 0 then 0.0 else LenTo(inst, dayPoints, i - 1)
      invariant t <= maxDist
      invariant WindowsTo(inst, dayPoints, i)
    {
      StopAt(inst, dayPoints, i);
      var pID := dayPoints[i];
      var pt := inst.points[pID];
      if i > 0 {
        var d := inst.dist[dayPoints[i - 1]][pID];
        dist := dist + d;
        t := t + d;
        if t > maxDist {
          LateIsInfeasible(inst, dayIdx, dayPoints, i);
          return false, 0.0;
        }
      }
      if pt.kind.Site? {
        var wait := 0.0;
        if t < pt.openTime {
          wait := pt.openTime - t;
        }
        var startVisit := t + wait;
        if startVisit > pt.closeTime {
          assert !WindowAt(inst, dayPoints, i);
          return false, 0.0;
        }
        t := startVisit + pt.serviceTime;
        if t > maxDist {
          LateIsInfeasible(inst, dayIdx, dayPoints, i);
          return false, 0.0;
        }
      }
      assert WindowAt(inst, dayPoints, i);
      i := i + 1;
    }
    WindowsToAll(inst, dayPoints, i);
    return true, dist;
  }

  // ----- Counting the score stop by stop -----

  lemma NoDaysCounted(inst: Instance, tour: Tour)
    ensures Worth(inst, SitesBefore(inst, tour, 0)) == 0.0
  {
    WorthOfNone(inst);
  }

  lemma NoStopsCounted(inst: Instance, pts: seq<nat>)
    ensures Worth(inst, SitesOf(inst, pts[..0])) == 0.0
  {
    WorthOfNone(inst);
  }

  lemma CountStop(inst: Instance, pts: seq<nat>, k: nat)
    requires k < |pts|
    ensures Worth(inst, SitesOf(inst, pts[..k + 1]))
         == Worth(inst, SitesOf(inst, pts[..k])) + (if inst.IsSite(pts[k]) then inst.points[pts[k]].score else 0.0)
  {
    assert pts[..k + 1][..k] == pts[..k];
    if inst.IsSite(pts[k]) {
      WorthAdds(inst, SitesOf(inst, pts[..k]), multiset{pts[k]});
      WorthOfOne(inst, pts[k]);
    } else {
      assert SitesOf(inst, pts[..k + 1]) == SitesOf(inst, pts[..k]);
    }
  }

  lemma CountDay(inst: Instance, tour: Tour, d: nat)
    requires d < |tour|
    ensures Worth(inst, SitesBefore(inst, tour, d + 1))
         == Worth(inst, SitesBefore(inst, tour, d)) + Worth(inst, SitesOf(inst, tour[d]))
  {
    WorthAdds(inst, SitesBefore(inst, tour, d), SitesOf(inst, tour[d]));
  }

  lemma AllDaysCounted(inst: Instance, tour: Tour)
    ensures AllSites(inst, tour) == SitesBefore(inst, tour, |tour|)
  {
  }

  // ----- Solutions -----

  class Solution {
    const inst: Instance
    var days: seq<DayTour>
    var totalScore: real
    var totalDist: real

    constructor (inst: Instance)
      ensures this.inst == inst && days == [] && totalScore == 0.0 && totalDist == 0.0
    {
      this.inst := inst;
      days := [];
      totalScore := 0.0;
      totalDist := 0.0;
    }

    ghost function Tour(): Tour
      reads this
    {
      TourOf(days)
    }

    // All stops are points of the instance.
    ghost predicate Typed()
      reads this
    {
      forall d :: 0 <= d < |days| ==> inst.ArePoints(Ids(days[d].steps))
    }

    // The invariant of every run: a well-formed tour whose day lengths and score are true.
    ghost predicate Valid()
      reads this
    {
      && inst.Valid()
      && WellFormed(inst, Tour())
      && TrueLengths(inst, days)
      && totalScore == Worth(inst, AllSites(inst, Tour()))
    }

    ghost predicate AllFeasible()
      reads this
    {
      Tours.AllFeasible(inst, Tour())
    }

    // The cached legs are true as well; a shake breaks this, evaluation restores it.
    ghost predicate TrueSteps()
      reads this
    {
      AllTrueLegs(inst, days)
    }

    ghost predicate TrueTotalDist()
      reads this
    {
      totalDist == TotalLen(inst, Tour(), |Tour()|)
    }

    method EvaluateScore()
      requires inst.Valid() && Typed()
      modifies this`totalScore, this`totalDist
      ensures totalScore == Worth(inst, AllSites(inst, Tour()))
      ensures totalDist == CachedTotal(days, |days|)
      ensures TrueSteps() ==> TrueTotalDist()
    {
      hide Worth, SitesOf, SitesBefore, AllSites, Instance.Metric, Instance.Sane, TotalLen, AllTrueLegs;
      var score, total := 0.0, 0.0;
      var d := 0;
      NoDaysCounted(inst, Tour());
      while d < |days|
        invariant 0 <= d <= |days|
        invariant score == Worth(inst, SitesBefore(inst, Tour(), d))
        invariant total == CachedTotal(days, d)
      {
        var steps := days[d].steps;
        var distDay := 0.0;
        ghost var pts := Ids(steps);
        ghost var before := score;
        var k := 0;
        NoStopsCounted(inst, pts);
        while k < |steps|
          invariant 0 <= k <= |steps|
          invariant score == before + Worth(inst, SitesOf(inst, pts[..k]))
          invariant distDay == CachedLen(steps, k)
        {
          CountStop(inst, pts, k);
          distDay := distDay + steps[k].distFromPrev;
          if inst.points[steps[k].pointId].kind.Site? {
            score := score + inst.points[steps[k].pointId].score;
          }
          k := k + 1;
        }
        assert pts[..k] == Tour()[d];
        CountDay(inst, Tour(), d);
        total := total + distDay;
        d := d + 1;
      }
      AllDaysCounted(inst, Tour());
      totalScore := score;
      totalDist := total;
      if TrueSteps() {
        TrueTotals(inst, days, |days|);
      }
    }

    method Clone() returns (copy: Solution)
      ensures fresh(copy) && copy.inst == inst
      ensures copy.days == days && copy.totalScore == totalScore && copy.totalDist == totalDist
    {
      copy := new Solution(inst);
      copy.totalScore := totalScore;
      copy.totalDist := totalDist;
      copy.days := days;
    }
  }
}
