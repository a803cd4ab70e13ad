// Neighbourhood 3, best swap: replace a planned site by a better unvisited one.

module Swap {
  import opened Instances
  import opened Schedules
  import opened Tours
  import opened Solutions
  import opened Search

  // ----- What is searched: every feasible exchange that raises the score -----

  function Swapped(tour: Tour, d: nat, pos: nat, u: nat): seq<nat>
    requires d < |tour| && pos < |tour[d]|
  {
    tour[d][pos := u]
  }

  function Gain(inst: Instance, tour: Tour, d: nat, pos: nat, u: nat): real
    requires d < |tour| && pos < |tour[d]|
  {
    inst.Score(u) - inst.Score(tour[d][pos])
  }

  ghost predicate Swappable(inst: Instance, tour: Tour, unvisited: seq<nat>, d: nat, pos: nat, i: nat) {
    && d < |tour|
    && 0 < pos < |tour[d]| - 1
    && inst.IsSite(tour[d][pos])
    && i < |unvisited|
    && Gain(inst, tour, d, pos, unvisited[i]) > 0.0
    && Feasible(inst, d, Swapped(tour, d, pos, unvisited[i]))
  }

  ghost predicate Beats(inst: Instance, tour: Tour, unvisited: seq<nat>, d: nat, pos: nat, i: nat, gain: real,
                        dist: real)
    requires d < |tour| && pos < |tour[d]| && i < |unvisited|
  {
    || Gain(inst, tour, d, pos, unvisited[i]) > gain
    || (Gain(inst, tour, d, pos, unvisited[i]) == gain && PathLen(inst, Swapped(tour, d, pos, unvisited[i])) < dist)
  }

  ghost predicate Ties(inst: Instance, tour: Tour, unvisited: seq<nat>, d: nat, pos: nat, i: nat, gain: real,
                       dist: real)
    requires d < |tour| && pos < |tour[d]| && i < |unvisited|
  {
    Gain(inst, tour, d, pos, unvisited[i]) == gain && PathLen(inst, Swapped(tour, d, pos, unvisited[i])) == dist
  }

  // The order in which the code tries them: by day, position and site.
  predicate Before(e: nat, q: nat, j: nat, d: nat, pos: nat, i: nat) {
    e < d || (e == d && (q < pos || (q == pos && j < i)))
  }

  // None beats it, and it is the first of those that are as good.
  ghost predicate IsBestSwap(inst: Instance, tour: Tour, unvisited: seq<nat>, d: nat, pos: nat, i: nat) {
    && Swappable(inst, tour, unvisited, d, pos, i)
    && forall e: nat, q: nat, j: nat :: Swappable(inst, tour, unvisited, e, q, j) ==>
         var gain, dist := Gain(inst, tour, d, pos, unvisited[i]), PathLen(inst, Swapped(tour, d, pos, unvisited[i]));
         && !Beats(inst, tour, unvisited, e, q, j, gain, dist)
         && (Before(e, q, j, d, pos, i) ==> !Ties(inst, tour, unvisited, e, q, j, gain, dist))
  }

  // ----- The part of the search space already covered -----

  datatype Best = NoBest | Best(day: nat, pos: nat, i: nat, bestDelta: real, bestDist: real, steps: seq<Step>) {
    function Delta(): real { if NoBest? then 0.0 else bestDelta }
    function Dist(): real { if NoBest? then 0.0 else bestDist }
  }

  ghost predicate Searched(inst: Instance, tour: Tour, unvisited: seq<nat>, d: nat, pos: nat, i: nat, best: Best) {
    && (best.Best? ==>
          && Swappable(inst, tour, unvisited, best.day, best.pos, best.i)
          && best.bestDelta == Gain(inst, tour, best.day, best.pos, unvisited[best.i])
          && best.bestDist == PathLen(inst, Swapped(tour, best.day, best.pos, unvisited[best.i]))
          && best.steps == Timetable(inst, Swapped(tour, best.day, best.pos, unvisited[best.i]))
          && Before(best.day, best.pos, best.i, d, pos, i))
    && forall e: nat, q: nat, j: nat :: Swappable(inst, tour, unvisited, e, q, j) && Before(e, q, j, d, pos, i) ==>
         && !Beats(inst, tour, unvisited, e, q, j, best.Delta(), best.Dist())
         && (best.Best? && Before(e, q, j, best.day, best.pos, best.i) ==>
               !Ties(inst, tour, unvisited, e, q, j, best.bestDelta, best.bestDist))
  }

  lemma SearchedNothing(inst: Instance, tour: Tour, unvisited: seq<nat>)
    ensures Searched(inst, tour, unvisited, 0, 1, 0, NoBest)
  {
  }

  lemma SearchedStop(inst: Instance, tour: Tour, unvisited: seq<nat>, d: nat, pos: nat, i: nat, best: Best)
    requires Searched(inst, tour, unvisited, d, pos, i, best)
    requires i >= |unvisited| || (d < |tour| && pos < |tour[d]| && !inst.IsSite(tour[d][pos]))
    ensures Searched(inst, tour, unvisited, d, pos + 1, 0, best)
  {
  }

  lemma SearchedDay(inst: Instance, tour: Tour, unvisited: seq<nat>, d: nat, pos: nat, best: Best)
    requires Searched(inst, tour, unvisited, d, pos, 0, best)
    requires d < |tour| ==> pos >= |tour[d]| - 1
    ensures Searched(inst, tour, unvisited, d + 1, 1, 0, best)
  {
  }

  lemma SearchedAll(inst: Instance, tour: Tour, unvisited: seq<nat>, d: nat, best: Best)
    requires Searched(inst, tour, unvisited, d, 1, 0, best) && d >= |tour|
    ensures best.NoBest? ==> !CanSwap(inst, tour, unvisited)
    ensures best.Best? ==> IsBestSwap(inst, tour, unvisited, best.day, best.pos, best.i)
  {
    forall e: nat, q: nat, j: nat | Swappable(inst, tour, unvisited, e, q, j)
      ensures !Beats(inst, tour, unvisited, e, q, j, best.Delta(), best.Dist())
      ensures best.Best? && Before(e, q, j, best.day, best.pos, best.i) ==>
                !Ties(inst, tour, unvisited, e, q, j, best.bestDelta, best.bestDist)
    {
      assert Before(e, q, j, d, 1, 0);
    }
  }

  lemma SearchedSkip(inst: Instance, tour: Tour, unvisited: seq<nat>, d: nat, pos: nat, i: nat, best: Best)
    requires Searched(inst, tour, unvisited, d, pos, i, best) && d < |tour| && pos < |tour[d]| && i < |unvisited|
    requires || !Swappable(inst, tour, unvisited, d, pos, i)
             || !Beats(inst, tour, unvisited, d, pos, i, best.Delta(), best.Dist())
    ensures Searched(inst, tour, unvisited, d, pos, i + 1, best)
  {
  }

  lemma SearchedTake(inst: Instance, tour: Tour, unvisited: seq<nat>, d: nat, pos: nat, i: nat, best: Best,
                     dist: real, steps: seq<Step>)
    requires Searched(inst, tour, unvisited, d, pos, i, best) && Swappable(inst, tour, unvisited, d, pos, i)
    requires Beats(inst, tour, unvisited, d, pos, i, best.Delta(), best.Dist())
    requires dist == PathLen(inst, Swapped(tour, d, pos, unvisited[i]))
    requires steps == Timetable(inst, Swapped(tour, d, pos, unvisited[i]))
    ensures Searched(inst, tour, unvisited, d, pos, i + 1,
                     Best(d, pos, i, Gain(inst, tour, d, pos, unvisited[i]), dist, steps))
  {
    hide PathLen, Timetable, Feasible;
  }

  lemma ReplacePoints(inst: Instance, pts: seq<nat>, pos: nat, u: nat)
    requires inst.ArePoints(pts) && pos < |pts| && inst.IsPoint(u)
    ensures inst.ArePoints(pts[pos := u])
  {
  }

  lemma PruneSound(inst: Instance, tour: Tour, unvisited: seq<nat>, d: nat, pos: nat, i: nat, distTotal: real)
    requires inst.Valid() && i < |unvisited| && d < |tour| && 0 < pos < |tour[d]| - 1
    requires inst.ArePoints(tour[d]) && inst.IsPoint(unvisited[i]) && distTotal == PathLen(inst, tour[d])
    requires distTotal + ((inst.D(tour[d][pos - 1], unvisited[i]) + inst.D(unvisited[i], tour[d][pos + 1]))
                          - (inst.D(tour[d][pos - 1], tour[d][pos]) + inst.D(tour[d][pos], tour[d][pos + 1])))
             > inst.DayMaxDist(d)
    ensures !Swappable(inst, tour, unvisited, d, pos, i)
  {
    ReplaceLength(inst, tour[d], pos, unvisited[i]);
    ReplacePoints(inst, tour[d], pos, unvisited[i]);
    if Feasible(inst, d, Swapped(tour, d, pos, unvisited[i])) {
      FeasibleWithinBudget(inst, d, Swapped(tour, d, pos, unvisited[i]));
    }
  }

  lemma LengthNonNegative(inst: Instance, pts: seq<nat>)
    requires inst.Valid() && inst.ArePoints(pts)
    ensures PathLen(inst, pts) >= 0.0
  {
    if pts != [] {
      LengthWithinTime(inst, pts, |pts| - 1);
    }
  }

  // Starting from gain 0 and distance 0, only a positive gain is ever better.
  lemma PositiveGain(best: Best, delta: real, dist: real, inst: Instance, tour: Tour, unvisited: seq<nat>, d: nat,
                     pos: nat, i: nat)
    requires Searched(inst, tour, unvisited, d, pos, i, best) && dist >= 0.0
    requires delta > best.Delta() || (delta == best.Delta() && dist < best.Dist())
    ensures delta > 0.0
  {
  }

  // The body of the innermost loop: one exchange, tried in the buffer and undone.
  method TrySwap(inst: Instance, day: DayTour, buf: array<nat>, u: nat, best: Best,
                 ghost tour: Tour, ghost unvisited: seq<nat>, dIdx: nat, pos: nat, i: nat)
    returns (best': Best)
    requires inst.Valid() && dIdx < inst.nbDays
    requires i < |unvisited| && unvisited[i] == u && inst.IsSite(u)
    requires dIdx < |tour| && buf[..] == tour[dIdx] && 0 < pos < buf.Length - 1
    requires inst.ArePoints(tour[dIdx]) && inst.IsSite(tour[dIdx][pos])
    requires day.distTotal == PathLen(inst, tour[dIdx])
    requires Searched(inst, tour, unvisited, dIdx, pos, i, best)
    modifies buf
    ensures buf[..] == tour[dIdx]
    ensures Searched(inst, tour, unvisited, dIdx, pos, i + 1, best')
  {
    hide PathLen, Feasible, Timetable, Searched, Instance.Metric, Instance.Sane;
    best' := best;
    var oldID := buf[pos];
    assert oldID == tour[dIdx][pos];
    var prevID, nextID := buf[pos - 1], buf[pos + 1];
    assert prevID == tour[dIdx][pos - 1] && nextID == tour[dIdx][pos + 1];
    var delta := inst.points[u].score - inst.points[oldID].score;
    assert delta == Gain(inst, tour, dIdx, pos, u);
    if delta < best.Delta() {
      SearchedSkip(inst, tour, unvisited, dIdx, pos, i, best);
      return;
    }
    var deltaDist := (inst.dist[prevID][u] + inst.dist[u][nextID])
                     - (inst.dist[prevID][oldID] + inst.dist[oldID][nextID]);
    if day.distTotal + deltaDist > inst.DayMaxDist(dIdx) {
      PruneSound(inst, tour, unvisited, dIdx, pos, i, day.distTotal);
      SearchedSkip(inst, tour, unvisited, dIdx, pos, i, best);
      return;
    }
    buf[pos] := u;
    assert buf[..] == Swapped(tour, dIdx, pos, u);
    ReplacePoints(inst, tour[dIdx], pos, u);
    LengthNonNegative(inst, buf[..]);
    var feasible, newDist := EvalDayFast(inst, dIdx, buf[..]);
    if feasible && (delta > best.Delta() || (delta == best.Delta() && newDist < best.Dist())) {
      var _, _, steps := EvalDay(inst, dIdx, buf[..]);
      PositiveGain(best, delta, newDist, inst, tour, unvisited, dIdx, pos, i);
      SearchedTake(inst, tour, unvisited, dIdx, pos, i, best, newDist, steps);
      best' := Best(dIdx, pos, i, delta, newDist, steps);
    } else {
      SearchedSkip(inst, tour, unvisited, dIdx, pos, i, best);
    }
    buf[pos] := oldID;
    assert buf[..] == tour[dIdx];
  }

  method FindSwap(inst: Instance, days: seq<DayTour>, unvisited: seq<nat>) returns (best: Best)
    requires inst.Valid() && WellFormed(inst, TourOf(days)) && TrueLengths(inst, days)
    requires Partition(inst, TourOf(days), unvisited)
    ensures Searched(inst, TourOf(days), unvisited, |days|, 1, 0, best)
  {
    hide Searched, TrueLengths, Partition, TourOf, DayShape;
    ghost var tour := TourOf(days);
    best := NoBest;
    SearchedNothing(inst, tour, unvisited);
    var dIdx := 0;
    while dIdx < |days|
      invariant 0 <= dIdx <= |days|
      invariant Searched(inst, tour, unvisited, dIdx, 1, 0, best)
    {
      var pts := Ids(days[dIdx].steps);
      DayFacts(inst, days, dIdx);
      if |pts| <= 2 {
        SearchedDay(inst, tour, unvisited, dIdx, 1, best);
        dIdx := dIdx + 1;
        continue;
      }
      var buf := new nat[|pts|](k requires 0 <= k < |pts| => pts[k]);
      assert buf[..] == pts;
      var pos := 1;
      while pos < buf.Length - 1
        invariant 1 <= pos
        invariant buf[..] == pts
        invariant Searched(inst, tour, unvisited, dIdx, pos, 0, best)
      {
        var oldID := buf[pos];
        assert oldID == pts[pos];
        var i := 0;
        if inst.points[oldID].kind.Site? {
          while i < |unvisited|
            invariant 0 <= i <= |unvisited|
            invariant buf[..] == pts
            invariant Searched(inst, tour, unvisited, dIdx, pos, i, best)
          {
            UnvisitedAreSites(inst, tour, unvisited, i);
            best := TrySwap(inst, days[dIdx], buf, unvisited[i], best, tour, unvisited, dIdx, pos, i);
            i := i + 1;
          }
        }
        SearchedStop(inst, tour, unvisited, dIdx, pos, i, best);
        pos := pos + 1;
      }
      SearchedDay(inst, tour, unvisited, dIdx, pos, best);
      dIdx := dIdx + 1;
    }
  }

  // ----- The neighbourhood -----

  ghost predicate CanSwap(inst: Instance, tour: Tour, unvisited: seq<nat>) {
    exists d: nat, pos: nat, i: nat :: Swappable(inst, tour, unvisited, d, pos, i)
  }

  ghost predicate Gains(inst: Instance, tour: Tour, d: nat, pos: nat, u: nat) {
    && d < |tour| && 0 < pos < |tour[d]| - 1 && inst.IsSite(tour[d][pos])
    && Gain(inst, tour, d, pos, u) > 0.0 && Feasible(inst, d, Swapped(tour, d, pos, u))
  }

  // No site left out gains by taking the place of another.
  ghost predicate SwapOptimal(inst: Instance, tour: Tour) {
    forall u: nat, d: nat, pos: nat :: inst.IsSite(u) && u !in AllSites(inst, tour) ==> !Gains(inst, tour, d, pos, u)
  }

  lemma GainingIsListed(inst: Instance, tour: Tour, unvisited: seq<nat>, d: nat, pos: nat, u: nat)
    requires inst.Valid() && Partition(inst, tour, unvisited) && inst.IsSite(u) && u !in AllSites(inst, tour)
    requires Gains(inst, tour, d, pos, u)
    ensures CanSwap(inst, tour, unvisited)
  {
    PartitionFacts(inst, tour, unvisited, u);
    assert u in multiset(unvisited);
    var i :| 0 <= i < |unvisited| && unvisited[i] == u;
    assert Swappable(inst, tour, unvisited, d, pos, i);
  }

  lemma NothingGains(inst: Instance, tour: Tour, unvisited: seq<nat>)
    requires inst.Valid() && Partition(inst, tour, unvisited) && !CanSwap(inst, tour, unvisited)
    ensures SwapOptimal(inst, tour)
  {
    hide AllSites, Partition, CanSwap, Gains, Instance.Valid;
    forall u: nat, d: nat, pos: nat | inst.IsSite(u) && u !in AllSites(inst, tour)
      ensures !Gains(inst, tour, d, pos, u)
    {
      if Gains(inst, tour, d, pos, u) {
        GainingIsListed(inst, tour, unvisited, d, pos, u);
      }
    }
  }

  ghost predicate BestSwapped(inst: Instance, was: Tour, unvisited: seq<nat>, now: Tour) {
    exists d: nat, pos: nat, i: nat :: IsBestSwap(inst, was, unvisited, d, pos, i)
                                    && now == was[d := Swapped(was, d, pos, unvisited[i])]
  }

  // The visited sites after u took the place of old.
  lemma SwapCounts(inst: Instance, tour: Tour, unvisited: seq<nat>, d: nat, pos: nat, u: nat)
    requires inst.Valid() && Partition(inst, tour, unvisited) && u in unvisited
    requires d < |tour| && pos < |tour[d]| && inst.IsSite(tour[d][pos])
    ensures inst.IsSite(u) && u != tour[d][pos]
    ensures var now := tour[d := Swapped(tour, d, pos, u)];
            && AllSites(inst, now) + multiset{tour[d][pos]} == AllSites(inst, tour) + multiset{u}
            && NoRepeat(inst, now)
            && Worth(inst, AllSites(inst, now)) == Worth(inst, AllSites(inst, tour)) + Gain(inst, tour, d, pos, u)
  {
    var now := tour[d := Swapped(tour, d, pos, u)];
    var old' := tour[d][pos];
    PartitionFacts(inst, tour, unvisited, u);
    assert u in multiset(unvisited);
    DayWithinBefore(inst, tour, d, |tour|);
    SitesCounted(inst, tour[d], old');
    SitesOfReplace(inst, tour[d], pos, u);
    AllSitesUpdate(inst, tour, d, Swapped(tour, d, pos, u));
    SwapAdd(AllSites(inst, now), SitesOf(inst, tour[d]), AllSites(inst, tour), SitesOf(inst, Swapped(tour, d, pos, u)),
            multiset{old'}, multiset{u});
    forall v: nat
      ensures AllSites(inst, now)[v] <= 1
    {
      PartitionFacts(inst, tour, unvisited, v);
      assert (AllSites(inst, now) + multiset{old'})[v] == (AllSites(inst, tour) + multiset{u})[v];
    }
    WorthAdds(inst, AllSites(inst, now), multiset{old'});
    WorthAdds(inst, AllSites(inst, tour), multiset{u});
    WorthOfOne(inst, u);
    WorthOfOne(inst, old');
  }

  lemma SwapAdd(now: multiset<nat>, day: multiset<nat>, was: multiset<nat>, day': multiset<nat>,
                less: multiset<nat>, more: multiset<nat>)
    requires now + day == was + day' && day' + less == day + more
    ensures now + less == was + more
  {
    forall v: nat
      ensures (now + less)[v] == (was + more)[v]
    {
      assert (now + day)[v] == (was + day')[v];
      assert (day' + less)[v] == (day + more)[v];
    }
  }

  lemma SwapPartition(inst: Instance, tour: Tour, now: Tour, unvisited: seq<nat>, left: seq<nat>, u: nat, old': nat)
    requires Partition(inst, tour, unvisited) && u in unvisited
    requires AllSites(inst, now) + multiset{old'} == AllSites(inst, tour) + multiset{u}
    requires multiset(left) == multiset(unvisited) - multiset{u} + multiset{old'}
    ensures Partition(inst, now, left)
  {
    forall v: nat
      ensures (multiset(left) + AllSites(inst, now))[v] == (multiset(unvisited) + AllSites(inst, tour))[v]
    {
      assert u in multiset(unvisited);
      assert (AllSites(inst, now) + multiset{old'})[v] == (AllSites(inst, tour) + multiset{u})[v];
    }
  }

  lemma FlagsAfterSwap(inst: Instance, flags: seq<bool>, was: multiset<nat>, now: multiset<nat>, u: nat, old': nat)
    requires FlagsTrue(inst, flags, was) && u < |flags| && old' < |flags| && u != old'
    requires now + multiset{old'} == was + multiset{u} && was[old'] <= 1
    ensures FlagsTrue(inst, flags[u := true][old' := false], now)
  {
    forall v: nat | v < |flags|
      ensures flags[u := true][old' := false][v] <==> v in now
    {
      assert (now + multiset{old'})[v] == (was + multiset{u})[v];
    }
  }

  lemma SwapShape(inst: Instance, pts: seq<nat>, pos: nat, u: nat)
    requires DayShape(inst, pts) && 0 < pos < |pts| - 1 && inst.IsSite(u)
    ensures DayShape(inst, pts[pos := u])
    ensures First(pts[pos := u]) == First(pts) && Last(pts[pos := u]) == Last(pts)
  {
  }

  lemma SwapKeeps(inst: Instance, days: seq<DayTour>, unvisited: seq<nat>, d: nat, pos: nat, i: nat)
    requires inst.Valid() && WellFormed(inst, TourOf(days)) && TrueLengths(inst, days)
    requires Partition(inst, TourOf(days), unvisited)
    requires Swappable(inst, TourOf(days), unvisited, d, pos, i)
    ensures var pts := Swapped(TourOf(days), d, pos, unvisited[i]);
            var now := days[d := Retimed(inst, days[d], pts)];
            && TourOf(now) == TourOf(days)[d := pts]
            && WellFormed(inst, TourOf(now)) && TrueLengths(inst, now) && Reworked(inst, days, now)
  {
    hide SitesOf, AllSites, SitesBefore, Worth, Feasible, NoRepeat;
    SwapCounts(inst, TourOf(days), unvisited, d, pos, unvisited[i]);
    SwapShape(inst, TourOf(days)[d], pos, unvisited[i]);
    RetimeDay(inst, days, d, Swapped(TourOf(days), d, pos, unvisited[i]));
  }

  method BestSwap(sol: Solution, state: SearchState) returns (improved: bool)
    requires sol.Valid() && state.sol == sol && state.Synced()
    modifies sol`days, sol`totalScore, state`unvisited, state.visited
    ensures sol.Valid() && state.Synced()
    ensures improved <==> CanSwap(sol.inst, old(sol.Tour()), old(state.unvisited))
    ensures improved ==> BestSwapped(sol.inst, old(sol.Tour()), old(state.unvisited), sol.Tour())
    ensures improved ==> sol.totalScore > old(sol.totalScore)
    ensures !improved ==> unchanged(sol) && unchanged(state)
    ensures Reworked(sol.inst, old(sol.days), sol.days)
  {
    hide Searched, IsBestSwap, AllSites, Worth, TrueLengths, WellFormed, Partition, Reworked, Instance.Valid,
         FlagsTrue, Feasible;
    var inst := sol.inst;
    ghost var was, unvisited, all := sol.Tour(), state.unvisited, AllSites(sol.inst, sol.Tour());
    ReworkedRefl(inst, sol.days);
    var best := FindSwap(inst, sol.days, state.unvisited);
    SearchedAll(inst, was, unvisited, |was|, best);
    if best.NoBest? || best.bestDelta <= 0.0 {
      BestMeans(inst, was, unvisited, best);
      return false;
    }
    BestMeans(inst, was, unvisited, best);
    var newID, oldID := state.unvisited[best.i], sol.days[best.day].steps[best.pos].pointId;
    SwapKeeps(inst, sol.days, unvisited, best.day, best.pos, best.i);
    SwapCounts(inst, was, unvisited, best.day, best.pos, newID);
    assert BestSwapped(inst, was, unvisited, was[best.day := Swapped(was, best.day, best.pos, newID)]);
    PartitionFacts(inst, was, unvisited, oldID);
    ghost var flags := state.visited[..];
    sol.days := sol.days[best.day := sol.days[best.day].(steps := best.steps, distTotal := best.bestDist)];
    sol.totalScore := sol.totalScore + best.bestDelta;
    FlagsAfterSwap(inst, flags, all, AllSites(inst, sol.Tour()), newID, oldID);
    state.MarkVisited(newID);
    state.MarkUnvisited(oldID);
    SwapPartition(inst, was, sol.Tour(), unvisited, state.unvisited, newID, oldID);
    return true;
  }

  lemma BestMeans(inst: Instance, tour: Tour, unvisited: seq<nat>, best: Best)
    requires Searched(inst, tour, unvisited, |tour|, 1, 0, best)
    ensures best.Best? ==>
      && Swappable(inst, tour, unvisited, best.day, best.pos, best.i)
      && best.bestDelta == Gain(inst, tour, best.day, best.pos, unvisited[best.i]) > 0.0
      && best.bestDist == PathLen(inst, Swapped(tour, best.day, best.pos, unvisited[best.i]))
      && best.steps == Timetable(inst, Swapped(tour, best.day, best.pos, unvisited[best.i]))
  {
  }
}
