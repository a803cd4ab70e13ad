// Neighbourhood 1, best insertion: an exhaustive search with pruning by distance.

module Insertion {
  import opened Instances
  import opened Schedules
  import opened Tours
  import opened Solutions
  import opened Search
  import opened Moves

  // ----- What is searched: every feasible place for every scoring unvisited site -----

  function Placed(tour: Tour, d: nat, pos: nat, u: nat): seq<nat>
    requires d < |tour| && pos <= |tour[d]|
  {
    InsertAt(tour[d], pos, u)
  }

  ghost predicate Insertable(inst: Instance, tour: Tour, unvisited: seq<nat>, i: nat, d: nat, pos: nat) {
    && i < |unvisited|
    && inst.Score(unvisited[i]) > 0.0
    && d < |tour|
    && 0 < pos < |tour[d]|
    && Feasible(inst, d, Placed(tour, d, pos, unvisited[i]))
  }

  // A higher score, or the same score on a shorter day.
  ghost predicate Beats(inst: Instance, tour: Tour, unvisited: seq<nat>, i: nat, d: nat, pos: nat, score: real,
                        dist: real)
    requires i < |unvisited| && d < |tour| && pos <= |tour[d]|
  {
    || inst.Score(unvisited[i]) > score
    || (inst.Score(unvisited[i]) == score && PathLen(inst, Placed(tour, d, pos, unvisited[i])) < dist)
  }

  ghost predicate Ties(inst: Instance, tour: Tour, unvisited: seq<nat>, i: nat, d: nat, pos: nat, score: real,
                       dist: real)
    requires i < |unvisited| && d < |tour| && pos <= |tour[d]|
  {
    inst.Score(unvisited[i]) == score && PathLen(inst, Placed(tour, d, pos, unvisited[i])) == dist
  }

  // The order in which the code tries them: by site, day and position.
  predicate Before(j: nat, e: nat, q: nat, i: nat, d: nat, pos: nat) {
    j < i || (j == i && (e < d || (e == d && q < pos)))
  }

  // None beats it, and it is the first of those that are as good.
  ghost predicate IsBestInsertion(inst: Instance, tour: Tour, unvisited: seq<nat>, i: nat, d: nat, pos: nat) {
    && Insertable(inst, tour, unvisited, i, d, pos)
    && forall j: nat, e: nat, q: nat :: Insertable(inst, tour, unvisited, j, e, q) ==>
         var score, dist := inst.Score(unvisited[i]), PathLen(inst, Placed(tour, d, pos, unvisited[i]));
         && !Beats(inst, tour, unvisited, j, e, q, score, dist)
         && (Before(j, e, q, i, d, pos) ==> !Ties(inst, tour, unvisited, j, e, q, score, dist))
  }

  // ----- The part of the search space already covered -----

  // The best-so-far variables of the search; score and distance start at 0.
  datatype Best = NoBest | Best(i: nat, day: nat, pos: nat, bestScore: real, bestDist: real, steps: seq<Step>) {
    function Score(): real { if NoBest? then 0.0 else bestScore }
    function Dist(): real { if NoBest? then 0.0 else bestDist }
  }

  // best is the best of all candidates that come before (i, d, pos).
  ghost predicate Searched(inst: Instance, tour: Tour, unvisited: seq<nat>, i: nat, d: nat, pos: nat, best: Best) {
    && (best.Best? ==>
          && Insertable(inst, tour, unvisited, best.i, best.day, best.pos)
          && best.bestScore == inst.Score(unvisited[best.i])
          && best.bestDist == PathLen(inst, Placed(tour, best.day, best.pos, unvisited[best.i]))
          && best.steps == Timetable(inst, Placed(tour, best.day, best.pos, unvisited[best.i]))
          && Before(best.i, best.day, best.pos, i, d, pos))
    && forall j: nat, e: nat, q: nat :: Insertable(inst, tour, unvisited, j, e, q) && Before(j, e, q, i, d, pos) ==>
         && !Beats(inst, tour, unvisited, j, e, q, best.Score(), best.Dist())
         && (best.Best? && Before(j, e, q, best.i, best.day, best.pos) ==>
               !Ties(inst, tour, unvisited, j, e, q, best.bestScore, best.bestDist))
  }

  lemma SearchedNothing(inst: Instance, tour: Tour, unvisited: seq<nat>)
    ensures Searched(inst, tour, unvisited, 0, 0, 1, NoBest)
  {
  }

  lemma SearchedDay(inst: Instance, tour: Tour, unvisited: seq<nat>, i: nat, d: nat, pos: nat, best: Best)
    requires Searched(inst, tour, unvisited, i, d, pos, best)
    requires d < |tour| ==> pos >= |tour[d]|
    ensures Searched(inst, tour, unvisited, i, d + 1, 1, best)
  {
  }

  lemma SearchedSite(inst: Instance, tour: Tour, unvisited: seq<nat>, i: nat, d: nat, best: Best)
    requires Searched(inst, tour, unvisited, i, d, 1, best)
    requires d >= |tour| || (i < |unvisited| && inst.Score(unvisited[i]) <= 0.0)
    ensures Searched(inst, tour, unvisited, i + 1, 0, 1, best)
  {
  }

  lemma SearchedAll(inst: Instance, tour: Tour, unvisited: seq<nat>, best: Best)
    requires Searched(inst, tour, unvisited, |unvisited|, 0, 1, best)
    ensures best.NoBest? ==> !exists j: nat, e: nat, q: nat :: Insertable(inst, tour, unvisited, j, e, q)
    ensures best.Best? ==> IsBestInsertion(inst, tour, unvisited, best.i, best.day, best.pos)
  {
    forall j: nat, e: nat, q: nat | Insertable(inst, tour, unvisited, j, e, q)
      ensures !Beats(inst, tour, unvisited, j, e, q, best.Score(), best.Dist())
      ensures best.Best? && Before(j, e, q, best.i, best.day, best.pos) ==>
                !Ties(inst, tour, unvisited, j, e, q, best.bestScore, best.bestDist)
    {
      assert Before(j, e, q, |unvisited|, 0, 1);
    }
  }

  // Skipping by distance never skips a feasible place.
  lemma PruneSound(inst: Instance, tour: Tour, unvisited: seq<nat>, i: nat, d: nat, pos: nat, distTotal: real)
    requires inst.Valid() && i < |unvisited| && d < |tour| && 0 < pos < |tour[d]|
    requires inst.ArePoints(tour[d]) && inst.IsPoint(unvisited[i]) && distTotal == PathLen(inst, tour[d])
    requires distTotal + (inst.D(tour[d][pos - 1], unvisited[i]) + inst.D(unvisited[i], tour[d][pos])
                          - inst.D(tour[d][pos - 1], tour[d][pos])) > inst.DayMaxDist(d)
    ensures !Insertable(inst, tour, unvisited, i, d, pos)
  {
    InsertLength(inst, tour[d], pos, unvisited[i]);
    InsertPoints(inst, tour[d], pos, unvisited[i]);
    if Feasible(inst, d, Placed(tour, d, pos, unvisited[i])) {
      FeasibleWithinBudget(inst, d, Placed(tour, d, pos, unvisited[i]));
    }
  }

  // The body of the innermost loop: one site at one place.
  method TryInsertion(inst: Instance, day: DayTour, pts: seq<nat>, u: nat, uScore: real, best: Best,
                      ghost tour: Tour, ghost unvisited: seq<nat>, i: nat, dIdx: nat, pos: nat)
    returns (best': Best)
    requires inst.Valid() && dIdx < inst.nbDays
    requires i < |unvisited| && unvisited[i] == u && inst.IsSite(u) && uScore == inst.Score(u) > 0.0
    requires dIdx < |tour| && tour[dIdx] == pts && 0 < pos < |pts|
    requires inst.ArePoints(pts) && day.distTotal == PathLen(inst, pts)
    requires Searched(inst, tour, unvisited, i, dIdx, pos, best)
    ensures Searched(inst, tour, unvisited, i, dIdx, pos + 1, best')
  {
    hide PathLen, Feasible, Timetable;
    var prevID, nextID := pts[pos - 1], pts[pos];
    var deltaDist := inst.dist[prevID][u] + inst.dist[u][nextID] - inst.dist[prevID][nextID];
    if day.distTotal + deltaDist > inst.DayMaxDist(dIdx) {
      PruneSound(inst, tour, unvisited, i, dIdx, pos, day.distTotal);
      return best;
    }
    var newPts := pts[..pos] + [u] + pts[pos..];
    InsertPoints(inst, pts, pos, u);
    var feasible, newDist := EvalDayFast(inst, dIdx, newPts);
    if !feasible {
      return best;
    }
    if uScore > best.Score() || (uScore == best.Score() && newDist < best.Dist()) {
      var _, _, steps := EvalDay(inst, dIdx, newPts);
      return Best(i, dIdx, pos, uScore, newDist, steps);
    }
    return best;
  }

  method FindInsertion(inst: Instance, days: seq<DayTour>, unvisited: seq<nat>) returns (best: Best)
    requires inst.Valid() && WellFormed(inst, TourOf(days)) && TrueLengths(inst, days)
    requires Partition(inst, TourOf(days), unvisited)
    ensures Searched(inst, TourOf(days), unvisited, |unvisited|, 0, 1, best)
  {
    hide Searched, TrueLengths, Partition, DayShape, TourOf;
    ghost var tour := TourOf(days);
    best := NoBest;
    SearchedNothing(inst, tour, unvisited);
    var i := 0;
    while i < |unvisited|
      invariant 0 <= i <= |unvisited|
      invariant Searched(inst, tour, unvisited, i, 0, 1, best)
    {
      var u := unvisited[i];
      UnvisitedAreSites(inst, tour, unvisited, i);
      var uScore := inst.points[u].score;
      if uScore <= 0.0 {
        SearchedSite(inst, tour, unvisited, i, 0, best);
        i := i + 1;
        continue;
      }
      var dIdx := 0;
      while dIdx < |days|
        invariant 0 <= dIdx <= |days|
        invariant Searched(inst, tour, unvisited, i, dIdx, 1, best)
      {
        var pts := Ids(days[dIdx].steps);
        DayFacts(inst, days, dIdx);
        var pos := 1;
        while pos < |pts|
          invariant 1 <= pos
          invariant Searched(inst, tour, unvisited, i, dIdx, pos, best)
        {
          best := TryInsertion(inst, days[dIdx], pts, u, uScore, best, tour, unvisited, i, dIdx, pos);
          pos := pos + 1;
        }
        SearchedDay(inst, tour, unvisited, i, dIdx, pos, best);
        dIdx := dIdx + 1;
      }
      SearchedSite(inst, tour, unvisited, i, dIdx, best);
      i := i + 1;
    }
  }

  // ----- The neighbourhood -----

  ghost predicate BestInserted(inst: Instance, was: Tour, unvisited: seq<nat>, now: Tour) {
    exists i: nat, d: nat, pos: nat :: IsBestInsertion(inst, was, unvisited, i, d, pos)
                                    && now == was[d := Placed(was, d, pos, unvisited[i])]
  }

  ghost predicate CanInsert(inst: Instance, tour: Tour, unvisited: seq<nat>) {
    exists i: nat, d: nat, pos: nat :: Insertable(inst, tour, unvisited, i, d, pos)
  }

  ghost predicate Fits(inst: Instance, tour: Tour, u: nat, d: nat, pos: nat) {
    d < |tour| && 0 < pos < |tour[d]| && inst.Score(u) > 0.0 && Feasible(inst, d, Placed(tour, d, pos, u))
  }

  // No site left out fits anywhere.
  ghost predicate Saturated(inst: Instance, tour: Tour) {
    forall u: nat, d: nat, pos: nat :: inst.IsSite(u) && u !in AllSites(inst, tour) ==> !Fits(inst, tour, u, d, pos)
  }

  lemma FittingIsListed(inst: Instance, tour: Tour, unvisited: seq<nat>, u: nat, d: nat, pos: nat)
    requires inst.Valid() && Partition(inst, tour, unvisited) && inst.IsSite(u) && u !in AllSites(inst, tour)
    requires Fits(inst, tour, u, d, pos)
    ensures CanInsert(inst, tour, unvisited)
  {
    PartitionFacts(inst, tour, unvisited, u);
    assert u in multiset(unvisited);
    var i :| 0 <= i < |unvisited| && unvisited[i] == u;
    assert Insertable(inst, tour, unvisited, i, d, pos);
  }

  lemma NothingLeft(inst: Instance, tour: Tour, unvisited: seq<nat>)
    requires inst.Valid() && Partition(inst, tour, unvisited) && !CanInsert(inst, tour, unvisited)
    ensures Saturated(inst, tour)
  {
    hide AllSites, Partition, CanInsert, Fits, Instance.Valid;
    forall u: nat, d: nat, pos: nat | inst.IsSite(u) && u !in AllSites(inst, tour)
      ensures !Fits(inst, tour, u, d, pos)
    {
      if Fits(inst, tour, u, d, pos) {
        FittingIsListed(inst, tour, unvisited, u, d, pos);
      }
    }
  }

  method BestInsertion(sol: Solution, state: SearchState) returns (improved: bool)
    requires sol.Valid() && state.sol == sol && state.Synced()
    modifies sol`days, sol`totalScore, state`unvisited, state.visited
    ensures sol.Valid() && state.Synced()
    ensures improved <==> CanInsert(sol.inst, old(sol.Tour()), old(state.unvisited))
    ensures improved ==> BestInserted(sol.inst, old(sol.Tour()), old(state.unvisited), sol.Tour())
    ensures improved ==> |state.unvisited| < |old(state.unvisited)| && sol.totalScore > old(sol.totalScore)
    ensures old(AllSites(sol.inst, sol.Tour())) <= AllSites(sol.inst, sol.Tour())
    ensures !improved ==> unchanged(sol) && unchanged(state)
    ensures Reworked(sol.inst, old(sol.days), sol.days)
  {
    hide Searched, IsBestInsertion, AllSites, Worth, TrueLengths, WellFormed, Partition, Insertable, Reworked,
         Instance.Valid, FlagsTrue;
    var inst := sol.inst;
    ghost var was, unvisited, all := sol.Tour(), state.unvisited, AllSites(sol.inst, sol.Tour());
    ReworkedRefl(inst, sol.days);
    var best := FindInsertion(inst, sol.days, state.unvisited);
    SearchedAll(inst, was, unvisited, best);
    if best.NoBest? {
      return false;
    }
    BestMeans(inst, was, unvisited, best);
    var u := state.unvisited[best.i];
    InsertionKeeps(inst, sol.days, unvisited, best.day, best.pos, u);
    assert BestInserted(inst, was, unvisited, was[best.day := Placed(was, best.day, best.pos, u)]);
    FlagsAfterInsert(inst, state.visited[..], all, u);
    sol.days := sol.days[best.day := sol.days[best.day].(steps := best.steps, distTotal := best.bestDist)];
    sol.totalScore := sol.totalScore + best.bestScore;
    state.MarkVisited(u);
    InsertPartition(inst, was, sol.Tour(), unvisited, state.unvisited, u);
    return true;
  }

  lemma BestMeans(inst: Instance, tour: Tour, unvisited: seq<nat>, best: Best)
    requires Searched(inst, tour, unvisited, |unvisited|, 0, 1, best) && best.Best?
    ensures Insertable(inst, tour, unvisited, best.i, best.day, best.pos)
    ensures best.i < |unvisited| && best.day < |tour| && 0 < best.pos < |tour[best.day]|
    ensures Feasible(inst, best.day, Placed(tour, best.day, best.pos, unvisited[best.i]))
    ensures best.bestScore == inst.Score(unvisited[best.i]) > 0.0
    ensures best.bestDist == PathLen(inst, Placed(tour, best.day, best.pos, unvisited[best.i]))
    ensures best.steps == Timetable(inst, Placed(tour, best.day, best.pos, unvisited[best.i]))
  {
  }
}
