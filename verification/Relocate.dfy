// Neighbourhood 4, relocate: random moves of a site within its day or to another
// day, and random insertions.

module Relocate {
  import opened Instances
  import opened Schedules
  import opened Tours
  import opened Solutions
  import opened Search
  import opened Moves

  // ----- Moving a site within its day -----

  function MovedWithin(pts: seq<nat>, pos1: nat, pos2: nat): seq<nat>
    requires 0 < pos1 < |pts| - 1 && 0 < pos2 < |pts| - 1
  {
    InsertAt(DeleteAt(pts, pos1), if pos2 > pos1 then pos2 - 1 else pos2, pts[pos1])
  }

  lemma InsertElements(pts: seq<nat>, pos: nat, u: nat)
    requires pos <= |pts|
    ensures multiset(InsertAt(pts, pos, u)) == multiset(pts) + multiset{u}
  {
    assert pts == pts[..pos] + pts[pos..];
  }

  // Where the moved site ends.
  function EndsAt(pos1: nat, pos2: nat): nat {
    if pos2 > pos1 then pos2 - 1 else pos2
  }

  // The site ends there, and the other stops keep their order around it. A move to the
  // next position is no move at all.
  lemma MovedWithinOrder(pts: seq<nat>, pos1: nat, pos2: nat)
    requires 0 < pos1 < |pts| - 1 && 0 < pos2 < |pts| - 1
    ensures var q, at := MovedWithin(pts, pos1, pos2), EndsAt(pos1, pos2);
            && |q| == |pts|
            && q[at] == pts[pos1]
            && (forall k :: 0 <= k < pos1 && k < at ==> q[k] == pts[k])
            && (forall k :: at < k <= pos1 ==> q[k] == pts[k - 1])
            && (forall k :: pos1 <= k < at ==> q[k] == pts[k + 1])
            && (forall k :: pos1 < k < |pts| && at < k ==> q[k] == pts[k])
    ensures pos2 == pos1 + 1 ==> MovedWithin(pts, pos1, pos2) == pts
  {
  }

  lemma MovedWithinReorders(inst: Instance, pts: seq<nat>, pos1: nat, pos2: nat)
    requires DayShape(inst, pts) && 0 < pos1 < |pts| - 1 && 0 < pos2 < |pts| - 1 && pos1 != pos2
    ensures Reordered(inst, pts, MovedWithin(pts, pos1, pos2))
    ensures inst.ArePoints(MovedWithin(pts, pos1, pos2))
  {
    var left := DeleteAt(pts, pos1);
    var at := if pos2 > pos1 then pos2 - 1 else pos2;
    assert pts == InsertAt(left, pos1, pts[pos1]);
    InsertElements(left, pos1, pts[pos1]);
    InsertElements(left, at, pts[pos1]);
    DeleteShape(inst, pts, pos1);
    InsertShape(inst, left, at, pts[pos1]);
    ShapePoints(inst, MovedWithin(pts, pos1, pos2));
  }

  method MoveWithin(sol: Solution, dayIdx: nat, pos1: nat, pos2: nat) returns (moved: bool)
    requires sol.Valid() && dayIdx < |sol.days|
    requires 0 < pos1 < |sol.days[dayIdx].steps| - 1 && 0 < pos2 < |sol.days[dayIdx].steps| - 1 && pos1 != pos2
    modifies sol`days
    ensures sol.Valid() && Reworked(sol.inst, old(sol.days), sol.days)
    ensures AllSites(sol.inst, sol.Tour()) == old(AllSites(sol.inst, sol.Tour()))
    ensures var pts := MovedWithin(Ids(old(sol.days)[dayIdx].steps), pos1, pos2);
            && (moved <==> (Feasible(sol.inst, dayIdx, pts)
                            && PathLen(sol.inst, pts) < PathLen(sol.inst, Ids(old(sol.days)[dayIdx].steps))))
            && sol.Tour() == if moved then old(sol.Tour())[dayIdx := pts] else old(sol.Tour())
    ensures !moved ==> unchanged(sol)
    ensures moved ==> sol.Tour() != old(sol.Tour())
  {
    hide AllSites, Worth, TrueLengths, WellFormed, Reworked, Feasible, PathLen, Reordered, DayShape, Instance.Valid;
    var inst := sol.inst;
    var day := sol.days[dayIdx];
    DayFacts(inst, sol.days, dayIdx);
    ReworkedRefl(inst, sol.days);
    var pts := Ids(day.steps);
    var oldDist := day.distTotal;
    var val := pts[pos1];
    var left := pts[..pos1] + pts[pos1 + 1..];
    var at := if pos2 > pos1 then pos2 - 1 else pos2;
    var newPts := left[..at] + [val] + left[at..];
    MovedWithinReorders(inst, pts, pos1, pos2);
    var feasible, newDist := EvalDayFast(inst, dayIdx, newPts);
    moved := feasible && newDist < oldDist;
    if moved {
      var _, _, newSteps := EvalDay(inst, dayIdx, newPts);
      ReorderKeeps(inst, sol.days, dayIdx, newPts);
      sol.days := sol.days[dayIdx := sol.days[dayIdx].(steps := newSteps, distTotal := newDist)];
    }
  }

  // ----- Moving a site to another day -----

  ghost predicate Placeable(inst: Instance, e: nat, pts: seq<nat>, p: nat, s: nat) {
    0 < p < |pts| && Feasible(inst, e, InsertAt(pts, p, s))
  }

  // p is the first of the shortest feasible places for s in day e.
  ghost predicate ShortestPlace(inst: Instance, e: nat, pts: seq<nat>, p: nat, s: nat) {
    && Placeable(inst, e, pts, p, s)
    && forall q: nat :: Placeable(inst, e, pts, q, s) ==>
         && PathLen(inst, InsertAt(pts, p, s)) <= PathLen(inst, InsertAt(pts, q, s))
         && (q < p ==> PathLen(inst, InsertAt(pts, p, s)) < PathLen(inst, InsertAt(pts, q, s)))
  }

  ghost predicate PlacesTried(inst: Instance, e: nat, pts: seq<nat>, s: nat, n: nat, best: int, bestDist: real) {
    && (best < 0 ==> forall q: nat :: q < n ==> !Placeable(inst, e, pts, q, s))
    && (best >= 0 ==>
          && Placeable(inst, e, pts, best, s)
          && bestDist == PathLen(inst, InsertAt(pts, best, s))
          && best < n
          && forall q: nat :: q < n && Placeable(inst, e, pts, q, s) ==>
               && bestDist <= PathLen(inst, InsertAt(pts, q, s))
               && (q < best ==> bestDist < PathLen(inst, InsertAt(pts, q, s))))
  }

  lemma PrunedPlace(inst: Instance, e: nat, pts: seq<nat>, p: nat, s: nat, distTotal: real)
    requires inst.Valid() && inst.ArePoints(pts) && inst.IsPoint(s) && 0 < p < |pts|
    requires distTotal == PathLen(inst, pts)
    requires distTotal + (inst.D(pts[p - 1], s) + inst.D(s, pts[p]) - inst.D(pts[p - 1], pts[p])) > inst.DayMaxDist(e)
    ensures !Placeable(inst, e, pts, p, s)
  {
    InsertLength(inst, pts, p, s);
    InsertPoints(inst, pts, p, s);
    if Feasible(inst, e, InsertAt(pts, p, s)) {
      FeasibleWithinBudget(inst, e, InsertAt(pts, p, s));
    }
  }

  method FindPlace(inst: Instance, e: nat, day: DayTour, s: nat) returns (best: int, bestDist: real)
    requires inst.Valid() && e < inst.nbDays && inst.IsSite(s)
    requires inst.ArePoints(Ids(day.steps)) && day.distTotal == PathLen(inst, Ids(day.steps))
    ensures PlacesTried(inst, e, Ids(day.steps), s, |day.steps|, best, bestDist)
  {
    hide Feasible, PathLen;
    var pts := Ids(day.steps);
    best, bestDist := -1, -1.0;
    var p := 1;
    while p < |pts|
      invariant 1 <= p
      invariant PlacesTried(inst, e, pts, s, p, best, bestDist)
    {
      var prevID, nextID := pts[p - 1], pts[p];
      var deltaDist := inst.dist[prevID][s] + inst.dist[s][nextID] - inst.dist[prevID][nextID];
      if day.distTotal + deltaDist > inst.DayMaxDist(e) {
        PrunedPlace(inst, e, pts, p, s, day.distTotal);
        p := p + 1;
        continue;
      }
      InsertPoints(inst, pts, p, s);
      var ok, d := EvalDayFast(inst, e, pts[..p] + [s] + pts[p..]);
      if ok && (best == -1 || d < bestDist) {
        bestDist, best := d, p;
      }
      p := p + 1;
    }
  }

  lemma TransferKeeps(inst: Instance, days: seq<DayTour>, d: nat, pos: nat, e: nat, p: nat)
    requires inst.Valid() && WellFormed(inst, TourOf(days)) && TrueLengths(inst, days)
    requires d < |days| && e < |days| && d != e
    requires 0 < pos < |TourOf(days)[d]| - 1 && 0 < p < |TourOf(days)[e]|
    requires Feasible(inst, d, DeleteAt(TourOf(days)[d], pos))
    requires Feasible(inst, e, InsertAt(TourOf(days)[e], p, TourOf(days)[d][pos]))
    ensures var src := DeleteAt(TourOf(days)[d], pos);
            var dst := InsertAt(TourOf(days)[e], p, TourOf(days)[d][pos]);
            var now := days[d := Retimed(inst, days[d], src)][e := Retimed(inst, days[e], dst)];
            && TourOf(now) == TourOf(days)[d := src][e := dst]
            && WellFormed(inst, TourOf(now)) && TrueLengths(inst, now) && Reworked(inst, days, now)
            && AllSites(inst, TourOf(now)) == AllSites(inst, TourOf(days))
  {
    hide AllSites, SitesBefore, SitesOf, NoRepeat, Feasible, TrueLengths, Reworked, Instance.Valid;
    var tour := TourOf(days);
    var s := tour[d][pos];
    var src, dst := DeleteAt(tour[d], pos), InsertAt(tour[e], p, s);
    DeleteCounts(inst, tour, d, pos);
    DeleteShape(inst, tour[d], pos);
    RetimeDay(inst, days, d, src);
    var mid := days[d := Retimed(inst, days[d], src)];
    AddCounts(inst, TourOf(mid), e, p, s);
    InsertShape(inst, tour[e], p, s);
    SameRepeat(inst, tour, TourOf(mid)[e := dst]);
    RetimeDay(inst, mid, e, dst);
    ReworkedTrans(inst, days, mid, mid[e := Retimed(inst, mid[e], dst)]);
  }

  lemma SameRepeat(inst: Instance, tour: Tour, now: Tour)
    requires NoRepeat(inst, tour) && AllSites(inst, now) == AllSites(inst, tour)
    ensures NoRepeat(inst, now)
  {
  }

  // Whether site pos of day d can go to day e at all.
  ghost predicate CanTransfer(inst: Instance, tour: Tour, d: nat, pos: nat, e: nat)
    requires d < |tour| && e < |tour| && pos < |tour[d]|
  {
    Feasible(inst, d, DeleteAt(tour[d], pos)) && exists p: nat :: Placeable(inst, e, tour[e], p, tour[d][pos])
  }

  ghost predicate Transferred(inst: Instance, was: Tour, d: nat, pos: nat, e: nat, now: Tour)
    requires d < |was| && e < |was| && pos < |was[d]|
  {
    exists p: nat :: ShortestPlace(inst, e, was[e], p, was[d][pos])
                  && now == was[d := DeleteAt(was[d], pos)][e := InsertAt(was[e], p, was[d][pos])]
  }

  method MoveAcross(sol: Solution, dayIdx: nat, pos: nat, destDay: nat) returns (moved: bool)
    requires sol.Valid() && dayIdx < |sol.days| && destDay < |sol.days| && destDay != dayIdx
    requires 0 < pos < |sol.days[dayIdx].steps| - 1
    modifies sol`days
    ensures sol.Valid() && Reworked(sol.inst, old(sol.days), sol.days)
    ensures AllSites(sol.inst, sol.Tour()) == old(AllSites(sol.inst, sol.Tour()))
    ensures moved <==> CanTransfer(sol.inst, old(sol.Tour()), dayIdx, pos, destDay)
    ensures moved ==> Transferred(sol.inst, old(sol.Tour()), dayIdx, pos, destDay, sol.Tour())
    ensures !moved ==> unchanged(sol)
    ensures moved ==> sol.Tour() != old(sol.Tour())
  {
    hide AllSites, Worth, TrueLengths, WellFormed, Reworked, Feasible, PathLen, Placeable, Instance.Valid;
    var inst := sol.inst;
    ghost var was := sol.Tour();
    DayFacts(inst, sol.days, dayIdx);
    DayFacts(inst, sol.days, destDay);
    ReworkedRefl(inst, sol.days);
    var siteID := sol.days[dayIdx].steps[pos].pointId;
    assert siteID == was[dayIdx][pos] && inst.IsSite(siteID);
    var pts := Ids(sol.days[dayIdx].steps);
    var srcPts := pts[..pos] + pts[pos + 1..];
    DeleteShape(inst, pts, pos);
    ShapePoints(inst, srcPts);
    var srcOk, srcDist := EvalDayFast(inst, dayIdx, srcPts);
    if !srcOk {
      return false;
    }
    var destPts := Ids(sol.days[destDay].steps);
    var bestPos, bestDist := FindPlace(inst, destDay, sol.days[destDay], siteID);
    PlacesFound(inst, destDay, destPts, siteID, bestPos, bestDist);
    if bestPos < 0 {
      return false;
    }
    var _, _, srcSteps := EvalDay(inst, dayIdx, srcPts);
    var newPts := destPts[..bestPos] + [siteID] + destPts[bestPos..];
    InsertPoints(inst, destPts, bestPos, siteID);
    var _, destDist, destSteps := EvalDay(inst, destDay, newPts);
    TransferKeeps(inst, sol.days, dayIdx, pos, destDay, bestPos);
    sol.days := sol.days[dayIdx := sol.days[dayIdx].(steps := srcSteps, distTotal := srcDist)];
    sol.days := sol.days[destDay := sol.days[destDay].(steps := destSteps, distTotal := destDist)];
    return true;
  }

  lemma PlacesFound(inst: Instance, e: nat, pts: seq<nat>, s: nat, best: int, bestDist: real)
    requires PlacesTried(inst, e, pts, s, |pts|, best, bestDist)
    ensures best < 0 <==> !exists p: nat :: Placeable(inst, e, pts, p, s)
    ensures best >= 0 ==> ShortestPlace(inst, e, pts, best, s) && best < |pts| && 0 < best
    ensures best >= 0 ==> Feasible(inst, e, InsertAt(pts, best, s))
  {
  }

  // ----- Inserting an unvisited site at a random place -----

  method InsertAnywhere(sol: Solution, state: SearchState, dayIdx: nat, uIdx: nat, pos: nat) returns (moved: bool)
    requires sol.Valid() && state.sol == sol && state.Synced()
    requires dayIdx < |sol.days| && uIdx < |state.unvisited| && 0 < pos < |sol.days[dayIdx].steps|
    modifies sol`days, sol`totalScore, state`unvisited, state.visited
    ensures sol.Valid() && state.Synced() && Reworked(sol.inst, old(sol.days), sol.days)
    ensures var u := old(state.unvisited)[uIdx];
            var pts := InsertAt(Ids(old(sol.days)[dayIdx].steps), pos, u);
            && (moved <==> Feasible(sol.inst, dayIdx, pts))
            && (moved ==> sol.Tour() == old(sol.Tour())[dayIdx := pts])
            && (moved ==> AllSites(sol.inst, sol.Tour()) == old(AllSites(sol.inst, sol.Tour())) + multiset{u})
    ensures !moved ==> unchanged(sol) && unchanged(state) && unchanged(state.visited)
    ensures moved ==> sol.Tour() != old(sol.Tour())
  {
    hide AllSites, Worth, TrueLengths, WellFormed, Reworked, Feasible, PathLen, Instance.Valid, Partition, FlagsTrue;
    var inst := sol.inst;
    ghost var was, unvisited := sol.Tour(), state.unvisited;
    DayFacts(inst, sol.days, dayIdx);
    ReworkedRefl(inst, sol.days);
    UnvisitedAreSites(inst, was, unvisited, uIdx);
    var u := state.unvisited[uIdx];
    var day := sol.days[dayIdx];
    var pts := Ids(day.steps);
    TableRange(inst, pts[pos - 1], u);
    TableRange(inst, u, pts[pos]);
    TableRange(inst, pts[pos - 1], pts[pos]);
    var deltaDist := inst.dist[pts[pos - 1]][u] + inst.dist[u][pts[pos]] - inst.dist[pts[pos - 1]][pts[pos]];
    if day.distTotal + deltaDist > inst.DayMaxDist(dayIdx) {
      PrunedPlace(inst, dayIdx, pts, pos, u, day.distTotal);
      return false;
    }
    var newPts := pts[..pos] + [u] + pts[pos..];
    InsertPoints(inst, pts, pos, u);
    var feasible, newDist := EvalDayFast(inst, dayIdx, newPts);
    if !feasible {
      return false;
    }
    var _, _, newSteps := EvalDay(inst, dayIdx, newPts);
    InsertionKeeps(inst, sol.days, unvisited, dayIdx, pos, u);
    FlagsAfterInsert(inst, state.visited[..], AllSites(inst, was), u);
    sol.days := sol.days[dayIdx := sol.days[dayIdx].(steps := newSteps, distTotal := newDist)];
    sol.totalScore := sol.totalScore + inst.points[u].score;
    state.MarkVisited(u);
    InsertPartition(inst, was, sol.Tour(), unvisited, state.unvisited, u);
    return true;
  }

  lemma TableRange(inst: Instance, i: nat, j: nat)
    requires inst.Valid() && inst.IsPoint(i) && inst.IsPoint(j)
    ensures i < |inst.dist| && j < |inst.dist[i]|
  {
  }

  // ----- The neighbourhood: maxIter random attempts -----

  // Relocation never loses a visited site, and what it adds was unvisited.
  ghost predicate Gained(inst: Instance, was: Tour, now: Tour) {
    AllSites(inst, was) <= AllSites(inst, now)
  }

  lemma WorthMonotone(inst: Instance, a: multiset<nat>, b: multiset<nat>)
    requires inst.Valid() && a <= b
    ensures Worth(inst, a) <= Worth(inst, b)
  {
    WorthBelowMonotone(inst, a, b, |inst.points|);
  }

  lemma MoreWorth(low: real, high: real, a: real, b: real, score: real)
    requires low <= high && a <= b && score >= 0.0
    ensures low + a * score <= high + b * score
  {
    assert (b - a) * score >= 0.0;
  }

  lemma ScoreNotNegative(inst: Instance, i: nat)
    requires inst.Valid() && i < |inst.points|
    ensures inst.Score(i) >= 0.0
  {
    assert inst.IsPoint(i);
  }

  lemma {:induction false} WorthBelowMonotone(inst: Instance, a: multiset<nat>, b: multiset<nat>, n: nat)
    requires inst.Valid() && a <= b && n <= |inst.points|
    ensures WorthBelow(inst, a, n) <= WorthBelow(inst, b, n)
  {
    hide Instance.Valid, Instance.Score;
    if n > 0 {
      var i := n - 1;
      WorthBelowMonotone(inst, a, b, i);
      ScoreNotNegative(inst, i);
      assert a[i] <= b[i];
      MoreWorth(WorthBelow(inst, a, i), WorthBelow(inst, b, i), a[i] as real, b[i] as real, inst.Score(i));
    }
  }

  // The random numbers of one attempt, each to be reduced to the range asked for.
  datatype Draw = Draw(day: nat, kind: nat, first: nat, second: nat)

  // Days, and the sites left, as they stand before an attempt.
  datatype Stage = Stage(tour: Tour, unvisited: seq<nat>)

  // What one attempt makes of the plan. A day without a site is passed over, and so are
  // two equal positions and two equal days.
  ghost predicate Attempted(inst: Instance, was: Stage, draw: Draw, now: Tour)
    requires was.tour != []
  {
    var d := draw.day % |was.tour|;
    var n := |was.tour[d]|;
    if n <= 2 then now == was.tour
    else if draw.kind % 3 == 0 && n > 3 then
      MovedOrNot(inst, was.tour, d, 1 + draw.first % (n - 2), 1 + draw.second % (n - 2), now)
    else if draw.kind % 3 == 1 && |was.tour| > 1 then
      TransferredOrNot(inst, was.tour, d, 1 + draw.first % (n - 2), draw.second % |was.tour|, now)
    else if was.unvisited != [] then
      InsertedOrNot(inst, was.tour, d, was.unvisited[draw.first % |was.unvisited|], 1 + draw.second % (n - 1), now)
    else now == was.tour
  }

  ghost predicate MovedOrNot(inst: Instance, was: Tour, d: nat, pos1: nat, pos2: nat, now: Tour)
    requires d < |was| && 0 < pos1 < |was[d]| - 1 && 0 < pos2 < |was[d]| - 1
  {
    var q := MovedWithin(was[d], pos1, pos2);
    now == if pos1 != pos2 && Feasible(inst, d, q) && PathLen(inst, q) < PathLen(inst, was[d]) then was[d := q] else was
  }

  ghost predicate TransferredOrNot(inst: Instance, was: Tour, d: nat, pos: nat, e: nat, now: Tour)
    requires d < |was| && e < |was| && 0 < pos < |was[d]| - 1
  {
    if d != e && CanTransfer(inst, was, d, pos, e) then Transferred(inst, was, d, pos, e, now) else now == was
  }

  ghost predicate InsertedOrNot(inst: Instance, was: Tour, d: nat, u: nat, pos: nat, now: Tour)
    requires d < |was| && 0 < pos < |was[d]|
  {
    var q := InsertAt(was[d], pos, u);
    now == if Feasible(inst, d, q) then was[d := q] else was
  }

  // One attempt with the random numbers given.
  method RelocateOnce(sol: Solution, state: SearchState, draw: Draw) returns (moved: bool)
    requires sol.Valid() && state.sol == sol && state.Synced()
    modifies sol`days, sol`totalScore, state`unvisited, state.visited
    ensures sol.Valid() && state.Synced() && Reworked(sol.inst, old(sol.days), sol.days)
    ensures old(sol.Tour()) != [] && Attempted(sol.inst, old(Stage(sol.Tour(), state.unvisited)), draw, sol.Tour())
    ensures || AllSites(sol.inst, sol.Tour()) == old(AllSites(sol.inst, sol.Tour()))
            || exists u :: u in old(state.unvisited)
                        && AllSites(sol.inst, sol.Tour()) == old(AllSites(sol.inst, sol.Tour())) + multiset{u}
    ensures !moved ==> unchanged(sol) && unchanged(state)
    ensures moved ==> sol.Tour() != old(sol.Tour())
  {
    hide AllSites, Worth, TrueLengths, WellFormed, Reworked, Feasible, PathLen, Instance.Valid, FlagsTrue, CanTransfer,
         Transferred, MovedWithin;
    ReworkedRefl(sol.inst, sol.days);
    WellFormedDays(sol.inst, sol.Tour());
    var nbDays := |sol.days|;
    var dayIdx := draw.day % nbDays;
    var nbSteps := |sol.days[dayIdx].steps|;
    if nbSteps <= 2 {
      return false;
    }
    var moveType := draw.kind % 3;
    if moveType == 0 && nbSteps > 3 {
      var pos1 := 1 + draw.first % (nbSteps - 2);
      var pos2 := 1 + draw.second % (nbSteps - 2);
      if pos1 == pos2 {
        return false;
      }
      moved := MoveWithin(sol, dayIdx, pos1, pos2);
    } else if moveType == 1 && nbDays > 1 && nbSteps > 2 {
      var pos := 1 + draw.first % (nbSteps - 2);
      var destDay := draw.second % nbDays;
      if destDay == dayIdx {
        return false;
      }
      moved := MoveAcross(sol, dayIdx, pos, destDay);
    } else if |state.unvisited| > 0 && nbSteps >= 2 {
      var uIdx := draw.first % |state.unvisited|;
      var pos := 1 + draw.second % (nbSteps - 1);
      moved := InsertAnywhere(sol, state, dayIdx, uIdx, pos);
    } else {
      moved := false;
    }
  }

  lemma WellFormedDays(inst: Instance, tour: Tour)
    requires WellFormed(inst, tour)
    ensures |tour| == inst.nbDays >= 1
  {
  }

  // Attempt after attempt, one for each draw.
  ghost predicate Attempts(inst: Instance, draws: seq<Draw>, trail: seq<Stage>, n: nat)
    requires n <= |draws|
  {
    && |trail| == n + 1
    && (forall i :: 0 <= i <= n ==> trail[i].tour != [] && Partition(inst, trail[i].tour, trail[i].unvisited))
    && (forall i :: 0 <= i < n ==> Attempted(inst, trail[i], draws[i], trail[i + 1].tour))
  }

  lemma NextAttempt(inst: Instance, draws: seq<Draw>, trail: seq<Stage>, n: nat, now: Stage)
    requires n < |draws| && Attempts(inst, draws, trail, n) && trail[n].tour != [] && now.tour != []
    requires Attempted(inst, trail[n], draws[n], now.tour) && Partition(inst, now.tour, now.unvisited)
    ensures Attempts(inst, draws, trail + [now], n + 1)
  {
    hide Attempted, Partition;
  }

  lemma FirstAttempt(inst: Instance, draws: seq<Draw>, first: Stage)
    requires first.tour != [] && Partition(inst, first.tour, first.unvisited)
    ensures Attempts(inst, draws, [first], 0) && !Changed([first])
  {
  }

  // Some attempt has changed the plan.
  ghost predicate Changed(trail: seq<Stage>) {
    exists i :: 0 <= i < |trail| - 1 && trail[i].tour != trail[i + 1].tour
  }

  lemma ChangedOn(trail: seq<Stage>, now: Stage)
    requires trail != []
    ensures Changed(trail + [now]) <==> Changed(trail) || trail[|trail| - 1].tour != now.tour
  {
    var all := trail + [now];
    if i :| 0 <= i < |trail| - 1 && trail[i].tour != trail[i + 1].tour {
      assert all[i].tour != all[i + 1].tour;
    } else if trail[|trail| - 1].tour != now.tour {
      assert all[|trail| - 1].tour != all[|trail|].tour;
    }
  }

  method ApplyRelocate(sol: Solution, state: SearchState, draws: seq<Draw>)
    returns (improved: bool, ghost trail: seq<Stage>)
    requires sol.Valid() && state.sol == sol && state.Synced()
    modifies sol`days, sol`totalScore, state`unvisited, state.visited
    ensures sol.Valid() && state.Synced() && Reworked(sol.inst, old(sol.days), sol.days)
    ensures |trail| == |draws| + 1 && Attempts(sol.inst, draws, trail, |draws|)
    ensures trail[0] == old(Stage(sol.Tour(), state.unvisited))
    ensures trail[|draws|] == Stage(sol.Tour(), state.unvisited)
    ensures Gained(sol.inst, old(sol.Tour()), sol.Tour())
    ensures sol.totalScore >= old(sol.totalScore)
    ensures !improved ==> unchanged(sol)
    ensures improved <==> Changed(trail)
  {
    hide Worth, TrueLengths, WellFormed, Reworked, Partition, FlagsTrue, AllSites, Instance.Valid, Attempts, Attempted,
         Changed;
    improved := false;
    ghost var was := sol.days;
    ReworkedRefl(sol.inst, was);
    WellFormedDays(sol.inst, sol.Tour());
    trail := [Stage(sol.Tour(), state.unvisited)];
    FirstAttempt(sol.inst, draws, trail[0]);
    for iter := 0 to |draws|
      invariant sol.Valid() && state.Synced() && Reworked(sol.inst, was, sol.days)
      invariant Gained(sol.inst, TourOf(was), sol.Tour())
      invariant !improved ==> unchanged(sol)
      invariant Attempts(sol.inst, draws, trail, iter) && |trail| == iter + 1
      invariant improved <==> Changed(trail)
      invariant trail[0] == old(Stage(sol.Tour(), state.unvisited)) && trail[iter] == Stage(sol.Tour(), state.unvisited)
    {
      ghost var before := sol.days;
      var moved := RelocateOnce(sol, state, draws[iter]);
      ReworkedTrans(sol.inst, was, before, sol.days);
      improved := improved || moved;
      WellFormedDays(sol.inst, sol.Tour());
      NextAttempt(sol.inst, draws, trail, iter, Stage(sol.Tour(), state.unvisited));
      ChangedOn(trail, Stage(sol.Tour(), state.unvisited));
      trail := trail + [Stage(sol.Tour(), state.unvisited)];
    }
    WorthMonotone(sol.inst, AllSites(sol.inst, TourOf(was)), AllSites(sol.inst, sol.Tour()));
  }
}
