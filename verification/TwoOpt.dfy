// Neighbourhood 2, 2-opt: reverse a segment in place, keep it when the day gets
// shorter, undo it otherwise, and start again after every success.

module TwoOpt {
  import opened Instances
  import opened Schedules
  import opened Tours
  import opened Solutions
  import opened Moves

  // ----- Reversing a segment -----

  function Flip(s: seq<nat>, i: nat, j: nat): (r: seq<nat>)
    requires i <= j < |s|
    ensures |r| == |s|
  {
    seq(|s|, k requires 0 <= k < |s| => if i <= k <= j then s[i + j - k] else s[k])
  }

  lemma FlipTwice(s: seq<nat>, i: nat, j: nat)
    requires i <= j < |s|
    ensures Flip(Flip(s, i, j), i, j) == s
  {
  }

  lemma SwapKeeps(s: seq<nat>, i: nat, j: nat)
    requires i < j < |s|
    ensures multiset(s[i := s[j]][j := s[i]]) == multiset(s)
  {
  }

  lemma {:induction false} FlipKeeps(s: seq<nat>, i: nat, j: nat)
    requires i <= j < |s|
    ensures multiset(Flip(s, i, j)) == multiset(s)
    decreases j - i
  {
    if i == j {
      assert Flip(s, i, j) == s;
    } else {
      var t := s[i := s[j]][j := s[i]];
      SwapKeeps(s, i, j);
      if i + 1 <= j - 1 {
        assert Flip(s, i, j) == Flip(t, i + 1, j - 1);
        FlipKeeps(t, i + 1, j - 1);
      } else {
        assert Flip(s, i, j) == t;
      }
    }
  }

  method ReverseSegment(buf: array<nat>, i: nat, j: nat)
    requires i <= j < buf.Length
    modifies buf
    ensures buf[..] == Flip(old(buf[..]), i, j)
  {
    var a, b := i, j;
    while a < b
      invariant i <= a <= b + 1 && b <= j && a + b == i + j
      invariant forall k :: 0 <= k < buf.Length && a <= k <= b ==> buf[k] == old(buf[k])
      invariant forall k :: 0 <= k < buf.Length && !(i <= k <= j) ==> buf[k] == old(buf[k])
      invariant forall k :: i <= k <= j && !(a <= k <= b) ==> buf[k] == old(buf[i + j - k])
    {
      buf[a], buf[b] := buf[b], buf[a];
      a, b := a + 1, b - 1;
    }
  }

  // ----- Local optimality -----

  ghost predicate Improving(inst: Instance, d: nat, pts: seq<nat>, dist: real, i: nat, j: nat) {
    1 <= i < j < |pts| - 1 && Feasible(inst, d, Flip(pts, i, j)) && PathLen(inst, Flip(pts, i, j)) < dist
  }

  // No reversal of an inner segment is feasible and shorter than dist.
  ghost predicate TwoOptimal(inst: Instance, d: nat, pts: seq<nat>, dist: real) {
    forall i: nat, j: nat :: !Improving(inst, d, pts, dist, i, j)
  }

  ghost predicate Tried(inst: Instance, d: nat, pts: seq<nat>, dist: real, i: nat, j: nat) {
    forall a: nat, b: nat :: a < i || (a == i && b < j) ==> !Improving(inst, d, pts, dist, a, b)
  }

  lemma TriedNone(inst: Instance, d: nat, pts: seq<nat>, dist: real)
    ensures Tried(inst, d, pts, dist, 1, 2)
  {
  }

  lemma TriedOne(inst: Instance, d: nat, pts: seq<nat>, dist: real, i: nat, j: nat)
    requires Tried(inst, d, pts, dist, i, j) && !Improving(inst, d, pts, dist, i, j)
    ensures Tried(inst, d, pts, dist, i, j + 1)
  {
  }

  lemma TriedRow(inst: Instance, d: nat, pts: seq<nat>, dist: real, i: nat, j: nat)
    requires Tried(inst, d, pts, dist, i, j) && j >= |pts| - 1
    ensures Tried(inst, d, pts, dist, i + 1, i + 2)
  {
  }

  lemma TriedAll(inst: Instance, d: nat, pts: seq<nat>, dist: real, i: nat)
    requires Tried(inst, d, pts, dist, i, i + 1) && i >= |pts| - 2
    ensures TwoOptimal(inst, d, pts, dist)
  {
  }

  lemma FlipShape(inst: Instance, pts: seq<nat>, i: nat, j: nat)
    requires DayShape(inst, pts) && 1 <= i <= j < |pts| - 1
    ensures DayShape(inst, Flip(pts, i, j)) && inst.ArePoints(Flip(pts, i, j))
    ensures First(Flip(pts, i, j)) == First(pts) && Last(Flip(pts, i, j)) == Last(pts)
  {
    var q := Flip(pts, i, j);
    forall k | 0 <= k < |q|
      ensures inst.IsPoint(q[k])
    {
      assert k == 0 || k == |q| - 1 || inst.IsSite(q[k]);
    }
  }

  // One pass over all segments, stopping at the first that shortens the day; the
  // buffer is restored after every segment that does not.
  method FindFlip(inst: Instance, d: nat, ghost pts: seq<nat>, buf: array<nat>, dist: real) returns (found: bool)
    requires inst.Valid() && d < inst.nbDays && DayShape(inst, pts) && buf[..] == pts
    modifies buf
    ensures found ==> exists i: nat, j: nat :: Improving(inst, d, pts, dist, i, j) && buf[..] == Flip(pts, i, j)
    ensures !found ==> buf[..] == pts && TwoOptimal(inst, d, pts, dist)
  {
    hide Tried, TwoOptimal, Feasible, PathLen, DayShape, Instance.Valid;
    var n := buf.Length;
    TriedNone(inst, d, pts, dist);
    var i := 1;
    while i < n - 2
      invariant 1 <= i
      invariant buf[..] == pts
      invariant Tried(inst, d, pts, dist, i, i + 1)
    {
      var j := i + 1;
      while j < n - 1
        invariant i < j
        invariant buf[..] == pts
        invariant Tried(inst, d, pts, dist, i, j)
      {
        ReverseSegment(buf, i, j);
        FlipShape(inst, pts, i, j);
        var feasible, newDist := EvalDayFast(inst, d, buf[..]);
        if feasible && newDist < dist {
          assert Improving(inst, d, pts, dist, i, j);
          return true;
        }
        ReverseSegment(buf, i, j);
        FlipTwice(pts, i, j);
        TriedOne(inst, d, pts, dist, i, j);
        j := j + 1;
      }
      TriedRow(inst, d, pts, dist, i, j);
      i := i + 1;
    }
    TriedAll(inst, d, pts, dist, i);
    return false;
  }

  // ----- Termination without a clock: finitely many lists are shorter -----

  ghost function Lists(bound: nat, n: nat): set<seq<nat>> {
    if n == 0 then {[]}
    else set s, x | s in Lists(bound, n - 1) && x in Below(bound) :: s + [x]
  }

  ghost function Below(bound: nat): (ids: set<nat>)
    ensures forall x: nat :: x in ids <==> x < bound
  {
    if bound == 0 then {} else Below(bound - 1) + {bound - 1}
  }

  lemma {:induction false} ListsComplete(bound: nat, s: seq<nat>)
    requires forall k :: 0 <= k < |s| ==> s[k] < bound
    ensures s in Lists(bound, |s|)
  {
    if s != [] {
      var n := |s| - 1;
      ListsComplete(bound, s[..n]);
      assert s == s[..n] + [s[n]];
      assert s[n] in Below(bound);
    }
  }

  // All lists of n points that are shorter than dist.
  ghost function Shorter(inst: Instance, n: nat, dist: real): set<seq<nat>> {
    set s | s in Lists(|inst.points|, n) && PathLen(inst, s) < dist
  }

  lemma ShorterShrinks(inst: Instance, n: nat, dist: real, pts: seq<nat>)
    requires |pts| == n && inst.ArePoints(pts) && PathLen(inst, pts) < dist
    ensures Shorter(inst, n, PathLen(inst, pts)) < Shorter(inst, n, dist)
  {
    ListsComplete(|inst.points|, pts);
    assert pts in Shorter(inst, n, dist) && pts !in Shorter(inst, n, PathLen(inst, pts));
  }

  // ----- One day to local optimality -----

  lemma ReorderedByFlip(inst: Instance, was: seq<nat>, pts: seq<nat>, i: nat, j: nat)
    requires Reordered(inst, was, pts) && 1 <= i <= j < |pts| - 1
    ensures Reordered(inst, was, Flip(pts, i, j))
  {
    FlipKeeps(pts, i, j);
    FlipShape(inst, pts, i, j);
  }

  method TwoOptDay(inst: Instance, d: nat, day: DayTour) returns (now: DayTour, improved: bool)
    requires inst.Valid() && d < inst.nbDays && DayShape(inst, Ids(day.steps))
    requires day.distTotal == PathLen(inst, Ids(day.steps))
    ensures Reordered(inst, Ids(day.steps), Ids(now.steps))
    ensures improved ==>
      && now == Retimed(inst, day, Ids(now.steps))
      && Feasible(inst, d, Ids(now.steps))
      && now.distTotal < day.distTotal
    ensures !improved ==> now == day
    ensures TwoOptimal(inst, d, Ids(now.steps), now.distTotal)
  {
    hide Feasible, PathLen, TwoOptimal, Reordered, DayShape, Instance.Valid, Shorter;
    now, improved := day, false;
    ghost var was := Ids(day.steps);
    ReorderedRefl(inst, was);
    var dayImproved := true;
    while dayImproved
      invariant Reordered(inst, was, Ids(now.steps))
      invariant now.distTotal == PathLen(inst, Ids(now.steps))
      invariant improved ==>
        && now == Retimed(inst, day, Ids(now.steps))
        && Feasible(inst, d, Ids(now.steps))
        && now.distTotal < day.distTotal
      invariant !improved ==> now == day
      invariant !dayImproved ==> TwoOptimal(inst, d, Ids(now.steps), now.distTotal)
      decreases Shorter(inst, |was|, now.distTotal), dayImproved
    {
      var pts := Ids(now.steps);
      ReorderedFacts(inst, was, pts);
      var buf := new nat[|pts|](k requires 0 <= k < |pts| => pts[k]);
      assert buf[..] == pts;
      dayImproved := FindFlip(inst, d, pts, buf, now.distTotal);
      if dayImproved {
        ghost var i: nat, j: nat :| Improving(inst, d, pts, now.distTotal, i, j) && buf[..] == Flip(pts, i, j);
        FlipShape(inst, pts, i, j);
        ReorderedByFlip(inst, was, pts, i, j);
        ShorterShrinks(inst, |was|, now.distTotal, buf[..]);
        var _, newDist, newSteps := EvalDay(inst, d, buf[..]);
        now := now.(steps := newSteps, distTotal := newDist);
        improved := true;
      }
    }
  }

  // ----- All days -----

  ghost predicate DayTwoOpted(inst: Instance, d: nat, was: DayTour, now: DayTour) {
    && Reordered(inst, Ids(was.steps), Ids(now.steps))
    && (now == was || now.distTotal < was.distTotal)
    && TwoOptimal(inst, d, Ids(now.steps), now.distTotal)
  }

  method Apply2OptAllDays(sol: Solution) returns (improved: bool)
    requires sol.Valid()
    modifies sol`days
    ensures sol.Valid()
    ensures Reworked(sol.inst, old(sol.days), sol.days)
    ensures |sol.days| == |old(sol.days)|
    ensures forall d :: 0 <= d < |sol.days| ==> DayTwoOpted(sol.inst, d, old(sol.days)[d], sol.days[d])
    ensures AllSites(sol.inst, sol.Tour()) == old(AllSites(sol.inst, sol.Tour()))
    ensures improved <==> sol.days != old(sol.days)
  {
    hide AllSites, Worth, TrueLengths, WellFormed, Reworked, Reordered, TwoOptimal, Feasible, PathLen;
    var inst := sol.inst;
    improved := false;
    ghost var was := sol.days;
    ReworkedRefl(inst, was);
    var dIdx := 0;
    while dIdx < |sol.days|
      invariant 0 <= dIdx <= |sol.days| == |was|
      invariant sol.Valid()
      invariant Reworked(inst, was, sol.days)
      invariant AllSites(inst, sol.Tour()) == AllSites(inst, TourOf(was))
      invariant forall d :: 0 <= d < dIdx ==> DayTwoOpted(inst, d, was[d], sol.days[d])
      invariant forall d :: dIdx <= d < |was| ==> sol.days[d] == was[d]
      invariant improved <==> sol.days != was
    {
      var day := sol.days[dIdx];
      DayFacts(inst, sol.days, dIdx);
      if |day.steps| <= 3 {
        ReorderedRefl(inst, Ids(day.steps));
        ShortIsTwoOptimal(inst, dIdx, Ids(day.steps), day.distTotal);
      } else {
        var now, dayImproved := TwoOptDay(inst, dIdx, day);
        if dayImproved {
          ReorderKeeps(inst, sol.days, dIdx, Ids(now.steps));
          ReworkedTrans(inst, was, sol.days, sol.days[dIdx := now]);
          sol.days := sol.days[dIdx := now];
          assert sol.days[dIdx].distTotal < was[dIdx].distTotal;
          improved := true;
        }
      }
      assert DayTwoOpted(inst, dIdx, was[dIdx], sol.days[dIdx]);
      dIdx := dIdx + 1;
    }
  }

  lemma ShortIsTwoOptimal(inst: Instance, d: nat, pts: seq<nat>, dist: real)
    requires |pts| <= 3
    ensures TwoOptimal(inst, d, pts, dist)
  {
  }
}
