// The effect on a whole solution of the elementary moves the neighbourhoods make.

module Moves {
  import opened Instances
  import opened Schedules
  import opened Tours
  import opened Solutions

  lemma InsertShape(inst: Instance, pts: seq<nat>, pos: nat, u: nat)
    requires DayShape(inst, pts) && 0 < pos < |pts| && inst.IsSite(u)
    ensures DayShape(inst, InsertAt(pts, pos, u))
    ensures First(InsertAt(pts, pos, u)) == First(pts) && Last(InsertAt(pts, pos, u)) == Last(pts)
  {
    var q := InsertAt(pts, pos, u);
    forall k | 0 < k < |q| - 1
      ensures inst.IsSite(q[k])
    {
      if k > pos {
        assert q[k] == pts[k - 1];
      }
    }
  }

  lemma DeleteShape(inst: Instance, pts: seq<nat>, pos: nat)
    requires DayShape(inst, pts) && 0 < pos < |pts| - 1
    ensures DayShape(inst, DeleteAt(pts, pos))
    ensures First(DeleteAt(pts, pos)) == First(pts) && Last(DeleteAt(pts, pos)) == Last(pts)
  {
    var q := DeleteAt(pts, pos);
    forall k | 0 < k < |q| - 1
      ensures inst.IsSite(q[k])
    {
      if k >= pos {
        assert q[k] == pts[k + 1];
      }
    }
  }

  lemma ShapePoints(inst: Instance, pts: seq<nat>)
    requires DayShape(inst, pts)
    ensures inst.ArePoints(pts)
  {
    forall k | 0 <= k < |pts|
      ensures inst.IsPoint(pts[k])
    {
      assert k == 0 || k == |pts| - 1 || inst.IsSite(pts[k]);
    }
  }

  // The points of an edited day are points.
  lemma InsertPoints(inst: Instance, pts: seq<nat>, pos: nat, u: nat)
    requires inst.ArePoints(pts) && pos <= |pts| && inst.IsPoint(u)
    ensures inst.ArePoints(InsertAt(pts, pos, u))
  {
    var q := InsertAt(pts, pos, u);
    forall k | 0 <= k < |q|
      ensures inst.IsPoint(q[k])
    {
      assert q[k] == if k < pos then pts[k] else if k == pos then u else pts[k - 1];
    }
  }

  // Whether one more visit of u leaves every site visited at most once.
  lemma InsertCounts(inst: Instance, tour: Tour, unvisited: seq<nat>, d: nat, pos: nat, u: nat)
    requires inst.Valid() && Partition(inst, tour, unvisited)
    requires u in unvisited && d < |tour| && pos <= |tour[d]|
    ensures inst.IsSite(u)
    ensures AllSites(inst, tour[d := InsertAt(tour[d], pos, u)]) == AllSites(inst, tour) + multiset{u}
    ensures NoRepeat(inst, tour[d := InsertAt(tour[d], pos, u)])
    ensures Worth(inst, AllSites(inst, tour[d := InsertAt(tour[d], pos, u)]))
         == Worth(inst, AllSites(inst, tour)) + inst.points[u].score
  {
    var now := tour[d := InsertAt(tour[d], pos, u)];
    PartitionFacts(inst, tour, unvisited, u);
    assert u in multiset(unvisited);
    SitesOfInsert(inst, tour[d], pos, u);
    AllSitesUpdate(inst, tour, d, InsertAt(tour[d], pos, u));
    CancelAdd(AllSites(inst, now), SitesOf(inst, tour[d]), AllSites(inst, tour), multiset{u});
    forall v: nat
      ensures AllSites(inst, now)[v] <= 1
    {
      PartitionFacts(inst, tour, unvisited, v);
    }
    WorthAdds(inst, AllSites(inst, tour), multiset{u});
    WorthOfOne(inst, u);
  }

  lemma CancelAdd(now: multiset<nat>, day: multiset<nat>, was: multiset<nat>, more: multiset<nat>)
    requires now + day == was + (day + more)
    ensures now == was + more
  {
    forall v: nat
      ensures now[v] == (was + more)[v]
    {
      assert (now + day)[v] == (was + (day + more))[v];
    }
  }

  // The unvisited list that remains when u joins the tour.
  lemma InsertPartition(inst: Instance, tour: Tour, now: Tour, unvisited: seq<nat>, left: seq<nat>, u: nat)
    requires Partition(inst, tour, unvisited) && u in unvisited
    requires AllSites(inst, now) == AllSites(inst, tour) + multiset{u}
    requires multiset(left) == multiset(unvisited) - multiset{u}
    ensures Partition(inst, now, left)
    ensures |left| == |unvisited| - 1
  {
    var un, all := multiset(unvisited), AllSites(inst, tour);
    assert u in un;
    assert multiset(left) + AllSites(inst, now) == (un - multiset{u}) + (all + multiset{u}) == un + all;
    assert |multiset(left)| == |un| - 1;
  }

  // The visited sites when one visit is dropped, and when u is visited once more.

  lemma DeleteCounts(inst: Instance, tour: Tour, d: nat, pos: nat)
    requires NoRepeat(inst, tour) && d < |tour| && pos < |tour[d]| && inst.IsSite(tour[d][pos])
    ensures AllSites(inst, tour[d := DeleteAt(tour[d], pos)]) + multiset{tour[d][pos]} == AllSites(inst, tour)
    ensures NoRepeat(inst, tour[d := DeleteAt(tour[d], pos)])
  {
    var now := tour[d := DeleteAt(tour[d], pos)];
    var left, s := SitesOf(inst, DeleteAt(tour[d], pos)), multiset{tour[d][pos]};
    SitesOfDelete(inst, tour[d], pos);
    AllSitesUpdate(inst, tour, d, DeleteAt(tour[d], pos));
    CancelDrop(AllSites(inst, now), left, AllSites(inst, tour), s);
    forall v: nat
      ensures AllSites(inst, now)[v] <= 1
    {
      assert (AllSites(inst, now) + s)[v] == AllSites(inst, tour)[v];
    }
  }

  lemma CancelDrop(now: multiset<nat>, left: multiset<nat>, was: multiset<nat>, less: multiset<nat>)
    requires now + (left + less) == was + left
    ensures now + less == was
  {
    forall v: nat
      ensures (now + less)[v] == was[v]
    {
      assert (now + (left + less))[v] == (was + left)[v];
    }
  }

  lemma AddCounts(inst: Instance, tour: Tour, d: nat, pos: nat, u: nat)
    requires d < |tour| && pos <= |tour[d]| && inst.IsSite(u)
    ensures AllSites(inst, tour[d := InsertAt(tour[d], pos, u)]) == AllSites(inst, tour) + multiset{u}
  {
    var now := tour[d := InsertAt(tour[d], pos, u)];
    SitesOfInsert(inst, tour[d], pos, u);
    AllSitesUpdate(inst, tour, d, InsertAt(tour[d], pos, u));
    CancelAdd(AllSites(inst, now), SitesOf(inst, tour[d]), AllSites(inst, tour), multiset{u});
  }

  // ----- Inserting a site -----

  lemma InsertionKeeps(inst: Instance, days: seq<DayTour>, unvisited: seq<nat>, d: nat, pos: nat, u: nat)
    requires inst.Valid() && WellFormed(inst, TourOf(days)) && TrueLengths(inst, days)
    requires Partition(inst, TourOf(days), unvisited) && u in unvisited
    requires d < |days| && 0 < pos < |TourOf(days)[d]|
    requires Feasible(inst, d, InsertAt(TourOf(days)[d], pos, u))
    ensures var pts := InsertAt(TourOf(days)[d], pos, u);
            var now := days[d := Retimed(inst, days[d], pts)];
            && TourOf(now) == TourOf(days)[d := pts]
            && WellFormed(inst, TourOf(now)) && TrueLengths(inst, now) && Reworked(inst, days, now)
            && AllSites(inst, TourOf(now)) == AllSites(inst, TourOf(days)) + multiset{u}
            && inst.IsSite(u)
            && Worth(inst, AllSites(inst, TourOf(now)))
               == Worth(inst, AllSites(inst, TourOf(days))) + inst.points[u].score
  {
    hide SitesOf, AllSites, SitesBefore, Worth, Feasible, NoRepeat;
    InsertCounts(inst, TourOf(days), unvisited, d, pos, u);
    InsertShape(inst, TourOf(days)[d], pos, u);
    RetimeDay(inst, days, d, InsertAt(TourOf(days)[d], pos, u));
  }

  // ----- Reordering a day -----

  // now visits the stops of was in another order, between the same hotels.
  ghost predicate Reordered(inst: Instance, was: seq<nat>, now: seq<nat>) {
    && multiset(was) == multiset(now)
    && DayShape(inst, now)
    && First(now) == First(was)
    && Last(now) == Last(was)
  }

  lemma ReorderedRefl(inst: Instance, pts: seq<nat>)
    requires DayShape(inst, pts)
    ensures Reordered(inst, pts, pts)
  {
  }

  lemma ReorderedFacts(inst: Instance, was: seq<nat>, pts: seq<nat>)
    requires Reordered(inst, was, pts)
    ensures DayShape(inst, pts) && |pts| == |was| >= 2
  {
    assert |was| == |multiset(was)| == |multiset(pts)| == |pts|;
  }

  // Replacing a day by a feasible reordering of it.
  lemma ReorderKeeps(inst: Instance, days: seq<DayTour>, d: nat, pts: seq<nat>)
    requires WellFormed(inst, TourOf(days)) && TrueLengths(inst, days) && d < |days|
    requires Reordered(inst, Ids(days[d].steps), pts) && Feasible(inst, d, pts)
    ensures var now := days[d := Retimed(inst, days[d], pts)];
            && TourOf(now) == TourOf(days)[d := pts]
            && WellFormed(inst, TourOf(now)) && TrueLengths(inst, now) && Reworked(inst, days, now)
            && AllSites(inst, TourOf(now)) == AllSites(inst, TourOf(days))
  {
    var tour := TourOf(days);
    SitesOfReordering(inst, tour[d], pts);
    AllSitesUpdate(inst, tour, d, pts);
    CancelSame(AllSites(inst, tour[d := pts]), SitesOf(inst, pts), AllSites(inst, tour));
    RetimeDay(inst, days, d, pts);
  }

  lemma CancelSame(now: multiset<nat>, day: multiset<nat>, was: multiset<nat>)
    requires now + day == was + day
    ensures now == was
  {
    forall v: nat
      ensures now[v] == was[v]
    {
      assert (now + day)[v] == (was + day)[v];
    }
  }
}
