// A plan for the whole trip as the lists of stops of its days: which sites it visits,
// what they are worth, and what makes it well formed.

module Tours {
  import opened Instances
  import opened Schedules

  type Tour = seq<seq<nat>>

  // ----- Visited sites, counted with multiplicity -----

  function SitesOf(inst: Instance, pts: seq<nat>): multiset<nat> {
    if pts == [] then multiset{}
    else SitesOf(inst, pts[..|pts| - 1])
         + (if inst.IsSite(pts[|pts| - 1]) then multiset{pts[|pts| - 1]} else multiset{})
  }

  // Sites visited on the first n days.
  function SitesBefore(inst: Instance, tour: Tour, n: nat): multiset<nat>
    requires n <= |tour|
  {
    if n == 0 then multiset{} else SitesBefore(inst, tour, n - 1) + SitesOf(inst, tour[n - 1])
  }

  function AllSites(inst: Instance, tour: Tour): multiset<nat> {
    SitesBefore(inst, tour, |tour|)
  }

  lemma {:induction false} SitesCounted(inst: Instance, pts: seq<nat>, u: nat)
    ensures SitesOf(inst, pts)[u] == if inst.IsSite(u) then multiset(pts)[u] else 0
  {
    if pts != [] {
      SitesCounted(inst, pts[..|pts| - 1], u);
      assert pts == pts[..|pts| - 1] + [pts[|pts| - 1]];
    }
  }

  lemma SitesOfReordering(inst: Instance, pts: seq<nat>, qts: seq<nat>)
    requires multiset(pts) == multiset(qts)
    ensures SitesOf(inst, pts) == SitesOf(inst, qts)
  {
    forall u: nat
      ensures SitesOf(inst, pts)[u] == SitesOf(inst, qts)[u]
    {
      SitesCounted(inst, pts, u);
      SitesCounted(inst, qts, u);
    }
  }

  lemma SitesOfInsert(inst: Instance, pts: seq<nat>, pos: nat, u: nat)
    requires pos <= |pts| && inst.IsSite(u)
    ensures SitesOf(inst, InsertAt(pts, pos, u)) == SitesOf(inst, pts) + multiset{u}
  {
    assert pts == pts[..pos] + pts[pos..];
    forall v: nat
      ensures SitesOf(inst, InsertAt(pts, pos, u))[v] == (SitesOf(inst, pts) + multiset{u})[v]
    {
      SitesCounted(inst, pts, v);
      SitesCounted(inst, InsertAt(pts, pos, u), v);
    }
  }

  lemma SitesOfDelete(inst: Instance, pts: seq<nat>, pos: nat)
    requires pos < |pts| && inst.IsSite(pts[pos])
    ensures SitesOf(inst, pts) == SitesOf(inst, DeleteAt(pts, pos)) + multiset{pts[pos]}
  {
    assert pts == InsertAt(DeleteAt(pts, pos), pos, pts[pos]);
    SitesOfInsert(inst, DeleteAt(pts, pos), pos, pts[pos]);
  }

  // Hotels do not count: replacing one by another changes nothing.
  lemma SitesOfHotelChange(inst: Instance, pts: seq<nat>, pos: nat, h: nat)
    requires pos < |pts| && !inst.IsSite(pts[pos]) && !inst.IsSite(h)
    ensures SitesOf(inst, pts[pos := h]) == SitesOf(inst, pts)
  {
    var q := pts[pos := h];
    assert pts == pts[..pos] + [pts[pos]] + pts[pos + 1..];
    assert q == pts[..pos] + [h] + pts[pos + 1..];
    forall v: nat
      ensures SitesOf(inst, q)[v] == SitesOf(inst, pts)[v]
    {
      SitesCounted(inst, pts, v);
      SitesCounted(inst, q, v);
    }
  }

  lemma SitesOfReplace(inst: Instance, pts: seq<nat>, pos: nat, u: nat)
    requires pos < |pts| && inst.IsSite(pts[pos]) && inst.IsSite(u)
    ensures SitesOf(inst, pts[pos := u]) + multiset{pts[pos]} == SitesOf(inst, pts) + multiset{u}
  {
    SitesOfDelete(inst, pts, pos);
    SitesOfDelete(inst, pts[pos := u], pos);
    assert DeleteAt(pts, pos) == DeleteAt(pts[pos := u], pos);
  }

  lemma SitesBeforeStep(inst: Instance, tour: Tour, n: nat, u: nat)
    requires 0 < n <= |tour|
    ensures SitesBefore(inst, tour, n)[u] == SitesBefore(inst, tour, n - 1)[u] + SitesOf(inst, tour[n - 1])[u]
  {
    hide SitesOf;
  }

  lemma {:induction false} SitesBeforeUpdate(inst: Instance, tour: Tour, d: nat, pts: seq<nat>, n: nat, u: nat)
    requires d < |tour| && n <= |tour|
    ensures SitesBefore(inst, tour[d := pts], n)[u] + (if d < n then SitesOf(inst, tour[d])[u] else 0)
         == SitesBefore(inst, tour, n)[u] + (if d < n then SitesOf(inst, pts)[u] else 0)
  {
    if n == 0 {
      assert SitesBefore(inst, tour, 0) == SitesBefore(inst, tour[d := pts], 0) == multiset{};
    } else {
      SitesBeforeUpdate(inst, tour, d, pts, n - 1, u);
      SitesBeforeStep(inst, tour, n, u);
      SitesBeforeStep(inst, tour[d := pts], n, u);
      hide SitesOf, SitesBefore;
      assert tour[d := pts][n - 1] == if n - 1 == d then pts else tour[n - 1];
    }
  }

  lemma AllSitesUpdate(inst: Instance, tour: Tour, d: nat, pts: seq<nat>)
    requires d < |tour|
    ensures AllSites(inst, tour[d := pts]) + SitesOf(inst, tour[d]) == AllSites(inst, tour) + SitesOf(inst, pts)
  {
    var q, was := AllSites(inst, tour[d := pts]), AllSites(inst, tour);
    var now, one := SitesOf(inst, pts), SitesOf(inst, tour[d]);
    forall u: nat
      ensures (q + one)[u] == (was + now)[u]
    {
      SitesBeforeUpdate(inst, tour, d, pts, |tour|, u);
    }
  }

  lemma {:induction false} DayWithinBefore(inst: Instance, tour: Tour, d: nat, n: nat)
    requires d < n <= |tour|
    ensures SitesOf(inst, tour[d]) <= SitesBefore(inst, tour, n)
  {
    if d < n - 1 {
      DayWithinBefore(inst, tour, d, n - 1);
    }
  }

  lemma {:induction false} SitesBeforeAreSites(inst: Instance, tour: Tour, n: nat, u: nat)
    requires n <= |tour| && u in SitesBefore(inst, tour, n)
    ensures inst.IsSite(u)
  {
    if u !in SitesBefore(inst, tour, n - 1) {
      SitesCounted(inst, tour[n - 1], u);
    } else {
      SitesBeforeAreSites(inst, tour, n - 1, u);
    }
  }

  // ----- What the visited sites are worth -----

  // Worth of the members of m with an id below n.
  ghost function WorthBelow(inst: Instance, m: multiset<nat>, n: nat): real {
    if n == 0 then 0.0
    else WorthBelow(inst, m, n - 1) + m[n - 1] as real * inst.Score(n - 1)
  }

  ghost function Worth(inst: Instance, m: multiset<nat>): real {
    WorthBelow(inst, m, |inst.points|)
  }

  lemma WorthOfSum(a: real, b: real, score: real)
    ensures (a + b) * score == a * score + b * score
  {
  }

  lemma {:induction false} WorthBelowAdds(inst: Instance, a: multiset<nat>, b: multiset<nat>, n: nat)
    ensures WorthBelow(inst, a + b, n) == WorthBelow(inst, a, n) + WorthBelow(inst, b, n)
  {
    if n > 0 {
      WorthBelowAdds(inst, a, b, n - 1);
      assert (a + b)[n - 1] as real == a[n - 1] as real + b[n - 1] as real;
      WorthOfSum(a[n - 1] as real, b[n - 1] as real, inst.Score(n - 1));
    }
  }

  lemma {:induction false} WorthBelowOfOne(inst: Instance, u: nat, n: nat)
    ensures WorthBelow(inst, multiset{u}, n) == if u < n then inst.Score(u) else 0.0
  {
    if n > 0 {
      WorthBelowOfOne(inst, u, n - 1);
      assert multiset{u}[n - 1] == if u == n - 1 then 1 else 0;
    }
  }

  lemma {:induction false} WorthBelowOfNone(inst: Instance, n: nat)
    ensures WorthBelow(inst, multiset{}, n) == 0.0
  {
    if n > 0 {
      WorthBelowOfNone(inst, n - 1);
    }
  }

  lemma WorthAdds(inst: Instance, a: multiset<nat>, b: multiset<nat>)
    ensures Worth(inst, a + b) == Worth(inst, a) + Worth(inst, b)
  {
    WorthBelowAdds(inst, a, b, |inst.points|);
  }

  lemma WorthOfOne(inst: Instance, u: nat)
    requires inst.IsSite(u)
    ensures Worth(inst, multiset{u}) == inst.points[u].score
  {
    WorthBelowOfOne(inst, u, |inst.points|);
  }

  lemma WorthOfNone(inst: Instance)
    ensures Worth(inst, multiset{}) == 0.0
  {
    WorthBelowOfNone(inst, |inst.points|);
  }

  // ----- Well-formed plans -----

  predicate DayShape(inst: Instance, pts: seq<nat>) {
    && |pts| >= 2
    && inst.IsHotel(pts[0])
    && inst.IsHotel(pts[|pts| - 1])
    && forall k :: 0 < k < |pts| - 1 ==> inst.IsSite(pts[k])
  }

  function First(pts: seq<nat>): nat {
    if pts == [] then 0 else pts[0]
  }

  function Last(pts: seq<nat>): nat {
    if pts == [] then 0 else pts[|pts| - 1]
  }

  predicate ChainedAt(tour: Tour, d: nat) {
    d + 1 < |tour| ==> Last(tour[d]) == First(tour[d + 1])
  }

  ghost predicate NoRepeat(inst: Instance, tour: Tour) {
    forall u: nat :: AllSites(inst, tour)[u] <= 1
  }

  // The promise every run keeps: hotels at both ends of each day and only sites between,
  // each day starting where the one before ended, the required first and last hotels,
  // and no site visited twice.
  ghost predicate WellFormed(inst: Instance, tour: Tour) {
    && |tour| == inst.nbDays >= 1
    && (forall d :: 0 <= d < |tour| ==> DayShape(inst, tour[d]))
    && (forall d: nat :: ChainedAt(tour, d))
    && First(tour[0]) == inst.startHotel
    && Last(tour[|tour| - 1]) == inst.endHotel
    && NoRepeat(inst, tour)
  }

  ghost predicate AllFeasible(inst: Instance, tour: Tour) {
    forall d :: 0 <= d < |tour| ==> Feasible(inst, d, tour[d])
  }

  // Changing the inside of one day, keeping its two hotels, keeps the shape and the chain.
  lemma ReplaceDay(inst: Instance, tour: Tour, d: nat, pts: seq<nat>)
    requires WellFormed(inst, tour) && d < |tour|
    requires DayShape(inst, pts)
    requires First(pts) == First(tour[d]) && Last(pts) == Last(tour[d])
    requires NoRepeat(inst, tour[d := pts])
    ensures WellFormed(inst, tour[d := pts])
  {
    var q := tour[d := pts];
    forall e: nat
      ensures ChainedAt(q, e)
    {
      assert ChainedAt(tour, e);
    }
  }

  // ----- The sites left to visit -----

  ghost predicate Partition(inst: Instance, tour: Tour, unvisited: seq<nat>) {
    multiset(unvisited) + AllSites(inst, tour) == multiset(inst.siteIds)
  }

  lemma {:induction false} DistinctCount(s: seq<nat>, u: nat)
    requires forall i, j :: 0 <= i < j < |s| ==> s[i] != s[j]
    ensures multiset(s)[u] == if u in s then 1 else 0
  {
    if s != [] {
      var n := |s| - 1;
      DistinctCount(s[..n], u);
      assert s == s[..n] + [s[n]];
    }
  }

  lemma PartitionFacts(inst: Instance, tour: Tour, unvisited: seq<nat>, u: nat)
    requires inst.Valid() && Partition(inst, tour, unvisited)
    ensures multiset(unvisited)[u] + AllSites(inst, tour)[u] == if inst.IsSite(u) then 1 else 0
  {
    DistinctCount(inst.siteIds, u);
    assert (multiset(unvisited) + AllSites(inst, tour))[u] == multiset(unvisited)[u] + AllSites(inst, tour)[u];
  }

  lemma UnvisitedAreSites(inst: Instance, tour: Tour, unvisited: seq<nat>, i: nat)
    requires inst.Valid() && Partition(inst, tour, unvisited) && i < |unvisited|
    ensures inst.IsSite(unvisited[i]) && unvisited[i] !in AllSites(inst, tour)
  {
    PartitionFacts(inst, tour, unvisited, unvisited[i]);
    assert unvisited[i] in multiset(unvisited);
  }
}
