// Shaking: destroy part of a solution so that the descent can rebuild it. Cached legs
// go stale here; day lengths, structure and, except when a hotel changes, feasibility do not.

module Shake {
  import opened Instances
  import opened Schedules
  import opened Tours
  import opened Solutions
  import opened Moves
  import opened Removal
  import opened HotelSwap

  // ----- What destruction keeps -----

  ghost predicate Destroyed(inst: Instance, was: seq<DayTour>, now: seq<DayTour>) {
    && |now| == |was|
    && WellFormed(inst, TourOf(now))
    && TrueLengths(inst, now)
    && AllSites(inst, TourOf(now)) <= AllSites(inst, TourOf(was))
    && (AllFeasible(inst, TourOf(was)) ==> AllFeasible(inst, TourOf(now)))
    && SameEnds(TourOf(was), TourOf(now))
  }

  ghost predicate SameEnds(was: Tour, now: Tour) {
    |now| == |was| && forall d :: 0 <= d < |was| ==> First(now[d]) == First(was[d]) && Last(now[d]) == Last(was[d])
  }

  lemma DestroyedRefl(inst: Instance, days: seq<DayTour>)
    requires WellFormed(inst, TourOf(days)) && TrueLengths(inst, days)
    ensures Destroyed(inst, days, days)
  {
  }

  lemma DestroyedTrans(inst: Instance, a: seq<DayTour>, b: seq<DayTour>, c: seq<DayTour>)
    requires Destroyed(inst, a, b) && Destroyed(inst, b, c)
    ensures Destroyed(inst, a, c)
  {
  }

  lemma DestroyedMeans(inst: Instance, was: seq<DayTour>, now: seq<DayTour>)
    requires Destroyed(inst, was, now)
    ensures |now| == |was| && WellFormed(inst, TourOf(now)) && TrueLengths(inst, now)
    ensures SameEnds(TourOf(was), TourOf(now))
    ensures AllSites(inst, TourOf(now)) <= AllSites(inst, TourOf(was))
    ensures AllFeasible(inst, TourOf(was)) ==> AllFeasible(inst, TourOf(now))
  {
  }

  // now keeps the hotels of pts and some of its sites, and is no later.
  ghost predicate Thinner(inst: Instance, d: nat, pts: seq<nat>, now: seq<nat>) {
    && DayShape(inst, now)
    && First(now) == First(pts)
    && Last(now) == Last(pts)
    && SitesOf(inst, now) <= SitesOf(inst, pts)
    && (Feasible(inst, d, pts) ==> Feasible(inst, d, now))
  }

  lemma ShrinkCounts(inst: Instance, tour: Tour, d: nat, pts: seq<nat>)
    requires NoRepeat(inst, tour) && d < |tour| && SitesOf(inst, pts) <= SitesOf(inst, tour[d])
    ensures AllSites(inst, tour[d := pts]) <= AllSites(inst, tour)
    ensures NoRepeat(inst, tour[d := pts])
  {
    var now := tour[d := pts];
    AllSitesUpdate(inst, tour, d, pts);
    forall u: nat
      ensures AllSites(inst, now)[u] <= AllSites(inst, tour)[u] <= 1
    {
      assert (AllSites(inst, now) + SitesOf(inst, tour[d]))[u] == (AllSites(inst, tour) + SitesOf(inst, pts))[u];
    }
  }

  lemma ThinnerDay(inst: Instance, days: seq<DayTour>, d: nat, now: DayTour)
    requires WellFormed(inst, TourOf(days)) && TrueLengths(inst, days) && d < |days|
    requires Thinner(inst, d, Ids(days[d].steps), Ids(now.steps))
    requires now.distTotal == PathLen(inst, Ids(now.steps))
    ensures Destroyed(inst, days, days[d := now])
  {
    hide SitesOf, AllSites, PathLen, Feasible;
    var tour := TourOf(days);
    assert TourOf(days[d := now]) == tour[d := Ids(now.steps)];
    ShrinkCounts(inst, tour, d, Ids(now.steps));
    ReplaceDay(inst, tour, d, Ids(now.steps));
  }

  // ----- Emptying a day -----

  function Emptied(pts: seq<nat>): seq<nat> {
    [First(pts), Last(pts)]
  }

  lemma EmptiedFacts(inst: Instance, pts: seq<nat>)
    requires DayShape(inst, pts)
    ensures SitesOf(inst, Emptied(pts)) == multiset{}
    ensures PathLen(inst, Emptied(pts)) == inst.D(First(pts), Last(pts))
  {
    var q := Emptied(pts);
    assert q[..1] == [First(pts)];
    assert [First(pts)][..0] == [];
    assert SitesOf(inst, [First(pts)]) == multiset{};
    assert LenTo(inst, q, 1) == LenTo(inst, q, 0) + inst.D(q[0], q[1]);
  }

  lemma EmptiedThinner(inst: Instance, d: nat, pts: seq<nat>)
    requires inst.Valid() && DayShape(inst, pts)
    ensures Thinner(inst, d, pts, Emptied(pts))
    ensures SitesOf(inst, Emptied(pts)) == multiset{}
    ensures PathLen(inst, Emptied(pts)) == inst.D(First(pts), Last(pts))
  {
    EmptiedFacts(inst, pts);
    ShapePoints(inst, pts);
    if Feasible(inst, d, pts) {
      EmptiedFeasible(inst, d, pts);
    }
  }

  method ClearDay(inst: Instance, day: DayTour) returns (now: DayTour)
    requires inst.Valid() && DayShape(inst, Ids(day.steps))
    ensures Ids(now.steps) == Emptied(Ids(day.steps))
    ensures now.distTotal == inst.D(First(Ids(day.steps)), Last(Ids(day.steps)))
    ensures now.steps == [day.steps[0], day.steps[|day.steps| - 1]] && now.timeTotal == day.timeTotal
  {
    hide Instance.Metric, Instance.Sane;
    ghost var pts := Ids(day.steps);
    var steps := day.steps;
    var newSteps: seq<Step> := [];
    var k := 0;
    while k < |steps|
      invariant 0 <= k <= |steps|
      invariant newSteps == if k == 0 then [] else if k < |steps| then [steps[0]] else [steps[0], steps[|steps| - 1]]
    {
      assert pts[k] == steps[k].pointId;
      if inst.points[steps[k].pointId].kind.Hotel? {
        newSteps := newSteps + [steps[k]];
      }
      k := k + 1;
    }
    now := day.(steps := newSteps, distTotal := 0.0);
    if |newSteps| >= 2 {
      now := now.(distTotal := inst.dist[newSteps[0].pointId][newSteps[|newSteps| - 1].pointId]);
    }
  }

  method ClearOne(sol: Solution, d: nat)
    requires sol.inst.Valid() && WellFormed(sol.inst, sol.Tour()) && TrueLengths(sol.inst, sol.days) && d < |sol.days|
    modifies sol`days
    ensures Destroyed(sol.inst, old(sol.days), sol.days)
    ensures sol.Tour() == old(sol.Tour())[d := Emptied(old(sol.Tour())[d])]
    ensures forall e :: 0 <= e < |sol.days| ==> sol.days[e].timeTotal == old(sol.days)[e].timeTotal
  {
    hide Destroyed, PathLen, Thinner, Feasible, TrueLengths, WellFormed;
    DayFacts(sol.inst, sol.days, d);
    var now := ClearDay(sol.inst, sol.days[d]);
    EmptiedThinner(sol.inst, d, Ids(sol.days[d].steps));
    ThinnerDay(sol.inst, sol.days, d, now);
    sol.days := sol.days[d := now];
  }

  method ClearAll(sol: Solution)
    requires sol.inst.Valid() && WellFormed(sol.inst, sol.Tour()) && TrueLengths(sol.inst, sol.days)
    modifies sol`days
    ensures Destroyed(sol.inst, old(sol.days), sol.days)
    ensures forall d :: 0 <= d < |sol.days| ==> sol.Tour()[d] == Emptied(old(sol.Tour())[d])
  {
    hide Destroyed, WellFormed, TrueLengths, Instance.Valid, SameEnds, AllSites, AllFeasible;
    ghost var was := sol.days;
    DestroyedRefl(sol.inst, was);
    var dIdx := 0;
    while dIdx < |sol.days|
      invariant 0 <= dIdx <= |sol.days| == |was|
      invariant Destroyed(sol.inst, was, sol.days)
      invariant forall d :: 0 <= d < dIdx ==> sol.Tour()[d] == Emptied(TourOf(was)[d])
      invariant forall d :: dIdx <= d < |was| ==> sol.Tour()[d] == TourOf(was)[d]
    {
      ghost var before := sol.days;
      DestroyedMeans(sol.inst, was, sol.days);
      ClearOne(sol, dIdx);
      DestroyedTrans(sol.inst, was, before, sol.days);
      DestroyedMeans(sol.inst, was, sol.days);
      dIdx := dIdx + 1;
    }
  }

  // ----- Removing random sites -----

  predicate SiteAt(inst: Instance, tour: Tour, p: (nat, nat)) {
    p.0 < |tour| && p.1 < |tour[p.0]| && inst.IsSite(tour[p.0][p.1])
  }

  ghost predicate DistinctPairs(ps: seq<(nat, nat)>) {
    forall i, j :: 0 <= i < j < |ps| ==> ps[i] != ps[j]
  }

  ghost predicate Listed(inst: Instance, tour: Tour, ps: seq<(nat, nat)>, d: nat, k: nat) {
    && DistinctPairs(ps)
    && forall p: (nat, nat) :: p in ps <==> SiteAt(inst, tour, p) && (p.0 < d || (p.0 == d && p.1 < k))
  }

  method CollectSites(inst: Instance, days: seq<DayTour>) returns (positions: seq<(nat, nat)>)
    requires forall d :: 0 <= d < |days| ==> inst.ArePoints(Ids(days[d].steps))
    ensures Listed(inst, TourOf(days), positions, |days|, 0)
  {
    hide Listed, SiteAt;
    ghost var tour := TourOf(days);
    positions := [];
    ListNone(inst, tour);
    var d := 0;
    while d < |days|
      invariant 0 <= d <= |days|
      invariant Listed(inst, tour, positions, d, 0)
    {
      var steps := days[d].steps;
      var k := 0;
      while k < |steps|
        invariant 0 <= k <= |steps|
        invariant Listed(inst, tour, positions, d, k)
      {
        assert tour[d][k] == Ids(steps)[k] == steps[k].pointId;
        ListOne(inst, tour, positions, d, k);
        if inst.points[steps[k].pointId].kind.Site? {
          positions := positions + [(d, k)];
        }
        k := k + 1;
      }
      ListRow(inst, tour, positions, d, k);
      d := d + 1;
    }
  }

  lemma ListNone(inst: Instance, tour: Tour)
    ensures Listed(inst, tour, [], 0, 0)
  {
  }

  lemma ListOne(inst: Instance, tour: Tour, ps: seq<(nat, nat)>, d: nat, k: nat)
    requires Listed(inst, tour, ps, d, k) && d < |tour| && k < |tour[d]|
    ensures Listed(inst, tour, if inst.IsSite(tour[d][k]) then ps + [(d, k)] else ps, d, k + 1)
  {
  }

  lemma ListRow(inst: Instance, tour: Tour, ps: seq<(nat, nat)>, d: nat, k: nat)
    requires Listed(inst, tour, ps, d, k) && d < |tour| && k >= |tour[d]|
    ensures Listed(inst, tour, ps, d + 1, 0)
  {
  }

  // Random numbers: rng(i) is the one drawn at index i of a loop, to be reduced to the
  // range asked for.
  type Random = nat -> nat

  function Exchange<T>(ps: seq<T>, i: nat, j: nat): (qs: seq<T>)
    requires i < |ps| && j < |ps|
    ensures |qs| == |ps|
  {
    ps[i := ps[j]][j := ps[i]]
  }

  // What the exchanges at the indices i down to 1 make of a list.
  function Shuffled<T>(ps: seq<T>, rng: Random, i: nat): (qs: seq<T>)
    requires i < |ps| || (ps == [] && i == 0)
    ensures |qs| == |ps|
    decreases i
  {
    if i == 0 then ps else Shuffled(Exchange(ps, i, rng(i) % (i + 1)), rng, i - 1)
  }

  function ShuffledAll<T>(ps: seq<T>, rng: Random): (qs: seq<T>)
    ensures |qs| == |ps|
  {
    Shuffled(ps, rng, if ps == [] then 0 else |ps| - 1)
  }

  // Only the numbers at the indices that are left matter.
  lemma {:induction false} SameBelow<T>(ps: seq<T>, rng: Random, rng': Random, i: nat)
    requires i < |ps| && forall k :: 1 <= k <= i ==> rng(k) == rng'(k)
    ensures Shuffled(ps, rng, i) == Shuffled(ps, rng', i)
    decreases i
  {
    if i > 0 {
      SameBelow(Exchange(ps, i, rng(i) % (i + 1)), rng, rng', i - 1);
    }
  }

  // A list that agrees with another from i on and holds the same below.
  ghost predicate Rearranged<T>(ps: seq<T>, qs: seq<T>, i: nat) {
    i <= |ps| == |qs| && ps[i..] == qs[i..] && multiset(ps[..i]) == multiset(qs[..i])
  }

  lemma ExchangeKeeps<T>(ps: seq<T>, i: nat, j: nat)
    requires i < |ps| && j < |ps|
    ensures multiset(Exchange(ps, i, j)) == multiset(ps)
  {
  }

  lemma SplitLast<T>(ps: seq<T>, i: nat)
    requires i < |ps|
    ensures multiset(ps[..i + 1]) == multiset(ps[..i]) + multiset{ps[i]}
    ensures ps[i..] == [ps[i]] + ps[i + 1..]
  {
    assert ps[..i + 1] == ps[..i] + [ps[i]];
  }

  lemma RearrangedLess<T>(ps: seq<T>, qs: seq<T>, i: nat, j: nat)
    requires i < |ps| && j <= i && Rearranged(ps, qs, i + 1) && ps[j] == qs[i]
    ensures Rearranged(Exchange(ps, i, j), qs, i)
  {
    var rs := Exchange(ps, i, j);
    ExchangeKeeps(ps[..i + 1], i, j);
    assert rs[..i + 1] == Exchange(ps[..i + 1], i, j) && rs[i + 1..] == ps[i + 1..];
    SplitLast(rs, i);
    SplitLast(qs, i);
    assert rs[i] == qs[i];
    SameRest(multiset(rs[..i]), multiset(qs[..i]), qs[i]);
  }

  lemma SameRest<T>(a: multiset<T>, b: multiset<T>, x: T)
    requires a + multiset{x} == b + multiset{x}
    ensures a == b
  {
    assert a == (a + multiset{x}) - multiset{x} && b == (b + multiset{x}) - multiset{x};
  }

  lemma RearrangedOne<T>(ps: seq<T>, qs: seq<T>)
    requires ps != [] && Rearranged(ps, qs, 1)
    ensures ps == qs
  {
    SplitLast(ps, 0);
    SplitLast(qs, 0);
    assert multiset(ps[..0]) == multiset(qs[..0]) == multiset{};
    assert ps[0] in multiset(qs[..1]);
    assert ps == ps[0..] && qs == qs[0..];
  }

  lemma FindLast<T>(ps: seq<T>, qs: seq<T>, i: nat) returns (j: nat)
    requires i < |ps| && Rearranged(ps, qs, i + 1)
    ensures j <= i && ps[j] == qs[i]
  {
    assert qs[..i + 1][i] == qs[i];
    assert qs[i] in multiset(qs[..i + 1]) && qs[i] in multiset(ps[..i + 1]);
    assert qs[i] in ps[..i + 1];
    j :| 0 <= j < i + 1 && ps[..i + 1][j] == qs[i];
  }

  lemma FirstExchange<T>(ps: seq<T>, rng: Random, i: nat, j: nat)
    requires 0 < i < |ps| && j <= i && rng(i) == j
    ensures Shuffled(ps, rng, i) == Shuffled(Exchange(ps, i, j), rng, i - 1)
  {
    assert j % (i + 1) == j;
    hide Exchange;
  }

  // Every order of the list is the outcome of some random numbers.
  lemma {:induction false} ShuffleReaches<T>(ps: seq<T>, qs: seq<T>, i: nat) returns (rng: Random)
    requires i < |ps| && Rearranged(ps, qs, i + 1)
    ensures Shuffled(ps, rng, i) == qs
    decreases i
  {
    hide Rearranged, Exchange;
    if i == 0 {
      rng := k => 0;
      RearrangedOne(ps, qs);
    } else {
      var j := FindLast(ps, qs, i);
      RearrangedLess(ps, qs, i, j);
      var rest := ShuffleReaches(Exchange(ps, i, j), qs, i - 1);
      rng := k => if k == i then j else rest(k);
      SameBelow(Exchange(ps, i, j), rest, rng, i - 1);
      FirstExchange(ps, rng, i, j);
    }
  }

  // The library's shuffle: each position from the last on is exchanged with one not after it.
  method Shuffle(positions: seq<(nat, nat)>, rng: Random) returns (shuffled: seq<(nat, nat)>)
    requires DistinctPairs(positions)
    ensures shuffled == ShuffledAll(positions, rng)
    ensures DistinctPairs(shuffled) && |shuffled| == |positions|
    ensures forall p :: p in shuffled <==> p in positions
  {
    shuffled := positions;
    var i := |positions| - 1;
    while i > 0
      invariant |shuffled| == |positions| && i < |positions| && (i >= 0 || positions == [])
      invariant Shuffled(shuffled, rng, if i < 0 then 0 else i) == ShuffledAll(positions, rng)
      invariant DistinctPairs(shuffled)
      invariant forall p :: p in shuffled <==> p in positions
    {
      var j := rng(i) % (i + 1);
      ExchangePairs(shuffled, i, j);
      shuffled := shuffled[i := shuffled[j]][j := shuffled[i]];
      i := i - 1;
    }
  }

  lemma ExchangePairs(ps: seq<(nat, nat)>, i: nat, j: nat)
    requires i < |ps| && j < |ps| && DistinctPairs(ps)
    ensures var qs := ps[i := ps[j]][j := ps[i]];
            DistinctPairs(qs) && forall p :: p in qs <==> p in ps
  {
    var qs := ps[i := ps[j]][j := ps[i]];
    assert qs[i] == ps[j] && qs[j] == ps[i];
    forall p
      ensures p in qs <==> p in ps
    {
      if p in ps {
        var k :| 0 <= k < |ps| && ps[k] == p;
        assert qs[if k == i then j else if k == j then i else k] == p;
      }
    }
  }

  // The chosen positions grouped by day.
  ghost predicate Grouped(removals: map<nat, seq<nat>>, chosen: seq<(nat, nat)>) {
    && (forall d, s :: d in removals && s in removals[d] <==> (d, s) in chosen)
    && (forall d :: d in removals ==> Removal.Distinct(removals[d]) && removals[d] != [])
  }

  lemma GroupOne(removals: map<nat, seq<nat>>, chosen: seq<(nat, nat)>, p: (nat, nat))
    requires Grouped(removals, chosen) && p !in chosen
    ensures var had := if p.0 in removals then removals[p.0] else [];
            Grouped(removals[p.0 := had + [p.1]], chosen + [p])
  {
    var had := if p.0 in removals then removals[p.0] else [];
    var now := removals[p.0 := had + [p.1]];
    forall d, s
      ensures d in now && s in now[d] <==> (d, s) in chosen + [p]
    {
      assert d in removals && s in removals[d] <==> (d, s) in chosen;
    }
  }

  method GroupByDay(positions: seq<(nat, nat)>, count: nat) returns (removals: map<nat, seq<nat>>)
    requires DistinctPairs(positions) && count <= |positions|
    ensures Grouped(removals, positions[..count])
  {
    hide Grouped;
    removals := map[];
    GroupNone();
    assert positions[..0] == [];
    var i := 0;
    while i < count
      invariant 0 <= i <= count
      invariant Grouped(removals, positions[..i])
    {
      var p := positions[i];
      GroupOne(removals, positions[..i], p);
      assert positions[..i + 1] == positions[..i] + [p];
      removals := removals[p.0 := (if p.0 in removals then removals[p.0] else []) + [p.1]];
      i := i + 1;
    }
  }

  lemma GroupNone()
    ensures Grouped(map[], [])
  {
  }

  // Positions chosen in day d.
  ghost function ChosenIn(chosen: seq<(nat, nat)>, d: nat): set<nat> {
    set p | p in chosen && p.0 == d :: p.1
  }

  lemma IdsDelete(steps: seq<Step>, i: nat)
    requires i < |steps|
    ensures Ids(DeleteAt(steps, i)) == DeleteAt(Ids(steps), i)
  {
  }

  // Delete the given inner positions of one day and measure it again.
  method ThinDay(inst: Instance, d: nat, day: DayTour, indices: seq<nat>, ghost chosen: set<nat>) returns (now: DayTour)
    requires inst.Valid() && DayShape(inst, Ids(day.steps))
    requires Removal.Distinct(indices) && Inner(Ids(day.steps), indices)
    requires forall s: nat :: s in chosen <==> s in indices
    ensures Ids(now.steps) == Drop(Ids(day.steps), chosen, |day.steps|)
    ensures Thinner(inst, d, Ids(day.steps), Ids(now.steps))
    ensures now.distTotal == PathLen(inst, Ids(now.steps))
  {
    hide Instance.Valid, Feasible, DayShape, Removal.Distinct, Descending, DeleteAll, Drop, PathLen, SitesOf,
         DeleteAt, Thinner;
    ghost var pts := Ids(day.steps);
    var sorted := new nat[|indices|](k requires 0 <= k < |indices| => indices[k]);
    assert sorted[..] == indices;
    SortDescending(sorted);
    ghost var idxs := sorted[..];
    SameElements(idxs, indices);
    InnerSorted(pts, idxs, indices);
    DeleteNone(pts);
    assert idxs[..0] == [];
    var steps := day.steps;
    var k := 0;
    while k < sorted.Length
      invariant 0 <= k <= sorted.Length
      invariant sorted[..] == idxs
      invariant Descending(idxs[..k]) && Inner(pts, idxs[..k]) && Ids(steps) == DeleteAll(pts, idxs[..k])
    {
      var sIdx := sorted[k];
      DeleteNext(pts, idxs, k);
      IdsDelete(steps, sIdx);
      DeleteMeans(steps, sIdx);
      steps := steps[..sIdx] + steps[sIdx + 1..];
      k := k + 1;
    }
    assert idxs[..k] == idxs;
    DeletesExactly(pts, idxs, chosen);
    DeletedThinner(inst, d, pts, idxs);
    var dist := Measure(inst, steps);
    now := day.(steps := steps, distTotal := dist);
  }

  lemma SameElements(a: seq<nat>, b: seq<nat>)
    requires multiset(a) == multiset(b)
    ensures forall x: nat :: x in a <==> x in b
  {
    forall x: nat
      ensures x in a <==> x in b
    {
      assert x in multiset(a) <==> x in multiset(b);
    }
  }

  lemma InnerSorted(pts: seq<nat>, idxs: seq<nat>, indices: seq<nat>)
    requires Inner(pts, indices) && forall x: nat :: x in idxs <==> x in indices
    ensures Inner(pts, idxs)
  {
    forall i | 0 <= i < |idxs|
      ensures 0 < idxs[i] < |pts| - 1
    {
      assert idxs[i] in indices;
    }
  }

  lemma DeleteNone(pts: seq<nat>)
    ensures Descending([]) && Inner(pts, []) && DeleteAll(pts, []) == pts
  {
  }

  lemma DeleteMeans<T>(s: seq<T>, i: nat)
    requires i < |s|
    ensures DeleteAt(s, i) == s[..i] + s[i + 1..]
  {
  }

  lemma DeletedThinner(inst: Instance, d: nat, pts: seq<nat>, idxs: seq<nat>)
    requires inst.Valid() && DayShape(inst, pts) && Descending(idxs) && Inner(pts, idxs)
    ensures Thinner(inst, d, pts, DeleteAll(pts, idxs)) && inst.ArePoints(DeleteAll(pts, idxs))
  {
    ThinnedShape(inst, pts, idxs);
    ThinnedSites(inst, pts, idxs);
    ShapePoints(inst, DeleteAll(pts, idxs));
    if Feasible(inst, d, pts) {
      ThinnedFeasible(inst, d, pts, idxs);
    }
  }

  method Measure(inst: Instance, steps: seq<Step>) returns (dist: real)
    requires inst.Valid() && inst.ArePoints(Ids(steps))
    ensures dist == PathLen(inst, Ids(steps))
  {
    hide Instance.Metric, Instance.Sane;
    ghost var pts := Ids(steps);
    dist := 0.0;
    var i := 1;
    while i < |steps|
      invariant 1 <= i && (i <= |steps| || |steps| == 0)
      invariant dist == if steps == [] then 0.0 else LenTo(inst, pts, i - 1)
    {
      assert inst.IsPoint(pts[i - 1]) && inst.IsPoint(pts[i]);
      StopAt(inst, pts, i);
      dist := dist + inst.dist[steps[i - 1].pointId][steps[i].pointId];
      i := i + 1;
    }
  }

  // Exactly the chosen positions disappear from every day.
  ghost predicate Removed(was: seq<DayTour>, now: seq<DayTour>, chosen: seq<(nat, nat)>) {
    && |now| == |was|
    && forall d :: 0 <= d < |was| ==> DayRemoved(was[d], now[d], chosen, d)
  }

  ghost predicate DayRemoved(was: DayTour, now: DayTour, chosen: seq<(nat, nat)>, d: nat) {
    Ids(now.steps) == Drop(Ids(was.steps), ChosenIn(chosen, d), |was.steps|)
  }

  lemma NothingRemoved(day: DayTour, removals: map<nat, seq<nat>>, chosen: seq<(nat, nat)>, d: nat)
    requires Grouped(removals, chosen) && d !in removals
    ensures DayRemoved(day, day, chosen, d)
  {
    forall p | p in chosen
      ensures p.0 != d
    {
      assert (p.0, p.1) in chosen;
    }
    DropNothing(Ids(day.steps), ChosenIn(chosen, d), |day.steps|);
  }

  lemma GroupMeans(inst: Instance, tour: Tour, removals: map<nat, seq<nat>>, chosen: seq<(nat, nat)>, d: nat)
    requires Grouped(removals, chosen) && d in removals
    requires forall p :: p in chosen ==> SiteAt(inst, tour, p)
    requires forall e :: 0 <= e < |tour| ==> DayShape(inst, tour[e])
    ensures d < |tour| && Removal.Distinct(removals[d]) && Inner(tour[d], removals[d])
    ensures forall s: nat :: s in ChosenIn(chosen, d) <==> s in removals[d]
  {
    assert removals[d][0] in removals[d];
    assert (d, removals[d][0]) in chosen;
    forall i | 0 <= i < |removals[d]|
      ensures 0 < removals[d][i] < |tour[d]| - 1
    {
      assert removals[d][i] in removals[d];
      assert (d, removals[d][i]) in chosen;
      assert SiteAt(inst, tour, (d, removals[d][i]));
    }
    forall s: nat
      ensures s in ChosenIn(chosen, d) <==> s in removals[d]
    {
      assert d in removals && s in removals[d] <==> (d, s) in chosen;
      if (d, s) in chosen {
        assert (d, s).0 == d && (d, s).1 in ChosenIn(chosen, d);
      }
    }
  }

  // The first count positions, or all there are, of the shuffled list of all visited ones.
  ghost predicate DrawnFrom(inst: Instance, tour: Tour, chosen: seq<(nat, nat)>, count: nat, rng: Random) {
    exists all :: Listed(inst, tour, all, |tour|, 0)
               && chosen == ShuffledAll(all, rng)[..if count > |all| then |all| else count]
  }

  // Different visited positions, count of them or all there are.
  ghost predicate Picked(inst: Instance, tour: Tour, chosen: seq<(nat, nat)>, count: nat) {
    && DistinctPairs(chosen)
    && (forall p :: p in chosen ==> SiteAt(inst, tour, p))
    && |chosen| <= count
    && (|chosen| == count || forall p: (nat, nat) :: SiteAt(inst, tour, p) ==> p in chosen)
  }

  // Shuffle all visited positions, take the first ones, and group them by day.
  method PickSites(sol: Solution, count: nat, rng: Random)
    returns (removals: map<nat, seq<nat>>, ghost chosen: seq<(nat, nat)>)
    requires sol.inst.Valid() && WellFormed(sol.inst, sol.Tour())
    ensures Picked(sol.inst, sol.Tour(), chosen, count) && Grouped(removals, chosen)
    ensures DrawnFrom(sol.inst, sol.Tour(), chosen, count, rng)
  {
    hide WellFormed, Instance.Valid, Grouped, SiteAt, DistinctPairs, Listed, ShuffledAll;
    TypedDays(sol.inst, sol.days);
    var positions := CollectSites(sol.inst, sol.days);
    ListedAll(sol.inst, sol.Tour(), positions);
    ghost var all := positions;
    positions := Shuffle(positions, rng);
    var n := if count > |positions| then |positions| else count;
    chosen := positions[..n];
    FirstDistinct(positions, n);
    removals := GroupByDay(positions, n);
    assert Listed(sol.inst, sol.Tour(), all, |sol.Tour()|, 0);
  }

  lemma PickedMeans(inst: Instance, tour: Tour, chosen: seq<(nat, nat)>, count: nat)
    requires Picked(inst, tour, chosen, count)
    ensures forall p :: p in chosen ==> SiteAt(inst, tour, p)
  {
  }

  // The work on one of the days: only this day changes, and exactly its chosen sites go.
  method RemoveInDay(sol: Solution, d: nat, indices: seq<nat>, ghost was: seq<DayTour>, ghost chosen: seq<(nat, nat)>)
    requires sol.inst.Valid() && d < |was| == |sol.days| && sol.days[d] == was[d]
    requires Destroyed(sol.inst, was, sol.days) && DayShape(sol.inst, Ids(was[d].steps))
    requires Removal.Distinct(indices) && Inner(Ids(was[d].steps), indices)
    requires forall s: nat :: s in ChosenIn(chosen, d) <==> s in indices
    modifies sol`days
    ensures Destroyed(sol.inst, was, sol.days) && DayRemoved(was[d], sol.days[d], chosen, d)
    ensures |sol.days| == |was| && sol.days == old(sol.days)[d := sol.days[d]]
  {
    hide Destroyed, WellFormed, TrueLengths, Instance.Valid, Removal.Distinct, ChosenIn, Inner, Drop, PathLen, Thinner,
         SameEnds, AllSites, AllFeasible, DayShape;
    DestroyedMeans(sol.inst, was, sol.days);
    var now := ThinDay(sol.inst, d, sol.days[d], indices, ChosenIn(chosen, d));
    ThinnerDay(sol.inst, sol.days, d, now);
    DestroyedTrans(sol.inst, was, sol.days, sol.days[d := now]);
    sol.days := sol.days[d := now];
  }

  method RemoveSitesRandom(sol: Solution, count: nat, rng: Random)
    returns (ghost chosen: seq<(nat, nat)>)
    requires sol.inst.Valid() && WellFormed(sol.inst, sol.Tour()) && TrueLengths(sol.inst, sol.days)
    modifies sol`days
    ensures Destroyed(sol.inst, old(sol.days), sol.days)
    ensures Picked(sol.inst, old(sol.Tour()), chosen, count)
    ensures DrawnFrom(sol.inst, old(sol.Tour()), chosen, count, rng)
    ensures Removed(old(sol.days), sol.days, chosen)
  {
    hide Destroyed, WellFormed, TrueLengths, Instance.Valid, Grouped, SiteAt, Removal.Distinct, ChosenIn, Inner,
         DayRemoved, Picked, DrawnFrom, DayShape;
    var inst := sol.inst;
    ghost var was, tour := sol.days, sol.Tour();
    DestroyedRefl(inst, was);
    ShapedDays(inst, tour);
    var removals;
    removals, chosen := PickSites(sol, count, rng);
    PickedMeans(inst, tour, chosen, count);
    var left := removals.Keys;
    while left != {}
      invariant left <= removals.Keys && |sol.days| == |was|
      invariant Destroyed(inst, was, sol.days)
      invariant forall d :: 0 <= d < |was| && (d in left || d !in removals) ==> sol.days[d] == was[d]
      invariant forall d :: 0 <= d < |was| && d in removals && d !in left ==> DayRemoved(was[d], sol.days[d], chosen, d)
      decreases |left|
    {
      var d :| d in left;
      left := left - {d};
      GroupMeans(inst, tour, removals, chosen, d);
      RemoveInDay(sol, d, removals[d], was, chosen);
    }
    forall d | 0 <= d < |was|
      ensures DayRemoved(was[d], sol.days[d], chosen, d)
    {
      if d !in removals {
        NothingRemoved(was[d], removals, chosen, d);
      }
    }
  }

  lemma ShapedDays(inst: Instance, tour: Tour)
    requires WellFormed(inst, tour)
    ensures |tour| == inst.nbDays && forall e :: 0 <= e < |tour| ==> DayShape(inst, tour[e])
  {
  }

  lemma ListedAll(inst: Instance, tour: Tour, ps: seq<(nat, nat)>)
    requires Listed(inst, tour, ps, |tour|, 0)
    ensures DistinctPairs(ps) && forall p: (nat, nat) :: p in ps <==> SiteAt(inst, tour, p)
  {
    forall p: (nat, nat)
      ensures p in ps <==> SiteAt(inst, tour, p)
    {
      if SiteAt(inst, tour, p) {
        assert p.0 < |tour|;
      }
    }
  }

  lemma FirstDistinct(ps: seq<(nat, nat)>, n: nat)
    requires DistinctPairs(ps) && n <= |ps|
    ensures DistinctPairs(ps[..n]) && forall p :: p in ps[..n] ==> p in ps
  {
  }
}
