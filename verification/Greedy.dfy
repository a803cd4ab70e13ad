// The randomised greedy construction of solver.go: build the days one after another,
// always keeping a way to reach a hotel within the budget.

module Greedy {
  import opened Instances
  import opened Schedules
  import opened Tours
  import opened Solutions
  import opened Search
  import Validator
  import HotelSwap

  datatype Candidate = Candidate(id: nat, ratio: real, arrival: real, wait: real, departure: real, dist: real)

  // ----- Which sites qualify next, and how they rank -----

  function WaitAt(inst: Instance, i: nat, arrival: real): real {
    if inst.IsSite(i) && arrival < inst.points[i].openTime then inst.points[i].openTime - arrival else 0.0
  }

  // Whether the end hotel (last day) or some hotel (other days) is still within the budget.
  predicate CanReturn(inst: Instance, d: nat, p: nat, departure: real) {
    if d == inst.nbDays - 1 then departure + inst.D(p, inst.endHotel) <= inst.DayMaxDist(d)
    else exists k :: 0 <= k < |inst.hotelIds| && departure + inst.D(p, inst.hotelIds[k]) <= inst.DayMaxDist(d)
  }

  function Ratio(inst: Instance, mode: int, i: nat, dist: real, arrival: real, wait: real): real
    requires inst.IsPoint(i)
  {
    var p := inst.points[i];
    if mode == 1 then
      var window := p.closeTime - arrival;
      p.score / (if window < 0.001 then 0.001 else window)
    else if mode == 2 then p.score
    else if mode == 3 then (if dist < 0.001 then 10000.0 else 1.0 / dist)
    else p.score / (if dist + wait < 0.001 then 0.001 else dist + wait)
  }

  function CandidateAt(inst: Instance, mode: int, from: nat, departure: real, i: nat): Candidate
    requires inst.IsPoint(i)
  {
    var dist := inst.D(from, i);
    var arrival := departure + dist;
    var wait := WaitAt(inst, i, arrival);
    Candidate(i, Ratio(inst, mode, i, dist, arrival, wait), arrival, wait,
              arrival + wait + inst.points[i].serviceTime, dist)
  }

  predicate Eligible(inst: Instance, d: nat, from: nat, departure: real, visited: seq<bool>, i: nat) {
    && inst.IsSite(i) && i < |visited| && !visited[i]
    && departure + inst.D(from, i) <= inst.points[i].closeTime
    && CanReturn(inst, d, i, CandidateAt(inst, 0, from, departure, i).departure)
  }

  // The candidates among the first n points, in order of id.
  ghost function CandidatesTo(inst: Instance, mode: int, d: nat, from: nat, departure: real, visited: seq<bool>, n: nat)
    : seq<Candidate>
    requires n <= |inst.points|
  {
    if n == 0 then []
    else CandidatesTo(inst, mode, d, from, departure, visited, n - 1)
         + (if Eligible(inst, d, from, departure, visited, n - 1)
            then [CandidateAt(inst, mode, from, departure, n - 1)] else [])
  }

  ghost function AllCandidates(inst: Instance, mode: int, d: nat, from: nat, departure: real, visited: seq<bool>)
    : seq<Candidate>
  {
    CandidatesTo(inst, mode, d, from, departure, visited, |inst.points|)
  }

  lemma {:induction false} CandidatesMean(inst: Instance, mode: int, d: nat, from: nat, departure: real,
                                          visited: seq<bool>, n: nat)
    requires n <= |inst.points|
    ensures Candidates(inst, mode, d, from, departure, visited, n,
                       CandidatesTo(inst, mode, d, from, departure, visited, n))
  {
    hide Eligible, Ratio, WaitAt;
    if n > 0 {
      CandidatesMean(inst, mode, d, from, departure, visited, n - 1);
    }
  }

  // Exactly the eligible ones of the first n points.
  ghost predicate Candidates(inst: Instance, mode: int, d: nat, from: nat, departure: real, visited: seq<bool>,
                             n: nat, cands: seq<Candidate>) {
    && (forall k :: 0 <= k < |cands| ==>
          && Eligible(inst, d, from, departure, visited, cands[k].id)
          && cands[k] == CandidateAt(inst, mode, from, departure, cands[k].id))
    && (forall i: nat :: i < n && Eligible(inst, d, from, departure, visited, i) ==>
          CandidateAt(inst, mode, from, departure, i) in cands)
  }

  lemma RatioNonNegative(inst: Instance, mode: int, i: nat, dist: real, arrival: real, wait: real)
    requires inst.Valid() && inst.IsPoint(i)
    ensures Ratio(inst, mode, i, dist, arrival, wait) >= 0.0
  {
  }

  // ----- What the ranking means, without dividing -----

  function AtLeastTiny(x: real): real {
    if x < 0.001 then 0.001 else x
  }

  // Score a for x is worth at least as much as score b for y.
  ghost predicate MoreFor(a: real, x: real, b: real, y: real) {
    a * AtLeastTiny(y) >= b * AtLeastTiny(x)
  }

  // Candidate c comes at least as early as c': by score for the cost of the way and the
  // waiting; by score for the time left until closing; by score; or by nearness.
  ghost predicate Precedes(inst: Instance, mode: int, c: Candidate, c': Candidate)
    requires inst.IsPoint(c.id) && inst.IsPoint(c'.id)
  {
    var p, q := inst.points[c.id], inst.points[c'.id];
    if mode == 1 then MoreFor(p.score, p.closeTime - c.arrival, q.score, q.closeTime - c'.arrival)
    else if mode == 2 then p.score >= q.score
    else if mode == 3 then c.dist < 0.001 || (c'.dist >= 0.001 && c.dist <= c'.dist)
    else MoreFor(p.score, c.dist + c.wait, q.score, c'.dist + c'.wait)
  }

  lemma QuotientOrder(a: real, b: real, x: real, y: real)
    requires x > 0.0 && y > 0.0
    ensures a / x >= b / y <==> a * y >= b * x
  {
    assert a == (a / x) * x && b == (b / y) * y;
    var u, v := a / x, b / y;
    assert a * y - b * x == (u - v) * (x * y) by {
      assert (u * x) * y == u * (x * y) && (v * y) * x == v * (x * y);
    }
    SignOfProduct(u - v, x * y);
  }

  lemma SignOfProduct(u: real, z: real)
    requires z > 0.0
    ensures u >= 0.0 <==> u * z >= 0.0
  {
  }

  lemma NearnessOrder(x: real, y: real)
    ensures Nearness(x) >= Nearness(y) <==> x < 0.001 || (y >= 0.001 && x <= y)
  {
    if x >= 0.001 && y >= 0.001 {
      QuotientOrder(1.0, 1.0, x, y);
    } else if x >= 0.001 {
      QuotientOrder(1.0, 10000.0, x, 1.0);
    } else if y >= 0.001 {
      QuotientOrder(10000.0, 1.0, 1.0, y);
    }
  }

  function Per(a: real, x: real): real {
    a / AtLeastTiny(x)
  }

  lemma QuotientOrderTiny(a: real, b: real, x: real, y: real)
    ensures Per(a, x) >= Per(b, y) <==> MoreFor(a, x, b, y)
  {
    QuotientOrder(a, b, AtLeastTiny(x), AtLeastTiny(y));
  }

  function Nearness(x: real): real {
    if x < 0.001 then 10000.0 else 1.0 / x
  }

  lemma RatioParts(inst: Instance, mode: int, from: nat, departure: real, i: nat)
    requires inst.IsPoint(i)
    ensures var c, p := CandidateAt(inst, mode, from, departure, i), inst.points[i];
            && c.id == i
            && (mode == 1 ==> c.ratio == Per(p.score, p.closeTime - c.arrival))
            && (mode == 2 ==> c.ratio == p.score)
            && (mode == 3 ==> c.ratio == Nearness(c.dist))
            && (mode != 1 && mode != 2 && mode != 3 ==> c.ratio == Per(p.score, c.dist + c.wait))
  {
  }

  // Ranking by ratio is this order.
  lemma RatioOrders(inst: Instance, mode: int, from: nat, departure: real, i: nat, j: nat)
    requires inst.IsPoint(i) && inst.IsPoint(j)
    ensures var c, c' := CandidateAt(inst, mode, from, departure, i), CandidateAt(inst, mode, from, departure, j);
            c.id == i && c'.id == j && (c.ratio >= c'.ratio <==> Precedes(inst, mode, c, c'))
  {
    hide CandidateAt, Per, MoreFor, Nearness;
    RatioParts(inst, mode, from, departure, i);
    RatioParts(inst, mode, from, departure, j);
    var c, c' := CandidateAt(inst, mode, from, departure, i), CandidateAt(inst, mode, from, departure, j);
    var p, q := inst.points[i], inst.points[j];
    if mode == 1 {
      QuotientOrderTiny(p.score, q.score, p.closeTime - c.arrival, q.closeTime - c'.arrival);
    } else if mode == 3 {
      NearnessOrder(c.dist, c'.dist);
    } else if mode != 2 {
      QuotientOrderTiny(p.score, q.score, c.dist + c.wait, c'.dist + c'.wait);
    }
  }

  method TestReturn(inst: Instance, d: nat, i: nat, departure: real) returns (canReturn: bool)
    requires inst.Valid() && inst.IsPoint(i)
    ensures canReturn <==> CanReturn(inst, d, i, departure)
  {
    if d == inst.nbDays - 1 {
      return departure + inst.dist[i][inst.endHotel] <= inst.DayMaxDist(d);
    }
    var k := 0;
    while k < |inst.hotelIds|
      invariant 0 <= k <= |inst.hotelIds|
      invariant forall m :: 0 <= m < k ==> departure + inst.D(i, inst.hotelIds[m]) > inst.DayMaxDist(d)
    {
      HotelSwap.HotelListed(inst, k);
      if departure + inst.dist[i][inst.hotelIds[k]] <= inst.DayMaxDist(d) {
        return true;
      }
      k := k + 1;
    }
    return false;
  }

  // best is the first candidate of highest ratio; none gives a ratio of -1.
  ghost predicate BestOf(cands: seq<Candidate>, bestRatio: real, best: Candidate) {
    && (cands == [] ==> bestRatio == -1.0)
    && (cands != [] ==>
          && best in cands && best.ratio == bestRatio >= 0.0
          && forall c :: c in cands ==> c.ratio <= bestRatio && (c.ratio == bestRatio ==> best.id <= c.id))
  }

  lemma BestOfNext(cands: seq<Candidate>, bestRatio: real, best: Candidate, c: Candidate)
    requires BestOf(cands, bestRatio, best) && c.ratio >= 0.0 && forall b :: b in cands ==> b.id < c.id
    ensures c.ratio > bestRatio ==> BestOf(cands + [c], c.ratio, c)
    ensures c.ratio <= bestRatio ==> BestOf(cands + [c], bestRatio, best)
  {
  }

  // One pass over the points. The deterministic mode only remembers the best one.
  method FindCandidates(inst: Instance, rclSize: int, mode: int, d: nat, from: nat, departure: real,
                        visited: array<bool>)
    returns (bestRatio: real, bestCand: Candidate, candidates: seq<Candidate>)
    requires inst.Valid() && inst.IsPoint(from) && visited.Length == |inst.points|
    ensures var all := AllCandidates(inst, mode, d, from, departure, visited[..]);
            if rclSize <= 1 then BestOf(all, bestRatio, bestCand) else candidates == all
  {
    hide CanReturn, Ratio, BestOf, Instance.Sane, Instance.Metric;
    ghost var all: seq<Candidate> := [];
    bestRatio, bestCand, candidates := -1.0, Candidate(0, 0.0, 0.0, 0.0, 0.0, 0.0), [];
    BestOfNone(bestCand);
    var i := 0;
    while i < |inst.points|
      invariant 0 <= i <= |inst.points|
      invariant all == CandidatesTo(inst, mode, d, from, departure, visited[..], i) && forall b :: b in all ==> b.id < i
      invariant if rclSize <= 1 then BestOf(all, bestRatio, bestCand) else candidates == all
    {
      var p := inst.points[i];
      if !visited[i] && p.kind.Site? {
        var dist := inst.dist[from][i];
        var arrival := departure + dist;
        if arrival <= p.closeTime {
          var wait := if arrival < p.openTime then p.openTime - arrival else 0.0;
          var leave := arrival + wait + p.serviceTime;
          var canReturn := TestReturn(inst, d, i, leave);
          if canReturn {
            var ratio := Ratio(inst, mode, i, dist, arrival, wait);
            RatioNonNegative(inst, mode, i, dist, arrival, wait);
            var c := Candidate(i, ratio, arrival, wait, leave, dist);
            assert forall b :: b in all ==> b.id < c.id;
            BestOfStep(all, bestRatio, bestCand, c, rclSize);
            all := all + [c];
            if rclSize <= 1 {
              if ratio > bestRatio {
                bestRatio, bestCand := ratio, c;
              }
            } else {
              candidates := candidates + [c];
            }
          }
        }
      }
      i := i + 1;
    }
  }

  lemma BestOfNone(c: Candidate)
    ensures BestOf([], -1.0, c)
  {
  }

  lemma BestOfStep(cands: seq<Candidate>, bestRatio: real, best: Candidate, c: Candidate, rclSize: int)
    requires rclSize <= 1 ==> BestOf(cands, bestRatio, best)
    requires c.ratio >= 0.0 && forall b :: b in cands ==> b.id < c.id
    ensures rclSize <= 1 && c.ratio > bestRatio ==> BestOf(cands + [c], c.ratio, c)
    ensures rclSize <= 1 && c.ratio <= bestRatio ==> BestOf(cands + [c], bestRatio, best)
  {
    if rclSize <= 1 {
      BestOfNext(cands, bestRatio, best, c);
    }
  }

  // ----- Choosing among them -----

  ghost predicate ByRatio(cands: seq<Candidate>) {
    forall i, j :: 0 <= i < j < |cands| ==> cands[i].ratio >= cands[j].ratio
  }

  // The library's sort, as an insertion sort.
  method SortByRatio(cands: seq<Candidate>) returns (sorted: seq<Candidate>)
    ensures multiset(sorted) == multiset(cands)
    ensures ByRatio(sorted)
  {
    sorted := [];
    var i := 0;
    while i < |cands|
      invariant 0 <= i <= |cands|
      invariant multiset(sorted) == multiset(cands[..i])
      invariant ByRatio(sorted)
    {
      assert cands[..i + 1] == cands[..i] + [cands[i]];
      sorted := InsertByRatio(sorted, cands[i]);
      i := i + 1;
    }
    assert cands[..i] == cands;
  }

  method InsertByRatio(sorted: seq<Candidate>, c: Candidate) returns (r: seq<Candidate>)
    requires ByRatio(sorted)
    ensures ByRatio(r) && multiset(r) == multiset(sorted) + multiset{c}
  {
    var k := 0;
    while k < |sorted| && sorted[k].ratio >= c.ratio
      invariant 0 <= k <= |sorted|
      invariant forall m :: 0 <= m < k ==> sorted[m].ratio >= c.ratio
    {
      k := k + 1;
    }
    assert sorted == sorted[..k] + sorted[k..];
    return sorted[..k] + [c] + sorted[k..];
  }

  // The candidates that beat a ratio, and those that reach it.
  ghost function Better(cands: seq<Candidate>, ratio: real): set<Candidate> {
    set c | c in cands && c.ratio > ratio
  }

  ghost function Reaching(cands: seq<Candidate>, ratio: real): set<Candidate> {
    set c | c in cands && c.ratio >= ratio
  }

  // The rank drawn among the rclSize best, or among all of them; 0 in deterministic mode.
  function RankOf(rclSize: int, n: nat, draw: nat): nat
    requires n > 0
  {
    if rclSize <= 1 then 0 else draw % (if rclSize > n then n else rclSize)
  }

  // The candidate at the rank drawn, equal ratios in any order; in deterministic mode the
  // first one of the best.
  ghost predicate ChosenFrom(cands: seq<Candidate>, rclSize: int, draw: nat, c: Candidate) {
    && c in cands
    && |Better(cands, c.ratio)| <= RankOf(rclSize, |cands|, draw) < |Reaching(cands, c.ratio)|
    && (rclSize <= 1 ==> forall b :: b in cands && b.ratio == c.ratio ==> c.id <= b.id)
  }

  ghost function Elements(cands: seq<Candidate>): set<Candidate> {
    set c | c in cands
  }

  ghost predicate Distinct(cands: seq<Candidate>) {
    forall i, j :: 0 <= i < j < |cands| ==> cands[i] != cands[j]
  }

  lemma {:induction false} ElementsSize(cands: seq<Candidate>)
    ensures |Elements(cands)| <= |cands|
    ensures Distinct(cands) ==> |Elements(cands)| == |cands|
  {
    if cands != [] {
      var n := |cands| - 1;
      ElementsSize(cands[..n]);
      assert Elements(cands) == Elements(cands[..n]) + {cands[n]};
    }
  }

  lemma SubsetSize<T>(a: set<T>, b: set<T>)
    requires a <= b
    ensures |a| <= |b|
  {
    assert b == a + (b - a);
  }

  // In a list that falls in ratio, fewer than r + 1 beat the one at r and more than r reach it.
  lemma RankHolds(sorted: seq<Candidate>, r: nat)
    requires ByRatio(sorted) && Distinct(sorted) && r < |sorted|
    ensures |Better(sorted, sorted[r].ratio)| <= r < |Reaching(sorted, sorted[r].ratio)|
  {
    var ratio := sorted[r].ratio;
    ElementsSize(sorted[..r]);
    ElementsSize(sorted[..r + 1]);
    forall c | c in Better(sorted, ratio)
      ensures c in Elements(sorted[..r])
    {
      var k :| 0 <= k < |sorted| && sorted[k] == c;
      assert k < r;
    }
    SubsetSize(Better(sorted, ratio), Elements(sorted[..r]));
    SubsetSize(Elements(sorted[..r + 1]), Reaching(sorted, ratio));
  }

  lemma SameCandidates(a: seq<Candidate>, b: seq<Candidate>)
    requires multiset(a) == multiset(b)
    ensures forall ratio :: Better(a, ratio) == Better(b, ratio) && Reaching(a, ratio) == Reaching(b, ratio)
    ensures |a| == |b| && forall c :: c in a <==> c in b
  {
    assert |a| == |multiset(a)| == |multiset(b)| == |b|;
    forall c
      ensures c in a <==> c in b
    {
      assert c in multiset(a) <==> c in multiset(b);
    }
  }

  lemma {:induction false} Multiplicity(cands: seq<Candidate>, c: Candidate)
    ensures Distinct(cands) ==> multiset(cands)[c] <= 1
  {
    if cands != [] {
      var n := |cands| - 1;
      Multiplicity(cands[..n], c);
      assert cands == cands[..n] + [cands[n]];
      assert Distinct(cands) && c == cands[n] ==> c !in cands[..n];
    }
  }

  lemma Twice(cands: seq<Candidate>, i: nat, j: nat)
    requires i < j < |cands| && cands[i] == cands[j]
    ensures multiset(cands)[cands[i]] >= 2
  {
    assert cands == cands[..j] + [cands[j]] + cands[j + 1..] && cands[i] in cands[..j];
  }

  lemma SameDistinct(a: seq<Candidate>, b: seq<Candidate>)
    requires multiset(a) == multiset(b) && Distinct(a)
    ensures Distinct(b)
  {
    forall i, j | 0 <= i < j < |b|
      ensures b[i] != b[j]
    {
      if b[i] == b[j] {
        Twice(b, i, j);
        Multiplicity(a, b[i]);
      }
    }
  }

  lemma {:induction false} CandidatesDistinct(inst: Instance, mode: int, d: nat, from: nat, departure: real,
                                              visited: seq<bool>, n: nat)
    requires n <= |inst.points|
    ensures Distinct(CandidatesTo(inst, mode, d, from, departure, visited, n))
    ensures forall c :: c in CandidatesTo(inst, mode, d, from, departure, visited, n) ==> c.id < n
  {
    hide Eligible, Ratio, WaitAt;
    if n > 0 {
      CandidatesDistinct(inst, mode, d, from, departure, visited, n - 1);
    }
  }

  lemma BestIsChosen(cands: seq<Candidate>, bestRatio: real, best: Candidate, rclSize: int, draw: nat)
    requires BestOf(cands, bestRatio, best) && rclSize <= 1
    ensures bestRatio >= 0.0 <==> cands != []
    ensures cands != [] ==> ChosenFrom(cands, rclSize, draw, best)
  {
    if cands != [] {
      assert Better(cands, best.ratio) == {};
      assert best in Reaching(cands, best.ratio);
    }
  }

  // A best candidate comes before every eligible site in the order of its mode.
  lemma ChosenPrecedes(inst: Instance, mode: int, d: nat, from: nat, departure: real, visited: seq<bool>, draw: nat,
                       c: Candidate, i: nat)
    requires ChosenFrom(AllCandidates(inst, mode, d, from, departure, visited), 1, draw, c)
    requires Eligible(inst, d, from, departure, visited, i)
    ensures inst.IsPoint(c.id) && Precedes(inst, mode, c, CandidateAt(inst, mode, from, departure, i))
  {
    var all := AllCandidates(inst, mode, d, from, departure, visited);
    CandidatesMean(inst, mode, d, from, departure, visited, |inst.points|);
    var b := CandidateAt(inst, mode, from, departure, i);
    hide Eligible, CandidateAt, Precedes;
    assert Better(all, c.ratio) == {};
    assert b in all && b !in Better(all, c.ratio);
    RatioOrders(inst, mode, from, departure, c.id, i);
  }

  method Choose(inst: Instance, rclSize: int, mode: int, d: nat, from: nat, departure: real, visited: array<bool>,
                draw: nat)
    returns (found: bool, chosen: Candidate)
    requires inst.Valid() && inst.IsPoint(from) && visited.Length == |inst.points|
    ensures found <==> AllCandidates(inst, mode, d, from, departure, visited[..]) != []
    ensures found ==> ChosenFrom(AllCandidates(inst, mode, d, from, departure, visited[..]), rclSize, draw, chosen)
  {
    hide CandidatesTo, BestOf, Instance.Valid, Better, Reaching, Distinct, ByRatio;
    ghost var all := AllCandidates(inst, mode, d, from, departure, visited[..]);
    var bestRatio, candidates;
    bestRatio, chosen, candidates := FindCandidates(inst, rclSize, mode, d, from, departure, visited);
    found := false;
    if rclSize <= 1 {
      BestIsChosen(all, bestRatio, chosen, rclSize, draw);
      found := bestRatio >= 0.0;
    } else if |candidates| > 0 {
      var sorted := SortByRatio(candidates);
      SameCandidates(sorted, candidates);
      CandidatesDistinct(inst, mode, d, from, departure, visited[..], |inst.points|);
      SameDistinct(candidates, sorted);
      var k := if rclSize > |sorted| then |sorted| else rclSize;
      chosen := sorted[draw % k];
      RankHolds(sorted, draw % k);
      found := true;
    }
  }

  // ----- A day under construction -----

  // A start hotel, then sites visited on time, from the last of which a hotel is in reach.
  ghost predicate Trip(inst: Instance, d: nat, steps: seq<Step>) {
    var pts := Ids(steps);
    && pts != []
    && inst.IsHotel(pts[0])
    && (forall k :: 0 < k < |pts| ==> inst.IsSite(pts[k]))
    && steps == Timetable(inst, pts)
    && WindowsTo(inst, pts, |pts|)
    && (|pts| > 1 ==> CanReturn(inst, d, pts[|pts| - 1], Depart(inst, pts, |pts| - 1)))
  }

  function StepOf(c: Candidate): Step {
    Step(c.id, c.arrival, c.wait, c.departure, c.dist)
  }

  lemma {:induction false} WindowsPrefix(inst: Instance, pts: seq<nat>, p: nat, n: nat)
    requires n <= |pts|
    ensures WindowsTo(inst, pts + [p], n) == WindowsTo(inst, pts, n)
  {
    if n > 0 {
      WindowsPrefix(inst, pts, p, n - 1);
      assert (pts + [p])[..n] == pts[..n];
      SamePrefix(inst, pts, pts + [p], n - 1);
    }
  }

  lemma PrefixStep(inst: Instance, pts: seq<nat>, p: nat, k: nat)
    requires k < |pts|
    ensures TimedStep(inst, pts + [p], k) == TimedStep(inst, pts, k)
    ensures Depart(inst, pts + [p], k) == Depart(inst, pts, k)
  {
    var q := pts + [p];
    assert q[..k + 1] == pts[..k + 1];
    SamePrefix(inst, pts, q, k);
    if k > 0 {
      assert q[k - 1] == pts[k - 1];
    }
  }

  lemma TimetableSnoc(inst: Instance, pts: seq<nat>, p: nat)
    ensures Timetable(inst, pts + [p]) == Timetable(inst, pts) + [TimedStep(inst, pts + [p], |pts|)]
    ensures pts != [] ==>
      Arrive(inst, pts + [p], |pts|) == Depart(inst, pts, |pts| - 1) + inst.D(pts[|pts| - 1], p)
  {
    hide TimedStep, Depart;
    var q := pts + [p];
    forall k | 0 <= k < |pts|
      ensures TimedStep(inst, q, k) == TimedStep(inst, pts, k)
    {
      PrefixStep(inst, pts, p, k);
    }
    if pts != [] {
      PrefixStep(inst, pts, p, |pts| - 1);
      StopAt(inst, q, |pts|);
    }
  }

  lemma TripStart(inst: Instance, d: nat, start: nat)
    requires inst.IsHotel(start)
    ensures Trip(inst, d, [Step(start, 0.0, 0.0, 0.0, 0.0)])
  {
    var steps := [Step(start, 0.0, 0.0, 0.0, 0.0)];
    var pts := Ids(steps);
    Validator.FirstStop(inst, pts);
    assert Timetable(inst, pts) == [TimedStep(inst, pts, 0)];
    assert WindowsTo(inst, pts, 0);
  }

  lemma TripStep(inst: Instance, mode: int, d: nat, steps: seq<Step>, visited: seq<bool>, c: Candidate)
    requires inst.Valid() && Trip(inst, d, steps)
    requires Eligible(inst, d, steps[|steps| - 1].pointId, steps[|steps| - 1].departure, visited, c.id)
    requires c == CandidateAt(inst, mode, steps[|steps| - 1].pointId, steps[|steps| - 1].departure, c.id)
    ensures Trip(inst, d, steps + [StepOf(c)])
  {
    hide CanReturn, Ratio, Instance.Metric;
    var pts := Ids(steps);
    var n := |pts|;
    var q := pts + [c.id];
    assert Ids(steps + [StepOf(c)]) == q;
    TimetableSnoc(inst, pts, c.id);
    WindowsPrefix(inst, pts, c.id, n);
    assert steps[n - 1] == TimedStep(inst, pts, n - 1);
    assert TimedStep(inst, q, n) == StepOf(c);
    assert inst.points[c.id].openTime <= inst.points[c.id].closeTime;
  }

  lemma TripMeans(inst: Instance, d: nat, steps: seq<Step>)
    requires Trip(inst, d, steps)
    ensures steps != [] && inst.IsPoint(steps[|steps| - 1].pointId) && Ids(steps) != []
    ensures steps[|steps| - 1].pointId == Ids(steps)[|steps| - 1]
    ensures steps[|steps| - 1].departure == Depart(inst, Ids(steps), |steps| - 1)
    ensures inst.ArePoints(Ids(steps))
  {
    var pts := Ids(steps);
    assert steps[|steps| - 1] == TimedStep(inst, pts, |pts| - 1);
    forall k | 0 <= k < |pts|
      ensures inst.IsPoint(pts[k])
    {
      assert k == 0 || inst.IsSite(pts[k]);
    }
  }

  // ----- Closing the day at a hotel -----

  ghost predicate InReach(inst: Instance, d: nat, p: nat, departure: real, h: nat) {
    departure + inst.D(p, h) <= inst.DayMaxDist(d)
  }

  // The nearest hotel in reach; the end hotel on the last day, or when none is in reach.
  ghost predicate EndChoice(inst: Instance, d: nat, p: nat, departure: real, h: nat) {
    if d == inst.nbDays - 1 then h == inst.endHotel
    else
      || (&& inst.IsHotel(h) && InReach(inst, d, p, departure, h)
          && forall g :: inst.IsHotel(g) && InReach(inst, d, p, departure, g) ==> inst.D(p, h) <= inst.D(p, g))
      || (h == inst.endHotel && forall g :: inst.IsHotel(g) ==> !InReach(inst, d, p, departure, g))
  }

  // No hotel in reach that is listed before it is as near.
  ghost predicate FirstNearest(inst: Instance, d: nat, last: Step, h: nat) {
    exists k :: 0 <= k < |inst.hotelIds| && inst.hotelIds[k] == h && NoneAsNear(inst, d, last, h, k)
  }

  ghost predicate NoneAsNear(inst: Instance, d: nat, last: Step, h: nat, k: nat)
    requires k <= |inst.hotelIds|
  {
    forall m :: 0 <= m < k && InReach(inst, d, last.pointId, last.departure, inst.hotelIds[m]) ==>
      inst.D(last.pointId, inst.hotelIds[m]) > inst.D(last.pointId, h)
  }

  method ChooseEnd(inst: Instance, d: nat, last: Step) returns (endHotelID: nat)
    requires inst.Valid() && inst.IsPoint(last.pointId)
    ensures EndChoice(inst, d, last.pointId, last.departure, endHotelID) && inst.IsHotel(endHotelID)
    ensures d != inst.nbDays - 1 && InReach(inst, d, last.pointId, last.departure, endHotelID) ==>
              FirstNearest(inst, d, last, endHotelID)
  {
    if d == inst.nbDays - 1 {
      return inst.endHotel;
    }
    var bestH: int, minDistH := -1, 0.0;
    var k := 0;
    while k < |inst.hotelIds|
      invariant 0 <= k <= |inst.hotelIds|
      invariant bestH < 0 ==>
        forall m :: 0 <= m < k ==> !InReach(inst, d, last.pointId, last.departure, inst.hotelIds[m])
      invariant bestH >= 0 ==>
        && inst.IsHotel(bestH) && InReach(inst, d, last.pointId, last.departure, bestH)
        && minDistH == inst.D(last.pointId, bestH)
        && forall m :: 0 <= m < k && InReach(inst, d, last.pointId, last.departure, inst.hotelIds[m]) ==>
             minDistH <= inst.D(last.pointId, inst.hotelIds[m])
      invariant bestH >= 0 ==> FirstNearest(inst, d, last, bestH)
    {
      var hID := inst.hotelIds[k];
      HotelSwap.HotelListed(inst, k);
      var dist := inst.dist[last.pointId][hID];
      if last.departure + dist <= inst.DayMaxDist(d) {
        if bestH == -1 || dist < minDistH {
          minDistH, bestH := dist, hID;
          assert NoneAsNear(inst, d, last, hID, k);
        }
      }
      k := k + 1;
    }
    forall g | inst.IsHotel(g)
      ensures exists m :: 0 <= m < |inst.hotelIds| && inst.hotelIds[m] == g
    {
      assert g in inst.hotelIds;
    }
    if bestH == -1 {
      bestH := inst.endHotel;
    }
    endHotelID := bestH;
  }

  // What greedy promises of a day: it keeps its windows, and its budget too unless it
  // visits nothing and its two hotels are too far apart.
  ghost predicate GreedyDay(inst: Instance, d: nat, pts: seq<nat>) {
    && DayShape(inst, pts)
    && (Feasible(inst, d, pts) <==> (|pts| == 2 ==> inst.D(pts[0], pts[1]) <= inst.DayMaxDist(d)))
    && (d < inst.nbDays - 1 ==> Feasible(inst, d, pts))
    && (d == inst.nbDays - 1 ==> Last(pts) == inst.endHotel)
  }

  lemma ReturnReached(inst: Instance, d: nat, p: nat, departure: real, h: nat)
    requires inst.Valid() && CanReturn(inst, d, p, departure) && EndChoice(inst, d, p, departure, h)
    ensures InReach(inst, d, p, departure, h)
  {
    if d != inst.nbDays - 1 {
      var k :| 0 <= k < |inst.hotelIds| && departure + inst.D(p, inst.hotelIds[k]) <= inst.DayMaxDist(d);
      HotelSwap.HotelListed(inst, k);
      assert InReach(inst, d, p, departure, inst.hotelIds[k]);
    }
  }

  // Before the last day, staying at the start hotel is always in reach.
  lemma StayReached(inst: Instance, d: nat, p: nat, h: nat)
    requires inst.Valid() && d < inst.nbDays - 1 && inst.IsHotel(p) && EndChoice(inst, d, p, 0.0, h)
    ensures InReach(inst, d, p, 0.0, h)
  {
    assert inst.D(p, p) == 0.0 && inst.DayMaxDist(d) >= 0.0;
    assert InReach(inst, d, p, 0.0, p);
  }

  lemma CloseTrip(inst: Instance, d: nat, steps: seq<Step>, h: nat)
    requires inst.Valid() && d < inst.nbDays && Trip(inst, d, steps) && inst.IsHotel(h)
    requires EndChoice(inst, d, steps[|steps| - 1].pointId, steps[|steps| - 1].departure, h)
    ensures var last := steps[|steps| - 1];
            var at := last.departure + inst.D(last.pointId, h);
            var all := steps + [Step(h, at, 0.0, at, inst.D(last.pointId, h))];
            && GreedyDay(inst, d, Ids(all))
            && all == Timetable(inst, Ids(all))
            && Ids(all) == Ids(steps) + [h]
            && at == Finish(inst, Ids(all))
  {
    hide CanReturn, EndChoice, InReach, Instance.Valid, Arrive, WindowsTo, Timetable;
    var pts := Ids(steps);
    var n := |pts|;
    var last := steps[n - 1];
    var at := last.departure + inst.D(last.pointId, h);
    var q := pts + [h];
    TripMeans(inst, d, steps);
    TimetableSnoc(inst, pts, h);
    assert Ids(steps + [Step(h, at, 0.0, at, inst.D(last.pointId, h))]) == q;
    WindowsPrefix(inst, pts, h, n);
    assert WindowAt(inst, q, n);
    StopAt(inst, q, n);
    WindowsToAll(inst, q, n + 1);
    ReachMeans(inst, d, last.pointId, last.departure, h);
    if n > 1 {
      ReturnReached(inst, d, last.pointId, last.departure, h);
    } else {
      Validator.FirstStop(inst, pts);
      if d < inst.nbDays - 1 {
        StayReached(inst, d, last.pointId, h);
      }
    }
  }

  lemma ReachMeans(inst: Instance, d: nat, p: nat, departure: real, h: nat)
    ensures InReach(inst, d, p, departure, h) <==> departure + inst.D(p, h) <= inst.DayMaxDist(d)
    ensures d == inst.nbDays - 1 && EndChoice(inst, d, p, departure, h) ==> h == inst.endHotel
  {
  }

  // ----- Building a day and the whole trip -----

  // The flags and the counts after the stops of the day so far.
  ghost predicate Flagged(inst: Instance, flags: seq<bool>, before: multiset<nat>, pts: seq<nat>) {
    && FlagsTrue(inst, flags, before + SitesOf(inst, pts))
    && forall u: nat :: (before + SitesOf(inst, pts))[u] <= 1
  }

  lemma FlaggedStart(inst: Instance, flags: seq<bool>, before: multiset<nat>, start: nat)
    requires inst.IsHotel(start) && FlagsTrue(inst, flags, before) && forall u: nat :: before[u] <= 1
    ensures Flagged(inst, flags, before, [start])
  {
    assert [start][..0] == [];
    assert SitesOf(inst, [start]) == multiset{};
    assert before + multiset{} == before;
  }

  lemma FlaggedStop(inst: Instance, flags: seq<bool>, before: multiset<nat>, pts: seq<nat>, p: nat)
    requires Flagged(inst, flags, before, pts)
    requires inst.IsSite(p) ==> p < |flags| && !flags[p]
    ensures inst.IsSite(p) ==> Flagged(inst, flags[p := true], before, pts + [p])
    ensures !inst.IsSite(p) ==> Flagged(inst, flags, before, pts + [p])
  {
    var q := pts + [p];
    assert q[..|pts|] == pts;
    var was, now := before + SitesOf(inst, pts), before + SitesOf(inst, q);
    assert now == if inst.IsSite(p) then was + multiset{p} else was;
  }

  ghost function Unflagged(flags: seq<bool>): set<nat> {
    set u: nat | u < |flags| && !flags[u]
  }

  lemma UnflaggedShrinks(flags: seq<bool>, p: nat)
    requires p < |flags| && !flags[p]
    ensures Unflagged(flags[p := true]) < Unflagged(flags)
  {
    assert p in Unflagged(flags) && p !in Unflagged(flags[p := true]);
  }

  lemma ChosenEligible(inst: Instance, mode: int, d: nat, from: nat, departure: real, visited: seq<bool>,
                       rclSize: int, draw: nat, c: Candidate)
    requires ChosenFrom(AllCandidates(inst, mode, d, from, departure, visited), rclSize, draw, c)
    ensures Eligible(inst, d, from, departure, visited, c.id)
    ensures inst.IsSite(c.id) && c.id < |visited| && !visited[c.id]
    ensures c == CandidateAt(inst, mode, from, departure, c.id)
  {
    CandidatesMean(inst, mode, d, from, departure, visited, |inst.points|);
    assert c in AllCandidates(inst, mode, d, from, departure, visited);
  }

  // ----- Every stop was one of the best at its time -----

  // How to build: the size of the choice, the ranking, and the random number for every
  // stop of every day.
  datatype Way = Way(rclSize: int, mode: int, rng: (nat, nat) -> nat)

  // The flags after the first n steps of a day, of which the first is the start hotel.
  ghost function FlagsAfter(flags: seq<bool>, steps: seq<Step>, n: nat): (f: seq<bool>)
    requires n <= |steps|
    ensures |f| == |flags|
  {
    if n <= 1 then flags
    else
      var before := FlagsAfter(flags, steps, n - 1);
      if steps[n - 1].pointId < |flags| then before[steps[n - 1].pointId := true] else before
  }

  // Stop k of day d was chosen by the random number drawn for it.
  ghost predicate ChoiceAt(inst: Instance, how: Way, d: nat, flags: seq<bool>, steps: seq<Step>, k: nat)
    requires 0 < k < |steps|
  {
    var last := steps[k - 1];
    && inst.IsPoint(steps[k].pointId)
    && ChosenFrom(AllCandidates(inst, how.mode, d, last.pointId, last.departure, FlagsAfter(flags, steps, k)),
                  how.rclSize, how.rng(d, k),
                  CandidateAt(inst, how.mode, last.pointId, last.departure, steps[k].pointId))
  }

  ghost predicate Choices(inst: Instance, how: Way, d: nat, flags: seq<bool>, steps: seq<Step>, n: nat)
    requires n <= |steps|
  {
    forall k :: 0 < k < n ==> ChoiceAt(inst, how, d, flags, steps, k)
  }

  lemma ChoicesNone(inst: Instance, how: Way, d: nat, flags: seq<bool>, steps: seq<Step>)
    requires |steps| == 1
    ensures Choices(inst, how, d, flags, steps, 1) && FlagsAfter(flags, steps, 1) == flags
  {
  }

  lemma {:induction false} FlagsPrefix(flags: seq<bool>, steps: seq<Step>, next: Step, n: nat)
    requires n <= |steps|
    ensures FlagsAfter(flags, steps + [next], n) == FlagsAfter(flags, steps, n)
  {
    if n > 1 {
      FlagsPrefix(flags, steps, next, n - 1);
    }
  }

  lemma ChoicesPrefix(inst: Instance, how: Way, d: nat, flags: seq<bool>, steps: seq<Step>,
                      next: Step, n: nat)
    requires n <= |steps| && Choices(inst, how, d, flags, steps, n)
    ensures Choices(inst, how, d, flags, steps + [next], n)
  {
    hide AllCandidates, ChosenFrom, CandidateAt, FlagsAfter;
    forall k | 0 < k < n
      ensures ChoiceAt(inst, how, d, flags, steps + [next], k)
    {
      assert ChoiceAt(inst, how, d, flags, steps, k);
      FlagsPrefix(flags, steps, next, k);
    }
  }

  lemma ChoicesNext(inst: Instance, how: Way, d: nat, flags: seq<bool>, steps: seq<Step>,
                    c: Candidate, now: seq<bool>)
    requires steps != [] && Choices(inst, how, d, flags, steps, |steps|)
    requires now == FlagsAfter(flags, steps, |steps|)
    requires var last := steps[|steps| - 1];
             && ChosenFrom(AllCandidates(inst, how.mode, d, last.pointId, last.departure, now), how.rclSize,
                           how.rng(d, |steps|), c)
             && inst.IsPoint(c.id) && c == CandidateAt(inst, how.mode, last.pointId, last.departure, c.id)
             && c.id < |now|
    ensures Choices(inst, how, d, flags, steps + [StepOf(c)], |steps| + 1)
    ensures FlagsAfter(flags, steps + [StepOf(c)], |steps| + 1) == now[c.id := true]
  {
    hide AllCandidates, ChosenFrom, CandidateAt;
    ChoicesPrefix(inst, how, d, flags, steps, StepOf(c), |steps|);
    FlagsPrefix(flags, steps, StepOf(c), |steps|);
  }

  // Every stop between the hotels was one of the best at its time, nothing could be added
  // to the last of them, and the hotel at the end is the one to choose.
  ghost predicate DayChosen(inst: Instance, how: Way, d: nat, flags: seq<bool>, steps: seq<Step>, after: seq<bool>) {
    && |steps| >= 2
    && Choices(inst, how, d, flags, steps, |steps| - 1)
    && after == FlagsAfter(flags, steps, |steps| - 1)
    && var last := steps[|steps| - 2];
       && Exhausted(inst, d, last.pointId, last.departure, after)
       && EndChoice(inst, d, last.pointId, last.departure, steps[|steps| - 1].pointId)
  }

  lemma DayIsChosen(inst: Instance, how: Way, d: nat, flags: seq<bool>, steps: seq<Step>, after: seq<bool>, end: Step)
    requires steps != [] && Choices(inst, how, d, flags, steps, |steps|) && after == FlagsAfter(flags, steps, |steps|)
    requires var last := steps[|steps| - 1];
             && Exhausted(inst, d, last.pointId, last.departure, after)
             && EndChoice(inst, d, last.pointId, last.departure, end.pointId)
    ensures DayChosen(inst, how, d, flags, steps + [end], after)
  {
    hide Choices, FlagsAfter, Exhausted, EndChoice;
    ChoicesPrefix(inst, how, d, flags, steps, end, |steps|);
    FlagsPrefix(flags, steps, end, |steps|);
  }

  method Summed(steps: seq<Step>) returns (distTotal: real)
    ensures distTotal == CachedLen(steps, |steps|)
  {
    distTotal := 0.0;
    var k := 0;
    while k < |steps|
      invariant 0 <= k <= |steps| && distTotal == CachedLen(steps, k)
    {
      distTotal := distTotal + steps[k].distFromPrev;
      k := k + 1;
    }
  }

  // The start hotel, then one site after the other until none can be added.
  method VisitSites(inst: Instance, how: Way, d: nat, start: nat, visited: array<bool>, ghost before: multiset<nat>)
    returns (steps: seq<Step>)
    requires inst.Valid() && d < inst.nbDays && inst.IsHotel(start)
    requires FlagsTrue(inst, visited[..], before) && forall u: nat :: before[u] <= 1
    requires visited.Length == |inst.points|
    modifies visited
    ensures Trip(inst, d, steps) && steps != [] && steps[0].pointId == start
    ensures Choices(inst, how, d, old(visited[..]), steps, |steps|)
    ensures visited[..] == FlagsAfter(old(visited[..]), steps, |steps|)
    ensures Flagged(inst, visited[..], before, Ids(steps))
    ensures var last := steps[|steps| - 1]; Exhausted(inst, d, last.pointId, last.departure, visited[..])
  {
    hide Trip, Flagged, Exhausted, AllCandidates, Choices, FlagsAfter, ChosenFrom, Eligible, CanReturn, Ratio,
         Timetable, Unflagged, Instance.Valid, FlagsTrue, CandidateAt;
    steps := [Step(start, 0.0, 0.0, 0.0, 0.0)];
    TripStart(inst, d, start);
    assert Ids(steps) == [start];
    FlaggedStart(inst, visited[..], before, start);
    ghost var flags0 := visited[..];
    ChoicesNone(inst, how, d, flags0, steps);
    while true
      invariant Trip(inst, d, steps) && steps != [] && steps[0].pointId == start
      invariant Choices(inst, how, d, flags0, steps, |steps|)
      invariant visited[..] == FlagsAfter(flags0, steps, |steps|)
      invariant Flagged(inst, visited[..], before, Ids(steps))
      invariant visited.Length == |inst.points|
      decreases Unflagged(visited[..])
    {
      var last := steps[|steps| - 1];
      TripMeans(inst, d, steps);
      var found, chosen := Choose(inst, how.rclSize, how.mode, d, last.pointId, last.departure, visited,
                                  how.rng(d, |steps|));
      if !found {
        NothingEligible(inst, how.mode, d, last.pointId, last.departure, visited[..]);
        return;
      }
      ghost var flags := visited[..];
      ChosenEligible(inst, how.mode, d, last.pointId, last.departure, flags, how.rclSize, how.rng(d, |steps|), chosen);
      ChoicesNext(inst, how, d, flags0, steps, chosen, flags);
      TripStep(inst, how.mode, d, steps, flags, chosen);
      FlaggedStop(inst, flags, before, Ids(steps), chosen.id);
      UnflaggedShrinks(flags, chosen.id);
      assert Ids(steps + [StepOf(chosen)]) == Ids(steps) + [chosen.id];
      steps := steps + [Step(chosen.id, chosen.arrival, chosen.wait, chosen.departure, chosen.dist)];
      visited[chosen.id] := true;
      assert visited[..] == flags[chosen.id := true];
    }
  }

  method BuildDay(inst: Instance, how: Way, d: nat, start: nat, visited: array<bool>, ghost before: multiset<nat>)
    returns (day: DayTour)
    requires inst.Valid() && d < inst.nbDays && inst.IsHotel(start)
    requires FlagsTrue(inst, visited[..], before) && forall u: nat :: before[u] <= 1
    requires visited.Length == |inst.points|
    modifies visited
    ensures GreedyDay(inst, d, Ids(day.steps)) && First(Ids(day.steps)) == start
    ensures day == Validator.Recomputed(inst, Ids(day.steps))
    ensures Flagged(inst, visited[..], before, Ids(day.steps))
    ensures DayChosen(inst, how, d, old(visited[..]), day.steps, visited[..])
  {
    hide Trip, Flagged, Exhausted, Choices, FlagsAfter, GreedyDay, EndChoice, Timetable, PathLen, Finish,
         Instance.Valid, FlagsTrue, DayChosen, CachedLen, TrueLegs;
    ghost var flags := visited[..];
    var steps := VisitSites(inst, how, d, start, visited, before);
    var last := steps[|steps| - 1];
    TripMeans(inst, d, steps);
    var endHotelID := ChooseEnd(inst, d, last);
    CloseTrip(inst, d, steps, endHotelID);
    FlaggedStop(inst, visited[..], before, Ids(steps), endHotelID);
    TableAt(inst, last.pointId, endHotelID);
    var distToEnd := inst.dist[last.pointId][endHotelID];
    var end := Step(endHotelID, last.departure + distToEnd, 0.0, last.departure + distToEnd, distToEnd);
    DayIsChosen(inst, how, d, flags, steps, visited[..], end);
    steps := steps + [end];
    var distTotal := Summed(steps);
    TimetableTrueLegs(inst, Ids(steps));
    TrueLegsAddUp(inst, steps, |steps| - 1);
    WholePath(inst, Ids(steps));
    day := DayTour(steps, distTotal, steps[|steps| - 1].arrival);
  }

  lemma WholePath(inst: Instance, pts: seq<nat>)
    requires pts != []
    ensures PathLen(inst, pts) == LenTo(inst, pts, |pts| - 1)
  {
  }

  lemma TableAt(inst: Instance, i: nat, j: nat)
    requires inst.Valid() && inst.IsPoint(i) && inst.IsHotel(j)
    ensures i < |inst.dist| && j < |inst.dist[i]| && !inst.IsSite(j)
  {
  }

  // No site can be added after this stop.
  ghost predicate Exhausted(inst: Instance, d: nat, from: nat, departure: real, visited: seq<bool>) {
    forall i: nat :: !Eligible(inst, d, from, departure, visited, i)
  }

  lemma NothingEligible(inst: Instance, mode: int, d: nat, from: nat, departure: real, visited: seq<bool>)
    requires AllCandidates(inst, mode, d, from, departure, visited) == []
    ensures Exhausted(inst, d, from, departure, visited)
  {
    CandidatesMean(inst, mode, d, from, departure, visited, |inst.points|);
  }

  // ----- The whole trip -----

  // The first days of the trip, ending at current.
  ghost predicate Partial(inst: Instance, days: seq<DayTour>, current: nat) {
    && |days| <= inst.nbDays
    && inst.IsHotel(current)
    && (days == [] ==> current == inst.startHotel)
    && (days != [] ==> First(TourOf(days)[0]) == inst.startHotel && Last(TourOf(days)[|days| - 1]) == current)
    && (forall e :: 0 <= e < |days| ==> BuiltDay(inst, e, days[e]))
    && (forall e: nat :: ChainedAt(TourOf(days), e))
  }

  ghost predicate BuiltDay(inst: Instance, d: nat, day: DayTour) {
    GreedyDay(inst, d, Ids(day.steps)) && day == Validator.Recomputed(inst, Ids(day.steps))
  }

  lemma {:induction false} SitesBeforeSnoc(inst: Instance, tour: Tour, pts: seq<nat>, n: nat)
    requires n <= |tour|
    ensures SitesBefore(inst, tour + [pts], n) == SitesBefore(inst, tour, n)
  {
    if n > 0 {
      SitesBeforeSnoc(inst, tour, pts, n - 1);
    }
  }

  lemma BuiltStops(inst: Instance, d: nat, day: DayTour)
    requires BuiltDay(inst, d, day)
    ensures Ids(day.steps) != [] && inst.IsHotel(Last(Ids(day.steps)))
  {
  }

  lemma PartialNext(inst: Instance, days: seq<DayTour>, current: nat, day: DayTour)
    requires Partial(inst, days, current) && |days| < inst.nbDays
    requires BuiltDay(inst, |days|, day) && First(Ids(day.steps)) == current
    ensures Partial(inst, days + [day], Last(Ids(day.steps)))
    ensures TourOf(days + [day]) == TourOf(days) + [Ids(day.steps)]
    ensures AllSites(inst, TourOf(days + [day])) == AllSites(inst, TourOf(days)) + SitesOf(inst, Ids(day.steps))
  {
    hide BuiltDay, SitesOf;
    var pts := Ids(day.steps);
    var was, now := TourOf(days), TourOf(days + [day]);
    assert now == was + [pts];
    BuiltStops(inst, |days|, day);
    SitesBeforeSnoc(inst, was, pts, |was|);
    forall e: nat
      ensures ChainedAt(now, e)
    {
      assert ChainedAt(was, e);
      assert e < |was| ==> now[e] == was[e];
    }
  }

  lemma FlaggedMeans(inst: Instance, flags: seq<bool>, before: multiset<nat>, pts: seq<nat>)
    requires Flagged(inst, flags, before, pts)
    ensures FlagsTrue(inst, flags, before + SitesOf(inst, pts))
    ensures forall u: nat :: (before + SitesOf(inst, pts))[u] <= 1
  {
  }

  // The greedy promise for the finished trip.
  ghost predicate GreedyTrip(inst: Instance, days: seq<DayTour>) {
    && WellFormed(inst, TourOf(days))
    && TrueLengths(inst, days)
    && AllTrueLegs(inst, days)
    && forall e :: 0 <= e < |days| ==> BuiltDay(inst, e, days[e])
  }

  lemma TripComplete(inst: Instance, days: seq<DayTour>, current: nat)
    requires inst.Valid() && Partial(inst, days, current) && |days| == inst.nbDays
    requires NoRepeat(inst, TourOf(days))
    ensures GreedyTrip(inst, days)
  {
    hide Feasible, SitesOf, AllSites, Timetable, PathLen, Finish;
    var tour := TourOf(days);
    forall e | 0 <= e < |days|
      ensures DayShape(inst, tour[e])
      ensures TrueLegs(inst, days[e].steps) && days[e].distTotal == PathLen(inst, Ids(days[e].steps))
    {
      assert BuiltDay(inst, e, days[e]);
      TimetableTrueLegs(inst, Ids(days[e].steps));
    }
    assert BuiltDay(inst, |days| - 1, days[|days| - 1]);
  }

  // A greedy solution is accepted exactly when the last day, should it visit nothing,
  // is short enough; every other day is always fine.
  lemma GreedyAccepted(inst: Instance, days: seq<DayTour>)
    requires inst.Valid() && GreedyTrip(inst, days)
    ensures var tour := TourOf(days);
            && (Validator.Accepted(inst, tour) <==>
                  forall d :: 0 <= d < |tour| && |tour[d]| == 2 ==>
                    inst.D(tour[d][0], tour[d][1]) <= inst.DayMaxDist(d))
            && (Validator.Accepted(inst, tour) <==>
                  (|tour[|tour| - 1]| == 2 ==>
                     inst.D(tour[|tour| - 1][0], tour[|tour| - 1][1]) <= inst.DayMaxDist(|tour| - 1)))
  {
    hide Feasible, NoRepeat, Instance.Valid;
    var tour := TourOf(days);
    Validator.AcceptedMeansFeasible(inst, tour);
    forall d | 0 <= d < |tour|
      ensures GreedyDay(inst, d, tour[d])
    {
      assert BuiltDay(inst, d, days[d]);
    }
    var n := |tour| - 1;
    assert GreedyDay(inst, n, tour[n]);
    if |tour[n]| == 2 ==> inst.D(tour[n][0], tour[n][1]) <= inst.DayMaxDist(n) {
      forall d | 0 <= d < |tour|
        ensures Feasible(inst, d, tour[d])
      {
        assert GreedyDay(inst, d, tour[d]);
      }
    } else {
      assert !Feasible(inst, n, tour[n]);
    }
  }

  // The flags before each day and after the last one; at first no site is visited.
  ghost predicate TripChosen(inst: Instance, how: Way, days: seq<DayTour>, flags: seq<seq<bool>>) {
    && |flags| == |days| + 1
    && |flags[0]| == |inst.points| && (forall u :: 0 <= u < |flags[0]| ==> !flags[0][u])
    && forall d :: 0 <= d < |days| ==> DayChosen(inst, how, d, flags[d], days[d].steps, flags[d + 1])
  }

  ghost predicate BuiltThisWay(inst: Instance, how: Way, days: seq<DayTour>) {
    exists flags :: TripChosen(inst, how, days, flags)
  }

  lemma TripChosenNext(inst: Instance, how: Way, days: seq<DayTour>, flags: seq<seq<bool>>, day: DayTour,
                       after: seq<bool>)
    requires TripChosen(inst, how, days, flags)
    requires DayChosen(inst, how, |days|, flags[|days|], day.steps, after)
    ensures TripChosen(inst, how, days + [day], flags + [after])
  {
    hide DayChosen;
  }

  lemma TripChosenNone(inst: Instance, how: Way, flags: seq<bool>)
    requires |flags| == |inst.points| && forall u :: 0 <= u < |flags| ==> !flags[u]
    ensures TripChosen(inst, how, [], [flags])
  {
  }

  method SolveGreedy(inst: Instance, how: Way) returns (sol: Solution)
    requires inst.Valid()
    ensures fresh(sol) && sol.inst == inst
    ensures sol.Valid() && GreedyTrip(inst, sol.days) && BuiltThisWay(inst, how, sol.days)
    ensures sol.TrueSteps() && sol.TrueTotalDist()
  {
    hide Partial, BuiltDay, Flagged, SitesOf, AllSites, SitesBefore, FlagsTrue, Worth, WellFormed, Instance.Metric,
         Instance.Sane, GreedyDay, DayChosen, TripChosen;
    sol := new Solution(inst);
    var visited := new bool[|inst.points|](_ => false);
    var currentLocationID := inst.startHotel;
    PartialNone(inst, visited[..]);
    ghost var flags := [visited[..]];
    TripChosenNone(inst, how, visited[..]);
    var d := 0;
    while d < inst.nbDays
      invariant 0 <= d == |sol.days| <= inst.nbDays
      invariant fresh(sol) && fresh(visited) && sol.inst == inst && visited.Length == |inst.points|
      invariant Partial(inst, sol.days, currentLocationID)
      invariant FlagsTrue(inst, visited[..], AllSites(inst, sol.Tour()))
      invariant NoRepeat(inst, sol.Tour())
      invariant TripChosen(inst, how, sol.days, flags) && |flags| == d + 1 && flags[d] == visited[..]
    {
      ghost var before := AllSites(inst, sol.Tour());
      PartialMeans(inst, sol.days, currentLocationID);
      var day := BuildDay(inst, how, d, currentLocationID, visited, before);
      TripChosenNext(inst, how, sol.days, flags, day, visited[..]);
      flags := flags + [visited[..]];
      FlaggedMeans(inst, visited[..], before, Ids(day.steps));
      BuiltMeans(inst, d, day);
      PartialNext(inst, sol.days, currentLocationID, day);
      sol.days := sol.days + [day];
      currentLocationID := day.steps[|day.steps| - 1].pointId;
      d := d + 1;
    }
    TripComplete(inst, sol.days, currentLocationID);
    HotelSwap.TypedDays(inst, sol.days);
    sol.EvaluateScore();
  }

  lemma PartialNone(inst: Instance, flags: seq<bool>)
    requires inst.Valid() && |flags| == |inst.points| && forall u :: 0 <= u < |flags| ==> !flags[u]
    ensures Partial(inst, [], inst.startHotel) && NoRepeat(inst, TourOf([]))
    ensures FlagsTrue(inst, flags, AllSites(inst, TourOf([])))
  {
    assert AllSites(inst, TourOf([])) == multiset{};
  }

  lemma PartialMeans(inst: Instance, days: seq<DayTour>, current: nat)
    requires Partial(inst, days, current)
    ensures inst.IsHotel(current)
  {
  }

  lemma BuiltMeans(inst: Instance, d: nat, day: DayTour)
    requires GreedyDay(inst, d, Ids(day.steps)) && day == Validator.Recomputed(inst, Ids(day.steps))
    ensures BuiltDay(inst, d, day) && day.steps != []
    ensures Last(Ids(day.steps)) == day.steps[|day.steps| - 1].pointId
  {
  }
}
