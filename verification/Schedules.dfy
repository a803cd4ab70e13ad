// What a day means: the arrival and departure time at every stop, its length, and
// whether it keeps every opening window and the budget of its day.

module Schedules {
  import opened Instances

  // ----- The schedule a list of stops dictates -----

  // When a visit starts: on arrival, or at opening time if that is later.
  function Begin(inst: Instance, p: nat, arrival: real): real {
    if inst.IsSite(p) && arrival < inst.points[p].openTime then inst.points[p].openTime else arrival
  }

  function Leave(inst: Instance, p: nat, arrival: real): real {
    if inst.IsSite(p) then Begin(inst, p, arrival) + inst.points[p].serviceTime else arrival
  }

  function Leg(inst: Instance, pts: seq<nat>, k: nat): real
    requires k < |pts|
  {
    if k == 0 then 0.0 else inst.D(pts[k - 1], pts[k])
  }

  function Arrive(inst: Instance, pts: seq<nat>, k: nat): real
    requires k < |pts|
    decreases k, 0
  {
    if k == 0 then 0.0 else Depart(inst, pts, k - 1) + Leg(inst, pts, k)
  }

  function Depart(inst: Instance, pts: seq<nat>, k: nat): real
    requires k < |pts|
    decreases k, 1
  {
    Leave(inst, pts[k], Arrive(inst, pts, k))
  }

  // Length of the first k legs.
  function LenTo(inst: Instance, pts: seq<nat>, k: nat): real
    requires k < |pts|
  {
    if k == 0 then 0.0 else LenTo(inst, pts, k - 1) + Leg(inst, pts, k)
  }

  function PathLen(inst: Instance, pts: seq<nat>): real {
    if pts == [] then 0.0 else LenTo(inst, pts, |pts| - 1)
  }

  predicate WindowAt(inst: Instance, pts: seq<nat>, k: nat)
    requires k < |pts|
  {
    inst.IsSite(pts[k]) ==> Begin(inst, pts[k], Arrive(inst, pts, k)) <= inst.points[pts[k]].closeTime
  }

  // The time at which the whole day is over.
  function Finish(inst: Instance, pts: seq<nat>): real {
    if pts == [] then 0.0 else Depart(inst, pts, |pts| - 1)
  }

  predicate Feasible(inst: Instance, day: nat, pts: seq<nat>) {
    && (forall k :: 0 <= k < |pts| ==> WindowAt(inst, pts, k))
    && Finish(inst, pts) <= inst.DayMaxDist(day)
  }

  // ----- A feasible day, told from the data alone -----

  // The day starts at time 0, every leg takes the table's distance, every site is served on
  // arrival or, if that is too early, from its opening, without a break and not after its
  // closing, and the day is over within the budget given for it.
  ghost predicate Timeline(inst: Instance, d: nat, pts: seq<nat>, arrive: seq<real>, depart: seq<real>)
    requires inst.ArePoints(pts)
  {
    && |arrive| == |depart| == |pts| > 0
    && arrive[0] == 0.0
    && (forall k :: 0 < k < |pts| ==> arrive[k] == depart[k - 1] + inst.D(pts[k - 1], pts[k]))
    && (forall k :: 0 <= k < |pts| ==> Served(inst.points[pts[k]], arrive[k], depart[k]))
    && depart[|pts| - 1] <= if d < |inst.maxDistPerDay| then inst.maxDistPerDay[d] else inst.maxDist
  }

  ghost predicate Served(p: Point, arrive: real, depart: real) {
    if p.kind.Hotel? then depart == arrive
    else
      var begin := depart - p.serviceTime;
      && arrive <= begin && p.openTime <= begin <= p.closeTime
      && (begin == arrive || begin == p.openTime)
  }

  lemma ArriveDepart(inst: Instance, pts: seq<nat>, k: nat)
    requires k < |pts|
    ensures Depart(inst, pts, k) == Leave(inst, pts[k], Arrive(inst, pts, k))
    ensures Arrive(inst, pts, k) == if k == 0 then 0.0 else Depart(inst, pts, k - 1) + inst.D(pts[k - 1], pts[k])
  {
  }

  lemma ServedOnTime(inst: Instance, pts: seq<nat>, k: nat, arrive: real, depart: real)
    requires k < |pts| && inst.IsPoint(pts[k]) && arrive == Arrive(inst, pts, k)
    ensures Served(inst.points[pts[k]], arrive, depart) <==> depart == Depart(inst, pts, k) && WindowAt(inst, pts, k)
  {
    ArriveDepart(inst, pts, k);
    hide Arrive, Depart;
  }

  lemma ScheduleIsTimeline(inst: Instance, d: nat, pts: seq<nat>) returns (arrive: seq<real>, depart: seq<real>)
    requires inst.ArePoints(pts) && pts != [] && Feasible(inst, d, pts)
    ensures Timeline(inst, d, pts, arrive, depart)
  {
    hide Arrive, Depart, Served;
    arrive := seq(|pts|, k requires 0 <= k < |pts| => Arrive(inst, pts, k));
    depart := seq(|pts|, k requires 0 <= k < |pts| => Depart(inst, pts, k));
    forall k | 0 <= k < |pts|
      ensures k == 0 ==> arrive[k] == 0.0
      ensures k > 0 ==> arrive[k] == depart[k - 1] + inst.D(pts[k - 1], pts[k])
      ensures Served(inst.points[pts[k]], arrive[k], depart[k])
    {
      ArriveDepart(inst, pts, k);
      ServedOnTime(inst, pts, k, arrive[k], depart[k]);
    }
  }

  lemma {:induction false} TimelineIsSchedule(inst: Instance, d: nat, pts: seq<nat>, arrive: seq<real>,
                                              depart: seq<real>, k: nat)
    requires inst.ArePoints(pts) && Timeline(inst, d, pts, arrive, depart) && k < |pts|
    ensures arrive[k] == Arrive(inst, pts, k) && depart[k] == Depart(inst, pts, k) && WindowAt(inst, pts, k)
  {
    hide Arrive, Depart, Served;
    if k > 0 {
      TimelineIsSchedule(inst, d, pts, arrive, depart, k - 1);
    }
    ArriveDepart(inst, pts, k);
    ServedOnTime(inst, pts, k, arrive[k], depart[k]);
  }

  // A day is feasible if and only if there is such a timeline.
  lemma FeasibleIffTimeline(inst: Instance, d: nat, pts: seq<nat>)
    requires inst.ArePoints(pts) && pts != []
    ensures Feasible(inst, d, pts) <==> exists arrive, depart :: Timeline(inst, d, pts, arrive, depart)
  {
    if Feasible(inst, d, pts) {
      var arrive, depart := ScheduleIsTimeline(inst, d, pts);
    }
    if arrive, depart :| Timeline(inst, d, pts, arrive, depart) {
      hide Timeline;
      forall k | 0 <= k < |pts|
        ensures WindowAt(inst, pts, k) && depart[k] == Depart(inst, pts, k)
      {
        TimelineIsSchedule(inst, d, pts, arrive, depart, k);
      }
      TimelineEnds(inst, d, pts, arrive, depart);
    }
  }

  lemma TimelineEnds(inst: Instance, d: nat, pts: seq<nat>, arrive: seq<real>, depart: seq<real>)
    requires inst.ArePoints(pts) && Timeline(inst, d, pts, arrive, depart)
    ensures |depart| == |pts| > 0 && depart[|pts| - 1] <= inst.DayMaxDist(d)
  {
  }

  // ----- Edits of a day -----

  function InsertAt(pts: seq<nat>, pos: nat, u: nat): (r: seq<nat>)
    requires pos <= |pts|
    ensures |r| == |pts| + 1
  {
    pts[..pos] + [u] + pts[pos..]
  }

  function DeleteAt<T>(pts: seq<T>, pos: nat): (r: seq<T>)
    requires pos < |pts|
    ensures |r| == |pts| - 1
  {
    pts[..pos] + pts[pos + 1..]
  }

  // ----- Times only grow along a day -----

  lemma LeaveLater(inst: Instance, p: nat, t: real)
    requires inst.Valid()
    ensures t <= Begin(inst, p, t) <= Leave(inst, p, t)
  {
  }

  lemma LeaveMonotone(inst: Instance, p: nat, s: real, t: real)
    requires s <= t
    ensures Begin(inst, p, s) <= Begin(inst, p, t) && Leave(inst, p, s) <= Leave(inst, p, t)
  {
  }

  lemma LegNonNegative(inst: Instance, pts: seq<nat>, k: nat)
    requires inst.Valid() && inst.ArePoints(pts) && k < |pts|
    ensures Leg(inst, pts, k) >= 0.0
  {
    if k > 0 {
      assert inst.SymmetricAt(pts[k - 1], pts[k]);
    }
  }

  lemma {:induction false} TimesGrow(inst: Instance, pts: seq<nat>, j: nat, k: nat)
    requires inst.Valid() && inst.ArePoints(pts)
    requires j <= k < |pts|
    ensures Arrive(inst, pts, j) <= Depart(inst, pts, j) <= Depart(inst, pts, k)
    ensures j < k ==> Depart(inst, pts, j) <= Arrive(inst, pts, k)
    decreases k
  {
    LeaveLater(inst, pts[j], Arrive(inst, pts, j));
    if j < k {
      TimesGrow(inst, pts, j, k - 1);
      LegNonNegative(inst, pts, k);
      LeaveLater(inst, pts[k], Arrive(inst, pts, k));
    }
  }

  // Distance is a lower bound of time: the fact that makes pruning by distance lossless.
  lemma {:induction false} LengthWithinTime(inst: Instance, pts: seq<nat>, k: nat)
    requires inst.Valid() && inst.ArePoints(pts)
    requires k < |pts|
    ensures 0.0 <= LenTo(inst, pts, k) <= Arrive(inst, pts, k) <= Depart(inst, pts, k)
  {
    LeaveLater(inst, pts[k], Arrive(inst, pts, k));
    if k > 0 {
      LegNonNegative(inst, pts, k);
      LengthWithinTime(inst, pts, k - 1);
    }
  }

  lemma FeasibleWithinBudget(inst: Instance, day: nat, pts: seq<nat>)
    requires inst.Valid() && inst.ArePoints(pts) && Feasible(inst, day, pts)
    ensures PathLen(inst, pts) <= inst.DayMaxDist(day)
  {
    if pts != [] {
      LengthWithinTime(inst, pts, |pts| - 1);
    }
  }

  // ----- Two days that share a beginning or an end -----

  lemma {:induction false} SamePrefix(inst: Instance, pts: seq<nat>, qts: seq<nat>, k: nat)
    requires k < |pts| && k < |qts| && pts[..k + 1] == qts[..k + 1]
    ensures Arrive(inst, pts, k) == Arrive(inst, qts, k)
    ensures Depart(inst, pts, k) == Depart(inst, qts, k)
    ensures LenTo(inst, pts, k) == LenTo(inst, qts, k)
    ensures WindowAt(inst, pts, k) == WindowAt(inst, qts, k)
  {
    assert pts[k] == pts[..k + 1][k] == qts[..k + 1][k] == qts[k];
    if k > 0 {
      assert pts[..k] == pts[..k + 1][..k] == qts[..k + 1][..k] == qts[..k];
      SamePrefix(inst, pts, qts, k - 1);
      assert pts[k - 1] == pts[..k][k - 1] == qts[..k][k - 1] == qts[k - 1];
    }
  }

  // If the rest of the day is the same and starts no later, everything in it is no later.
  lemma {:induction false} SameSuffixNoLater(inst: Instance, pts: seq<nat>, i: nat, qts: seq<nat>, j: nat, m: nat)
    requires i + m < |pts| && j + m < |qts|
    requires pts[i..i + m + 1] == qts[j..j + m + 1]
    requires Arrive(inst, qts, j) <= Arrive(inst, pts, i)
    ensures Arrive(inst, qts, j + m) <= Arrive(inst, pts, i + m)
    ensures Depart(inst, qts, j + m) <= Depart(inst, pts, i + m)
    ensures WindowAt(inst, pts, i + m) ==> WindowAt(inst, qts, j + m)
  {
    assert pts[i + m] == pts[i..i + m + 1][m] == qts[j..j + m + 1][m] == qts[j + m];
    if m > 0 {
      assert pts[i..i + m] == pts[i..i + m + 1][..m] == qts[j..j + m + 1][..m] == qts[j..j + m];
      assert pts[i + m - 1] == pts[i..i + m][m - 1] == qts[j..j + m][m - 1] == qts[j + m - 1];
      SameSuffixNoLater(inst, pts, i, qts, j, m - 1);
    }
    LeaveMonotone(inst, qts[j + m], Arrive(inst, qts, j + m), Arrive(inst, pts, i + m));
  }

  lemma {:induction false} SameSuffixLength(inst: Instance, pts: seq<nat>, i: nat, qts: seq<nat>, j: nat, m: nat)
    requires i + m < |pts| && j + m < |qts|
    requires pts[i..i + m + 1] == qts[j..j + m + 1]
    ensures LenTo(inst, pts, i + m) - LenTo(inst, pts, i) == LenTo(inst, qts, j + m) - LenTo(inst, qts, j)
  {
    if m > 0 {
      assert pts[i..i + m] == pts[i..i + m + 1][..m] == qts[j..j + m + 1][..m] == qts[j..j + m];
      assert pts[i + m] == pts[i..i + m + 1][m] == qts[j..j + m + 1][m] == qts[j + m];
      assert pts[i + m - 1] == pts[i..i + m][m - 1] == qts[j..j + m][m - 1] == qts[j + m - 1];
      SameSuffixLength(inst, pts, i, qts, j, m - 1);
    }
  }

  // ----- Deleting stops -----

  lemma DeleteArrivesNoLater(inst: Instance, pts: seq<nat>, pos: nat)
    requires inst.Valid() && inst.ArePoints(pts)
    requires 0 < pos < |pts| - 1
    ensures Arrive(inst, DeleteAt(pts, pos), pos) <= Arrive(inst, pts, pos + 1)
  {
    var q := DeleteAt(pts, pos);
    assert q[..pos] == pts[..pos];
    SamePrefix(inst, pts, q, pos - 1);
    assert inst.TriangleAt(pts[pos - 1], pts[pos], pts[pos + 1]);
    LeaveLater(inst, pts[pos], Arrive(inst, pts, pos));
  }

  lemma DeleteTail(inst: Instance, pts: seq<nat>, pos: nat, k: nat)
    requires inst.Valid() && inst.ArePoints(pts)
    requires 0 < pos < |pts| - 1 && pos <= k < |pts| - 1
    ensures Depart(inst, DeleteAt(pts, pos), k) <= Depart(inst, pts, k + 1)
    ensures WindowAt(inst, pts, k + 1) ==> WindowAt(inst, DeleteAt(pts, pos), k)
  {
    var q := DeleteAt(pts, pos);
    DeleteArrivesNoLater(inst, pts, pos);
    assert q[pos..] == pts[pos + 1..];
    assert q[pos..k + 1] == q[pos..][..k + 1 - pos] == pts[pos + 1..][..k + 1 - pos] == pts[pos + 1..k + 2];
    hide Instance.Valid, Arrive, Depart, WindowAt;
    SameSuffixNoLater(inst, pts, pos + 1, q, pos, k - pos);
  }

  lemma DeleteWindow(inst: Instance, pts: seq<nat>, pos: nat, k: nat)
    requires inst.Valid() && inst.ArePoints(pts)
    requires 0 < pos < |pts| - 1 && k < |pts| - 1 && WindowAt(inst, pts, k) && WindowAt(inst, pts, k + 1)
    ensures WindowAt(inst, DeleteAt(pts, pos), k)
  {
    if k < pos {
      assert DeleteAt(pts, pos)[..k + 1] == pts[..k + 1];
      SamePrefix(inst, pts, DeleteAt(pts, pos), k);
    } else {
      DeleteTail(inst, pts, pos, k);
    }
  }

  // A feasible day stays feasible, and ends no later, when an inner stop is dropped.
  lemma DeleteFeasible(inst: Instance, day: nat, pts: seq<nat>, pos: nat)
    requires inst.Valid() && inst.ArePoints(pts) && Feasible(inst, day, pts)
    requires 0 < pos < |pts| - 1
    ensures Feasible(inst, day, DeleteAt(pts, pos))
    ensures Finish(inst, DeleteAt(pts, pos)) <= Finish(inst, pts)
  {
    hide Instance.Valid, Arrive, Depart, WindowAt, DeleteAt;
    var q := DeleteAt(pts, pos);
    forall k | 0 <= k < |q|
      ensures WindowAt(inst, q, k)
    {
      assert WindowAt(inst, pts, k) && WindowAt(inst, pts, k + 1);
      DeleteWindow(inst, pts, pos, k);
    }
    DeleteTail(inst, pts, pos, |q| - 1);
  }

  // Straight lines are shortest.
  lemma {:induction false} DirectIsShortest(inst: Instance, pts: seq<nat>, k: nat)
    requires inst.Valid() && inst.ArePoints(pts) && k < |pts|
    ensures inst.D(pts[0], pts[k]) <= LenTo(inst, pts, k)
  {
    if k > 0 {
      DirectIsShortest(inst, pts, k - 1);
      assert inst.TriangleAt(pts[0], pts[k - 1], pts[k]);
    }
  }

  // Dropping every inner stop of a feasible day leaves a feasible day.
  lemma EmptiedFeasible(inst: Instance, day: nat, pts: seq<nat>)
    requires inst.Valid() && inst.ArePoints(pts) && Feasible(inst, day, pts)
    requires |pts| >= 2 && inst.IsHotel(pts[0]) && inst.IsHotel(pts[|pts| - 1])
    ensures Feasible(inst, day, [pts[0], pts[|pts| - 1]])
  {
    var n := |pts| - 1;
    var q := [pts[0], pts[n]];
    DirectIsShortest(inst, pts, n);
    LengthWithinTime(inst, pts, n);
    assert Arrive(inst, q, 0) == Depart(inst, q, 0) == 0.0;
    assert Depart(inst, q, 1) == Arrive(inst, q, 1) == inst.D(pts[0], pts[n]);
  }

  // ----- How an edit changes the length -----

  lemma {:induction false} InsertLength(inst: Instance, pts: seq<nat>, pos: nat, u: nat)
    requires 0 < pos < |pts|
    ensures PathLen(inst, InsertAt(pts, pos, u))
         == PathLen(inst, pts) + (inst.D(pts[pos - 1], u) + inst.D(u, pts[pos]) - inst.D(pts[pos - 1], pts[pos]))
  {
    var q := InsertAt(pts, pos, u);
    assert q[..pos] == pts[..pos];
    SamePrefix(inst, pts, q, pos - 1);
    var m := |pts| - 1 - pos;
    assert pts[pos..pos + m + 1] == q[pos + 1..pos + 1 + m + 1];
    SameSuffixLength(inst, pts, pos, q, pos + 1, m);
    assert LenTo(inst, q, pos + 1) == LenTo(inst, q, pos) + inst.D(u, pts[pos]);
  }

  lemma {:induction false} ReplaceLength(inst: Instance, pts: seq<nat>, pos: nat, u: nat)
    requires 0 < pos < |pts| - 1
    ensures PathLen(inst, pts[pos := u])
         == PathLen(inst, pts) + ((inst.D(pts[pos - 1], u) + inst.D(u, pts[pos + 1]))
                                  - (inst.D(pts[pos - 1], pts[pos]) + inst.D(pts[pos], pts[pos + 1])))
  {
    var q := pts[pos := u];
    assert q[..pos] == pts[..pos];
    SamePrefix(inst, pts, q, pos - 1);
    var m := |pts| - 1 - (pos + 1);
    assert pts[pos + 1..pos + 1 + m + 1] == q[pos + 1..pos + 1 + m + 1];
    SameSuffixLength(inst, pts, pos + 1, q, pos + 1, m);
    assert LenTo(inst, q, pos + 1) == LenTo(inst, q, pos) + inst.D(u, pts[pos + 1]);
    assert LenTo(inst, pts, pos + 1) == LenTo(inst, pts, pos) + inst.D(pts[pos], pts[pos + 1]);
  }
}
