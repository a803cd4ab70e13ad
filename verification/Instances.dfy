// The problem data of models.go: points, budgets and the distance table.
// Distances, times and scores are real numbers.

module Instances {

  datatype NodeType = Hotel | Site

  datatype Point = Point(
    id: nat,
    kind: NodeType,
    score: real,
    openTime: real,
    closeTime: real,
    serviceTime: real)

  datatype Instance = Instance(
    nbDays: nat,
    maxDist: real,
    maxDistPerDay: seq<real>,
    points: seq<Point>,
    hotelIds: seq<nat>,
    siteIds: seq<nat>,
    dist: seq<seq<real>>,
    startHotel: nat,
    endHotel: nat)
  {
    predicate IsPoint(p: nat) {
      p < |points|
    }

    predicate IsHotel(p: nat) {
      IsPoint(p) && points[p].kind.Hotel?
    }

    predicate IsSite(p: nat) {
      IsPoint(p) && points[p].kind.Site?
    }

    // Distance between two points; 0 outside the table, where no program ever looks.
    function D(i: nat, j: nat): real {
      if i < |dist| && j < |dist[i]| then dist[i][j] else 0.0
    }

    function Score(p: nat): real {
      if IsSite(p) then points[p].score else 0.0
    }

    function DayMaxDist(day: nat): real {
      if day < |maxDistPerDay| then maxDistPerDay[day] else maxDist
    }

    // The metric axioms, one predicate per axiom so that each use names its instance.

    predicate SymmetricAt(i: nat, j: nat) {
      D(i, j) == D(j, i) >= 0.0
    }

    predicate TriangleAt(i: nat, j: nat, k: nat) {
      D(i, k) <= D(i, j) + D(j, k)
    }

    ghost predicate Metric() {
      && (forall i :: IsPoint(i) ==> D(i, i) == 0.0)
      && (forall i, j :: IsPoint(i) && IsPoint(j) ==> SymmetricAt(i, j))
      && (forall i, j, k :: IsPoint(i) && IsPoint(j) && IsPoint(k) ==> TriangleAt(i, j, k))
    }

    ghost predicate WellTyped() {
      && |dist| == |points|
      && (forall i :: 0 <= i < |dist| ==> |dist[i]| == |points|)
      && (forall p: nat :: IsPoint(p) ==> points[p].id == p)
      && (forall h :: h in hotelIds <==> IsHotel(h))
      && (forall s :: s in siteIds <==> IsSite(s))
      && (forall i, j :: 0 <= i < j < |siteIds| ==> siteIds[i] != siteIds[j])
      && IsHotel(startHotel)
      && IsHotel(endHotel)
      && nbDays >= 1
    }

    ghost predicate Sane() {
      && (forall p: nat :: IsPoint(p) ==>
            && points[p].score >= 0.0
            && points[p].serviceTime >= 0.0
            && points[p].openTime <= points[p].closeTime)
      && (forall d: nat :: d < nbDays ==> DayMaxDist(d) >= 0.0)
    }

    ghost predicate Valid() {
      WellTyped() && Metric() && Sane()
    }

    ghost predicate ArePoints(pts: seq<nat>) {
      forall k :: 0 <= k < |pts| ==> IsPoint(pts[k])
    }
  }
}
