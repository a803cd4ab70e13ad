// The distance table of models.go, computed from coordinates: where the metric axioms
// that the search relies on come from.

module Distances {
  import opened Instances

  datatype Coord = Coord(x: real, y: real)

  function Squared(p: Coord, q: Coord): real {
    (p.x - q.x) * (p.x - q.x) + (p.y - q.y) * (p.y - q.y)
  }

  ghost predicate IsRoot(d: real, s: real) {
    d >= 0.0 && d * d == s
  }

  lemma SquareGrows(x: real, y: real)
    requires x > y >= 0.0
    ensures x * x > y * y
  {
    PositiveProduct(x - y, x + y);
    assert x * x - y * y == (x - y) * (x + y);
  }

  lemma PositiveProduct(a: real, b: real)
    requires a > 0.0 && b > 0.0
    ensures a * b > 0.0
  {
  }

  lemma SquareOrder(x: real, y: real)
    requires y >= 0.0 && x * x <= y * y
    ensures x <= y
  {
    if x > y {
      SquareGrows(x, y);
    }
  }

  lemma CauchySchwarz(ux: real, uy: real, vx: real, vy: real)
    ensures (ux * vx + uy * vy) * (ux * vx + uy * vy) <= (ux * ux + uy * uy) * (vx * vx + vy * vy)
  {
    var w := ux * vy - uy * vx;
    assert w * w >= 0.0;
    Lagrange(ux, uy, vx, vy);
  }

  lemma Lagrange(a: real, b: real, c: real, d: real)
    ensures (a * a + b * b) * (c * c + d * d) - (a * c + b * d) * (a * c + b * d) == (a * d - b * c) * (a * d - b * c)
  {
  }

  lemma ProductSquare(a: real, b: real)
    ensures (a * b) * (a * b) == (a * a) * (b * b)
  {
  }

  lemma DotBound(ux: real, uy: real, vx: real, vy: real, a: real, b: real)
    requires IsRoot(a, ux * ux + uy * uy) && IsRoot(b, vx * vx + vy * vy)
    ensures ux * vx + uy * vy <= a * b
  {
    CauchySchwarz(ux, uy, vx, vy);
    ProductSquare(a, b);
    NotNegativeProduct(a, b);
    SquareOrder(ux * vx + uy * vy, a * b);
  }

  lemma NotNegativeProduct(a: real, b: real)
    requires a >= 0.0 && b >= 0.0
    ensures a * b >= 0.0
  {
  }

  lemma SquareOfSum(a: real, b: real)
    ensures (a + b) * (a + b) == a * a + b * b + 2.0 * (a * b)
  {
  }

  lemma Triangle(p: Coord, q: Coord, r: Coord, a: real, b: real, c: real)
    requires IsRoot(a, Squared(p, q)) && IsRoot(b, Squared(q, r)) && IsRoot(c, Squared(p, r))
    ensures c <= a + b
  {
    var ux, uy, vx, vy := p.x - q.x, p.y - q.y, q.x - r.x, q.y - r.y;
    DotBound(ux, uy, vx, vy, a, b);
    SumSquare(ux, uy, vx, vy);
    SquareOfSum(a, b);
    assert p.x - r.x == ux + vx && p.y - r.y == uy + vy;
    SquareOrder(c, a + b);
  }

  lemma SumSquare(ux: real, uy: real, vx: real, vy: real)
    ensures (ux + vx) * (ux + vx) + (uy + vy) * (uy + vy)
         == (ux * ux + uy * uy) + (vx * vx + vy * vy) + 2.0 * (ux * vx + uy * vy)
  {
  }

  lemma RootUnique(d: real, e: real, s: real)
    requires IsRoot(d, s) && IsRoot(e, s)
    ensures d == e
  {
    SquareOrder(d, e);
    SquareOrder(e, d);
  }

  lemma SquaredSymmetric(p: Coord, q: Coord)
    ensures Squared(p, q) == Squared(q, p) >= 0.0
  {
  }

  ghost predicate EntryAt(coords: seq<Coord>, dist: seq<seq<real>>, i: nat, j: nat)
    requires i < |dist| == |coords| && j < |dist[i]| == |coords|
  {
    IsRoot(dist[i][j], Squared(coords[i], coords[j]))
  }

  ghost predicate Square(coords: seq<Coord>, dist: seq<seq<real>>) {
    |dist| == |coords| && forall i :: 0 <= i < |dist| ==> |dist[i]| == |coords|
  }

  // Every entry is the distance of its two points.
  ghost predicate Table(coords: seq<Coord>, dist: seq<seq<real>>) {
    Square(coords, dist) && forall i, j :: 0 <= i < |coords| && 0 <= j < |coords| ==> EntryAt(coords, dist, i, j)
  }

  // Rows before i and columns before i are done, and of row and column i the part up to j.
  ghost predicate Filled(coords: seq<Coord>, dist: seq<seq<real>>, i: nat, j: nat) {
    && Square(coords, dist)
    && (forall a, b :: 0 <= a < |coords| && 0 <= b < |coords| && (a < i || b < i) ==> EntryAt(coords, dist, a, b))
    && (forall b :: i <= b < j && b < |coords| ==> EntryAt(coords, dist, i, b) && EntryAt(coords, dist, b, i))
  }

  function Put(dist: seq<seq<real>>, i: nat, j: nat, d: real): (r: seq<seq<real>>)
    requires i < |dist| && j < |dist[i]|
  {
    dist[i := dist[i][j := d]]
  }

  lemma FillDiagonal(coords: seq<Coord>, dist: seq<seq<real>>, i: nat)
    requires Filled(coords, dist, i, i) && i < |coords|
    ensures Filled(coords, Put(dist, i, i, 0.0), i, i + 1)
  {
    var now := Put(dist, i, i, 0.0);
    assert Square(coords, now);
    forall a, b | 0 <= a < |coords| && 0 <= b < |coords| && (a < i || b < i)
      ensures EntryAt(coords, now, a, b)
    {
      assert EntryAt(coords, dist, a, b);
    }
  }

  lemma FillPair(coords: seq<Coord>, dist: seq<seq<real>>, i: nat, j: nat, d: real)
    requires Filled(coords, dist, i, j) && i < j < |coords| && IsRoot(d, Squared(coords[i], coords[j]))
    ensures Filled(coords, Put(Put(dist, i, j, d), j, i, d), i, j + 1)
  {
    var now := Put(Put(dist, i, j, d), j, i, d);
    assert Square(coords, now);
    SquaredSymmetric(coords[i], coords[j]);
    forall a, b | 0 <= a < |coords| && 0 <= b < |coords| && (a < i || b < i)
      ensures EntryAt(coords, now, a, b)
    {
      assert EntryAt(coords, dist, a, b);
    }
    forall b | i <= b < j + 1 && b < |coords|
      ensures EntryAt(coords, now, i, b) && EntryAt(coords, now, b, i)
    {
      if b < j {
        assert EntryAt(coords, dist, i, b) && EntryAt(coords, dist, b, i);
      }
    }
  }

  // The square root is given; over the reals it is exact.
  method ComputeDistMatrix(coords: seq<Coord>, sqrt: real -> real) returns (dist: seq<seq<real>>)
    requires forall s: real :: s >= 0.0 ==> IsRoot(sqrt(s), s)
    ensures Table(coords, dist)
  {
    hide IsRoot, EntryAt, Squared;
    var n := |coords|;
    dist := seq(n, i => seq(n, j => 0.0));
    var i := 0;
    while i < n
      invariant 0 <= i <= n && Filled(coords, dist, i, i)
    {
      FillDiagonal(coords, dist, i);
      dist := Put(dist, i, i, 0.0);
      var j := i + 1;
      while j < n
        invariant i < j <= n && Filled(coords, dist, i, j)
      {
        SquaredSymmetric(coords[i], coords[j]);
        var d := sqrt(Squared(coords[i], coords[j]));
        FillPair(coords, dist, i, j, d);
        dist := Put(Put(dist, i, j, d), j, i, d);
        j := j + 1;
      }
      i := i + 1;
    }
  }

  lemma TableAt(coords: seq<Coord>, dist: seq<seq<real>>, i: nat, j: nat)
    requires Table(coords, dist) && i < |coords| && j < |coords|
    ensures |dist| == |coords| && |dist[i]| == |coords| && IsRoot(dist[i][j], Squared(coords[i], coords[j]))
  {
    assert EntryAt(coords, dist, i, j);
  }

  // An instance whose table was computed this way satisfies the metric axioms.
  lemma TableIsMetric(inst: Instance, coords: seq<Coord>)
    requires Table(coords, inst.dist) && |inst.points| == |coords|
    ensures inst.Metric()
  {
    hide Table, IsRoot, Squared;
    forall i: nat | inst.IsPoint(i)
      ensures inst.D(i, i) == 0.0
    {
      TableAt(coords, inst.dist, i, i);
      NoDistance(coords[i], inst.D(i, i));
    }
    forall i: nat, j: nat | inst.IsPoint(i) && inst.IsPoint(j)
      ensures inst.SymmetricAt(i, j)
    {
      TableAt(coords, inst.dist, i, j);
      TableAt(coords, inst.dist, j, i);
      SquaredSymmetric(coords[i], coords[j]);
      RootUnique(inst.D(i, j), inst.D(j, i), Squared(coords[i], coords[j]));
      NotNegative(inst.D(i, j), Squared(coords[i], coords[j]));
    }
    forall i: nat, j: nat, k: nat | inst.IsPoint(i) && inst.IsPoint(j) && inst.IsPoint(k)
      ensures inst.TriangleAt(i, j, k)
    {
      TableAt(coords, inst.dist, i, j);
      TableAt(coords, inst.dist, j, k);
      TableAt(coords, inst.dist, i, k);
      Triangle(coords[i], coords[j], coords[k], inst.D(i, j), inst.D(j, k), inst.D(i, k));
    }
  }

  lemma NoDistance(p: Coord, d: real)
    requires IsRoot(d, Squared(p, p))
    ensures d == 0.0
  {
    RootUnique(d, 0.0, 0.0);
  }

  lemma NotNegative(d: real, s: real)
    requires IsRoot(d, s)
    ensures d >= 0.0
  {
  }
}
