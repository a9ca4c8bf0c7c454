/**
 * The geofence test of the map: an even-odd ray cast from the clicked point
 * towards increasing longitude, over the configured ring of (lng, lat) vertices.
 * Coordinates are exact reals; floating-point rounding is not modelled.
 */
module Geofence {

  /** A ring vertex as configured: (longitude, latitude). */
  type Vertex = (real, real)

  /** Index of the vertex visited just before vertex `i` on a ring of `n` vertices. */
  function Prev(n: nat, i: nat): (j: nat)
    requires i < n
    ensures j < n
  {
    if i == 0 then n - 1 else i - 1
  }

  /** Longitude at which the edge from `a` to `b` meets latitude `lat`. */
  function Intercept(a: Vertex, b: Vertex, lat: real): real
    requires a.1 != b.1
  {
    (a.0 - b.0) * (lat - b.1) / (a.1 - b.1) + b.0
  }

  /** The intercept written with the loop's names: i is the current vertex, j the previous one. */
  lemma InterceptFormula(xi: real, yi: real, xj: real, yj: real, lat: real)
    requires yi != yj
    ensures Intercept((xj, yj), (xi, yi), lat) == (xj - xi) * (lat - yi) / (yj - yi) + xi
  {
  }

  /** Whether the edge lies on both sides of `lat` (half-open: a vertex at `lat` counts as below). */
  predicate Straddles(a: Vertex, b: Vertex, lat: real)
  {
    (b.1 > lat) != (a.1 > lat)
  }

  /**
   * The loop body's test for the edge from `a` (vertex j) to `b` (vertex i).
   * The guard makes the two latitudes differ, so the division is defined.
   */
  predicate Crosses(a: Vertex, b: Vertex, lat: real, lng: real)
  {
    Straddles(a, b, lat) && lng < Intercept(a, b, lat)
  }

  /** Edge `i` of the ring joins the previous vertex to vertex `i`; edge 0 is the wrap-around edge. */
  predicate EdgeCrosses(ring: seq<Vertex>, i: nat, lat: real, lng: real)
    requires i < |ring|
  {
    Crosses(ring[Prev(|ring|, i)], ring[i], lat, lng)
  }

  /** Number of crossing edges among edges 0 .. k-1. */
  function Crossings(ring: seq<Vertex>, k: nat, lat: real, lng: real): nat
    requires k <= |ring|
  {
    if k == 0 then 0
    else Crossings(ring, k - 1, lat, lng) + (if EdgeCrosses(ring, k - 1, lat, lng) then 1 else 0)
  }

  /** Even-odd rule: the point is inside when an odd number of edges cross its ray. */
  predicate Inside(ring: seq<Vertex>, lat: real, lng: real)
  {
    Crossings(ring, |ring|, lat, lng) % 2 == 1
  }

  /**
   * The loop of the source: `i` walks the vertices, `j` trails one behind
   * starting at the last vertex, and a flag flips on each crossing edge.
   */
  method IsPointInPolygon(ring: seq<Vertex>, lat: real, lng: real) returns (inside: bool)
    ensures inside <==> Inside(ring, lat, lng)
    ensures |ring| == 0 ==> !inside
  {
    inside := false;
    var i := 0;
    var j := |ring| - 1;
    while i < |ring|
      invariant 0 <= i <= |ring|
      invariant i < |ring| ==> j == Prev(|ring|, i)
      invariant inside <==> Crossings(ring, i, lat, lng) % 2 == 1
    {
      var xi, yi := ring[i].0, ring[i].1;
      var xj, yj := ring[j].0, ring[j].1;
      var crosses := (yi > lat) != (yj > lat) && lng < (xj - xi) * (lat - yi) / (yj - yi) + xi;
      assert ring[j] == (xj, yj) && ring[i] == (xi, yi);
      if (yi > lat) != (yj > lat) {
        InterceptFormula(xi, yi, xj, yj, lat);
      }
      assert crosses == EdgeCrosses(ring, i, lat, lng);
      assert Crossings(ring, i + 1, lat, lng) == Crossings(ring, i, lat, lng) + (if crosses then 1 else 0);
      if crosses {
        inside := !inside;
      }
      j := i;
      i := i + 1;
    }
  }

  /** No crossing among the first `k` edges means a zero count. */
  lemma {:induction false} NoCrossings(ring: seq<Vertex>, k: nat, lat: real, lng: real)
    requires k <= |ring|
    requires forall i :: 0 <= i < k ==> !EdgeCrosses(ring, i, lat, lng)
    ensures Crossings(ring, k, lat, lng) == 0
    decreases k
  {
    if k > 0 {
      NoCrossings(ring, k - 1, lat, lng);
    }
  }

  /** A point at or north of every vertex is outside: no edge straddles its latitude. */
  lemma NorthOfAllIsOutside(ring: seq<Vertex>, lat: real, lng: real)
    requires forall i :: 0 <= i < |ring| ==> ring[i].1 <= lat
    ensures !Inside(ring, lat, lng)
  {
    NoCrossings(ring, |ring|, lat, lng);
  }

  /** A point strictly south of every vertex is outside. */
  lemma SouthOfAllIsOutside(ring: seq<Vertex>, lat: real, lng: real)
    requires forall i :: 0 <= i < |ring| ==> lat < ring[i].1
    ensures !Inside(ring, lat, lng)
  {
    NoCrossings(ring, |ring|, lat, lng);
  }

  /** A quotient of a numerator lying between zero and the denominator lies in [0, 1]. */
  lemma RatioInUnit(num: real, den: real)
    requires (den > 0.0 && 0.0 <= num <= den) || (den < 0.0 && den <= num <= 0.0)
    ensures 0.0 <= num / den <= 1.0
  {
    var t := num / den;
    assert t * den == num;
  }

  /** Scaling by a factor in [0, 1] stays between zero and the scaled value. */
  lemma ScaleInUnit(d: real, t: real)
    requires 0.0 <= t <= 1.0
    ensures d >= 0.0 ==> 0.0 <= d * t <= d
    ensures d <= 0.0 ==> d <= d * t <= 0.0
  {
    assert d * t - d == d * (t - 1.0);
  }

  /** Where an edge straddles `lat`, its intercept lies between the edge's two longitudes. */
  lemma InterceptBetween(a: Vertex, b: Vertex, lat: real)
    requires Straddles(a, b, lat)
    ensures a.0 <= b.0 ==> a.0 <= Intercept(a, b, lat) <= b.0
    ensures b.0 <= a.0 ==> b.0 <= Intercept(a, b, lat) <= a.0
  {
    var num, den := lat - b.1, a.1 - b.1;
    RatioInUnit(num, den);
    var t := num / den;
    var d := a.0 - b.0;
    assert d * num / den == d * t;
    assert Intercept(a, b, lat) == d * t + b.0;
    ScaleInUnit(d, t);
  }

  /** A point at or east of every vertex is outside: every intercept lies west of it. */
  lemma EastOfAllIsOutside(ring: seq<Vertex>, lat: real, lng: real)
    requires forall i :: 0 <= i < |ring| ==> ring[i].0 <= lng
    ensures !Inside(ring, lat, lng)
  {
    forall i | 0 <= i < |ring|
      ensures !EdgeCrosses(ring, i, lat, lng)
    {
      var a, b := ring[Prev(|ring|, i)], ring[i];
      if Straddles(a, b, lat) {
        InterceptBetween(a, b, lat);
      }
    }
    NoCrossings(ring, |ring|, lat, lng);
  }

  /** Whether vertex `i` lies strictly north of `lat`, the side the loop's test `yi > lat` picks. */
  predicate Above(ring: seq<Vertex>, i: nat, lat: real)
    requires i < |ring|
  {
    ring[i].1 > lat
  }

  /** West of both ends, a straddling edge always crosses: its intercept lies between the ends. */
  lemma WestCrosses(a: Vertex, b: Vertex, lat: real, lng: real)
    requires lng < a.0 && lng < b.0
    ensures Crosses(a, b, lat, lng) <==> Straddles(a, b, lat)
  {
    if Straddles(a, b, lat) {
      InterceptBetween(a, b, lat);
    }
  }

  /**
   * For a point west of every vertex, edges 1 .. k-1 cross an odd number of
   * times exactly when the walk from vertex 0 to vertex k-1 changes side of `lat`.
   */
  lemma {:induction false} WestParity(ring: seq<Vertex>, k: nat, lat: real, lng: real)
    requires 1 <= k <= |ring|
    requires forall i :: 0 <= i < |ring| ==> lng < ring[i].0
    ensures (Crossings(ring, k, lat, lng) - Crossings(ring, 1, lat, lng)) % 2 == 1
            <==> Above(ring, 0, lat) != Above(ring, k - 1, lat)
    decreases k
  {
    if k > 1 {
      WestParity(ring, k - 1, lat, lng);
      WestCrosses(ring[k - 2], ring[k - 1], lat, lng);
      assert EdgeCrosses(ring, k - 1, lat, lng) <==> Above(ring, k - 2, lat) != Above(ring, k - 1, lat);
    }
  }

  /**
   * A point strictly west of every vertex is outside: its ray crosses every
   * straddling edge, and a closed walk changes side an even number of times.
   */
  lemma WestOfAllIsOutside(ring: seq<Vertex>, lat: real, lng: real)
    requires forall i :: 0 <= i < |ring| ==> lng < ring[i].0
    ensures !Inside(ring, lat, lng)
  {
    var n := |ring|;
    if n > 0 {
      WestParity(ring, n, lat, lng);
      WestCrosses(ring[n - 1], ring[0], lat, lng);
      assert EdgeCrosses(ring, 0, lat, lng) <==> Above(ring, n - 1, lat) != Above(ring, 0, lat);
      assert Crossings(ring, 1, lat, lng) == (if EdgeCrosses(ring, 0, lat, lng) then 1 else 0);
    }
  }

  /** An edge whose two ends coincide never crosses. */
  lemma DegenerateEdge(a: Vertex, lat: real, lng: real)
    ensures !Crosses(a, a, lat, lng)
  {
  }

  /**
   * Edges 1 .. k-1 of a closed ring and of the ring without its repeated
   * closing vertex are the same edges.
   */
  lemma {:induction false} SharedEdges(ring: seq<Vertex>, k: nat, lat: real, lng: real)
    requires |ring| >= 2 && 1 <= k <= |ring| - 1
    ensures Crossings(ring[..|ring| - 1], k, lat, lng) - Crossings(ring[..|ring| - 1], 1, lat, lng)
         == Crossings(ring, k, lat, lng) - Crossings(ring, 1, lat, lng)
    decreases k
  {
    var open := ring[..|ring| - 1];
    if k > 1 {
      SharedEdges(ring, k - 1, lat, lng);
      assert open[k - 2] == ring[k - 2] && open[k - 1] == ring[k - 1];
      assert EdgeCrosses(open, k - 1, lat, lng) == EdgeCrosses(ring, k - 1, lat, lng);
    }
  }

  /**
   * On a closed ring (last vertex repeats the first) the wrap-around edge is
   * degenerate, and dropping the repeated vertex gives the same answer for every point.
   */
  lemma DropClosingVertex(ring: seq<Vertex>, lat: real, lng: real)
    requires |ring| >= 1 && ring[|ring| - 1] == ring[0]
    ensures Inside(ring[..|ring| - 1], lat, lng) <==> Inside(ring, lat, lng)
  {
    var n := |ring|;
    var open := ring[..n - 1];
    assert !EdgeCrosses(ring, 0, lat, lng);
    if n == 1 {
      assert Crossings(ring, 1, lat, lng) == 0;
    } else {
      SharedEdges(ring, n - 1, lat, lng);
      assert open[Prev(n - 1, 0)] == ring[Prev(n, n - 1)] && open[0] == ring[n - 1];
      assert EdgeCrosses(open, 0, lat, lng) == EdgeCrosses(ring, n - 1, lat, lng);
      assert Crossings(ring, n, lat, lng) == Crossings(open, n - 1, lat, lng);
    }
  }
}
