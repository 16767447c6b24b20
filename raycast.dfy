/**
 * Ray-casting point-in-polygon in lon/lat space (`pointInPolygon`): a
 * horizontal ray is cast from the point towards increasing longitude and
 * the answer is the parity of the number of ring edges it crosses.
 */
module RayCast {

  import opened Geo

  /** The crossing test for the edge from `a` (vertex i) to `b` (vertex j).
      The `!=` on the two comparisons comes first and short-circuits the
      `&&`, so the division is only evaluated when the edge is not
      horizontal: Dafny checks here that the divisor is never zero.
      A horizontal edge, and in particular a degenerate edge from a vertex
      to itself, is never crossed; a crossed edge straddles the ray's
      latitude, with one end strictly above it and one end at or below it. */
  predicate Crosses(p: Point, a: Point, b: Point)
    ensures Crosses(p, a, b) ==> a.lat != b.lat
    ensures Crosses(p, a, b) ==>
      (a.lat > p.lat && b.lat <= p.lat) || (b.lat > p.lat && a.lat <= p.lat)
  {
    (a.lat > p.lat) != (b.lat > p.lat)
    && p.lon < (b.lon - a.lon) * (p.lat - a.lat) / (b.lat - a.lat) + a.lon
  }

  /** The index j paired with i by `for (i = 0, j = n - 1; i < n; j = i++)`. */
  function Prev(i: nat, n: nat): nat
    requires i < n
  {
    if i == 0 then n - 1 else i - 1
  }

  /** Whether the edge ending at vertex i (from vertex i to vertex i - 1,
      wrapping round to the last vertex for i = 0) crosses the ray. */
  predicate EdgeCrosses(p: Point, poly: seq<Point>, i: nat)
    requires i < |poly|
  {
    Crosses(p, poly[i], poly[Prev(i, |poly|)])
  }

  /** The number of edges among the first k that cross the ray. */
  function Crossings(p: Point, poly: seq<Point>, k: nat): nat
    requires k <= |poly|
  {
    if k == 0 then 0
    else Crossings(p, poly, k - 1) + (if EdgeCrosses(p, poly, k - 1) then 1 else 0)
  }

  /** The specification of `pointInPolygon`: an odd number of the n edges
      cross the ray. An empty ring contains no point. */
  predicate Inside(p: Point, poly: seq<Point>)
    ensures |poly| == 0 ==> !Inside(p, poly)
  {
    Crossings(p, poly, |poly|) % 2 == 1
  }

  /** `pointInPolygon`: walks the edges once, flipping `inside` at each
      crossing. */
  method PointInPolygon(point: Point, polygon: seq<Point>) returns (inside: bool)
    ensures inside == Inside(point, polygon)
  {
    inside := false;
    var n := |polygon|;
    var i, j := 0, n - 1;
    while i < n
      invariant 0 <= i <= n
      invariant i == 0 ==> j == n - 1
      invariant i > 0 ==> j == i - 1
      invariant inside == (Crossings(point, polygon, i) % 2 == 1)
    {
      var intersects := Crosses(point, polygon[i], polygon[j]);
      assert j == Prev(i, n);
      if intersects {
        inside := !inside;
      }
      j, i := i, i + 1;
    }
  }

  /** Appending a copy of the first vertex does not change the crossing
      count: the new closing edge is degenerate, the old wrap-around edge
      reappears as the edge from the copy to the old last vertex, and every
      other edge is unchanged. */
  lemma {:induction false} CrossingsClosed(p: Point, ring: seq<Point>)
    requires |ring| > 0
    ensures Crossings(p, ring + [ring[0]], |ring| + 1) == Crossings(p, ring, |ring|)
  {
    var n := |ring|;
    var closed := ring + [ring[0]];
    CrossingsClosedPrefix(p, ring, n);
    assert EdgeCrosses(p, closed, n) == EdgeCrosses(p, ring, 0);
  }

  /** Up to the first k edges, the closed ring is short by exactly the
      wrap-around edge of the open ring. */
  lemma {:induction false} CrossingsClosedPrefix(p: Point, ring: seq<Point>, k: nat)
    requires 1 <= k <= |ring|
    ensures Crossings(p, ring + [ring[0]], k) + (if EdgeCrosses(p, ring, 0) then 1 else 0)
         == Crossings(p, ring, k)
  {
    var closed := ring + [ring[0]];
    if k == 1 {
      assert !EdgeCrosses(p, closed, 0);
    } else {
      CrossingsClosedPrefix(p, ring, k - 1);
      assert EdgeCrosses(p, closed, k - 1) == EdgeCrosses(p, ring, k - 1);
    }
  }

  /** So closing the ring never changes the containment answer. */
  lemma InsideClosed(p: Point, ring: seq<Point>)
    requires |ring| > 0
    ensures Inside(p, ring + [ring[0]]) == Inside(p, ring)
  {
    CrossingsClosed(p, ring);
  }
}
