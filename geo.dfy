/**
 * Geographic coordinates and the mappings between the lon/lat box of the
 * Manhattan border and the terrain grid: the bounding box of the ring, the
 * centre of a grid cell, and the cell a graffiti report falls in.
 * Coordinates are exact reals (no floating-point rounding).
 */
module Geo {

  import opened Wrappers

  datatype Point = Point(lon: real, lat: real)

  datatype BBox = BBox(lonMin: real, lonMax: real, latMin: real, latMax: real)

  /** `Math.min(...xs)` on a non-empty list. */
  function Min(xs: seq<real>): (m: real)
    requires |xs| > 0
    ensures m in xs
    ensures forall i :: 0 <= i < |xs| ==> m <= xs[i]
  {
    if |xs| == 1 then xs[0]
    else
      var t := Min(xs[1..]);
      assert xs == [xs[0]] + xs[1..];
      if xs[0] <= t then xs[0] else t
  }

  /** `Math.max(...xs)` on a non-empty list. */
  function Max(xs: seq<real>): (m: real)
    requires |xs| > 0
    ensures m in xs
    ensures forall i :: 0 <= i < |xs| ==> xs[i] <= m
  {
    if |xs| == 1 then xs[0]
    else
      var t := Max(xs[1..]);
      assert xs == [xs[0]] + xs[1..];
      if xs[0] >= t then xs[0] else t
  }

  function Lons(ring: seq<Point>): seq<real> {
    seq(|ring|, i requires 0 <= i < |ring| => ring[i].lon)
  }

  function Lats(ring: seq<Point>): seq<real> {
    seq(|ring|, i requires 0 <= i < |ring| => ring[i].lat)
  }

  /** The bounding box of the border ring: each bound is attained by some
      vertex and every vertex lies within the bounds. */
  function Bounds(ring: seq<Point>): (b: BBox)
    requires |ring| > 0
    ensures forall i :: 0 <= i < |ring| ==>
      b.lonMin <= ring[i].lon <= b.lonMax && b.latMin <= ring[i].lat <= b.latMax
    ensures exists i :: 0 <= i < |ring| && ring[i].lon == b.lonMin
    ensures exists i :: 0 <= i < |ring| && ring[i].lon == b.lonMax
    ensures exists i :: 0 <= i < |ring| && ring[i].lat == b.latMin
    ensures exists i :: 0 <= i < |ring| && ring[i].lat == b.latMax
  {
    var lons, lats := Lons(ring), Lats(ring);
    var b := BBox(Min(lons), Max(lons), Min(lats), Max(lats));
    assert forall i :: 0 <= i < |ring| ==> lons[i] == ring[i].lon && lats[i] == ring[i].lat;
    b
  }

  /** p5's `map(v, a, b, c, d)`: the affine map sending `a` to `c` and `b`
      to `d`. */
  function Remap(v: real, a: real, b: real, c: real, d: real): real
    requires a != b
  {
    c + (v - a) / (b - a) * (d - c)
  }

  /** The map sends the ends of the source range to the ends of the target
      range. */
  lemma RemapEnds(a: real, b: real, c: real, d: real)
    requires a != b
    ensures Remap(a, a, b, c, d) == c
    ensures Remap(b, a, b, c, d) == d
  {
    assert (a - a) / (b - a) == 0.0;
    DivSelf(b - a);
    assert (b - a) / (b - a) * (d - c) == d - c;
  }

  /** A flat target range is hit whatever the value. */
  lemma RemapFlat(v: real, a: real, b: real, c: real, d: real)
    requires a != b
    ensures c == d ==> Remap(v, a, b, c, d) == c
  {
    if c == d {
      assert (v - a) / (b - a) * (d - c) == 0.0;
    }
  }

  lemma DivSelf(x: real)
    requires x != 0.0
    ensures x / x == 1.0
  {
  }

  /** A strictly interior value lands strictly inside the target range. */
  lemma RemapInside(v: real, a: real, b: real, c: real, d: real)
    requires a != b
    ensures a < v < b && c < d ==> c < Remap(v, a, b, c, d) < d
  {
    if a < v < b && c < d {
      var t := (v - a) / (b - a);
      Ratio(v - a, b - a);
      ScaleBetween(t, d - c);
    }
  }

  /** A value inside the source range lands inside the target range. */
  lemma RemapWithin(v: real, a: real, b: real, c: real, d: real)
    requires a != b
    ensures a <= v <= b && a < b && c <= d ==> c <= Remap(v, a, b, c, d) <= d
  {
    if a <= v <= b && a < b && c <= d {
      var t := (v - a) / (b - a);
      Ratio(v - a, b - a);
      MulNonNeg(t, d - c);
      MulNonNeg(1.0 - t, d - c);
    }
  }

  lemma MulNonNeg(x: real, y: real)
    requires x >= 0.0 && y >= 0.0
    ensures x * y >= 0.0
  {
  }

  /** For 0 <= x <= y, the ratio x / y lies in [0, 1], strictly inside
      when x does. */
  lemma Ratio(x: real, y: real)
    requires y > 0.0
    ensures x >= 0.0 ==> x / y >= 0.0
    ensures x > 0.0 ==> x / y > 0.0
    ensures x <= y ==> x / y <= 1.0
    ensures x < y ==> x / y < 1.0
    ensures x < 0.0 ==> x / y < 0.0
  {
    var t := x / y;
    assert t * y == x;
    MulLess(t, 1.0, y);
    MulLess(0.0, t, y);
    MulLess(t, 0.0, y);
  }

  lemma ScaleBetween(t: real, w: real)
    requires 0.0 < t < 1.0 && w > 0.0
    ensures 0.0 < t * w < w
  {
    assert (1.0 - t) * w > 0.0;
  }

  /** `gridIndexToLonLat`: the centre of cell (xi, yi) of a cols x rows
      grid laid over the box. A cell of the grid has its centre strictly
      inside a box of positive width and height. */
  function CellCentre(xi: int, yi: int, box: BBox, cols: nat, rows: nat): (c: Point)
    requires cols > 0 && rows > 0
    ensures 0 <= xi < cols && box.lonMin < box.lonMax ==> box.lonMin < c.lon < box.lonMax
    ensures 0 <= yi < rows && box.latMin < box.latMax ==> box.latMin < c.lat < box.latMax
    ensures box.lonMin == box.lonMax ==> c.lon == box.lonMin
    ensures box.latMin == box.latMax ==> c.lat == box.latMin
  {
    var x := xi as real + 0.5;
    var y := yi as real + 0.5;
    RemapInside(x, 0.0, cols as real, box.lonMin, box.lonMax);
    RemapInside(y, 0.0, rows as real, box.latMin, box.latMax);
    RemapFlat(x, 0.0, cols as real, box.lonMin, box.lonMax);
    RemapFlat(y, 0.0, rows as real, box.latMin, box.latMax);
    Point(Remap(x, 0.0, cols as real, box.lonMin, box.lonMax),
          Remap(y, 0.0, rows as real, box.latMin, box.latMax))
  }

  /** `floor(map(v, lo, hi, 0, n - 1))`, the column (or row) a graffiti
      coordinate is binned to. When the box is flat (`lo == hi`) p5 divides
      by zero and the result is NaN or an infinity, which the caller's range
      check always rejects; that case is `None`. */
  function BinIndex(v: real, lo: real, hi: real, n: nat): (k: Option<int>)
    ensures k.None? <==> lo == hi
    ensures lo < hi && lo <= v <= hi && n >= 1 ==> 0 <= k.value <= n - 1
  {
    if lo == hi then None
    else
      var m := Remap(v, lo, hi, 0.0, (n - 1) as real);
      RemapWithin(v, lo, hi, 0.0, (n - 1) as real);
      Some(m.Floor)
  }

  /** With at least two columns, a coordinate is binned inside the grid
      exactly when it lies in [lo, hi + (hi - lo) / (n - 1)): one bin width
      past the box's far edge still lands in the last column. */
  lemma BinIndexInGrid(v: real, lo: real, hi: real, n: nat)
    requires lo < hi && n >= 2
    ensures var k := BinIndex(v, lo, hi, n).value;
      0 <= k < n <==> lo <= v < hi + (hi - lo) / (n - 1) as real
  {
    var k := BinIndex(v, lo, hi, n).value;
    var w := hi - lo;
    var q := (n - 1) as real;
    var t := (v - lo) / w;
    var m := t * q;
    assert m == Remap(v, lo, hi, 0.0, q);
    assert k == m.Floor;
    // k >= 0 exactly when m >= 0, exactly when v >= lo
    assert m >= 0.0 <==> v >= lo by {
      if v >= lo {
        assert t >= 0.0;
      } else {
        assert t < 0.0;
        assert t * q < 0.0;
      }
    }
    // k < n exactly when m < n, exactly when v < hi + w / q
    var r := n as real / q;
    MulLess(t, r, q);
    DivMulCancel(n as real, q);
    MulLess(t, r, w);
    DivMulCancel(v - lo, w);
    PastFarEdge(lo, hi, q);
    assert m < n as real <==> v < hi + w / q;
  }

  /** (a / q) * q == a */
  lemma DivMulCancel(a: real, q: real)
    requires q != 0.0
    ensures (a / q) * q == a
  {
  }

  /** One bin width past the far edge, measured from the near edge, is
      (q + 1) / q widths. */
  lemma PastFarEdge(lo: real, hi: real, q: real)
    requires q > 0.0
    ensures hi + (hi - lo) / q - lo == ((q + 1.0) / q) * (hi - lo)
  {
    var w := hi - lo;
    assert (q + 1.0) / q == 1.0 + 1.0 / q;
    assert (1.0 + 1.0 / q) * w == w + (1.0 / q) * w;
    assert (1.0 / q) * w == w / q;
  }

  lemma MulLess(x: real, y: real, w: real)
    requires w > 0.0
    ensures x < y <==> x * w < y * w
  {
    assert (y - x) * w == y * w - x * w;
    if x < y {
      assert (y - x) * w > 0.0;
    } else {
      assert (x - y) * w >= 0.0;
    }
  }

  /** Inside the box, only the box's far edge is binned to the last column
      (with at least two columns). */
  lemma BinIndexLastColumn(v: real, lo: real, hi: real, n: nat)
    requires lo < hi && n >= 2 && lo <= v <= hi
    ensures BinIndex(v, lo, hi, n).value == n - 1 <==> v == hi
  {
    var w := hi - lo;
    var q := (n - 1) as real;
    var t := (v - lo) / w;
    var m := t * q;
    assert m == Remap(v, lo, hi, 0.0, q);
    if v < hi {
      Ratio(v - lo, w);
      MulLess(t, 1.0, q);
      assert m < q;
    } else {
      DivSelf(w);
      assert t == 1.0;
    }
  }
}
