/**
 * The terrain grid built in `setup()`: a cols x rows grid of cells, each a
 * stack of layers. Every cell starts with a sentinel layer; cells whose
 * centre lies inside the border ring get a base tile; in every column the
 * first and last base tiles are flagged and the gap between them is
 * filled; finally every graffiti report inside the grid piles a few boxes
 * on its cell. The grid is a two-dimensional array of layer sequences,
 * updated in place pass by pass.
 */
module Terrain {

  import opened Wrappers
  import opened Geo
  import opened RayCast

  const Width: nat := 800
  const Height: nat := 800
  const Scale: nat := 5
  /** `floor(w / scale)` and `floor(h / scale)`: 160 x 160 cells. */
  const Cols: nat := Width / Scale
  const Rows: nat := Height / Scale

  /** What a layer is: the `{h: 0}` sentinel, a base tile, or a graffiti
      box. */
  datatype Shape =
    | Sentinel
    | Tile(h: real, w: real, d: real, offsetX: real, offsetY: real, color: string)
    | Box(h: real, w: real, d: real)

  /** A layer with the `first` and `last` flags the marking pass sets. */
  datatype Layer = Layer(shape: Shape, first: bool, last: bool)

  const Ground: Layer := Layer(Sentinel, false, false)
  const BaseTile: Shape := Tile(8.0, 8.0, 8.0, 0.0, 0.0, "#4D4844")
  const Base: Layer := Layer(BaseTile, false, false)

  /** Every cell still holds its sentinel at the bottom. */
  predicate Grounded(t: array2<seq<Layer>>)
    reads t
  {
    forall x, y :: 0 <= x < t.Length0 && 0 <= y < t.Length1 ==>
      |t[x, y]| >= 1 && t[x, y][0] == Ground
  }

  // ---------------------------------------------------------------------
  // Initialisation

  /** `Array.from(...)`: a fresh grid whose every cell is just the
      sentinel. */
  method InitTerrain(cols: nat, rows: nat) returns (t: array2<seq<Layer>>)
    ensures fresh(t) && t.Length0 == cols && t.Length1 == rows
    ensures forall x, y :: 0 <= x < cols && 0 <= y < rows ==> t[x, y] == [Ground]
    ensures Grounded(t)
  {
    t := new seq<Layer>[cols, rows]((x, y) => [Ground]);
  }

  // ---------------------------------------------------------------------
  // Interior fill

  /** Whether the centre of cell (x, y) lies inside the ring. */
  predicate CellInside(ring: seq<Point>, box: BBox, cols: nat, rows: nat, x: nat, y: nat)
    requires x < cols && y < rows
  {
    Inside(CellCentre(x, y, box, cols, rows), ring)
  }

  /** The interior fill: every cell whose centre is inside the ring gets
      exactly one base tile on top; every other cell is left as it is. */
  method FillInterior(t: array2<seq<Layer>>, ring: seq<Point>, box: BBox)
    modifies t
    ensures forall x, y :: 0 <= x < t.Length0 && 0 <= y < t.Length1 ==>
      t[x, y] == old(t[x, y]) + (if CellInside(ring, box, t.Length0, t.Length1, x, y) then [Base] else [])
  {
    var cols, rows := t.Length0, t.Length1;
    var x := 0;
    while x < cols
      invariant 0 <= x <= cols
      invariant forall i, j :: 0 <= i < x && 0 <= j < rows ==>
        t[i, j] == old(t[i, j]) + (if CellInside(ring, box, cols, rows, i, j) then [Base] else [])
      invariant forall i, j :: x <= i < cols && 0 <= j < rows ==> t[i, j] == old(t[i, j])
    {
      var y := 0;
      while y < rows
        invariant 0 <= y <= rows
        invariant forall i, j :: 0 <= i < x && 0 <= j < rows ==>
          t[i, j] == old(t[i, j]) + (if CellInside(ring, box, cols, rows, i, j) then [Base] else [])
        invariant forall j :: 0 <= j < y ==>
          t[x, j] == old(t[x, j]) + (if CellInside(ring, box, cols, rows, x, j) then [Base] else [])
        invariant forall i, j :: x <= i < cols && 0 <= j < rows && (i > x || j >= y) ==>
          t[i, j] == old(t[i, j])
      {
        var center := CellCentre(x, y, box, cols, rows);
        var inside := PointInPolygon(center, ring);
        if inside {
          t[x, y] := t[x, y] + [Base];
        }
        y := y + 1;
      }
      x := x + 1;
    }
  }

  // ---------------------------------------------------------------------
  // First and last base tile of each column

  /** `terrain[x][y][1]` is truthy: the cell holds a layer above its
      sentinel. */
  predicate Occupied(cell: seq<Layer>) {
    |cell| > 1
  }

  /** Which cells of a column are occupied, from y = 0 up. */
  function Occupancy(col: seq<seq<Layer>>): seq<bool>
  {
    seq(|col|, y requires 0 <= y < |col| => Occupied(col[y]))
  }

  /** Column x of the grid, from y = 0 up. */
  function Column(t: array2<seq<Layer>>, x: nat): seq<seq<Layer>>
    requires x < t.Length0
    reads t
  {
    seq(t.Length1, y requires 0 <= y < t.Length1 reads t => t[x, y])
  }

  /** The smallest index holding `true`, if any. */
  function FirstTrue(s: seq<bool>): Option<nat>
  {
    if s == [] then None
    else
      var p := FirstTrue(s[..|s| - 1]);
      if p.Some? then p
      else if s[|s| - 1] then Some(|s| - 1)
      else None
  }

  /** The largest index holding `true`, if any. */
  function LastTrue(s: seq<bool>): Option<nat>
  {
    if s == [] then None
    else if s[|s| - 1] then Some(|s| - 1)
    else LastTrue(s[..|s| - 1])
  }

  /** There is a first `true` exactly when some element is `true`; it is
      `true` and everything before it is `false`. */
  lemma {:induction false} FirstTrueSpec(s: seq<bool>)
    ensures FirstTrue(s).None? <==> forall i :: 0 <= i < |s| ==> !s[i]
    ensures FirstTrue(s).Some? ==>
      FirstTrue(s).value < |s| && s[FirstTrue(s).value]
      && forall i :: 0 <= i < FirstTrue(s).value ==> !s[i]
  {
    if s != [] {
      var init := s[..|s| - 1];
      FirstTrueSpec(init);
      assert forall i :: 0 <= i < |init| ==> init[i] == s[i];
    }
  }

  /** There is a last `true` exactly when some element is `true`; it is
      `true` and everything after it is `false`. */
  lemma {:induction false} LastTrueSpec(s: seq<bool>)
    ensures LastTrue(s).None? <==> forall i :: 0 <= i < |s| ==> !s[i]
    ensures LastTrue(s).Some? ==>
      LastTrue(s).value < |s| && s[LastTrue(s).value]
      && forall i :: LastTrue(s).value < i < |s| ==> !s[i]
  {
    if s != [] {
      var init := s[..|s| - 1];
      LastTrueSpec(init);
      assert forall i :: 0 <= i < |init| ==> init[i] == s[i];
    }
  }

  /** Scanning one more element: the first `true` stays where it was, or
      is the new element. */
  lemma FirstTrueSnoc(s: seq<bool>, b: bool)
    ensures FirstTrue(s + [b]) == if FirstTrue(s).Some? then FirstTrue(s) else if b then Some(|s|) else None
  {
    assert (s + [b])[..|s|] == s;
  }

  /** Scanning one more element: the last `true` is the new element, or
      stays where it was. */
  lemma LastTrueSnoc(s: seq<bool>, b: bool)
    ensures LastTrue(s + [b]) == if b then Some(|s|) else LastTrue(s)
  {
    assert (s + [b])[..|s|] == s;
  }

  /** Scanning row y: the first `true` so far becomes y when there was
      none and y holds `true`; the last becomes y when y holds `true`. */
  lemma ScanStep(s: seq<bool>, y: nat)
    requires y < |s|
    ensures FirstTrue(s[..y + 1]) ==
      if FirstTrue(s[..y]).None? && s[y] then Some(y) else FirstTrue(s[..y])
    ensures LastTrue(s[..y + 1]) == if s[y] then Some(y) else LastTrue(s[..y])
    ensures FirstTrue(s[..y]).Some? ==> FirstTrue(s[..y]).value < y
  {
    assert s[..y + 1] == s[..y] + [s[y]];
    FirstTrueSnoc(s[..y], s[y]);
    LastTrueSnoc(s[..y], s[y]);
    FirstTrueSpec(s[..y]);
  }

  /** The flags a cell carries after marking: its layer 1 (if any) gets
      `first` set when `f` holds and `last` set when `l` holds; flags
      already set stay set. */
  function Marked(cell: seq<Layer>, f: bool, l: bool): (r: seq<Layer>)
    ensures |r| == |cell|
  {
    if |cell| > 1 then cell[1 := cell[1].(first := cell[1].first || f, last := cell[1].last || l)]
    else cell
  }

  /** Cell y of a column after marking: flagged first when it is the
      column's first occupied cell, and last when it is the last one. */
  function MarkedCell(col: seq<seq<Layer>>, y: nat): seq<Layer>
    requires y < |col|
  {
    var occ := Occupancy(col);
    Marked(col[y], FirstTrue(occ) == Some(y), LastTrue(occ) == Some(y))
  }

  /** The columns of the grid, from x = 0 up. */
  function Columns(t: array2<seq<Layer>>): seq<seq<seq<Layer>>>
    reads t
  {
    seq(t.Length0, x requires 0 <= x < t.Length0 reads t => Column(t, x))
  }

  /** `whoIsTheFirst` after the first n columns of g: the first occupied
      row of every such column that has one. */
  function FirstMarks(g: seq<seq<seq<Layer>>>, n: nat): map<nat, nat>
    requires n <= |g|
  {
    if n == 0 then map[]
    else
      var m := FirstMarks(g, n - 1);
      var f := FirstTrue(Occupancy(g[n - 1]));
      if f.Some? then m[n - 1 := f.value] else m
  }

  /** `whoIsTheLast` after the first n columns of g: the last occupied row
      of every such column that has one. */
  function LastMarks(g: seq<seq<seq<Layer>>>, n: nat): map<nat, nat>
    requires n <= |g|
  {
    if n == 0 then map[]
    else
      var m := LastMarks(g, n - 1);
      var l := LastTrue(Occupancy(g[n - 1]));
      if l.Some? then m[n - 1 := l.value] else m
  }

  lemma MarksStep(g: seq<seq<seq<Layer>>>, x: nat, firsts: map<nat, nat>, lasts: map<nat, nat>,
                  first: Option<nat>, last: Option<nat>)
    requires x < |g|
    requires firsts == FirstMarks(g, x) && lasts == LastMarks(g, x)
    requires first == FirstTrue(Occupancy(g[x])) && last == LastTrue(Occupancy(g[x]))
    ensures (if first.Some? then firsts[x := first.value] else firsts) == FirstMarks(g, x + 1)
    ensures (if last.Some? then lasts[x := last.value] else lasts) == LastMarks(g, x + 1)
  {
  }

  /** The first marks after n columns: a column among them has one
      exactly when one of its cells is occupied, and it is its first
      occupied row. */
  lemma {:induction false} FirstMarksOf(g: seq<seq<seq<Layer>>>, n: nat)
    requires n <= |g|
    ensures forall x: nat :: x in FirstMarks(g, n) <==> x < n && FirstTrue(Occupancy(g[x])).Some?
    ensures forall x: nat :: x in FirstMarks(g, n) ==> Some(FirstMarks(g, n)[x]) == FirstTrue(Occupancy(g[x]))
  {
    if n > 0 {
      FirstMarksOf(g, n - 1);
      var m := FirstMarks(g, n - 1);
      var f := FirstTrue(Occupancy(g[n - 1]));
      assert FirstMarks(g, n) == if f.Some? then m[n - 1 := f.value] else m;
      forall x: nat
        ensures x in FirstMarks(g, n) <==> x < n && FirstTrue(Occupancy(g[x])).Some?
        ensures x in FirstMarks(g, n) ==> Some(FirstMarks(g, n)[x]) == FirstTrue(Occupancy(g[x]))
      {
        if x != n - 1 {
          assert x in FirstMarks(g, n) <==> x in m;
        }
      }
    }
  }

  /** The last marks after n columns: a column among them has one exactly
      when one of its cells is occupied, and it is its last occupied row. */
  lemma {:induction false} LastMarksOf(g: seq<seq<seq<Layer>>>, n: nat)
    requires n <= |g|
    ensures forall x: nat :: x in LastMarks(g, n) <==> x < n && LastTrue(Occupancy(g[x])).Some?
    ensures forall x: nat :: x in LastMarks(g, n) ==> Some(LastMarks(g, n)[x]) == LastTrue(Occupancy(g[x]))
  {
    if n > 0 {
      LastMarksOf(g, n - 1);
      var m := LastMarks(g, n - 1);
      var l := LastTrue(Occupancy(g[n - 1]));
      assert LastMarks(g, n) == if l.Some? then m[n - 1 := l.value] else m;
      forall x: nat
        ensures x in LastMarks(g, n) <==> x < n && LastTrue(Occupancy(g[x])).Some?
        ensures x in LastMarks(g, n) ==> Some(LastMarks(g, n)[x]) == LastTrue(Occupancy(g[x]))
      {
        if x != n - 1 {
          assert x in LastMarks(g, n) <==> x in m;
        }
      }
    }
  }

  /** The marking pass. For each column it records the first and the last
      occupied row (`whoIsTheFirst`, `whoIsTheLast`), and flags layer 1 of
      those two cells (one cell gets both flags when a column has a single
      occupied cell). A column with no occupied cell has no entry in
      either map and is left as it is. */
  method MarkFirstLast(t: array2<seq<Layer>>) returns (firsts: map<nat, nat>, lasts: map<nat, nat>)
    modifies t
    ensures firsts == FirstMarks(old(Columns(t)), t.Length0)
    ensures lasts == LastMarks(old(Columns(t)), t.Length0)
    ensures forall x, y :: 0 <= x < t.Length0 && 0 <= y < t.Length1 ==>
      t[x, y] == MarkedCell(old(Columns(t))[x], y)
  {
    var cols, rows := t.Length0, t.Length1;
    ghost var g := Columns(t);
    forall i, j | 0 <= i < cols && 0 <= j < rows
      ensures t[i, j] == g[i][j]
    {
      assert g[i] == Column(t, i);
    }
    firsts, lasts := map[], map[];
    var x: nat := 0;
    while x < cols
      invariant 0 <= x <= cols
      invariant firsts == FirstMarks(g, x) && lasts == LastMarks(g, x)
      invariant forall i, j :: 0 <= i < cols && 0 <= j < rows ==>
        t[i, j] == if i < x then MarkedCell(g[i], j) else g[i][j]
    {
      assert forall y :: 0 <= y < rows ==> t[x, y] == g[x][y];
      var first, last := MarkColumn(t, x, g[x]);
      MarksStep(g, x, firsts, lasts, first, last);
      if first.Some? {
        firsts := firsts[x := first.value];
      }
      if last.Some? {
        lasts := lasts[x := last.value];
      }
      x := x + 1;
    }
  }

  /** The marking of one column x, whose cells are `col`: the scan of its
      rows, then the `last` flag on the last occupied row. `first` is the
      first occupied row and `last` the last one. */
  method MarkColumn(t: array2<seq<Layer>>, x: nat, ghost col: seq<seq<Layer>>)
    returns (first: Option<nat>, last: Option<nat>)
    requires x < t.Length0 && |col| == t.Length1
    requires forall y :: 0 <= y < t.Length1 ==> t[x, y] == col[y]
    modifies t
    ensures first == FirstTrue(Occupancy(col))
    ensures last == LastTrue(Occupancy(col))
    ensures forall y :: 0 <= y < t.Length1 ==> t[x, y] == MarkedCell(col, y)
    ensures forall i, j :: 0 <= i < t.Length0 && 0 <= j < t.Length1 && i != x ==>
      t[i, j] == old(t[i, j])
  {
    var rows := t.Length1;
    first, last := ScanColumn(t, x, col);
    LastTrueSpec(Occupancy(col));
    if last.Some? {
      var l := last.value;
      MarkLast(col[l], first == Some(l));
      t[x, l] := t[x, l][1 := t[x, l][1].(last := true)];
    }
    forall j | 0 <= j < rows
      ensures t[x, j] == MarkedCell(col, j)
    {
      if first != Some(j) && last != Some(j) {
        MarkedNone(col[j]);
      }
    }
  }

  /** The row loop of the marking of column x, with `isFirstFound` and
      `lastIndex`: the first occupied cell gets its `first` flag, every
      other cell is left as it is, and the first and the last occupied
      rows are returned. */
  method ScanColumn(t: array2<seq<Layer>>, x: nat, ghost col: seq<seq<Layer>>)
    returns (first: Option<nat>, lastIndex: Option<nat>)
    requires x < t.Length0 && |col| == t.Length1
    requires forall y :: 0 <= y < t.Length1 ==> t[x, y] == col[y]
    modifies t
    ensures first == FirstTrue(Occupancy(col))
    ensures lastIndex == LastTrue(Occupancy(col))
    ensures forall j :: 0 <= j < t.Length1 && first != Some(j) ==> t[x, j] == col[j]
    ensures first.Some? ==>
      first.value < t.Length1 && t[x, first.value] == Marked(col[first.value], true, false)
    ensures forall i, j :: 0 <= i < t.Length0 && 0 <= j < t.Length1 && i != x ==>
      t[i, j] == old(t[i, j])
  {
    ghost var occ := Occupancy(col);
    var rows := t.Length1;
    var isFirstFound := false;
    lastIndex := None;
    first := None;
    var y: nat := 0;
    while y < rows
      invariant 0 <= y <= rows
      invariant first == FirstTrue(occ[..y]) && isFirstFound == first.Some?
      invariant lastIndex == LastTrue(occ[..y])
      invariant forall j :: 0 <= j < rows && first != Some(j) ==> t[x, j] == col[j]
      invariant first.Some? ==>
        first.value < y && t[x, first.value] == Marked(col[first.value], true, false)
      invariant forall i, j :: 0 <= i < t.Length0 && 0 <= j < rows && i != x ==>
        t[i, j] == old(t[i, j])
    {
      ScanStep(occ, y);
      assert t[x, y] == col[y] && occ[y] == (|t[x, y]| > 1);
      if |t[x, y]| > 1 && !isFirstFound {
        isFirstFound := true;
        MarkFirst(t[x, y]);
        t[x, y] := t[x, y][1 := t[x, y][1].(first := true)];
        lastIndex := Some(y);
        first := Some(y);
      }
      if |t[x, y]| > 1 {
        lastIndex := Some(y);
      }
      y := y + 1;
    }
    assert occ[..rows] == occ;
  }

  /** A cell given neither flag is left as it is. */
  lemma MarkedNone(c: seq<Layer>)
    ensures Marked(c, false, false) == c
  {
  }

  /** Setting `first` on layer 1 is the first-marking of the cell. */
  lemma MarkFirst(c: seq<Layer>)
    requires |c| > 1
    ensures c[1 := c[1].(first := true)] == Marked(c, true, false)
  {
  }

  /** Setting `last` on layer 1 of a cell already marked (or not) as first
      completes its marking. */
  lemma MarkLast(c: seq<Layer>, f: bool)
    requires |c| > 1
    ensures var m := Marked(c, f, false); m[1 := m[1].(last := true)] == Marked(c, f, true)
  {
  }

  // ---------------------------------------------------------------------
  // Gap filling

  /** Row y of column x lies in the gap `[whoIsTheFirst[x],
      whoIsTheLast[x])`; a column missing from either map has no gap. */
  predicate InGap(firsts: map<nat, nat>, lasts: map<nat, nat>, x: nat, y: nat) {
    x in firsts && x in lasts && firsts[x] <= y < lasts[x]
  }

  /** A cell after the gap pass: given a base tile when it lies in the gap
      and holds only its sentinel (`terrain[x][y].length === 1`). */
  function GapCell(c: seq<Layer>, inGap: bool): seq<Layer> {
    if inGap && |c| == 1 then c + [Base] else c
  }

  /** The gap pass: every cell in its column's gap that holds only the
      sentinel gets a base tile; every other cell is left as it is. */
  method GapFill(t: array2<seq<Layer>>, firsts: map<nat, nat>, lasts: map<nat, nat>)
    requires forall x :: x in lasts ==> lasts[x] <= t.Length1
    modifies t
    ensures forall x, y :: 0 <= x < t.Length0 && 0 <= y < t.Length1 ==>
      t[x, y] == GapCell(old(t[x, y]), InGap(firsts, lasts, x, y))
  {
    var cols, rows := t.Length0, t.Length1;
    var x: nat := 0;
    while x < cols
      invariant 0 <= x <= cols
      invariant forall i, j :: 0 <= i < x && 0 <= j < rows ==>
        t[i, j] == GapCell(old(t[i, j]), InGap(firsts, lasts, i, j))
      invariant forall i, j :: x <= i < cols && 0 <= j < rows ==> t[i, j] == old(t[i, j])
    {
      if x in firsts && x in lasts {
        var y := firsts[x];
        while y < lasts[x]
          invariant firsts[x] <= y
          invariant forall i, j :: 0 <= i < x && 0 <= j < rows ==>
            t[i, j] == GapCell(old(t[i, j]), InGap(firsts, lasts, i, j))
          invariant forall j :: 0 <= j < rows ==>
            t[x, j] == GapCell(old(t[x, j]), InGap(firsts, lasts, x, j) && j < y)
          invariant forall i, j :: x < i < cols && 0 <= j < rows ==> t[i, j] == old(t[i, j])
        {
          if |t[x, y]| == 1 {
            t[x, y] := t[x, y] + [Base];
          }
          y := y + 1;
        }
      }
      x := x + 1;
    }
  }

  // ---------------------------------------------------------------------
  // Graffiti stacks

  /** The cell a graffiti report is binned to, when both indices fall
      inside the grid (`xi >= 0 && xi < cols && yi >= 0 && yi < rows`). */
  function BinCell(p: Point, box: BBox, cols: nat, rows: nat): (c: Option<(nat, nat)>)
    ensures c.Some? ==> c.value.0 < cols && c.value.1 < rows
    ensures c.Some? <==>
      BinIndex(p.lon, box.lonMin, box.lonMax, cols).Some?
      && BinIndex(p.lat, box.latMin, box.latMax, rows).Some?
      && 0 <= BinIndex(p.lon, box.lonMin, box.lonMax, cols).value < cols
      && 0 <= BinIndex(p.lat, box.latMin, box.latMax, rows).value < rows
  {
    var xi := BinIndex(p.lon, box.lonMin, box.lonMax, cols);
    var yi := BinIndex(p.lat, box.latMin, box.latMax, rows);
    if xi.Some? && yi.Some? && 0 <= xi.value < cols && 0 <= yi.value < rows
    then Some((xi.value as nat, yi.value as nat))
    else None
  }

  /** What `random` may produce for one report: 1 to 4 boxes
      (`floor(random(1, 5))`), each of height in [5, 25) and width and
      depth in [scale * 0.5, scale * 1.4). */
  predicate ValidStack(s: seq<Layer>) {
    1 <= |s| <= 4
    && forall i :: 0 <= i < |s| ==>
      s[i].shape.Box? && !s[i].first && !s[i].last
      && 5.0 <= s[i].shape.h < 25.0
      && Scale as real * 0.5 <= s[i].shape.w < Scale as real * 1.4
      && Scale as real * 0.5 <= s[i].shape.d < Scale as real * 1.4
  }

  /** The boxes piled on cell (x, y) by the first k reports: the stacks of
      those binned to (x, y), in report order. */
  function Added(points: seq<Point>, stacks: seq<seq<Layer>>, box: BBox, cols: nat, rows: nat,
                 x: nat, y: nat, k: nat): seq<Layer>
    requires k <= |points| && |stacks| == |points|
  {
    if k == 0 then []
    else
      Added(points, stacks, box, cols, rows, x, y, k - 1)
      + (if BinCell(points[k - 1], box, cols, rows) == Some((x, y)) then stacks[k - 1] else [])
  }

  /** How many of the first k reports are binned to (x, y). */
  function Hits(points: seq<Point>, box: BBox, cols: nat, rows: nat, x: nat, y: nat, k: nat): nat
    requires k <= |points|
  {
    if k == 0 then 0
    else
      Hits(points, box, cols, rows, x, y, k - 1)
      + (if BinCell(points[k - 1], box, cols, rows) == Some((x, y)) then 1 else 0)
  }

  /** Each report binned to a cell piles 1 to 4 boxes on it, and nothing
      else: the added layers number between one and four per hit, and all
      of them are boxes. A cell no report is binned to gets nothing. */
  lemma {:induction false} AddedBounds(points: seq<Point>, stacks: seq<seq<Layer>>, box: BBox,
                                       cols: nat, rows: nat, x: nat, y: nat, k: nat)
    requires k <= |points| && |stacks| == |points|
    requires forall i :: 0 <= i < |stacks| ==> ValidStack(stacks[i])
    ensures var added := Added(points, stacks, box, cols, rows, x, y, k);
      var hits := Hits(points, box, cols, rows, x, y, k);
      hits <= |added| <= 4 * hits
      && forall i :: 0 <= i < |added| ==> added[i].shape.Box?
  {
    if k > 0 {
      AddedBounds(points, stacks, box, cols, rows, x, y, k - 1);
      var prev := Added(points, stacks, box, cols, rows, x, y, k - 1);
      var added := Added(points, stacks, box, cols, rows, x, y, k);
      if BinCell(points[k - 1], box, cols, rows) == Some((x, y)) {
        assert added == prev + stacks[k - 1];
        assert ValidStack(stacks[k - 1]);
        forall i | 0 <= i < |added|
          ensures added[i].shape.Box?
        {
          if i >= |prev| {
            assert added[i] == stacks[k - 1][i - |prev|];
          }
        }
      } else {
        assert added == prev;
      }
    }
  }

  /** The graffiti pass: each report binned inside the grid piles its stack
      of boxes, one by one, on its cell. Every cell ends up with exactly
      the layers it had, followed by the boxes of the reports binned to
      it, in report order. */
  method BinGraffiti(t: array2<seq<Layer>>, box: BBox, points: seq<Point>, stacks: seq<seq<Layer>>)
    requires |stacks| == |points|
    modifies t
    ensures forall x, y :: 0 <= x < t.Length0 && 0 <= y < t.Length1 ==>
      t[x, y] == old(t[x, y]) + Added(points, stacks, box, t.Length0, t.Length1, x, y, |points|)
  {
    var cols, rows := t.Length0, t.Length1;
    var k := 0;
    while k < |points|
      invariant 0 <= k <= |points|
      invariant forall x, y :: 0 <= x < cols && 0 <= y < rows ==>
        t[x, y] == old(t[x, y]) + Added(points, stacks, box, cols, rows, x, y, k)
    {
      var p := points[k];
      var xi := BinIndex(p.lon, box.lonMin, box.lonMax, cols);
      var yi := BinIndex(p.lat, box.latMin, box.latMax, rows);
      if xi.Some? && yi.Some? && 0 <= xi.value < cols && 0 <= yi.value < rows {
        var cx, cy := xi.value, yi.value;
        assert BinCell(p, box, cols, rows) == Some((cx as nat, cy as nat));
        var layers := stacks[k];
        ghost var before := t[cx, cy];
        var i := 0;
        while i < |layers|
          invariant 0 <= i <= |layers|
          invariant t[cx, cy] == before + layers[..i]
          invariant forall x, y :: 0 <= x < cols && 0 <= y < rows && (x != cx || y != cy) ==>
            t[x, y] == old(t[x, y]) + Added(points, stacks, box, cols, rows, x, y, k)
        {
          t[cx, cy] := t[cx, cy] + [layers[i]];
          assert layers[..i + 1] == layers[..i] + [layers[i]];
          i := i + 1;
        }
        assert layers[..|layers|] == layers;
      } else {
        assert BinCell(p, box, cols, rows).None?;
      }
      k := k + 1;
    }
  }

  // ---------------------------------------------------------------------
  // The whole construction

  /** A cell standing on its sentinel with a base tile as layer 1 (flags
      aside). */
  predicate BaseCell(c: seq<Layer>) {
    |c| >= 2 && c[0] == Ground && c[1].shape == BaseTile
  }

  /** What a cell holds after the interior fill: the sentinel, and a base
      tile when its centre is inside the ring. */
  function FilledCell(inside: bool): seq<Layer> {
    [Ground] + (if inside then [Base] else [])
  }

  /** Every cell of the grid holds what the interior fill gives it, where
      `ins` says which cells are inside. */
  predicate FilledCells(t: array2<seq<Layer>>, ins: seq<seq<bool>>)
    reads t
  {
    |ins| == t.Length0 && (forall x :: 0 <= x < t.Length0 ==> |ins[x]| == t.Length1)
    && forall x, y :: 0 <= x < t.Length0 && 0 <= y < t.Length1 ==> t[x, y] == FilledCell(ins[x][y])
  }

  /** Which cells of the 160 x 160 grid have their centre inside the ring,
      column by column. */
  function InsideGrid(ring: seq<Point>, box: BBox): (ins: seq<seq<bool>>)
    ensures |ins| == Cols && forall x :: 0 <= x < Cols ==> |ins[x]| == Rows
  {
    seq(Cols, x requires 0 <= x < Cols =>
      seq(Rows, y requires 0 <= y < Rows => CellInside(ring, box, Cols, Rows, x, y)))
  }

  /** y is the smallest row of the column holding `true`. */
  predicate FirstRow(col: seq<bool>, y: nat) {
    y < |col| && col[y] && forall j :: 0 <= j < y ==> !col[j]
  }

  /** y is the largest row of the column holding `true`. */
  predicate LastRow(col: seq<bool>, y: nat) {
    y < |col| && col[y] && forall j :: y < j < |col| ==> !col[j]
  }

  /** The marks of a grid whose inside cells are `ins`: a column has a
      first and a last mark exactly when one of its cells is inside, the
      first mark is its smallest inside row and the last mark its largest. */
  ghost predicate MarksOf(ins: seq<seq<bool>>, firsts: map<nat, nat>, lasts: map<nat, nat>) {
    (forall x: nat :: x in lasts <==> x in firsts)
    && (forall x: nat :: x in firsts <==> x < |ins| && exists y :: 0 <= y < |ins[x]| && ins[x][y])
    && (forall x: nat :: x in firsts ==> x < |ins| && FirstRow(ins[x], firsts[x]))
    && (forall x: nat :: x in lasts ==> x < |ins| && LastRow(ins[x], lasts[x]))
  }

  /** A filled column is occupied exactly at its inside cells. */
  lemma FilledOccupancy(col: seq<seq<Layer>>, ins: seq<bool>)
    requires |col| == |ins|
    requires forall y :: 0 <= y < |col| ==> col[y] == FilledCell(ins[y])
    ensures Occupancy(col) == ins
  {
  }

  /** `setup()` up to the interior fill: a fresh 160 x 160 grid of
      sentinels, with a base tile on every cell whose centre is inside. */
  method FillStage(ring: seq<Point>) returns (t: array2<seq<Layer>>)
    requires |ring| > 0
    ensures fresh(t) && t.Length0 == Cols && t.Length1 == Rows
    ensures FilledCells(t, InsideGrid(ring, Bounds(ring)))
  {
    var box := Bounds(ring);
    t := InitTerrain(Cols, Rows);
    FillInterior(t, ring, box);
    ghost var ins := InsideGrid(ring, box);
    forall x, y | 0 <= x < Cols && 0 <= y < Rows
      ensures t[x, y] == FilledCell(ins[x][y])
    {
      assert ins[x][y] == CellInside(ring, box, Cols, Rows, x, y);
    }
  }

  /** The marking pass over a filled grid: a column is marked exactly when
      one of its cells is inside, at its smallest and its largest inside
      row, and layer 1 of those cells carries the marks. */
  method MarkStage(t: array2<seq<Layer>>, ghost ins: seq<seq<bool>>)
    returns (firsts: map<nat, nat>, lasts: map<nat, nat>)
    requires t.Length0 == Cols && t.Length1 == Rows && FilledCells(t, ins)
    modifies t
    ensures MarksOf(ins, firsts, lasts)
    ensures forall x: nat :: x in lasts ==> lasts[x] < Rows
    ensures forall x, y :: 0 <= x < Cols && 0 <= y < Rows ==>
      t[x, y] == Marked(FilledCell(ins[x][y]), x in firsts && firsts[x] == y, x in lasts && lasts[x] == y)
  {
    ghost var g := Columns(t);
    forall x, y | 0 <= x < Cols && 0 <= y < Rows
      ensures g[x][y] == FilledCell(ins[x][y])
    {
      assert g[x] == Column(t, x);
    }
    firsts, lasts := MarkFirstLast(t);
    FilledMarks(g, ins);
    FilledMarkedCells(g, ins);
  }

  /** The columns of a grid just filled: sentinel plus a base tile exactly
      at the cells `ins` says are inside. */
  ghost predicate FilledGrid(g: seq<seq<seq<Layer>>>, ins: seq<seq<bool>>) {
    |g| == Cols && |ins| == Cols
    && (forall x :: 0 <= x < Cols ==> |g[x]| == Rows && |ins[x]| == Rows)
    && forall x, y :: 0 <= x < Cols && 0 <= y < Rows ==> g[x][y] == FilledCell(ins[x][y])
  }

  /** On a filled grid the marking pass records the smallest and the
      largest inside row of every column that has one. */
  lemma FilledMarks(g: seq<seq<seq<Layer>>>, ins: seq<seq<bool>>)
    requires FilledGrid(g, ins)
    ensures MarksOf(ins, FirstMarks(g, Cols), LastMarks(g, Cols))
    ensures forall x: nat :: x in LastMarks(g, Cols) ==> LastMarks(g, Cols)[x] < Rows
  {
    var firsts, lasts := FirstMarks(g, Cols), LastMarks(g, Cols);
    forall x: nat
      ensures x in lasts ==> lasts[x] < Rows
      ensures x in lasts <==> x in firsts
      ensures x in firsts <==> x < |ins| && exists y :: 0 <= y < |ins[x]| && ins[x][y]
      ensures x in firsts ==> x < |ins| && FirstRow(ins[x], firsts[x])
      ensures x in lasts ==> x < |ins| && LastRow(ins[x], lasts[x])
    {
      FilledMarksAt(g, ins, x);
    }
  }

  /** The same for one column x. */
  lemma FilledMarksAt(g: seq<seq<seq<Layer>>>, ins: seq<seq<bool>>, x: nat)
    requires FilledGrid(g, ins)
    ensures x in LastMarks(g, Cols) <==> x in FirstMarks(g, Cols)
    ensures x in FirstMarks(g, Cols) <==> x < |ins| && exists y :: 0 <= y < |ins[x]| && ins[x][y]
    ensures x in FirstMarks(g, Cols) ==> x < |ins| && FirstRow(ins[x], FirstMarks(g, Cols)[x])
    ensures x in LastMarks(g, Cols) ==> x < |ins| && LastRow(ins[x], LastMarks(g, Cols)[x])
  {
    var firsts, lasts := FirstMarks(g, Cols), LastMarks(g, Cols);
    FirstMarksOf(g, Cols);
    LastMarksOf(g, Cols);
    if x < Cols {
      FilledOccupancy(g[x], ins[x]);
      FirstTrueSpec(ins[x]);
      LastTrueSpec(ins[x]);
      if x in firsts {
        assert Some(firsts[x]) == FirstTrue(ins[x]);
      }
      if x in lasts {
        assert Some(lasts[x]) == LastTrue(ins[x]);
      }
    }
  }

  /** On a filled grid, the marking pass flags layer 1 of a cell as first
      exactly at its column's first mark and as last exactly at its last
      mark. */
  lemma FilledMarkedCells(g: seq<seq<seq<Layer>>>, ins: seq<seq<bool>>)
    requires FilledGrid(g, ins)
    ensures forall x, y :: 0 <= x < Cols && 0 <= y < Rows ==>
      MarkedCell(g[x], y) == Marked(FilledCell(ins[x][y]),
                                    x in FirstMarks(g, Cols) && FirstMarks(g, Cols)[x] == y,
                                    x in LastMarks(g, Cols) && LastMarks(g, Cols)[x] == y)
  {
    var firsts, lasts := FirstMarks(g, Cols), LastMarks(g, Cols);
    FirstMarksOf(g, Cols);
    LastMarksOf(g, Cols);
    forall x, y | 0 <= x < Cols && 0 <= y < Rows
      ensures MarkedCell(g[x], y) == Marked(FilledCell(ins[x][y]),
                                            x in firsts && firsts[x] == y, x in lasts && lasts[x] == y)
    {
      var occ := Occupancy(g[x]);
      assert FirstTrue(occ) == Some(y) <==> x in firsts && firsts[x] == y;
      assert LastTrue(occ) == Some(y) <==> x in lasts && lasts[x] == y;
    }
  }

  /** A filled cell, marked, gap-filled and piled with boxes: it stands on
      its sentinel; it has a base tile as layer 1 when it is inside or in
      the gap; and a cell that is neither holds its sentinel and the boxes
      alone. */
  lemma FinalCell(inside: bool, f: bool, l: bool, gap: bool, added: seq<Layer>)
    ensures var c := GapCell(Marked(FilledCell(inside), f, l), gap) + added;
      |c| >= 1 && c[0] == Ground
      && (inside || gap ==> BaseCell(c))
      && (!inside && !gap ==> c == [Ground] + added)
  {
  }

  /** The grid passes of `setup()` in order, over the cleaned ring, the
      graffiti reports and the boxes drawn for each report. The grid is
      160 x 160. A column has first and last marks exactly when one of its
      cells is inside, at its smallest and largest inside rows. Every cell
      ends up as its interior fill, marked, gap-filled, then piled with
      the boxes of the reports binned to it; so every cell keeps its
      sentinel, a cell inside the ring or between its column's first and
      last marks has a base tile as layer 1, and any other cell holds only
      its sentinel and its boxes. */
  method BuildTerrain(ring: seq<Point>, points: seq<Point>, stacks: seq<seq<Layer>>)
    returns (t: array2<seq<Layer>>, firsts: map<nat, nat>, lasts: map<nat, nat>)
    requires |ring| > 0 && |stacks| == |points|
    ensures fresh(t) && t.Length0 == Cols && t.Length1 == Rows
    ensures MarksOf(InsideGrid(ring, Bounds(ring)), firsts, lasts)
    ensures forall x, y :: 0 <= x < Cols && 0 <= y < Rows ==>
      t[x, y] == GapCell(Marked(FilledCell(InsideGrid(ring, Bounds(ring))[x][y]),
                                x in firsts && firsts[x] == y, x in lasts && lasts[x] == y),
                         InGap(firsts, lasts, x, y))
                 + Added(points, stacks, Bounds(ring), Cols, Rows, x, y, |points|)
    ensures Grounded(t)
    ensures forall x, y :: 0 <= x < Cols && 0 <= y < Rows && InsideGrid(ring, Bounds(ring))[x][y] ==>
      BaseCell(t[x, y])
    ensures forall x, y :: 0 <= x < Cols && 0 <= y < Rows && x in firsts && firsts[x] <= y <= lasts[x] ==>
      BaseCell(t[x, y])
    ensures forall x, y ::
      (0 <= x < Cols && 0 <= y < Rows && !InsideGrid(ring, Bounds(ring))[x][y]
       && !(x in firsts && firsts[x] <= y <= lasts[x])) ==>
      t[x, y] == [Ground] + Added(points, stacks, Bounds(ring), Cols, Rows, x, y, |points|)
  {
    var box := Bounds(ring);
    ghost var ins := InsideGrid(ring, box);
    t := FillStage(ring);
    firsts, lasts := MarkStage(t, ins);
    label Marked:
    GapFill(t, firsts, lasts);
    label Gapped:
    BinGraffiti(t, box, points, stacks);
    TerrainCells(t, ins, box, points, stacks, firsts, lasts);
  }

  /** The consequences, cell by cell, of the construction's final grid,
      where `ins` says which cells are inside: every cell keeps its
      sentinel, a cell inside or between its column's marks has a base
      tile as layer 1, and any other cell holds only its sentinel and its
      boxes. */
  lemma TerrainCells(t: array2<seq<Layer>>, ins: seq<seq<bool>>, box: BBox,
                     points: seq<Point>, stacks: seq<seq<Layer>>, firsts: map<nat, nat>, lasts: map<nat, nat>)
    requires |stacks| == |points|
    requires t.Length0 == Cols && t.Length1 == Rows
    requires |ins| == Cols && forall x :: 0 <= x < Cols ==> |ins[x]| == Rows
    requires MarksOf(ins, firsts, lasts)
    requires forall x, y :: 0 <= x < Cols && 0 <= y < Rows ==>
      t[x, y] == GapCell(Marked(FilledCell(ins[x][y]), x in firsts && firsts[x] == y, x in lasts && lasts[x] == y),
                         InGap(firsts, lasts, x, y))
                 + Added(points, stacks, box, Cols, Rows, x, y, |points|)
    ensures Grounded(t)
    ensures forall x, y :: 0 <= x < Cols && 0 <= y < Rows && ins[x][y] ==> BaseCell(t[x, y])
    ensures forall x, y :: 0 <= x < Cols && 0 <= y < Rows && x in firsts && firsts[x] <= y <= lasts[x] ==>
      BaseCell(t[x, y])
    ensures forall x, y ::
      (0 <= x < Cols && 0 <= y < Rows && !ins[x][y] && !(x in firsts && firsts[x] <= y <= lasts[x])) ==>
      t[x, y] == [Ground] + Added(points, stacks, box, Cols, Rows, x, y, |points|)
  {
    forall x, y | 0 <= x < Cols && 0 <= y < Rows
      ensures |t[x, y]| >= 1 && t[x, y][0] == Ground
      ensures ins[x][y] ==> BaseCell(t[x, y])
      ensures x in firsts && firsts[x] <= y <= lasts[x] ==> BaseCell(t[x, y])
      ensures !ins[x][y] && !(x in firsts && firsts[x] <= y <= lasts[x]) ==>
        t[x, y] == [Ground] + Added(points, stacks, box, Cols, Rows, x, y, |points|)
    {
      var f, l := x in firsts && firsts[x] == y, x in lasts && lasts[x] == y;
      FinalCell(ins[x][y], f, l, InGap(firsts, lasts, x, y), Added(points, stacks, box, Cols, Rows, x, y, |points|));
      if x in firsts && lasts[x] == y {
        assert LastRow(ins[x], y);
      }
    }
  }
}
