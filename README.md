# Graffiti City terrain, modelled in Dafny

Graffiti City is a p5.js sketch (`sketch.js`). It turns the Manhattan
border, given as Well-Known Text, and a list of graffiti reports into a
voxel terrain that can be saved as STL. This project models the part of
`setup()` that builds that terrain, together with its helpers:

- **`cleaningCoordinates`** (module `Wkt`, with `Text` and `Number`).
  It reads the border's `MULTIPOLYGON` text (OGC Simple Features Access,
  Part 1, section 7) as one closed ring of lon/lat points:
  - the keyword is removed once, and every parenthesis is removed;
  - the text is trimmed and split on commas;
  - each chunk is trimmed and split on whitespace runs;
  - the first two tokens are read with JavaScript's `Number`;
  - the ring is closed by appending a copy of its first point when the
    first and last points differ.
- **`pointInPolygon`** (module `RayCast`): ray casting in lon/lat space.
  It is a method that walks the edges once. It is proved equal to a
  crossing-parity specification, and closing a ring is proved not to
  change the answer.
- **Grid geometry** (module `Geo`):
  - the ring's bounding box (`Math.min`/`Math.max`);
  - p5's `map`;
  - the centre of a grid cell (`gridIndexToLonLat`);
  - the `floor(map(...))` binning of a graffiti report.
- **The terrain passes of `setup()`** (module `Terrain`). The grid is a
  160 x 160 `array2` of layer stacks, updated in place:
  - initialisation with the `{h: 0}` sentinel;
  - the interior fill;
  - the first/last marking pass (`whoIsTheFirst`, `whoIsTheLast`);
  - the gap fill;
  - the graffiti stacks.

  `BuildTerrain` chains the passes. It gives every final cell outright:
  its interior fill, marked at its column's smallest and largest inside
  rows, gap-filled, then piled with the boxes binned to it. From that it
  proves that every cell keeps its sentinel, that every inside cell and
  every cell between a column's first and last mark has a base tile, and
  that every other cell holds only its sentinel and its boxes.

A second part of `Wkt` writes a ring of decimals as WKT text. It proves
that cleaning that text gives back the ring's points, closed. The round
trip covers what that writer produces: one ring, vertices separated by
", ", each coordinate an optional `-`, digits and an optional fraction.
Separate lemmas cover the `+` sign (`Number.ParsePlus`) and the exponent
branch of `Number` (`Number.ParseExponentSigned`,
`Number.ParseUnsignedExponent`). No lemma covers a leading or trailing
`.`, tabs or newlines between tokens, or text with several rings; the
functions read those as their definitions say.

Coordinates are exact reals. `random()` is a parameter: the stacks of
boxes for each report. The construction accepts any stacks;
`Terrain.AddedBounds` shows what stacks that `random` can draw (those
meeting `Terrain.ValidStack`) add to a cell.

## Model

| member | source | states |
|---|---|---|
| `Wkt.CleaningCoordinates` | sketch.js:203-225 | On success the ring is non-empty and closed, its i-th point is the i-th comma-separated chunk read as "lon lat", and it has one point more than there are chunks exactly when the first and last chunk points differ (otherwise as many); it fails exactly when some chunk cannot be read |
| `Wkt.ReadRing` | sketch.js:213-224 | Reading every chunk and closing the ring: closed, chunk points first in order, one point added exactly when the first and last chunk points differ, error exactly when some chunk is unreadable |
| `Wkt.Pairs` | sketch.js:205-210 | The chunks number one more than the commas left after stripping, and each chunk is trimmed |
| `Wkt.Chunks` | sketch.js:209-210 | Splitting on commas and trimming gives one trimmed chunk per comma plus one |
| `Wkt.ReadAll` | sketch.js:213-216 | Either every chunk reads as the point at the same index, or the error is the index of the first unreadable chunk and all earlier chunks read |
| `Wkt.Close` | sketch.js:219-223 | The ring starts with the given points, ends with its first point, and grows by one exactly when first and last differ |
| `Wkt.CloseIdempotent` | sketch.js:219-223 | Closing a closed ring changes nothing |
| `Wkt.CloseKeepsInside` | sketch.js:218-223 | Closing the ring never changes the point-in-polygon answer |
| `Wkt.CleanFormatted` | sketch.js:203-225 | Cleaning the WKT text of a ring of decimals gives back exactly its points, closed |
| `Wkt.FormatVertexReads` | sketch.js:214 | A vertex written as "lon lat" is read back as its point |
| `Wkt.FormatVertexText` | sketch.js:214 | Writer half of the `CleanFormatted` round trip: a written vertex, the input line 214 reads, is non-empty, trimmed and made of number characters and spaces |
| `Wkt.PairsRingText` | sketch.js:205-210 | The chunks of a written ring are exactly its vertex texts |
| `Wkt.SpacedPairSplit` | sketch.js:214 | Two number texts joined by a space split on whitespace into the two |
| `Text.Trim` | sketch.js:208 | The result starts and ends with a non-whitespace character (or is empty) and is no longer than the input |
| `Text.TrimStart` | sketch.js:208 | Only a whitespace prefix is removed, and the result does not start with whitespace |
| `Text.TrimEnd` | sketch.js:208 | Only a whitespace suffix is removed, and the result does not end with whitespace |
| `Text.TrimPadded` | sketch.js:208 | Trimming a trimmed string padded with whitespace on both sides gives it back |
| `Text.SplitPieces` | sketch.js:209 | `split(",")` gives one piece per separator plus one, none containing the separator |
| `Text.JoinSplit` | sketch.js:209 | Joining the pieces of a split with the separator gives back the string |
| `Text.SplitJoin` | sketch.js:209 | Splitting separator-free pieces joined by the separator gives back the pieces |
| `Text.SplitWhitePieces` | sketch.js:214 | `split(/\s+/)` gives whitespace-free pieces, only the first and last possibly empty, and those only when the string starts or ends with whitespace (or is empty) |
| `Text.SplitWhiteAfterToken` | sketch.js:214 | A token followed by a whitespace run splits off as the first piece |
| `Text.RemoveFirst` | sketch.js:206 | The result is the input or shorter by exactly the pattern's length |
| `Text.RemoveFirstAt` | sketch.js:206 | When the pattern first occurs at k, exactly that occurrence is cut out |
| `Text.RemoveFirstAbsent` | sketch.js:206 | When the pattern does not occur, nothing is removed |
| `Text.RemoveParens` | sketch.js:207 | No parenthesis is left and the string does not grow |
| `Text.RemoveParensCounts` | sketch.js:207 | Every other character keeps its number of occurrences |
| `Text.RemoveParensConcat` | sketch.js:207 | Removing parentheses distributes over concatenation |
| `Number.IndexOf` | sketch.js:214 | The first position of a character, absent exactly when the character does not occur |
| `Number.ExponentMark` | sketch.js:214 | The first exponent marker: an `e` or `E` with neither before it, absent exactly when neither occurs |
| `Number.ParseFormatDecimal` | sketch.js:214 | `Number` reads a written decimal back as its exact value |
| `Number.ParseFormatMagnitude` | sketch.js:214 | An unsigned written decimal reads back as its magnitude |
| `Number.ParseNegative` | sketch.js:214 | A leading minus sign negates the unsigned reading, whatever follows it |
| `Number.ParsePlus` | sketch.js:214 | A leading plus sign leaves the unsigned reading unchanged |
| `Number.ParseExponentSigned` | sketch.js:214 | An exponent of digits reads as their value, unchanged by `+` and negated by `-` |
| `Number.ParseUnsignedExponent` | sketch.js:214 | A mantissa, an `e` or `E` and an exponent read as the mantissa's value scaled by 10 to the exponent |
| `Number.ParsePointed` | sketch.js:214 | Digits, a point and digits read as whole part plus shifted fraction |
| `Number.ShiftPow10` | sketch.js:214 | Moving the decimal point k places left divides by 10^k |
| `Number.Scale10Up` | sketch.js:214 | A non-negative exponent e multiplies by 10^e |
| `Number.Scale10Down` | sketch.js:214 | A negative exponent -k moves the point k places left |
| `Number.NatDigitsValue` | sketch.js:214 | Writer half of the `CleanFormatted` round trip: the digit string of n reads as n |
| `Number.FixedDigitsValue` | sketch.js:214 | Writer half of the `CleanFormatted` round trip: the zero-padded fraction digits read as the fraction |
| `RayCast.PointInPolygon` | sketch.js:229-246 | The loop's answer is whether an odd number of the ring's edges cross the rightward ray |
| `RayCast.Crosses` | sketch.js:239-241 | A crossed edge is not horizontal and straddles the ray's latitude, so the division is never by zero |
| `RayCast.Inside` | sketch.js:229-246 | An empty ring contains no point |
| `RayCast.InsideClosed` | sketch.js:218-223 | Appending a copy of the first vertex never changes the answer |
| `RayCast.CrossingsClosed` | sketch.js:232 | The closing edge is degenerate and the old wrap-around edge reappears, so the crossing count is unchanged |
| `Geo.Min` | sketch.js:37-40 | `Math.min` of a non-empty list is one of its elements and bounds all of them from below |
| `Geo.Max` | sketch.js:37-40 | `Math.max` of a non-empty list is one of its elements and bounds all of them from above |
| `Geo.Bounds` | sketch.js:37-40 | Every vertex lies within the box and every bound is attained by some vertex |
| `Geo.RemapEnds` | sketch.js:250-251 | p5's `map` sends the ends of the source range to the ends of the target range |
| `Geo.RemapInside` | sketch.js:250-251 | A strictly interior value lands strictly inside the target range |
| `Geo.RemapWithin` | sketch.js:122-123 | A value inside the source range lands inside the target range |
| `Geo.CellCentre` | sketch.js:249-253 | The centre of a grid cell is strictly inside a box of positive size, and on a flat box it is the box's edge |
| `Geo.BinIndex` | sketch.js:122-123 | No index exactly when the box is flat; a coordinate inside the box gets an index in 0..n-1 |
| `Geo.BinIndexInGrid` | sketch.js:122-124 | With two or more columns, the index is inside the grid exactly when the coordinate lies in [lo, hi + (hi - lo)/(n - 1)) |
| `Geo.BinIndexLastColumn` | sketch.js:122-124 | Inside the box, only the far edge is binned to the last column |
| `Terrain.InitTerrain` | sketch.js:43-45 | A fresh cols x rows grid whose every cell is just the sentinel |
| `Terrain.FillInterior` | sketch.js:48-72 | Every cell whose centre is inside the ring gets exactly one base tile on top; no other cell changes |
| `Terrain.FirstTrueSpec` | sketch.js:82-89 | The first occupied row exists exactly when some row is occupied; it is occupied and no row before it is |
| `Terrain.LastTrueSpec` | sketch.js:91-93 | The last occupied row exists exactly when some row is occupied; it is occupied and no row after it is |
| `Terrain.ScanStep` | sketch.js:82-94 | One more row of the scan: the first mark becomes this row only when none was found and it is occupied; the last mark becomes this row when it is occupied |
| `Terrain.ScanColumn` | sketch.js:79-94 | The scan of one column finds its first and last occupied rows and flags `first` on the first one only |
| `Terrain.MarkColumn` | sketch.js:79-99 | One column's first and last occupied rows are found and flagged; other columns do not change |
| `Terrain.MarkFirstLast` | sketch.js:74-100 | `whoIsTheFirst`/`whoIsTheLast` hold the first and last occupied row of every column that has one, and each cell carries exactly those flags |
| `Terrain.FirstMarksOf` | sketch.js:74-89 | A column has a first mark exactly when one of its cells is occupied, and it is the first occupied row |
| `Terrain.LastMarksOf` | sketch.js:75-99 | A column has a last mark exactly when one of its cells is occupied, and it is the last occupied row |
| `Terrain.Marked` | sketch.js:85-97 | Marking never changes how many layers a cell has |
| `Terrain.GapFill` | sketch.js:103-117 | Every sentinel-only cell in `[first, last)` of its column gets one base tile; no other cell changes |
| `Terrain.BinCell` | sketch.js:122-124 | A report is placed exactly when both indices fall inside the grid, and then the cell is in the grid |
| `Terrain.BinGraffiti` | sketch.js:121-135 | Every cell ends with its old layers followed by the stacks of the reports binned to it, in report order |
| `Terrain.AddedBounds` | sketch.js:125-132 | A cell hit by h reports gets between h and 4h layers, all of them boxes |
| `Terrain.FillStage` | sketch.js:43-72 | The filled grid: sentinel plus a base tile exactly at the cells whose centre is inside |
| `Terrain.FilledOccupancy` | sketch.js:83 | A filled column is occupied exactly at its inside cells |
| `Terrain.MarkStage` | sketch.js:74-100 | On the filled grid, a column has marks exactly when one of its cells is inside; its first mark is its smallest inside row and its last mark its largest; each cell is its filled value flagged first exactly at the first mark and last exactly at the last |
| `Terrain.FilledMarks` | sketch.js:74-100 | The same facts about the marks, on the column values of a filled grid, and every last mark is a row of the grid |
| `Terrain.FilledMarksAt` | sketch.js:74-100 | The same facts for one column |
| `Terrain.FilledMarkedCells` | sketch.js:78-99 | Marking a filled grid flags layer 1 of a cell first exactly at its column's first mark and last exactly at its last mark |
| `Terrain.FinalCell` | sketch.js:43-135 | A filled, marked, gap-filled cell piled with boxes stands on its sentinel, has a base tile when inside or in the gap, and is otherwise the sentinel and the boxes alone |
| `Terrain.TerrainCells` | sketch.js:43-135 | From the final cell values: every sentinel kept, a base tile on every inside cell and every cell from a column's first to its last mark, and only the sentinel and boxes on every other cell |
| `Terrain.BuildTerrain` | sketch.js:21-135 | The 160 x 160 grid's marks are each column's smallest and largest inside rows; each cell is its fill, marked, gap-filled and piled with its reports' boxes; so every sentinel is kept, every inside cell and every cell from a column's first to its last mark has a base tile, and every other cell holds only its sentinel and its boxes |

## Left out

- Loading the data (`preload`, `loadJSON`) and taking the WKT from `data[4][12]`: I/O. The WKT text and the graffiti points are parameters.
- Rendering: `createCanvas`, colours, `buildGeometry`, `draw`, the STL button and its save. These are drawing calls, not terrain construction.
- `random` and `noiseDetail`: randomness. Each report's stack of boxes is a parameter, and `BuildTerrain` accepts any stacks. `Terrain.ValidStack` says what `floor(random(1, 5))` boxes of the given size ranges can be, and `Terrain.AddedBounds` bounds what such stacks add.
- `console.log("fill in gap!")`: output only.
- Floating point: coordinates, `map` and the crossing test use exact reals. Rounding, NaN and infinities are not modelled, except where noted below.
- `Geo.Remap`: p5's `map` is library code outside `sketch.js`. The model takes it to be `c + (v - a) / (b - a) * (d - c)`, called without the `withinBounds` argument, and takes p5's `floor` to be the mathematical floor of that value.
- `Geo.BinIndex`: a flat box makes p5's `map` divide by zero. The result (NaN or an infinity) always fails the grid check, so the model returns `None` and the report is skipped.
- `Number.ParseFormatDecimal`: `Number` is modelled for signed decimal literals with an optional fraction and exponent. `Infinity`, hexadecimal, binary and octal literals are read as malformed.
- `Wkt.CleaningCoordinates`: a chunk with fewer than two tokens, or with a token `Number` cannot read, makes the model return the chunk's index. The source carries on with `undefined` or NaN coordinates.
- `Wkt.ReadAll`: the `lat`/`lon` destructuring ignores tokens after the second, as the source does. A missing token is modelled only as failure.
- `Terrain.Layer`: the `first` and `last` flags are fields of every layer. The source sets them as properties on the layer object at index 1, whatever its shape.
- `Terrain.GapFill`: `whoIsTheFirst[x]` undefined makes the source's loop not run. The model reads this as "no gap", which is the same behaviour.
- Strings: a Dafny `char` is a Unicode scalar value, while JavaScript strings are UTF-16 code units. Every character the cleaner looks for (commas, parentheses, whitespace, digits, signs, `e`) is one unit in both, so the operations modelled split and trim the same way.
