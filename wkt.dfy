/**
 * `cleaningCoordinates`: turns the Well-Known Text of the Manhattan border
 * (a `MULTIPOLYGON`, OGC Simple Features Access, Part 1, section 7) into one
 * closed ring of lon/lat points. The keyword and every parenthesis are
 * dropped, the rest is split on commas, each chunk is read as "lon lat",
 * and the ring is closed by repeating its first point when needed.
 */
module Wkt {

  import opened Wrappers
  import opened Text
  import opened Number
  import opened Geo
  import RayCast

  const Keyword: string := "MULTIPOLYGON"

  /** The text after removing the keyword (first occurrence) and every
      parenthesis, trimmed. */
  function Stripped(wkt: string): string {
    Trim(RemoveParens(RemoveFirst(wkt, Keyword)))
  }

  /** `pairs`: the comma-separated chunks of the stripped text, each
      trimmed. There is one chunk per comma plus one, never zero. */
  function Pairs(wkt: string): (ps: seq<string>)
    ensures |ps| == multiset(Stripped(wkt))[','] + 1
    ensures forall i :: 0 <= i < |ps| ==> Trimmed(ps[i])
  {
    Chunks(Stripped(wkt))
  }

  /** The comma-separated chunks of a text, each trimmed. */
  function Chunks(s: string): (ps: seq<string>)
    ensures |ps| == multiset(s)[','] + 1
    ensures forall i :: 0 <= i < |ps| ==> Trimmed(ps[i])
  {
    SplitPieces(s, ',');
    TrimEach(Split(s, ','))
  }

  /** `.map(s => s.trim())` */
  function TrimEach(ps: seq<string>): seq<string>
  {
    seq(|ps|, i requires 0 <= i < |ps| => Trim(ps[i]))
  }

  /** One chunk read as a point: its first whitespace-separated token is
      the longitude and its second the latitude; later tokens are ignored.
      A chunk with fewer than two tokens, or with a token `Number` cannot
      read, gives `None`. */
  function ParsePair(chunk: string): Option<Point>
  {
    var toks := SplitWhite(chunk);
    if |toks| < 2 then None
    else
      match (ParseNumber(toks[0]), ParseNumber(toks[1]))
      case (Some(lon), Some(lat)) => Some(Point(lon, lat))
      case _ => None
  }

  /** `pairs.map(...)`: every chunk read as a point, or the index of the
      first chunk that cannot be read. */
  function ReadAll<T>(chunks: seq<string>, read: string -> Option<T>): (r: Result<seq<T>, nat>)
    ensures r.Ok? ==> |r.value| == |chunks|
    ensures r.Ok? ==> forall i :: 0 <= i < |chunks| ==> read(chunks[i]) == Some(r.value[i])
    ensures r.Err? ==> r.error < |chunks| && read(chunks[r.error]).None?
    ensures r.Err? ==> forall i :: 0 <= i < r.error ==> read(chunks[i]).Some?
  {
    if chunks == [] then Ok([])
    else
      match read(chunks[0])
      case None => Err(0)
      case Some(p) =>
        var rest := ReadAll(chunks[1..], read);
        assert forall i :: 1 <= i < |chunks| ==> chunks[i] == chunks[1..][i - 1];
        match rest
        case Ok(ps) =>
          var r := [p] + ps;
          assert forall i :: 1 <= i < |chunks| ==> r[i] == ps[i - 1];
          Ok(r)
        case Err(i) => Err(i + 1)
  }

  /** The closing step: when the first and last points differ, a copy of
      the first point is appended. The result is a closed ring that starts
      with the given points, one longer only when they were not closed. */
  function Close(coords: seq<Point>): (r: seq<Point>)
    requires |coords| > 0
    ensures |r| == if coords[|coords| - 1] == coords[0] then |coords| else |coords| + 1
    ensures r[..|coords|] == coords
    ensures r[|r| - 1] == r[0]
  {
    var first, last := coords[0], coords[|coords| - 1];
    if first.lon != last.lon || first.lat != last.lat then coords + [first] else coords
  }

  /** `cleaningCoordinates`. On success the ring is non-empty and closed,
      and its points are, in order, the chunks read as points, followed by
      at most one copy of the first; otherwise the index of the first chunk
      that cannot be read is returned. */
  function CleaningCoordinates(wkt: string): (r: Result<seq<Point>, nat>)
    ensures r.Ok? ==> |r.value| > 0 && r.value[|r.value| - 1] == r.value[0]
    ensures r.Ok? ==> |Pairs(wkt)| <= |r.value| <= |Pairs(wkt)| + 1
    ensures r.Ok? ==> (|r.value| == |Pairs(wkt)| + 1 <==> r.value[0] != r.value[|Pairs(wkt)| - 1])
    ensures r.Ok? ==>
      forall i :: 0 <= i < |Pairs(wkt)| ==> ParsePair(Pairs(wkt)[i]) == Some(r.value[i])
    ensures r.Err? <==> exists i :: 0 <= i < |Pairs(wkt)| && ParsePair(Pairs(wkt)[i]).None?
  {
    ReadRing(Pairs(wkt), ParsePair)
  }

  /** The chunks read by `read` and closed into a ring, or the index of
      the first chunk that cannot be read. */
  function ReadRing(chunks: seq<string>, read: string -> Option<Point>): (r: Result<seq<Point>, nat>)
    requires |chunks| > 0
    ensures r.Ok? ==> |r.value| > 0 && r.value[|r.value| - 1] == r.value[0]
    ensures r.Ok? ==> |chunks| <= |r.value| <= |chunks| + 1
    ensures r.Ok? ==> (|r.value| == |chunks| + 1 <==> r.value[0] != r.value[|chunks| - 1])
    ensures r.Ok? ==> forall i :: 0 <= i < |chunks| ==> read(chunks[i]) == Some(r.value[i])
    ensures r.Err? <==> exists i :: 0 <= i < |chunks| && read(chunks[i]).None?
  {
    match ReadAll(chunks, read)
    case Ok(coords) =>
      var r := Close(coords);
      assert forall i :: 0 <= i < |coords| ==> r[i] == r[..|coords|][i];
      assert r[0] == coords[0] && r[|coords| - 1] == coords[|coords| - 1];
      Ok(r)
    case Err(e) => Err(e)
  }

  /** Closing an already closed ring changes nothing. */
  lemma CloseIdempotent(coords: seq<Point>)
    requires |coords| > 0
    ensures Close(Close(coords)) == Close(coords)
  {
    var r := Close(coords);
    assert r[0] == r[..|coords|][0];
  }

  /** Closing the ring never changes the point-in-polygon answer, so the
      closing step only makes the ring explicit. */
  lemma CloseKeepsInside(p: Point, coords: seq<Point>)
    requires |coords| > 0
    ensures RayCast.Inside(p, Close(coords)) == RayCast.Inside(p, coords)
  {
    if Close(coords) != coords {
      RayCast.InsideClosed(p, coords);
    }
  }

  // ---------------------------------------------------------------------
  // Writing a ring as WKT, and cleaning it back

  /** A vertex as written in the source data: two decimals. */
  datatype Vertex = Vertex(lon: Decimal, lat: Decimal)

  predicate WellFormedVertex(v: Vertex) {
    WellFormed(v.lon) && WellFormed(v.lat)
  }

  function ToPoint(v: Vertex): Point {
    Point(Value(v.lon), Value(v.lat))
  }

  function ToPoints(vs: seq<Vertex>): seq<Point>
  {
    seq(|vs|, i requires 0 <= i < |vs| => ToPoint(vs[i]))
  }

  /** "lon lat" */
  function FormatVertex(v: Vertex): string
    requires WellFormedVertex(v)
  {
    FormatDecimal(v.lon) + " " + FormatDecimal(v.lat)
  }

  /** The texts of a ring's vertices, in order. */
  function VertexTexts(vs: seq<Vertex>): seq<string>
    requires forall i :: 0 <= i < |vs| ==> WellFormedVertex(vs[i])
  {
    seq(|vs|, i requires 0 <= i < |vs| => FormatVertex(vs[i]))
  }

  /** The comma-separated pieces of a ring: the vertex texts, each but the
      first preceded by a space (as in "x y, x y, x y"). */
  function Spaced(ts: seq<string>): (ps: seq<string>)
    ensures |ps| == |ts|
  {
    seq(|ts|, i requires 0 <= i < |ts| => if i == 0 then ts[i] else " " + ts[i])
  }

  /** "MULTIPOLYGON (((x y, x y, ...)))" for the given vertex texts. */
  function RingText(ts: seq<string>): string {
    Keyword + " (((" + Join(Spaced(ts), ',') + ")))"
  }

  function FormatWkt(vs: seq<Vertex>): string
    requires forall i :: 0 <= i < |vs| ==> WellFormedVertex(vs[i])
  {
    RingText(VertexTexts(vs))
  }

  /** Cleaning the WKT text of a ring gives back the ring's points, closed. */
  lemma CleanFormatted(vs: seq<Vertex>)
    requires |vs| > 0
    requires forall i :: 0 <= i < |vs| ==> WellFormedVertex(vs[i])
    ensures CleaningCoordinates(FormatWkt(vs)) == Ok(Close(ToPoints(vs)))
  {
    var ts := VertexTexts(vs);
    forall i | 0 <= i < |ts|
      ensures VertexText(ts[i])
    {
      FormatVertexText(vs[i]);
    }
    PairsRingText(ts);
    var ps := ToPoints(vs);
    forall i | 0 <= i < |vs|
      ensures ParsePair(ts[i]) == Some(ps[i])
    {
      FormatVertexReads(vs[i]);
    }
    ReadAllReads(ts, ps);
  }

  /** Chunks that each read as the corresponding point are read as those
      points. */
  lemma ReadAllReads(chunks: seq<string>, ps: seq<Point>)
    requires |chunks| == |ps|
    requires forall i :: 0 <= i < |chunks| ==> ParsePair(chunks[i]) == Some(ps[i])
    ensures ReadAll(chunks, ParsePair) == Ok(ps)
  {
    var r := ReadAll(chunks, ParsePair);
    if r.Ok? {
      assert r.value == ps;
    }
  }

  /** The characters a written number is made of. */
  predicate IsNumberChar(c: char) {
    IsDigit(c) || c == '.' || c == '-'
  }

  predicate NumberText(s: string) {
    s != [] && (forall i :: 0 <= i < |s| ==> IsNumberChar(s[i])) && IsDigit(s[|s| - 1])
  }

  /** What a written vertex looks like: non-empty, trimmed, and made of
      number characters and spaces only. */
  predicate VertexText(t: string) {
    t != [] && Trimmed(t) && forall k :: 0 <= k < |t| ==> IsNumberChar(t[k]) || t[k] == ' '
  }

  lemma FormatDecimalText(d: Decimal)
    requires WellFormed(d)
    ensures NumberText(FormatDecimal(d))
  {
    var m := FormatMagnitude(d);
    if d.places != 0 {
      var ip, fp := NatDigits(d.whole), FixedDigits(d.frac, d.places);
      assert m == ip + "." + fp;
      assert m[|m| - 1] == fp[|fp| - 1];
    }
    assert forall i :: 0 <= i < |m| ==> IsNumberChar(m[i]);
    var s := FormatDecimal(d);
    assert s == (if d.negative then "-" else "") + m;
  }

  /** A vertex is written as two number texts around one space. */
  lemma FormatVertexText(v: Vertex)
    requires WellFormedVertex(v)
    ensures VertexText(FormatVertex(v))
  {
    FormatDecimalText(v.lon);
    FormatDecimalText(v.lat);
    SpacedPairText(FormatDecimal(v.lon), FormatDecimal(v.lat));
  }

  /** Two number texts joined by a space make a vertex text. */
  lemma SpacedPairText(a: string, b: string)
    requires NumberText(a) && NumberText(b)
    ensures VertexText(a + " " + b)
  {
    var s := a + " " + b;
    assert s[0] == a[0] && s[|s| - 1] == b[|b| - 1];
    forall i | 0 <= i < |s|
      ensures IsNumberChar(s[i]) || s[i] == ' '
    {
      if i < |a| {
        assert s[i] == a[i];
      } else if i > |a| {
        assert s[i] == b[i - |a| - 1];
      }
    }
  }

  /** A written vertex reads back as its point. */
  lemma FormatVertexReads(v: Vertex)
    requires WellFormedVertex(v)
    ensures ParsePair(FormatVertex(v)) == Some(ToPoint(v))
  {
    FormatDecimalText(v.lon);
    FormatDecimalText(v.lat);
    SpacedPairSplit(FormatDecimal(v.lon), FormatDecimal(v.lat));
    ParseFormatDecimal(v.lon);
    ParseFormatDecimal(v.lat);
  }

  /** Two number texts joined by a space split back into the two. */
  lemma SpacedPairSplit(a: string, b: string)
    requires NumberText(a) && NumberText(b)
    ensures SplitWhite(a + " " + b) == [a, b]
  {
    assert NoWhite(a) by {
      assert forall i :: 0 <= i < |a| ==> IsNumberChar(a[i]);
    }
    assert NoWhite(b) by {
      assert forall i :: 0 <= i < |b| ==> IsNumberChar(b[i]);
    }
    assert !IsWhite(b[0]);
    SplitWhiteAfterToken(a, " ", b);
    SplitWhiteToken(b);
  }

  /** The chunks of a ring's text are exactly its vertex texts. */
  lemma PairsRingText(ts: seq<string>)
    requires |ts| > 0
    requires forall i :: 0 <= i < |ts| ==> VertexText(ts[i])
    ensures Pairs(RingText(ts)) == ts
  {
    var pieces := Spaced(ts);
    SpacedChars(ts);
    StrippedRingText(ts);
    SplitJoin(pieces, ',');
    TrimSpaced(ts);
  }

  /** Trimming the spaced pieces gives back the vertex texts. */
  lemma TrimSpaced(ts: seq<string>)
    requires forall i :: 0 <= i < |ts| ==> VertexText(ts[i])
    ensures TrimEach(Spaced(ts)) == ts
  {
    var pieces := Spaced(ts);
    forall i | 0 <= i < |ts|
      ensures Trim(pieces[i]) == ts[i]
    {
      var pad := if i == 0 then "" else " ";
      assert pieces[i] == pad + ts[i];
      TrimLeftPadded(pad, ts[i]);
    }
  }

  lemma TrimLeftPadded(pad: string, t: string)
    requires AllWhite(pad) && Trimmed(t)
    ensures Trim(pad + t) == t
  {
    assert pad + t == pad + t + "";
    TrimPadded(pad, t, "");
  }

  /** Every character of a spaced piece is a number character or a space. */
  lemma SpacedChars(ts: seq<string>)
    requires forall i :: 0 <= i < |ts| ==> VertexText(ts[i])
    ensures forall i :: 0 <= i < |ts| ==> ',' !in Spaced(ts)[i]
    ensures forall i, k :: 0 <= i < |ts| && 0 <= k < |Spaced(ts)[i]| ==>
      !IsParen(Spaced(ts)[i][k])
  {
    var pieces := Spaced(ts);
    forall i, k | 0 <= i < |ts| && 0 <= k < |pieces[i]|
      ensures IsNumberChar(pieces[i][k]) || pieces[i][k] == ' '
    {
      if i > 0 && k > 0 {
        assert pieces[i][k] == ts[i][k - 1];
      }
    }
  }

  /** Removing the keyword and parentheses and trimming leaves exactly the
      comma-joined pieces. */
  lemma StrippedRingText(ts: seq<string>)
    requires |ts| > 0
    requires forall i :: 0 <= i < |ts| ==> VertexText(ts[i])
    ensures Stripped(RingText(ts)) == Join(Spaced(ts), ',')
  {
    var pieces := Spaced(ts);
    SpacedChars(ts);
    JoinChars(pieces, ',');
    BodyTrimmed(ts);
    StrippedWrapped(Join(pieces, ','));
  }

  /** The keyword and the parentheses around a trimmed, parenthesis-free
      body are stripped off exactly. */
  lemma StrippedWrapped(body: string)
    requires Trimmed(body)
    requires forall k :: 0 <= k < |body| ==> !IsParen(body[k])
    ensures Stripped(Keyword + " (((" + body + ")))") == body
  {
    var rest := " (((" + body + ")))";
    KeywordRemoved(rest);
    assert Keyword + " (((" + body + ")))" == Keyword + rest;
    ParensRemoved(body);
    TrimPadded(" ", body, "");
    assert " " + body == " " + body + "";
  }

  /** The keyword at the start of the text is the occurrence removed. */
  lemma KeywordRemoved(rest: string)
    ensures RemoveFirst(Keyword + rest, Keyword) == rest
  {
    var s := Keyword + rest;
    assert s[..|Keyword|] == Keyword;
  }

  lemma ParensRemoved(body: string)
    requires forall k :: 0 <= k < |body| ==> !IsParen(body[k])
    ensures RemoveParens(" (((" + body + ")))") == " " + body
  {
    var tail := body + ")))";
    assert " (((" + body + ")))" == " (((" + tail;
    RemoveParensConcat(" (((", tail);
    OpeningRemoved();
    RemoveParensNone(body);
    RemoveParensConcat(body, ")))");
    ClosingRemoved();
    assert RemoveParens(tail) == body;
  }

  lemma OpeningRemoved()
    ensures RemoveParens(" (((") == " "
  {
    assert " (((" [1..] == "(((";
  }

  lemma ClosingRemoved()
    ensures RemoveParens(")))") == ""
  {
  }

  /** Every character of a joined string is a separator or a character of a
      piece; so a join of paren-free pieces with a comma is paren-free. */
  lemma {:induction false} JoinChars(ps: seq<string>, sep: char)
    requires !IsParen(sep)
    requires forall i, k :: 0 <= i < |ps| && 0 <= k < |ps[i]| ==> !IsParen(ps[i][k])
    ensures forall k :: 0 <= k < |Join(ps, sep)| ==> !IsParen(Join(ps, sep)[k])
  {
    if |ps| > 1 {
      JoinChars(ps[1..], sep);
      var t := Join(ps[1..], sep);
      var j := Join(ps, sep);
      assert j == ps[0] + [sep] + t;
      forall k | 0 <= k < |j|
        ensures !IsParen(j[k])
      {
        if k < |ps[0]| {
          assert j[k] == ps[0][k];
        } else if k == |ps[0]| {
          assert j[k] == sep;
        } else {
          assert j[k] == t[k - |ps[0]| - 1];
        }
      }
    }
  }

  /** The joined pieces begin with the first vertex text and end with the
      last one, so they have no whitespace at either end. */
  lemma BodyTrimmed(ts: seq<string>)
    requires |ts| > 0
    requires forall i :: 0 <= i < |ts| ==> VertexText(ts[i])
    ensures Trimmed(Join(Spaced(ts), ','))
  {
    var pieces := Spaced(ts);
    var a, b := ts[0], ts[|ts| - 1];
    assert VertexText(a) && VertexText(b);
    assert pieces[0] == a;
    var last := pieces[|ts| - 1];
    assert last == b || last == " " + b;
    assert last[|last| - 1] == b[|b| - 1];
    JoinEnds(pieces, ',');
  }

  lemma {:induction false} JoinEnds(ps: seq<string>, sep: char)
    requires |ps| > 0 && ps[0] != [] && ps[|ps| - 1] != []
    ensures Join(ps, sep) != []
    ensures Join(ps, sep)[0] == ps[0][0]
    ensures Join(ps, sep)[|Join(ps, sep)| - 1] == ps[|ps| - 1][|ps[|ps| - 1]| - 1]
  {
    if |ps| > 1 {
      var t := Join(ps[1..], sep);
      if |ps| > 2 {
        assert ps[1..][0] == ps[1];
        assert ps[1] != [] || ps[1] == [];
        JoinEndsLast(ps[1..], sep);
      } else {
        assert t == ps[1];
      }
    }
  }

  lemma {:induction false} JoinEndsLast(ps: seq<string>, sep: char)
    requires |ps| > 0 && ps[|ps| - 1] != []
    ensures Join(ps, sep) != []
    ensures Join(ps, sep)[|Join(ps, sep)| - 1] == ps[|ps| - 1][|ps[|ps| - 1]| - 1]
  {
    if |ps| > 1 {
      JoinEndsLast(ps[1..], sep);
    }
  }
}
