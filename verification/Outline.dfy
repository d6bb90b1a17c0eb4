/**
 The outline check of the manufacturing exporter: every point must be the end of
 an even number of lines. This accepts exactly the lines that are closed walks.
 */
module Outline {
  import opened Prelude

  datatype Point = Point(x: real, y: real)

  datatype Line = Line(from: Point, to: Point) {
    function Flipped(): Line { Line(to, from) }
    function Ends(): set<Point> { {from, to} }
  }

  /** `Arc` is any polygon vertex that is not an `xy` pair. */
  datatype Vertex = Xy(point: Point) | Arc

  /** A board-level shape on the Edge.Cuts layer. */
  datatype Shape =
    | GrRect(start: Point, end: Point)
    | GrLine(line: Line)
    | GrPoly(vertices: seq<Vertex>)
    | GrOther(kind: string)

  datatype OutlineError = UnsupportedShape | ArcInPolygon | NotClosed

  // ---------- Degrees ----------

  function EndCount(e: Line, p: Point): nat {
    (if e.from == p then 1 else 0) + (if e.to == p then 1 else 0)
  }

  function Degree(lines: seq<Line>, p: Point): nat {
    if lines == [] then 0 else EndCount(lines[0], p) + Degree(lines[1..], p)
  }

  /** Both ends of every line, in order: the list the exporter counts in. */
  function LineEnds(lines: seq<Line>): seq<Point> {
    if lines == [] then [] else [lines[0].from, lines[0].to] + LineEnds(lines[1..])
  }

  lemma {:induction false} CountIsDegree(lines: seq<Line>, p: Point)
    ensures multiset(LineEnds(lines))[p] == Degree(lines, p)
  {
    if lines != [] {
      CountIsDegree(lines[1..], p);
    }
  }

  /** `not any(line_ends.count(p) % 2 for p in line_ends)`. */
  predicate AllEven(ends: seq<Point>) {
    forall i :: 0 <= i < |ends| ==> multiset(ends)[ends[i]] % 2 == 0
  }

  // ---------- Closed walks ----------

  /** Each line ends where the next one starts. */
  predicate IsTrail(w: seq<Line>) {
    forall i :: 0 < i < |w| ==> w[i - 1].to == w[i].from
  }

  predicate IsClosedWalk(w: seq<Line>) {
    w != [] && IsTrail(w) && w[|w| - 1].to == w[0].from
  }

  /** The lines without their direction, each counted as often as it is drawn. */
  ghost function Edges(lines: seq<Line>): multiset<set<Point>> {
    if lines == [] then multiset{} else multiset{lines[0].Ends()} + Edges(lines[1..])
  }

  ghost predicate AreClosedWalks(walks: seq<seq<Line>>) {
    forall i :: 0 <= i < |walks| ==> IsClosedWalk(walks[i])
  }

  /** Walked in suitable directions and order, the lines are a number of closed walks, each line used once. */
  ghost predicate SplitIntoClosedWalks(lines: seq<Line>) {
    exists walks: seq<seq<Line>> :: AreClosedWalks(walks) && Edges(Concat(walks)) == Edges(lines)
  }

  // ---------- Sums over concatenation and removal ----------

  lemma {:induction false} SplitSums(a: seq<Line>, b: seq<Line>)
    ensures Edges(a + b) == Edges(a) + Edges(b)
    ensures forall p :: Degree(a + b, p) == Degree(a, p) + Degree(b, p)
  {
    if a == [] {
      assert a + b == b;
    } else {
      assert (a + b)[1..] == a[1..] + b;
      SplitSums(a[1..], b);
    }
  }

  function Without(lines: seq<Line>, j: nat): (r: seq<Line>)
    requires j < |lines|
    ensures |r| == |lines| - 1
  {
    lines[..j] + lines[j + 1..]
  }

  lemma RemoveSums(lines: seq<Line>, j: nat)
    requires j < |lines|
    ensures Edges(lines) == multiset{lines[j].Ends()} + Edges(Without(lines, j))
    ensures forall p :: Degree(lines, p) == EndCount(lines[j], p) + Degree(Without(lines, j), p)
  {
    hide Edges, Degree;
    var a, e, b := lines[..j], lines[j], lines[j + 1..];
    assert lines == a + ([e] + b);
    SplitSums(a, b);
    SplitSums(a, [e] + b);
    FirstSums(e, b);
  }

  lemma FirstSums(e: Line, b: seq<Line>)
    ensures Edges([e] + b) == multiset{e.Ends()} + Edges(b)
    ensures forall p :: Degree([e] + b, p) == EndCount(e, p) + Degree(b, p)
  {
    assert ([e] + b)[1..] == b;
  }

  lemma {:induction false} FindEnd(lines: seq<Line>, p: Point) returns (j: nat)
    requires Degree(lines, p) > 0
    ensures j < |lines| && (lines[j].from == p || lines[j].to == p)
  {
    if lines[0].from == p || lines[0].to == p {
      j := 0;
    } else {
      j := FindEnd(lines[1..], p);
      j := j + 1;
    }
  }

  lemma {:induction false} FindEdge(lines: seq<Line>, e: set<Point>) returns (j: nat)
    requires e in Edges(lines)
    ensures j < |lines| && lines[j].Ends() == e
  {
    if lines[0].Ends() == e {
      j := 0;
    } else {
      j := FindEdge(lines[1..], e);
      j := j + 1;
    }
  }

  // ---------- Closed walks have even degrees ----------

  lemma SameEnds(a: Line, b: Line, p: Point)
    requires a.Ends() == b.Ends()
    ensures EndCount(a, p) == EndCount(b, p)
  {
    assert a.from in b.Ends() && a.to in b.Ends() && b.from in a.Ends() && b.to in a.Ends();
  }

  lemma NoEdges(lines: seq<Line>)
    requires Edges(lines) == multiset{}
    ensures lines == []
  {
  }

  /** Degrees do not depend on the order or direction of the lines. */
  lemma {:induction false} SameDegrees(a: seq<Line>, b: seq<Line>, p: Point)
    requires Edges(a) == Edges(b)
    ensures Degree(a, p) == Degree(b, p)
    decreases |a|
  {
    if a == [] {
      NoEdges(b);
    } else {
      assert a[0].Ends() in Edges(a);
      var j := FindEdge(b, a[0].Ends());
      RemoveSums(b, j);
      assert Edges(a[1..]) == Edges(a) - multiset{a[0].Ends()};
      assert Edges(Without(b, j)) == Edges(b) - multiset{a[0].Ends()};
      SameDegrees(a[1..], Without(b, j), p);
      SameEnds(a[0], b[j], p);
    }
  }

  predicate IsOddAt(w: seq<Line>, p: Point) {
    w != [] && ((w[0].from == p) != (w[|w| - 1].to == p))
  }

  lemma {:induction false} TrailParity(w: seq<Line>, p: Point)
    requires IsTrail(w)
    ensures Degree(w, p) % 2 == (if IsOddAt(w, p) then 1 else 0)
  {
    if |w| > 1 {
      assert w[1..][|w| - 2] == w[|w| - 1] && w[1..][0] == w[1];
      assert w[0].to == w[1].from;
      TrailParity(w[1..], p);
    } else if |w| == 1 {
      assert w[1..] == [];
    }
  }

  lemma {:induction false} WalksParity(walks: seq<seq<Line>>, p: Point)
    requires AreClosedWalks(walks)
    ensures Degree(Concat(walks), p) % 2 == 0
  {
    if walks != [] {
      TrailParity(walks[0], p);
      WalksParity(walks[1..], p);
      SplitSums(walks[0], Concat(walks[1..]));
    }
  }

  // ---------- Even degrees give closed walks ----------

  /** A trail whose two ends make up for the odd degrees of the lines not used yet. */
  ghost predicate Balances(trail: seq<Line>, rest: seq<Line>) {
    forall p :: Degree(rest, p) % 2 == if IsOddAt(trail, p) then 1 else 0
  }

  lemma NextLine(rest: seq<Line>, b: Point) returns (e: Line, j: nat)
    requires Degree(rest, b) > 0
    ensures j < |rest| && e.from == b && e.Ends() == rest[j].Ends()
    ensures Edges(rest) == multiset{e.Ends()} + Edges(Without(rest, j))
    ensures forall p :: Degree(rest, p) == EndCount(e, p) + Degree(Without(rest, j), p)
  {
    j := FindEnd(rest, b);
    e := if rest[j].from == b then rest[j] else rest[j].Flipped();
    RemoveSums(rest, j);
    hide Edges, Degree;
  }

  /** The next line moves the odd point from the old end of the trail to the new one. */
  lemma MoveEnd(trail: seq<Line>, e: Line, p: Point)
    requires trail != [] && trail[|trail| - 1].to == e.from
    ensures (if IsOddAt(trail, p) then 1 else 0) % 2
         == (EndCount(e, p) + (if IsOddAt(trail + [e], p) then 1 else 0)) % 2
  {
  }

  lemma TrailMore(trail: seq<Line>, e: Line)
    requires IsTrail(trail) && trail != [] && trail[|trail| - 1].to == e.from
    ensures IsTrail(trail + [e])
  {
    assert forall i :: 0 < i < |trail| ==> (trail + [e])[i - 1].to == (trail + [e])[i].from;
  }

  lemma StaysBalanced(trail: seq<Line>, rest: seq<Line>, e: Line, left: seq<Line>)
    requires trail != [] && trail[|trail| - 1].to == e.from && Balances(trail, rest)
    requires forall p :: Degree(rest, p) == EndCount(e, p) + Degree(left, p)
    ensures Balances(trail + [e], left)
  {
    hide Degree, IsOddAt, EndCount;
    forall p
      ensures Degree(left, p) % 2 == if IsOddAt(trail + [e], p) then 1 else 0
    {
      assert Degree(rest, p) == EndCount(e, p) + Degree(left, p);
      MoveEnd(trail, e, p);
    }
  }

  lemma OpenEnd(trail: seq<Line>, rest: seq<Line>)
    requires trail != [] && !IsClosedWalk(trail) && IsTrail(trail) && Balances(trail, rest)
    ensures Degree(rest, trail[|trail| - 1].to) > 0
  {
    assert IsOddAt(trail, trail[|trail| - 1].to);
    hide Degree;
  }

  lemma ExtendTrail(trail: seq<Line>, rest: seq<Line>) returns (e: Line, j: nat)
    requires IsTrail(trail) && trail != [] && !IsClosedWalk(trail) && Balances(trail, rest)
    ensures j < |rest| && Edges(rest) == multiset{e.Ends()} + Edges(Without(rest, j))
    ensures IsTrail(trail + [e]) && Balances(trail + [e], Without(rest, j))
  {
    hide *;
    OpenEnd(trail, rest);
    e, j := NextLine(rest, trail[|trail| - 1].to);
    TrailMore(trail, e);
    StaysBalanced(trail, rest, e, Without(rest, j));
  }

  lemma EdgesOfOne(e: Line)
    ensures Edges([e]) == multiset{e.Ends()}
  {
    assert [e][1..] == [];
  }

  lemma FirstWalk(walk: seq<Line>, others: seq<seq<Line>>)
    requires IsClosedWalk(walk) && AreClosedWalks(others)
    ensures AreClosedWalks([walk] + others)
    ensures Edges(Concat([walk] + others)) == Edges(walk) + Edges(Concat(others))
  {
    assert ([walk] + others)[1..] == others;
    SplitSums(walk, Concat(others));
  }

  /** Follow a trail until it closes, then start again with the lines that are left. */
  lemma {:induction false} Decompose(trail: seq<Line>, rest: seq<Line>) returns (walks: seq<seq<Line>>)
    requires IsTrail(trail) && Balances(trail, rest)
    ensures AreClosedWalks(walks) && Edges(Concat(walks)) == Edges(trail) + Edges(rest)
    decreases |rest|, |trail|
  {
    if trail == [] && rest == [] {
      walks := [];
    } else if trail == [] {
      StartTrail(rest);
      EdgesOfOne(rest[0]);
      walks := Decompose([rest[0]], rest[1..]);
    } else if IsClosedWalk(trail) {
      var others := Decompose([], rest);
      FirstWalk(trail, others);
      walks := [trail] + others;
    } else {
      hide Edges, Concat, IsClosedWalk, Balances;
      var e, j := ExtendTrail(trail, rest);
      MoveEdge(trail, e, Edges(Without(rest, j)));
      walks := Decompose(trail + [e], Without(rest, j));
    }
  }

  lemma MoveEdge(trail: seq<Line>, e: Line, others: multiset<set<Point>>)
    ensures Edges(trail + [e]) + others == Edges(trail) + (multiset{e.Ends()} + others)
  {
    SplitSums(trail, [e]);
    EdgesOfOne(e);
    hide Edges;
  }

  lemma StartTrail(rest: seq<Line>)
    requires rest != [] && Balances([], rest)
    ensures Balances([rest[0]], rest[1..])
  {
    forall p
      ensures Degree(rest[1..], p) % 2 == if IsOddAt([rest[0]], p) then 1 else 0
    {
      assert Degree(rest, p) == EndCount(rest[0], p) + Degree(rest[1..], p);
      assert Degree(rest, p) % 2 == 0;
    }
  }

  lemma EvenIfCounted(lines: seq<Line>, p: Point)
    ensures AllEven(LineEnds(lines)) ==> Degree(lines, p) % 2 == 0
  {
    CountIsDegree(lines, p);
    hide LineEnds, Degree;
    if p in LineEnds(lines) {
      var i :| 0 <= i < |LineEnds(lines)| && LineEnds(lines)[i] == p;
    }
  }

  lemma EvenIsClosed(lines: seq<Line>)
    requires AllEven(LineEnds(lines))
    ensures SplitIntoClosedWalks(lines)
  {
    hide AllEven, LineEnds, Degree, Edges;
    forall p
      ensures Degree(lines, p) % 2 == if IsOddAt([], p) then 1 else 0
    {
      EvenIfCounted(lines, p);
    }
    EdgesOfNone();
    var walks := Decompose([], lines);
    assert AreClosedWalks(walks) && Edges(Concat(walks)) == Edges(lines);
  }

  lemma EdgesOfNone()
    ensures Edges([]) == multiset{}
  {
  }

  lemma ClosedIsEven(lines: seq<Line>)
    requires SplitIntoClosedWalks(lines)
    ensures AllEven(LineEnds(lines))
  {
    var walks: seq<seq<Line>> :| AreClosedWalks(walks) && Edges(Concat(walks)) == Edges(lines);
    hide Edges, LineEnds, Degree, Concat, AreClosedWalks;
    forall i | 0 <= i < |LineEnds(lines)|
      ensures multiset(LineEnds(lines))[LineEnds(lines)[i]] % 2 == 0
    {
      var p := LineEnds(lines)[i];
      CountIsDegree(lines, p);
      SameDegrees(Concat(walks), lines, p);
      WalksParity(walks, p);
    }
  }

  /** The degree test is exact: it accepts the lines that split into closed walks and no others. */
  lemma EvenExactlyClosed(lines: seq<Line>)
    ensures AllEven(LineEnds(lines)) <==> SplitIntoClosedWalks(lines)
  {
    hide AllEven, SplitIntoClosedWalks;
    if AllEven(LineEnds(lines)) { EvenIsClosed(lines); }
    if SplitIntoClosedWalks(lines) { ClosedIsEven(lines); }
  }

  /** A chain of lines that does not return to its start is refused, wherever else the board is closed. */
  lemma OpenChainIsRefused(chain: seq<Line>, closed: seq<Line>)
    requires IsTrail(chain) && chain != [] && !IsClosedWalk(chain) && SplitIntoClosedWalks(closed)
    ensures !AllEven(LineEnds(chain + closed)) && !SplitIntoClosedWalks(chain + closed)
  {
    hide AllEven, SplitIntoClosedWalks, LineEnds, Degree, IsTrail, IsClosedWalk;
    var p := chain[0].from;
    OpenTrailIsOdd(chain);
    EvenExactlyClosed(closed);
    EvenIfCounted(closed, p);
    SplitSums(chain, closed);
    OddPlusEven(Degree(chain, p), Degree(closed, p));
    OddIsRefused(chain + closed, p);
  }

  lemma OpenTrailIsOdd(chain: seq<Line>)
    requires IsTrail(chain) && chain != [] && !IsClosedWalk(chain)
    ensures Degree(chain, chain[0].from) % 2 == 1
  {
    TrailParity(chain, chain[0].from);
    assert IsOddAt(chain, chain[0].from);
  }

  lemma OddPlusEven(a: nat, b: nat)
    requires a % 2 == 1 && b % 2 == 0
    ensures (a + b) % 2 == 1
  {
  }

  lemma OddIsRefused(lines: seq<Line>, p: Point)
    requires Degree(lines, p) % 2 == 1
    ensures !AllEven(LineEnds(lines)) && !SplitIntoClosedWalks(lines)
  {
    EvenIfCounted(lines, p);
    EvenExactlyClosed(lines);
  }

  // ---------- The check on the shapes of a board ----------

  function Lines(shapes: seq<Shape>): seq<Line> {
    if shapes == [] then []
    else (if shapes[0].GrLine? then [shapes[0].line] else []) + Lines(shapes[1..])
  }

  function VertexPoints(vertices: seq<Vertex>): seq<Point> {
    if vertices == [] then []
    else (match vertices[0] case Xy(p) => [p] case Arc => []) + VertexPoints(vertices[1..])
  }

  function ShapePoints(s: Shape): seq<Point> {
    match s
    case GrRect(start, end) => [start, end]
    case GrLine(line) => [line.from, line.to]
    case GrPoly(vertices) => VertexPoints(vertices)
    case GrOther(_) => []
  }

  function Points(shapes: seq<Shape>): seq<Point> {
    if shapes == [] then [] else ShapePoints(shapes[0]) + Points(shapes[1..])
  }

  predicate HasArc(s: Shape) {
    s.GrPoly? && Arc in s.vertices
  }

  lemma {:induction false} ConcatShapes(a: seq<Shape>, b: seq<Shape>)
    ensures Points(a + b) == Points(a) + Points(b)
    ensures Lines(a + b) == Lines(a) + Lines(b)
  {
    if a == [] {
      assert a + b == b;
    } else {
      assert (a + b)[1..] == a[1..] + b;
      ConcatShapes(a[1..], b);
      Associate(ShapePoints(a[0]), Points(a[1..]), Points(b));
      Associate(if a[0].GrLine? then [a[0].line] else [], Lines(a[1..]), Lines(b));
    }
  }

  lemma {:induction false} ConcatEnds(a: seq<Line>, b: seq<Line>)
    ensures LineEnds(a + b) == LineEnds(a) + LineEnds(b)
  {
    if a == [] {
      assert a + b == b;
    } else {
      assert (a + b)[1..] == a[1..] + b;
      ConcatEnds(a[1..], b);
      Associate([a[0].from, a[0].to], LineEnds(a[1..]), LineEnds(b));
    }
  }

  lemma MoreShapes(shapes: seq<Shape>, n: nat)
    requires n < |shapes|
    ensures Points(shapes[..n + 1]) == Points(shapes[..n]) + ShapePoints(shapes[n])
    ensures LineEnds(Lines(shapes[..n + 1]))
         == LineEnds(Lines(shapes[..n])) + if shapes[n].GrLine? then ShapePoints(shapes[n]) else []
  {
    var a, s := shapes[..n], shapes[n];
    assert shapes[..n + 1] == a + [s];
    ConcatShapes(a, [s]);
    ConcatEnds(Lines(a), Lines([s]));
    OneShape(s);
  }

  lemma OneShape(s: Shape)
    ensures Points([s]) == ShapePoints(s)
    ensures LineEnds(Lines([s])) == if s.GrLine? then ShapePoints(s) else []
  {
    assert [s][1..] == [];
    if s.GrLine? {
      assert Lines([s]) == [s.line] && [s.line][1..] == [];
    }
  }

  lemma NoShapes()
    ensures Points([]) == [] && LineEnds(Lines([])) == []
  {
  }

  predicate AnyOther(shapes: seq<Shape>) {
    exists i :: 0 <= i < |shapes| && shapes[i].GrOther?
  }

  predicate AnyArc(shapes: seq<Shape>) {
    exists i :: 0 <= i < |shapes| && HasArc(shapes[i])
  }

  /** The loop that gathers the points of the outline and the ends of its lines. */
  method CollectPoints(shapes: seq<Shape>) returns (arc: bool, points: seq<Point>, lineEnds: seq<Point>)
    requires !AnyOther(shapes)
    ensures arc <==> AnyArc(shapes)
    ensures !arc ==> points == Points(shapes) && lineEnds == LineEnds(Lines(shapes))
  {
    arc, points, lineEnds := false, [], [];
    assert shapes[..0] == [];
    NoShapes();
    assert forall k :: 0 <= k < |shapes| ==> !shapes[k].GrOther?;
    hide Points, Lines, LineEnds, VertexPoints, AnyOther;
    for i := 0 to |shapes|
      invariant forall k :: 0 <= k < i ==> !HasArc(shapes[k])
      invariant points == Points(shapes[..i]) && lineEnds == LineEnds(Lines(shapes[..i]))
    {
      MoreShapes(shapes, i);
      match shapes[i] {
        case GrPoly(vertices) =>
          if Arc in vertices {
            assert HasArc(shapes[i]);
            arc := true;
            return;
          }
          points := points + VertexPoints(vertices);
        case GrRect(start, end) =>
          points := points + [start, end];
        case GrLine(line) =>
          points := points + [line.from, line.to];
          lineEnds := lineEnds + [line.from, line.to];
        case GrOther(_) =>
          assert false;
      }
    }
    assert shapes[..|shapes|] == shapes;
  }

  /**
   The outline part of the exporter's `main`: the points of the outline, or the
   reason it is refused. Shapes are checked before points, points before lines.
   */
  method CheckOutline(shapes: seq<Shape>) returns (r: Result<seq<Point>, OutlineError>)
    ensures r == Err(UnsupportedShape) <==> AnyOther(shapes)
    ensures r == Err(ArcInPolygon) <==> !AnyOther(shapes) && AnyArc(shapes)
    ensures r.Ok? <==> !AnyOther(shapes) && !AnyArc(shapes)
                       && Points(shapes) != [] && SplitIntoClosedWalks(Lines(shapes))
    ensures r.Ok? ==> r.value == Points(shapes)
  {
    for i := 0 to |shapes|
      invariant forall k :: 0 <= k < i ==> !shapes[k].GrOther?
    {
      if shapes[i].GrOther? { return Err(UnsupportedShape); }
    }
    hide AnyArc, Points, Lines, LineEnds, AllEven, SplitIntoClosedWalks;
    var arc, points, lineEnds := CollectPoints(shapes);
    if arc { return Err(ArcInPolygon); }
    EvenExactlyClosed(Lines(shapes));
    if points == [] || !AllEven(lineEnds) { return Err(NotClosed); }
    return Ok(points);
  }

  // ---------- The size of the board ----------

  /** The corners of a shape: both ends of a line, two opposite ones of a rectangle, every vertex of a polygon. */
  predicate IsCorner(s: Shape, p: Point) {
    match s
    case GrRect(start, end) => p == start || p == end
    case GrLine(line) => p == line.from || p == line.to
    case GrPoly(vertices) => Xy(p) in vertices
    case GrOther(_) => false
  }

  lemma {:induction false} VerticesAreCorners(vertices: seq<Vertex>, p: Point)
    ensures p in VertexPoints(vertices) <==> Xy(p) in vertices
  {
    if vertices != [] {
      VerticesAreCorners(vertices[1..], p);
      assert vertices == [vertices[0]] + vertices[1..];
    }
  }

  lemma ShapeCorners(s: Shape, p: Point)
    ensures p in ShapePoints(s) <==> IsCorner(s, p)
  {
    if s.GrPoly? { VerticesAreCorners(s.vertices, p); }
  }

  /** The outline consists of the corners of its shapes and of no other point. */
  lemma {:induction false} PointsAreCorners(shapes: seq<Shape>, p: Point)
    ensures p in Points(shapes) <==> exists s :: s in shapes && IsCorner(s, p)
  {
    if shapes != [] {
      var first, rest := shapes[0], shapes[1..];
      PointsAreCorners(rest, p);
      ShapeCorners(first, p);
      assert forall s :: s in shapes <==> s == first || s in rest;
      hide IsCorner, ShapePoints;
    }
  }

  /** The least and the greatest of some coordinates. */
  datatype Extent = Extent(least: real, greatest: real) {
    function With(x: real): Extent {
      Extent(if x < least then x else least, if x > greatest then x else greatest)
    }

    function Size(): real { greatest - least }
  }

  function ExtentOf(coordinates: seq<real>): (e: Extent)
    requires coordinates != []
    ensures forall x :: x in coordinates ==> e.least <= x <= e.greatest
    ensures e.least in coordinates && e.greatest in coordinates
  {
    var n := |coordinates| - 1;
    if n == 0 then Extent(coordinates[0], coordinates[0])
    else
      assert forall x :: x in coordinates <==> x in coordinates[..n] || x == coordinates[n];
      ExtentOf(coordinates[..n]).With(coordinates[n])
  }

  function Xs(points: seq<Point>): (xs: seq<real>)
    ensures |xs| == |points| && forall i :: 0 <= i < |xs| ==> xs[i] == points[i].x
  {
    seq(|points|, i requires 0 <= i < |points| => points[i].x)
  }

  function Ys(points: seq<Point>): (ys: seq<real>)
    ensures |ys| == |points| && forall i :: 0 <= i < |ys| ==> ys[i] == points[i].y
  {
    seq(|points|, i requires 0 <= i < |points| => points[i].y)
  }

  /** A box of this size at `at` holds every corner of the shapes. */
  ghost predicate Holds(shapes: seq<Shape>, at: Point, width: real, height: real) {
    forall s, p :: s in shapes && IsCorner(s, p) ==> at.x <= p.x <= at.x + width && at.y <= p.y <= at.y + height
  }

  /** The size that the exporter writes down is that of the smallest box around the board's corners. */
  lemma SizeIsSmallestBox(shapes: seq<Shape>)
    requires Points(shapes) != []
    ensures var w, h := ExtentOf(Xs(Points(shapes))).Size(), ExtentOf(Ys(Points(shapes))).Size();
            && (exists at :: Holds(shapes, at, w, h))
            && forall at, width, height :: Holds(shapes, at, width, height) ==> w <= width && h <= height
  {
    hide Points, ExtentOf, Holds;
    var points := Points(shapes);
    var x, y := ExtentOf(Xs(points)), ExtentOf(Ys(points));
    BoxHolds(shapes, x, y);
    forall at, width, height | Holds(shapes, at, width, height)
      ensures x.Size() <= width && y.Size() <= height
    {
      Inside(shapes, at, width, height);
    }
  }

  lemma BoxHolds(shapes: seq<Shape>, x: Extent, y: Extent)
    requires Points(shapes) != [] && x == ExtentOf(Xs(Points(shapes))) && y == ExtentOf(Ys(Points(shapes)))
    ensures Holds(shapes, Point(x.least, y.least), x.Size(), y.Size())
  {
    hide Points, IsCorner, ExtentOf;
    forall s, p | s in shapes && IsCorner(s, p)
      ensures x.least <= p.x <= x.greatest && y.least <= p.y <= y.greatest
    {
      PointsAreCorners(shapes, p);
      PointInside(Points(shapes), p);
    }
  }

  lemma PointInside(points: seq<Point>, p: Point)
    requires p in points
    ensures var x, y := ExtentOf(Xs(points)), ExtentOf(Ys(points));
            x.least <= p.x <= x.greatest && y.least <= p.y <= y.greatest
  {
    hide ExtentOf;
    var i :| 0 <= i < |points| && points[i] == p;
    assert Xs(points)[i] == p.x && Ys(points)[i] == p.y;
    assert p.x in Xs(points) && p.y in Ys(points);
  }

  lemma Inside(shapes: seq<Shape>, at: Point, width: real, height: real)
    requires Points(shapes) != [] && Holds(shapes, at, width, height)
    ensures ExtentOf(Xs(Points(shapes))).Size() <= width && ExtentOf(Ys(Points(shapes))).Size() <= height
  {
    hide Points, IsCorner, ExtentOf;
    var points := Points(shapes);
    forall i | 0 <= i < |points|
      ensures at.x <= points[i].x <= at.x + width && at.y <= points[i].y <= at.y + height
    {
      PointsAreCorners(shapes, points[i]);
    }
    var x, y := ExtentOf(Xs(points)), ExtentOf(Ys(points));
    assert at.x <= x.least && x.greatest <= at.x + width;
    assert at.y <= y.least && y.greatest <= at.y + height;
  }
}
