/**
  Integer line rasterisation (Bresenham's line algorithm) as both versions of
  the editor run it. Both keep an error accumulator that starts at dx - dy and
  decide each step from e2 = 2 * err; app.js tests `e2 > -dy` and `e2 < dx`,
  draw.js (which stores dy negated) tests `e2 >= dy` and `e2 <= dx`.

  The loop state is a `Pos`; `Trace` lists the positions the loop moves to
  after the start, so `Line` is the full sequence of visited positions.
 */
module Raster {
  import opened Pixels

  /** From (x0, y0) to (x1, y1). */
  datatype Segment = Segment(x0: int, y0: int, x1: int, y1: int)

  /** app.js steps on strict comparisons, draw.js on non-strict ones. */
  datatype Mode = Strict | Inclusive

  /** The loop variables: the current position and the error accumulator. */
  datatype Pos = Pos(x: int, y: int, err: int)

  function Abs(n: int): nat {
    if n < 0 then -n else n
  }

  function Dx(s: Segment): int { Abs(s.x1 - s.x0) }
  function Dy(s: Segment): int { Abs(s.y1 - s.y0) }
  function Sx(s: Segment): int { if s.x0 < s.x1 then 1 else -1 }
  function Sy(s: Segment): int { if s.y0 < s.y1 then 1 else -1 }

  /** How far x has travelled from x0 towards x1. */
  function Px(s: Segment, x: int): int {
    if s.x0 < s.x1 then x - s.x0 else s.x0 - x
  }

  /** How far y has travelled from y0 towards y1. */
  function Py(s: Segment, y: int): int {
    if s.y0 < s.y1 then y - s.y0 else s.y0 - y
  }

  function Start(s: Segment): Pos {
    Pos(s.x0, s.y0, Dx(s) - Dy(s))
  }

  predicate AtEnd(s: Segment, p: Pos) {
    p.x == s.x1 && p.y == s.y1
  }

  /**
    `a * b` by repeated addition. The loop invariant below uses it so that
    reasoning about a drawing loop stays linear; `TimesIsProduct` connects it
    to multiplication where a proof needs the product.
   */
  function Times(a: nat, b: int): int {
    if a == 0 then 0 else Times(a - 1, b) + b
  }

  lemma {:induction false} TimesIsProduct(a: nat, b: int)
    ensures Times(a, b) == a * b
  {
    if a > 0 {
      TimesIsProduct(a - 1, b);
    }
  }

  /**
    The loop invariant: the position has not overshot the end point in either
    coordinate, and the accumulator is the scaled distance of the position
    from the ideal line, dx - dy + py * dx - px * dy.
   */
  ghost predicate OnTrack(s: Segment, p: Pos) {
    0 <= Px(s, p.x) <= Dx(s) && 0 <= Py(s, p.y) <= Dy(s) &&
    p.err == Dx(s) - Dy(s) + Times(Py(s, p.y), Dx(s)) - Times(Px(s, p.x), Dy(s))
  }

  /** The distance still to travel: the loop's termination measure. */
  function Remaining(s: Segment, p: Pos): int {
    (Dx(s) - Px(s, p.x)) + (Dy(s) - Py(s, p.y))
  }

  predicate StepsX(m: Mode, s: Segment, e2: int) {
    match m
    case Strict => e2 > -Dy(s)
    case Inclusive => e2 >= -Dy(s)
  }

  predicate StepsY(m: Mode, s: Segment, e2: int) {
    match m
    case Strict => e2 < Dx(s)
    case Inclusive => e2 <= Dx(s)
  }

  /** One pass through the loop body: both tests read the same e2. */
  function Step(m: Mode, s: Segment, p: Pos): Pos {
    var e2 := 2 * p.err;
    var stepX := StepsX(m, s, e2);
    var stepY := StepsY(m, s, e2);
    Pos(if stepX then p.x + Sx(s) else p.x,
        if stepY then p.y + Sy(s) else p.y,
        p.err - (if stepX then Dy(s) else 0) + (if stepY then Dx(s) else 0))
  }

  function CoordOf(p: Pos): Coord {
    Coord(p.x, p.y)
  }

  /** The positions the loop moves to from `p` until it reaches the end point. */
  function Trace(m: Mode, s: Segment, p: Pos): seq<Coord>
    requires OnTrack(s, p)
    decreases Remaining(s, p)
  {
    if AtEnd(s, p) then []
    else
      StepKeepsTrack(m, s, p);
      var q := Step(m, s, p);
      [CoordOf(q)] + Trace(m, s, q)
  }

  /** Every position the loop visits, the start point first. */
  function Line(m: Mode, s: Segment): (path: seq<Coord>)
    ensures forall c :: c in path ==> InBox(s, c)
  {
    StartOnTrack(s);
    TraceInBox(m, s, Start(s));
    [Coord(s.x0, s.y0)] + Trace(m, s, Start(s))
  }

  predicate Adjacent(a: Coord, b: Coord) {
    Abs(a.x - b.x) <= 1 && Abs(a.y - b.y) <= 1
  }

  /** Consecutive positions are 8-neighbours (or equal). */
  predicate Connected(path: seq<Coord>) {
    forall i :: 0 < i < |path| ==> Adjacent(path[i - 1], path[i])
  }

  predicate Between(v: int, a: int, b: int) {
    (a <= v <= b) || (b <= v <= a)
  }

  /** A position inside the bounding box of the segment. */
  predicate InBox(s: Segment, c: Coord) {
    Between(c.x, s.x0, s.x1) && Between(c.y, s.y0, s.y1)
  }

  lemma StartOnTrack(s: Segment)
    ensures OnTrack(s, Start(s))
  {
    assert Px(s, s.x0) == 0 && Py(s, s.y0) == 0;
  }

  /** A position on track lies inside the bounding box. */
  lemma OnTrackInBox(s: Segment, p: Pos)
    requires OnTrack(s, p)
    ensures InBox(s, CoordOf(p))
  {
  }

  /** A product of two non-negative numbers is non-negative. */
  lemma {:induction false} ProductNonNegative(a: nat, b: nat)
    ensures a * b >= 0
  {
    TimesIsProduct(a, b);
    TimesNonNegative(a, b);
  }

  lemma {:induction false} TimesNonNegative(a: nat, b: nat)
    ensures Times(a, b) >= 0
  {
    if a > 0 {
      TimesNonNegative(a - 1, b);
    }
  }

  /** Once x has arrived, the accumulator forbids another x step. */
  lemma XArrived(dx: int, dy: int, py: int, err: int)
    requires 0 <= dx && 0 <= py < dy
    requires err == dx - dy + py * dx - dx * dy
    ensures 2 * err <= -2 * dy
  {
    var k := dy - py - 1;
    ProductNonNegative(dx, k);
    assert dx * dy == dx * (py + 1 + k);
    assert dx * (py + 1 + k) == py * dx + dx + dx * k;
  }

  /** Once y has arrived, the accumulator forbids another y step. */
  lemma YArrived(dx: int, dy: int, px: int, err: int)
    requires 0 <= dy && 0 <= px < dx
    requires err == dx - dy + dy * dx - px * dy
    ensures 2 * err >= 2 * dx
  {
    var k := dx - px - 1;
    ProductNonNegative(dy, k);
    assert dy * dx == dy * (px + 1 + k);
    assert dy * (px + 1 + k) == px * dy + dy + dy * k;
  }

  /**
    The arithmetic of one step, in terms of the distances travelled (px, py)
    out of (dx, dy): at least one coordinate moves and none overshoots.
   */
  lemma StepArithmetic(strict: bool, dx: int, dy: int, px: int, py: int, err: int)
    requires 0 <= px <= dx && 0 <= py <= dy && !(px == dx && py == dy)
    requires err == dx - dy + py * dx - px * dy
    ensures var stepX := if strict then 2 * err > -dy else 2 * err >= -dy;
      var stepY := if strict then 2 * err < dx else 2 * err <= dx;
      (stepX || stepY) && (stepX ==> px < dx) && (stepY ==> py < dy)
  {
    if px == dx {
      XArrived(dx, dy, py, err);
    }
    if py == dy {
      YArrived(dx, dy, px, err);
    }
  }

  /**
    One step from a position short of the end keeps the invariant, moves at
    most one cell in each coordinate and strictly shortens the remaining way.
   */
  lemma StepKeepsTrack(m: Mode, s: Segment, p: Pos)
    requires OnTrack(s, p) && !AtEnd(s, p)
    ensures OnTrack(s, Step(m, s, p))
    ensures 0 <= Remaining(s, Step(m, s, p)) < Remaining(s, p)
    ensures Adjacent(CoordOf(p), CoordOf(Step(m, s, p)))
  {
    var px, py := Px(s, p.x), Py(s, p.y);
    assert px == Dx(s) <==> p.x == s.x1;
    assert py == Dy(s) <==> p.y == s.y1;
    TimesIsProduct(py, Dx(s));
    TimesIsProduct(px, Dy(s));
    StepArithmetic(m.Strict?, Dx(s), Dy(s), px, py, p.err);
    var stepX, stepY := StepsX(m, s, 2 * p.err), StepsY(m, s, 2 * p.err);
    var q := Step(m, s, p);
    assert Px(s, q.x) == (if stepX then px + 1 else px);
    assert Py(s, q.y) == (if stepY then py + 1 else py);
  }

  /** The loop state after k passes through the loop body. */
  function Pass(m: Mode, s: Segment, k: nat): Pos {
    if k == 0 then Start(s) else Step(m, s, Pass(m, s, k - 1))
  }

  /** No pass before the k-th stopped at the end point, so the loop made k passes. */
  predicate Running(m: Mode, s: Segment, k: nat) {
    k == 0 || (Running(m, s, k - 1) && !AtEnd(s, Pass(m, s, k - 1)))
  }

  /** The cells drawn at the first k passes, in drawing order. */
  function Cells(m: Mode, s: Segment, k: nat): (cells: seq<Coord>)
    ensures |cells| == k
  {
    if k == 0 then [] else Cells(m, s, k - 1) + [CoordOf(Pass(m, s, k - 1))]
  }

  /**
    While the loop runs, the cells drawn so far followed by the current cell
    and the trace from there make up the whole line.
   */
  lemma {:induction false} LineSplit(m: Mode, s: Segment, k: nat)
    requires Running(m, s, k)
    ensures OnTrack(s, Pass(m, s, k))
    ensures Line(m, s) == Cells(m, s, k) + [CoordOf(Pass(m, s, k))] + Trace(m, s, Pass(m, s, k))
  {
    if k == 0 {
      StartOnTrack(s);
    } else {
      LineSplit(m, s, k - 1);
      var p := Pass(m, s, k - 1);
      StepKeepsTrack(m, s, p);
      assert Trace(m, s, p) == [CoordOf(Pass(m, s, k))] + Trace(m, s, Pass(m, s, k));
      assert Cells(m, s, k) == Cells(m, s, k - 1) + [CoordOf(p)];
    }
  }

  /**
    A loop that draws a cell on every pass and stops at the first pass that
    reaches the end point has drawn exactly `Line`.
   */
  lemma CellsAreLine(m: Mode, s: Segment, n: nat)
    requires Running(m, s, n) && AtEnd(s, Pass(m, s, n))
    ensures Cells(m, s, n + 1) == Line(m, s)
  {
    LineSplit(m, s, n);
  }

  /** While the loop runs, every cell it has drawn, and the current one, is on `Line`. */
  lemma CellsOnLine(m: Mode, s: Segment, k: nat)
    requires Running(m, s, k)
    ensures OnTrack(s, Pass(m, s, k))
    ensures forall c :: c in Cells(m, s, k + 1) ==> c in Line(m, s)
  {
    LineSplit(m, s, k);
    assert Cells(m, s, k + 1) == Cells(m, s, k) + [CoordOf(Pass(m, s, k))];
  }

  /** The trace is empty exactly at the end point, and otherwise ends there. */
  lemma {:induction false} TraceEnds(m: Mode, s: Segment, p: Pos)
    requires OnTrack(s, p)
    ensures Trace(m, s, p) == [] <==> AtEnd(s, p)
    ensures Trace(m, s, p) != [] ==> Trace(m, s, p)[|Trace(m, s, p)| - 1] == Coord(s.x1, s.y1)
    decreases Remaining(s, p)
  {
    if !AtEnd(s, p) {
      StepKeepsTrack(m, s, p);
      var q := Step(m, s, p);
      TraceEnds(m, s, q);
      if AtEnd(s, q) {
        assert Trace(m, s, p) == [CoordOf(q)];
      }
    }
  }

  /** Each move of the trace goes to an 8-neighbour, starting from `p` itself. */
  lemma {:induction false} TraceConnected(m: Mode, s: Segment, p: Pos)
    requires OnTrack(s, p)
    ensures Connected([CoordOf(p)] + Trace(m, s, p))
    decreases Remaining(s, p)
  {
    if !AtEnd(s, p) {
      StepKeepsTrack(m, s, p);
      var q := Step(m, s, p);
      TraceConnected(m, s, q);
      var rest := [CoordOf(q)] + Trace(m, s, q);
      assert [CoordOf(p)] + Trace(m, s, p) == [CoordOf(p)] + rest;
    }
  }

  /** The trace never leaves the bounding box of the segment. */
  lemma {:induction false} TraceInBox(m: Mode, s: Segment, p: Pos)
    requires OnTrack(s, p)
    ensures forall c :: c in Trace(m, s, p) ==> InBox(s, c)
    decreases Remaining(s, p)
  {
    if !AtEnd(s, p) {
      StepKeepsTrack(m, s, p);
      var q := Step(m, s, p);
      TraceInBox(m, s, q);
      OnTrackInBox(s, q);
    }
  }

  /**
    The properties both drawing loops promise: the line starts at the start
    point, ends at the end point, is 8-connected, stays in the bounding box,
    and is the single start cell when the two points coincide.
   */
  lemma LineProperties(m: Mode, s: Segment)
    ensures |Line(m, s)| >= 1
    ensures Line(m, s)[0] == Coord(s.x0, s.y0)
    ensures Line(m, s)[|Line(m, s)| - 1] == Coord(s.x1, s.y1)
    ensures Connected(Line(m, s))
    ensures forall c :: c in Line(m, s) ==> InBox(s, c)
    ensures s.x0 == s.x1 && s.y0 == s.y1 ==> Line(m, s) == [Coord(s.x0, s.y0)]
  {
    StartOnTrack(s);
    TraceEnds(m, s, Start(s));
    TraceConnected(m, s, Start(s));
    TraceInBox(m, s, Start(s));
    assert CoordOf(Start(s)) == Coord(s.x0, s.y0);
  }
  /** The longer side of the bounding box. */
  function Major(s: Segment): nat {
    if Dx(s) >= Dy(s) then Dx(s) else Dy(s)
  }

  /** How far the coordinate of the longer side still has to travel. */
  function MajorLeft(s: Segment, p: Pos): int {
    if Dx(s) >= Dy(s) then Dx(s) - Px(s, p.x) else Dy(s) - Py(s, p.y)
  }

  /**
    The band the accumulator keeps to: inside it both variants step the
    coordinate of the longer side on every pass.
   */
  predicate InBand(s: Segment, p: Pos) {
    if Dx(s) >= Dy(s) then -Dy(s) < 2 * p.err < 4 * Dx(s) - 3 * Dy(s)
    else 3 * Dx(s) - 4 * Dy(s) < 2 * p.err < Dx(s)
  }

  /** Unless the end points coincide, the loop starts inside the band. */
  lemma StartInBand(s: Segment)
    requires !(s.x0 == s.x1 && s.y0 == s.y1)
    ensures InBand(s, Start(s))
  {
  }

  /**
    A pass from inside the band stays inside it and moves the coordinate of
    the longer side one cell on.
   */
  lemma StepInBand(m: Mode, s: Segment, p: Pos)
    requires OnTrack(s, p) && !AtEnd(s, p) && InBand(s, p)
    ensures InBand(s, Step(m, s, p))
    ensures MajorLeft(s, Step(m, s, p)) == MajorLeft(s, p) - 1
  {
    var q := Step(m, s, p);
    assert StepsX(m, s, 2 * p.err) ==> Px(s, q.x) == Px(s, p.x) + 1;
    assert StepsY(m, s, 2 * p.err) ==> Py(s, q.y) == Py(s, p.y) + 1;
  }

  /** From inside the band the loop makes exactly as many passes as the longer side has cells left. */
  lemma {:induction false} TraceLength(m: Mode, s: Segment, p: Pos)
    requires OnTrack(s, p) && InBand(s, p)
    ensures |Trace(m, s, p)| == MajorLeft(s, p)
    decreases Remaining(s, p)
  {
    if !AtEnd(s, p) {
      StepKeepsTrack(m, s, p);
      StepInBand(m, s, p);
      TraceLength(m, s, Step(m, s, p));
    } else {
      assert Px(s, p.x) == Dx(s) && Py(s, p.y) == Dy(s);
    }
  }

  /**
    The loop visits one cell per unit of the longer side, plus the start:
    max(dx, dy) + 1 cells, in either variant.
   */
  lemma LineLength(m: Mode, s: Segment)
    ensures |Line(m, s)| == Major(s) + 1
  {
    if s.x0 == s.x1 && s.y0 == s.y1 {
      LineProperties(m, s);
    } else {
      StartOnTrack(s);
      StartInBand(s);
      TraceLength(m, s, Start(s));
    }
  }

  /**
    The cells a line visits depend on its direction: drawn from (0, 0) to
    (2, 1) and back, the strict variant passes (1, 0) one way and (1, 1) the
    other, and the non-strict variant the reverse.
   */
  lemma LineDependsOnDirection()
    ensures Line(Strict, Segment(0, 0, 2, 1)) == [Coord(0, 0), Coord(1, 0), Coord(2, 1)]
    ensures Line(Strict, Segment(2, 1, 0, 0)) == [Coord(2, 1), Coord(1, 1), Coord(0, 0)]
    ensures Line(Inclusive, Segment(0, 0, 2, 1)) == [Coord(0, 0), Coord(1, 1), Coord(2, 1)]
    ensures Line(Inclusive, Segment(2, 1, 0, 0)) == [Coord(2, 1), Coord(1, 0), Coord(0, 0)]
  {
    TraceSteps(Strict, Segment(0, 0, 2, 1), Pos(1, 0, 0), Pos(2, 1, 1));
    TraceSteps(Strict, Segment(2, 1, 0, 0), Pos(1, 1, 0), Pos(0, 0, 1));
    TraceSteps(Inclusive, Segment(0, 0, 2, 1), Pos(1, 1, 2), Pos(2, 1, 1));
    TraceSteps(Inclusive, Segment(2, 1, 0, 0), Pos(1, 0, 2), Pos(0, 0, 1));
  }

  /** A line whose loop reaches the end point in two passes, through `p` and then `q`. */
  lemma TraceSteps(m: Mode, s: Segment, p: Pos, q: Pos)
    requires Step(m, s, Start(s)) == p && Step(m, s, p) == q && AtEnd(s, q)
    requires !AtEnd(s, Start(s)) && !AtEnd(s, p)
    ensures Line(m, s) == [Coord(s.x0, s.y0), CoordOf(p), CoordOf(q)]
  {
    StartOnTrack(s);
    StepKeepsTrack(m, s, Start(s));
    StepKeepsTrack(m, s, p);
    assert Trace(m, s, q) == [];
    assert Trace(m, s, p) == [CoordOf(q)];
    assert Trace(m, s, Start(s)) == [CoordOf(p), CoordOf(q)];
  }
}
