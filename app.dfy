/**
  app.js: the `DrawingApp` editing state. The 2-D context of the canvas is a
  grid array with one entry per cell; every cell painted with `drawPixel` is
  one undoable action; twelve "neck-line" cells of the template are reserved
  and never painted or recorded.
 */
module App {
  import opened Pixels
  import opened Raster
  import opened AppHistory

  /** The colour of a canvas that nothing has been drawn on yet (transparent black). */
  const Transparent: Color := Css("rgba(0, 0, 0, 0)")

  /** The left neck line: column 10, seven cells up from the bottom row. */
  const LeftNeckColumn: int := 10
  const LeftNeckHeight: int := 7

  /** The right neck line: 16 columns from the right edge, five cells up from the bottom row. */
  const RightNeckColumn: int := 32 - 16
  const RightNeckHeight: int := 5

  /** The reserved cells: column 10 rows 25 to 31, and column 16 rows 27 to 31. */
  predicate IsNeckCell(c: Coord) {
    (c.x == 10 && 25 <= c.y <= 31) || (c.x == 16 && 27 <= c.y <= 31)
  }

  /** The canvas `fillCanvas(color)` leaves: neck cells in ink, every other cell `color`. */
  function Template(color: Color): (g: Grid)
    ensures IsGrid(g)
  {
    seq(Size, y requires 0 <= y < Size =>
      seq(Size, x requires 0 <= x < Size => if IsNeckCell(Coord(x, y)) then Ink else color))
  }

  /** `ImageData`: a width, a height and the RGBA bytes of the pixels. */
  newtype Byte = b: int | 0 <= b < 256
  datatype ImageData = ImageData(width: int, height: int, data: seq<Byte>)

  /** The shape every real `ImageData` has: four bytes per pixel. */
  predicate WellFormed(img: ImageData) {
    0 <= img.width && 0 <= img.height && |img.data| == 4 * img.width * img.height
  }

  class DrawingApp {
    var canvas: array2<Color>
    var manager: UndoRedoManager
    var neckLineCells: set<Coord>
    var isDrawing: bool
    var lastPos: Option<Coord>
    var currentColor: Color
    var defaultCanvasColor: Color

    /** The shape of the state: one canvas cell per grid cell, the reserved set is the neck cells. */
    ghost predicate Consistent()
      reads this, manager
    {
      IsGridArray(canvas) && manager.Valid() &&
      (forall c :: c in neckLineCells <==> IsNeckCell(c)) &&
      (lastPos.Some? ==> isDrawing && InBounds(lastPos.value))
    }

    /** The invariant of the app: a consistent state whose neck cells are kept. */
    ghost predicate Valid()
      reads this, manager, canvas
    {
      Consistent() && NeckKept()
    }

    /**
      The neck cells show ink, and no recorded action touches them, so neither
      undo nor redo can repaint them.
     */
    ghost predicate NeckKept()
      reads this, manager, canvas
      requires IsGridArray(canvas)
    {
      (forall y, x :: 0 <= y < Size && 0 <= x < Size && IsNeckCell(Coord(x, y)) ==> canvas[y, x] == Ink) &&
      AllAvoid(manager.undoStack, neckLineCells) && AllAvoid(manager.redoStack, neckLineCells)
    }

    /** The canvas and the two history stacks. */
    ghost function State(): AppState
      reads this, canvas, manager
    {
      manager.State(canvas)
    }

    constructor ()
      ensures Valid() && fresh(canvas) && fresh(manager)
      ensures State() == AppState(Template(Background), [], [])
      ensures !isDrawing && lastPos == None
      ensures currentColor == Ink && defaultCanvasColor == Background
    {
      canvas := new Color[Size, Size]((_, _) => Transparent);
      manager := new UndoRedoManager();
      isDrawing := false;
      lastPos := None;
      currentColor := Ink;
      defaultCanvasColor := Background;
      neckLineCells := {};
      new;
      InitCanvas();
    }

    /** Fill with the default colour, paint the neck lines and record their cells as reserved. */
    method InitCanvas()
      requires IsGridArray(canvas) && manager.Valid() && lastPos == None
      requires manager.undoStack == [] && manager.redoStack == []
      modifies this, canvas
      ensures canvas == old(canvas) && manager == old(manager) && Valid()
      ensures Rows(canvas) == Template(defaultCanvasColor)
      ensures isDrawing == old(isDrawing) && lastPos == old(lastPos)
      ensures currentColor == old(currentColor) && defaultCanvasColor == old(defaultCanvasColor)
    {
      FillCanvas(defaultCanvasColor);
      RedrawNeckLines();
      neckLineCells := BuildNeckLineCells();
      RowsEqual(canvas, Template(defaultCanvasColor));
    }

    /** The loops at the end of `initCanvas` that collect the neck-line cells. */
    static method BuildNeckLineCells() returns (cells: set<Coord>)
      ensures forall c :: c in cells <==> IsNeckCell(c)
      ensures |cells| == 12
    {
      cells := {};
      for i := 0 to LeftNeckHeight
        invariant forall c :: c in cells <==> c.x == LeftNeckColumn && Size - i <= c.y <= Size - 1
        invariant |cells| == i
      {
        assert Coord(LeftNeckColumn, Size - 1 - i) !in cells;
        cells := cells + {Coord(LeftNeckColumn, Size - 1 - i)};
      }
      for i := 0 to RightNeckHeight
        invariant forall c :: c in cells <==>
          (c.x == LeftNeckColumn && 25 <= c.y <= 31) || (c.x == RightNeckColumn && Size - i <= c.y <= Size - 1)
        invariant |cells| == LeftNeckHeight + i
      {
        assert Coord(RightNeckColumn, Size - 1 - i) !in cells;
        cells := cells + {Coord(RightNeckColumn, Size - 1 - i)};
      }
    }

    /** `fillCanvas`: cover the whole canvas with `color`, then repaint the neck lines. */
    method FillCanvas(color: Color)
      requires IsGridArray(canvas)
      modifies canvas
      ensures forall y, x :: 0 <= y < Size && 0 <= x < Size ==>
        canvas[y, x] == if IsNeckCell(Coord(x, y)) then Ink else color
      ensures old(Valid()) ==> Valid()
    {
      for y := 0 to Size
        invariant forall y', x :: 0 <= y' < y && 0 <= x < Size ==> canvas[y', x] == color
      {
        for x := 0 to Size
          invariant forall y', x' :: 0 <= y' < y && 0 <= x' < Size ==> canvas[y', x'] == color
          invariant forall x' :: 0 <= x' < x ==> canvas[y, x'] == color
        {
          canvas[y, x] := color;
        }
      }
      RedrawNeckLines();
    }

    /** `redrawNeckLines`: paint the seven left and five right neck cells in ink. */
    method RedrawNeckLines()
      requires IsGridArray(canvas)
      modifies canvas
      ensures forall y, x :: 0 <= y < Size && 0 <= x < Size ==>
        canvas[y, x] == if IsNeckCell(Coord(x, y)) then Ink else old(canvas[y, x])
    {
      for i := 0 to LeftNeckHeight
        invariant forall y, x :: 0 <= y < Size && 0 <= x < Size ==>
          canvas[y, x] == if x == LeftNeckColumn && Size - i <= y then Ink else old(canvas[y, x])
      {
        canvas[Size - 1 - i, LeftNeckColumn] := Ink;
      }
      for i := 0 to RightNeckHeight
        invariant forall y, x :: 0 <= y < Size && 0 <= x < Size ==>
          canvas[y, x] == if (x == LeftNeckColumn && 25 <= y) || (x == RightNeckColumn && Size - i <= y)
                          then Ink else old(canvas[y, x])
      {
        canvas[Size - 1 - i, RightNeckColumn] := Ink;
      }
    }

    function IsNeckLineCell(x: int, y: int): (r: bool)
      reads this, manager
      requires Consistent()
      ensures r <==> IsNeckCell(Coord(x, y))
    {
      Coord(x, y) in neckLineCells
    }

    /** `drawPixel`: paint and record one cell, unless it is reserved. */
    method DrawPixel(x: int, y: int)
      requires Consistent() && InBounds(Coord(x, y))
      modifies canvas, manager
      ensures Consistent() && (old(Valid()) ==> Valid())
      ensures State() == PaintCell(old(State()), neckLineCells, currentColor, Coord(x, y))
    {
      if !IsNeckLineCell(x, y) {
        ghost var before := Rows(canvas);
        var previousColor := canvas[y, x];
        var action := DrawAction(Coord(x, y), currentColor, previousColor);
        manager.AddAction(action);
        canvas[y, x] := currentColor;
        RowsEqual(canvas, SetCell(before, Coord(x, y), currentColor));
      }
    }

    /**
      `drawLine`: Bresenham's loop from (x0, y0) to (x1, y1), calling
      `drawPixel` at the start and after every step.
     */
    method DrawLine(x0: int, y0: int, x1: int, y1: int)
      requires Valid() && InBounds(Coord(x0, y0)) && InBounds(Coord(x1, y1))
      modifies canvas, manager
      ensures Valid()
      ensures State() == PaintPath(old(State()), neckLineCells, currentColor,
                                   Line(Strict, Segment(x0, y0, x1, y1)))
    {
      ghost var s := Segment(x0, y0, x1, y1);
      ghost var start := State();
      NeckSafeNow();
      var dx: int := Abs(x1 - x0);
      var dy: int := Abs(y1 - y0);
      var sx := if x0 < x1 then 1 else -1;
      var sy := if y0 < y1 then 1 else -1;
      var err := dx - dy;

      DrawPassCell(start, s, 0, x0, y0);
      ghost var n := DrawPasses(start, s, x0, y0, x1, y1, err, dx, dy, sx, sy);
      DrawnLine(start, s, n);
    }

    /**
      The `while` loop of `drawLine`, entered after the `drawPixel` call for
      the start point: it runs until the position reaches (x1, y1), and then
      has drawn the cells of all n + 1 passes.
     */
    method DrawPasses(ghost start: AppState, ghost s: Segment, x0: int, y0: int, x1: int, y1: int,
                      err0: int, dx: int, dy: int, sx: int, sy: int)
      returns (ghost n: nat)
      requires InBounds(Coord(s.x0, s.y0)) && InBounds(Coord(s.x1, s.y1)) && s.x1 == x1 && s.y1 == y1
      requires dx == Dx(s) && dy == Dy(s) && sx == Sx(s) && sy == Sy(s)
      requires Drawn(start, s, 0, Pos(x0, y0, err0))
      modifies canvas, manager
      ensures Drawn(start, s, n, Pass(Strict, s, n)) && AtEnd(s, Pass(Strict, s, n))
    {
      var x, y, err := x0, y0, err0;
      n := 0;
      while x != x1 || y != y1
        invariant Drawn(start, s, n, Pos(x, y, err))
        decreases Remaining(s, Pos(x, y, err))
      {
        x, y, err := NextPass(start, s, n, x, y, err, dx, dy, sx, sy);
        n := n + 1;
      }
    }

    /** A loop that has stopped at the end point has drawn all of `Line`. */
    lemma DrawnLine(start: AppState, s: Segment, n: nat)
      requires InBounds(Coord(s.x0, s.y0)) && InBounds(Coord(s.x1, s.y1)) && StateOk(start)
      requires NeckSafe(start, neckLineCells)
      requires Drawn(start, s, n, Pass(Strict, s, n)) && AtEnd(s, Pass(Strict, s, n))
      ensures Valid()
      ensures State() == PaintPath(start, neckLineCells, currentColor, Line(Strict, s))
    {
      PaintedIsPath(start, neckLineCells, currentColor, s, n + 1);
      CellsAreLine(Strict, s, n);
      PaintKeepsNeck(start, neckLineCells, currentColor, Line(Strict, s));
      NeckKeptNow();
    }

    /**
      The `drawLine` loop invariant: the loop has made i passes from `start`,
      is at position `p`, and the canvas and history are those after painting
      the cells of passes 0 to i.
     */
    ghost predicate Drawn(start: AppState, s: Segment, i: nat, p: Pos)
      reads this, canvas, manager
    {
      Consistent() && Running(Strict, s, i) && p == Pass(Strict, s, i) &&
      State() == Painted(start, neckLineCells, currentColor, s, i + 1)
    }

    /**
      One pass of the `drawLine` loop short of the end point: a step of the
      loop variables, then the `drawPixel` call for the new position.
     */
    method NextPass(ghost start: AppState, ghost s: Segment, ghost i: nat,
                    x0: int, y0: int, err0: int, dx: int, dy: int, sx: int, sy: int)
      returns (x: int, y: int, err: int)
      requires InBounds(Coord(s.x0, s.y0)) && InBounds(Coord(s.x1, s.y1))
      requires dx == Dx(s) && dy == Dy(s) && sx == Sx(s) && sy == Sy(s)
      requires Drawn(start, s, i, Pos(x0, y0, err0)) && !AtEnd(s, Pos(x0, y0, err0))
      modifies canvas, manager
      ensures Drawn(start, s, i + 1, Pos(x, y, err))
      ensures 0 <= Remaining(s, Pos(x, y, err)) < Remaining(s, Pos(x0, y0, err0))
    {
      LineSplit(Strict, s, i);
      StepKeepsTrack(Strict, s, Pos(x0, y0, err0));
      x, y, err := StrictStep(s, x0, y0, err0, dx, dy, sx, sy);
      DrawPassCell(start, s, i + 1, x, y);
    }

    /**
      The `drawPixel` call of pass k of the loop, after the cells of the
      earlier passes have been drawn.
     */
    method DrawPassCell(ghost start: AppState, ghost s: Segment, ghost k: nat, x: int, y: int)
      requires Consistent()
      requires InBounds(Coord(s.x0, s.y0)) && InBounds(Coord(s.x1, s.y1))
      requires Running(Strict, s, k) && CoordOf(Pass(Strict, s, k)) == Coord(x, y)
      requires State() == Painted(start, neckLineCells, currentColor, s, k)
      modifies canvas, manager
      ensures Consistent()
      ensures State() == Painted(start, neckLineCells, currentColor, s, k + 1)
    {
      PassInBounds(s, k);
      DrawPixel(x, y);
    }

    /** The undo button: the manager undoes its last action on the canvas; the neck cells stay ink. */
    method Undo()
      requires Valid()
      modifies canvas, manager
      ensures Valid()
      ensures State() == Undone(old(State()))
    {
      NeckSafeNow();
      UndoRedoKeepNeck(State(), neckLineCells);
      manager.Undo(canvas);
      NeckKeptNow();
    }

    /** The redo button: the manager redoes its last undone action; the neck cells stay ink. */
    method Redo()
      requires Valid()
      modifies canvas, manager
      ensures Valid()
      ensures State() == Redone(old(State()))
    {
      NeckSafeNow();
      UndoRedoKeepNeck(State(), neckLineCells);
      manager.Redo(canvas);
      NeckKeptNow();
    }

    /** The neck cells of a valid app, stated of its state. */
    lemma NeckSafeNow()
      requires Valid()
      ensures NeckSafe(State(), neckLineCells)
    {
      forall c | c in neckLineCells && InBounds(c)
        ensures At(State().canvas, c) == Ink
      {
        assert IsNeckCell(Coord(c.x, c.y));
      }
    }

    /** A consistent app whose state keeps the neck cells is valid. */
    lemma NeckKeptNow()
      requires Consistent() && NeckSafe(State(), neckLineCells)
      ensures Valid()
    {
      forall y, x | 0 <= y < Size && 0 <= x < Size && IsNeckCell(Coord(x, y))
        ensures canvas[y, x] == Ink
      {
        assert Coord(x, y) in neckLineCells;
        assert At(State().canvas, Coord(x, y)) == canvas[y, x];
      }
    }

    /** `startDrawing`: begin a stroke and paint the cell under the pointer. */
    method StartDrawing(pos: Coord)
      requires Valid() && InBounds(pos)
      modifies this, canvas, manager
      ensures Valid() && canvas == old(canvas) && manager == old(manager)
      ensures isDrawing && lastPos == old(lastPos)
      ensures neckLineCells == old(neckLineCells) && currentColor == old(currentColor)
      ensures State() == PaintCell(old(State()), neckLineCells, currentColor, pos)
    {
      isDrawing := true;
      DrawPixel(pos.x, pos.y);
    }

    /**
      `keepDrawing`: while a stroke is on, join the previous pointer cell to
      this one with a line (or paint this one alone if there is none yet), then
      remember this cell.
     */
    method KeepDrawing(pos: Coord)
      requires Valid() && InBounds(pos)
      modifies this, canvas, manager
      ensures Valid() && canvas == old(canvas) && manager == old(manager)
      ensures isDrawing == old(isDrawing)
      ensures neckLineCells == old(neckLineCells) && currentColor == old(currentColor)
      ensures !old(isDrawing) ==> State() == old(State()) && lastPos == old(lastPos)
      ensures old(isDrawing) ==> lastPos == Some(pos)
      ensures old(isDrawing) ==> State() == PaintPath(old(State()), neckLineCells, currentColor,
        match old(lastPos)
        case Some(p) => Line(Strict, Segment(p.x, p.y, pos.x, pos.y))
        case None => [pos])
    {
      if !isDrawing {
        return;
      }
      ghost var before := State();
      match lastPos {
        case Some(p) =>
          DrawLine(p.x, p.y, pos.x, pos.y);
        case None =>
          DrawPixel(pos.x, pos.y);
          assert [pos][..0] == [];
      }
      lastPos := Some(pos);
    }

    /** `stopDrawing`: end the stroke and forget the last cell. */
    method StopDrawing()
      requires Valid()
      modifies this
      ensures Valid() && canvas == old(canvas) && manager == old(manager)
      ensures !isDrawing && lastPos == None
      ensures neckLineCells == old(neckLineCells) && currentColor == old(currentColor)
    {
      if isDrawing {
        isDrawing := false;
        lastPos := None;
      }
    }

    /** `compareImageData`: equal sizes, and every byte of the first matches the second. */
    method CompareImageData(imgData1: ImageData, imgData2: ImageData) returns (same: bool)
      ensures same <==>
        imgData1.width == imgData2.width && imgData1.height == imgData2.height &&
        |imgData1.data| <= |imgData2.data| &&
        forall i :: 0 <= i < |imgData1.data| ==> imgData1.data[i] == imgData2.data[i]
    {
      if imgData1.width != imgData2.width || imgData1.height != imgData2.height {
        return false;
      }
      for i := 0 to |imgData1.data|
        invariant i <= |imgData2.data|
        invariant forall j :: 0 <= j < i ==> imgData1.data[j] == imgData2.data[j]
      {
        if i >= |imgData2.data| || imgData1.data[i] != imgData2.data[i] {
          return false;
        }
      }
      return true;
    }
  }

  /**
    The body of the `drawLine` loop: both tests read the same `e2`, the first
    moves x, the second moves y. It is one `Step` of the strict variant.
   */
  method StrictStep(ghost s: Segment, x0: int, y0: int, err0: int, dx: int, dy: int, sx: int, sy: int)
    returns (x: int, y: int, err: int)
    requires dx == Dx(s) && dy == Dy(s) && sx == Sx(s) && sy == Sy(s)
    ensures Pos(x, y, err) == Step(Strict, s, Pos(x0, y0, err0))
  {
    x, y, err := x0, y0, err0;
    var e2 := err * 2;
    if e2 > -dy {
      err := err - dy;
      x := x + sx;
    }
    if e2 < dx {
      err := err + dx;
      y := y + sy;
    }
  }

  /** While the loop of `drawLine` runs, its current cell is on the canvas. */
  lemma PassInBounds(s: Segment, k: nat)
    requires InBounds(Coord(s.x0, s.y0)) && InBounds(Coord(s.x1, s.y1))
    requires Running(Strict, s, k)
    ensures InBounds(CoordOf(Pass(Strict, s, k)))
  {
    CellsOnLine(Strict, s, k);
    OnTrackInBox(s, Pass(Strict, s, k));
  }

  /**
    The state after the first k passes of the `drawLine` loop from `st`, each
    calling `drawPixel`. (A pass off the canvas, which a loop between two cells
    of the canvas never makes, would change nothing.)
   */
  ghost function Painted(st: AppState, reserved: set<Coord>, color: Color, s: Segment, k: nat): (r: AppState)
    ensures StateOk(st) ==> StateOk(r)
  {
    if k == 0 then st
    else
      var prev := Painted(st, reserved, color, s, k - 1);
      var c := CoordOf(Pass(Strict, s, k - 1));
      if StateOk(prev) && InBounds(c) then PaintCell(prev, reserved, color, c) else prev
  }

  /** The passes paint the cells they visit, in order. */
  lemma {:induction false} PaintedIsPath(st: AppState, reserved: set<Coord>, color: Color, s: Segment, k: nat)
    requires StateOk(st) && InBounds(Coord(s.x0, s.y0)) && InBounds(Coord(s.x1, s.y1))
    requires k == 0 || Running(Strict, s, k - 1)
    ensures AllInBounds(Cells(Strict, s, k))
    ensures Painted(st, reserved, color, s, k) == PaintPath(st, reserved, color, Cells(Strict, s, k))
  {
    if k > 0 {
      PaintedIsPath(st, reserved, color, s, k - 1);
      PassInBounds(s, k - 1);
      var cells := Cells(Strict, s, k);
      assert cells[..k - 1] == Cells(Strict, s, k - 1);
    }
  }

  /** Both end points on the canvas: so is every cell of the line between them. */
  lemma LineInBounds(m: Mode, s: Segment)
    requires InBounds(Coord(s.x0, s.y0)) && InBounds(Coord(s.x1, s.y1))
    ensures AllInBounds(Line(m, s))
    ensures forall k :: 0 <= k < |Line(m, s)| ==> InBounds(Line(m, s)[k])
  {
  }

  /** For well-formed image data the comparison above is plain equality. */
  lemma CompareMeansEqual(imgData1: ImageData, imgData2: ImageData)
    requires WellFormed(imgData1) && WellFormed(imgData2)
    ensures (imgData1.width == imgData2.width && imgData1.height == imgData2.height &&
             |imgData1.data| <= |imgData2.data| &&
             forall i :: 0 <= i < |imgData1.data| ==> imgData1.data[i] == imgData2.data[i])
            <==> imgData1 == imgData2
  {
    if imgData1.width == imgData2.width && imgData1.height == imgData2.height {
      assert |imgData1.data| == |imgData2.data|;
    }
  }

  /** After any painting, the reserved cells still show the template's ink. */
  lemma NeckLinesSurvivePainting(st: AppState, reserved: set<Coord>, color: Color, path: seq<Coord>)
    requires StateOk(st) && AllInBounds(path)
    requires st.canvas == Template(Background)
    requires forall c :: c in reserved <==> IsNeckCell(c)
    ensures forall c :: IsNeckCell(c) ==> InBounds(c) && At(PaintPath(st, reserved, color, path).canvas, c) == Ink
  {
    PaintPathCanvas(st, reserved, color, path);
  }

  /** The reserved cells of a state show ink, and no action on either stack touches them. */
  ghost predicate NeckSafe(st: AppState, reserved: set<Coord>) {
    IsGrid(st.canvas) &&
    (forall c :: c in reserved && InBounds(c) ==> At(st.canvas, c) == Ink) &&
    AllAvoid(st.undoStack, reserved) && AllAvoid(st.redoStack, reserved)
  }

  /** Painting any path keeps the reserved cells in ink and out of every action. */
  lemma PaintKeepsNeck(st: AppState, reserved: set<Coord>, color: Color, path: seq<Coord>)
    requires StateOk(st) && AllInBounds(path) && NeckSafe(st, reserved)
    ensures NeckSafe(PaintPath(st, reserved, color, path), reserved)
  {
    PaintPathAvoids(st, reserved, color, path);
    PaintPathCanvas(st, reserved, color, path);
  }

  /** Undo and redo, the only other writers of the canvas, keep the reserved cells likewise. */
  lemma UndoRedoKeepNeck(st: AppState, reserved: set<Coord>)
    requires StateOk(st) && NeckSafe(st, reserved)
    ensures NeckSafe(Undone(st), reserved) && NeckSafe(Redone(st), reserved)
  {
    UndoRedoKeepReserved(st, reserved);
  }
}
