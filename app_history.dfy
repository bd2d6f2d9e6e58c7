/**
  app.js: the action-based history. Each `Action` lists the cells it painted,
  the colour it painted them with, and the colour each cell had before; the
  `UndoRedoManager` keeps two stacks of actions and, on undo or redo, writes
  the old or the new colours back into the canvas, here a grid array.
 */
module AppHistory {
  import opened Pixels

  /** `Action.type`, `coordinates`, `color`, `previousState` (keyed by cell). */
  datatype Action = Action(kind: string, coordinates: seq<Coord>, color: Color, previousState: map<Coord, Color>)

  /** Every cell of the action lies on the grid and has a recorded previous colour. */
  ghost predicate ActionOk(a: Action) {
    forall c :: c in a.coordinates ==> InBounds(c) && c in a.previousState
  }

  /** None of the action's cells is reserved. */
  predicate Avoids(a: Action, reserved: set<Coord>) {
    forall c :: c in a.coordinates ==> c !in reserved
  }

  /** Every action of a stack avoids the reserved cells. */
  predicate AllAvoid(actions: seq<Action>, reserved: set<Coord>) {
    forall a :: a in actions ==> Avoids(a, reserved)
  }

  /** The engine's state: the canvas and the manager's two stacks (tops last). */
  datatype AppState = AppState(canvas: Grid, undoStack: seq<Action>, redoStack: seq<Action>)

  ghost predicate StateOk(st: AppState) {
    IsGrid(st.canvas) &&
    (forall a :: a in st.undoStack ==> ActionOk(a)) &&
    (forall a :: a in st.redoStack ==> ActionOk(a))
  }

  /** The colour `applyAction` writes at cell `c`. */
  function ColorFor(a: Action, isUndo: bool, c: Coord): Color
    requires ActionOk(a) && c in a.coordinates
  {
    if isUndo then a.previousState[c] else a.color
  }

  /** The canvas after `applyAction`: the action's cells repainted, the rest as before. */
  function Applied(g: Grid, a: Action, isUndo: bool): (r: Grid)
    requires IsGrid(g) && ActionOk(a)
    ensures IsGrid(r)
    ensures forall y, x :: 0 <= y < Size && 0 <= x < Size ==>
      r[y][x] == if Coord(x, y) in a.coordinates then ColorFor(a, isUndo, Coord(x, y)) else g[y][x]
  {
    seq(Size, y requires 0 <= y < Size =>
      seq(Size, x requires 0 <= x < Size =>
        if Coord(x, y) in a.coordinates then ColorFor(a, isUndo, Coord(x, y)) else g[y][x]))
  }

  /** `undo`: pop the undo top, write its previous colours, push it on the redo stack. */
  function Undone(st: AppState): (r: AppState)
    requires StateOk(st)
    ensures StateOk(r)
    ensures |r.undoStack| + |r.redoStack| == |st.undoStack| + |st.redoStack|
    ensures |st.undoStack| == 0 ==> r == st
    ensures |st.undoStack| > 0 ==>
      var a := st.undoStack[|st.undoStack| - 1];
      r.undoStack + [a] == st.undoStack && r.redoStack == st.redoStack + [a] &&
      r.canvas == Applied(st.canvas, a, true)
  {
    if |st.undoStack| == 0 then st
    else
      var n := |st.undoStack|;
      var a := st.undoStack[n - 1];
      AppState(Applied(st.canvas, a, true), st.undoStack[..n - 1], st.redoStack + [a])
  }

  /** `redo`: pop the redo top, write its colour, push it back on the undo stack. */
  function Redone(st: AppState): (r: AppState)
    requires StateOk(st)
    ensures StateOk(r)
    ensures |r.undoStack| + |r.redoStack| == |st.undoStack| + |st.redoStack|
    ensures |st.redoStack| == 0 ==> r == st
    ensures |st.redoStack| > 0 ==>
      var a := st.redoStack[|st.redoStack| - 1];
      r.redoStack + [a] == st.redoStack && r.undoStack == st.undoStack + [a] &&
      r.canvas == Applied(st.canvas, a, false)
  {
    if |st.redoStack| == 0 then st
    else
      var n := |st.redoStack|;
      var a := st.redoStack[n - 1];
      AppState(Applied(st.canvas, a, false), st.undoStack + [a], st.redoStack[..n - 1])
  }

  /** The action `drawPixel` records for painting cell `c` over colour `previous`. */
  function DrawAction(c: Coord, color: Color, previous: Color): Action {
    Action("draw", [c], color, map[c := previous])
  }

  /**
    `drawPixel`: a reserved cell is left alone; any other cell records its
    previous colour in a new action (which empties the redo stack) and is
    repainted.
   */
  function PaintCell(st: AppState, reserved: set<Coord>, color: Color, c: Coord): (r: AppState)
    requires StateOk(st) && InBounds(c)
    ensures StateOk(r)
  {
    if c in reserved then st
    else
      AppState(SetCell(st.canvas, c, color),
               st.undoStack + [DrawAction(c, color, At(st.canvas, c))],
               [])
  }

  /**
    What `drawPixel` does: on a reserved cell nothing at all; on any other cell
    that one cell takes the brush colour and every other keeps its colour, one
    "draw" action recording the cell and its previous colour becomes the undo
    top, and the redo stack is emptied.
   */
  lemma PaintCellEffect(st: AppState, reserved: set<Coord>, color: Color, c: Coord)
    requires StateOk(st) && InBounds(c)
    ensures c in reserved ==> PaintCell(st, reserved, color, c) == st
    ensures c !in reserved ==>
      var r := PaintCell(st, reserved, color, c);
      (forall y, x :: 0 <= y < Size && 0 <= x < Size ==>
         r.canvas[y][x] == if Coord(x, y) == c then color else st.canvas[y][x]) &&
      r.undoStack == st.undoStack + [Action("draw", [c], color, map[c := st.canvas[c.y][c.x]])] &&
      r.redoStack == []
  {
    SetCellOnly(st.canvas, c, color);
  }

  predicate AllInBounds(path: seq<Coord>) {
    forall c :: c in path ==> InBounds(c)
  }

  /** `drawPixel` applied to every cell of `path`, in order. */
  function PaintPath(st: AppState, reserved: set<Coord>, color: Color, path: seq<Coord>): (r: AppState)
    requires StateOk(st) && AllInBounds(path)
    ensures StateOk(r)
    decreases |path|
  {
    if path == [] then st
    else
      var n := |path|;
      PaintCell(PaintPath(st, reserved, color, path[..n - 1]), reserved, color, path[n - 1])
  }

  /** The number of cells of `path` that are not reserved: one action each. */
  function Unreserved(path: seq<Coord>, reserved: set<Coord>): nat {
    if path == [] then 0
    else Unreserved(path[..|path| - 1], reserved) + (if path[|path| - 1] in reserved then 0 else 1)
  }

  class UndoRedoManager {
    var undoStack: seq<Action>
    var redoStack: seq<Action>

    ghost predicate Valid()
      reads this
    {
      (forall a :: a in undoStack ==> ActionOk(a)) &&
      (forall a :: a in redoStack ==> ActionOk(a))
    }

    /** The manager together with the canvas it paints on. */
    ghost function State(ctx: array2<Color>): AppState
      reads this, ctx
    {
      AppState(Rows(ctx), undoStack, redoStack)
    }

    constructor ()
      ensures Valid() && undoStack == [] && redoStack == []
    {
      undoStack := [];
      redoStack := [];
    }

    /** Push the action as the new undo top; the redo stack is emptied. */
    method AddAction(action: Action)
      requires Valid() && ActionOk(action)
      modifies this
      ensures Valid()
      ensures undoStack == old(undoStack) + [action] && redoStack == []
    {
      undoStack := undoStack + [action];
      redoStack := [];
    }

    method Undo(ctx: array2<Color>)
      requires Valid() && IsGridArray(ctx)
      modifies this, ctx
      ensures Valid()
      ensures State(ctx) == Undone(old(State(ctx)))
    {
      if |undoStack| > 0 {
        var action := undoStack[|undoStack| - 1];
        undoStack := undoStack[..|undoStack| - 1];
        ApplyAction(ctx, action, true);
        redoStack := redoStack + [action];
      }
    }

    method Redo(ctx: array2<Color>)
      requires Valid() && IsGridArray(ctx)
      modifies this, ctx
      ensures Valid()
      ensures State(ctx) == Redone(old(State(ctx)))
    {
      if |redoStack| > 0 {
        var action := redoStack[|redoStack| - 1];
        redoStack := redoStack[..|redoStack| - 1];
        ApplyAction(ctx, action, false);
        undoStack := undoStack + [action];
      }
    }

    /** Write each of the action's cells: its previous colour on undo, its colour on redo. */
    method ApplyAction(ctx: array2<Color>, action: Action, isUndo: bool)
      requires IsGridArray(ctx) && ActionOk(action)
      modifies ctx
      ensures Rows(ctx) == Applied(old(Rows(ctx)), action, isUndo)
    {
      ghost var before := Rows(ctx);
      for i := 0 to |action.coordinates|
        invariant forall y, x :: 0 <= y < Size && 0 <= x < Size ==>
          ctx[y, x] == if Coord(x, y) in action.coordinates[..i]
                       then ColorFor(action, isUndo, Coord(x, y)) else before[y][x]
      {
        var coord := action.coordinates[i];
        assert coord in action.coordinates;
        var color := if isUndo then action.previousState[coord] else action.color;
        ctx[coord.y, coord.x] := color;
        assert action.coordinates[..i + 1] == action.coordinates[..i] + [coord];
      }
      assert action.coordinates[..|action.coordinates|] == action.coordinates;
      RowsEqual(ctx, Applied(before, action, isUndo));
    }
  }

  /**
    Undo then redo puts both stacks back as they were, and leaves every cell
    of the undone action at the action's colour and every other cell as it was.
   */
  lemma UndoThenRedo(st: AppState)
    requires StateOk(st) && |st.undoStack| > 0
    ensures var a := st.undoStack[|st.undoStack| - 1];
      var r := Redone(Undone(st));
      r.undoStack == st.undoStack && r.redoStack == st.redoStack &&
      r.canvas == Applied(st.canvas, a, false)
  {
    var n := |st.undoStack|;
    var a := st.undoStack[n - 1];
    var u := Undone(st);
    assert u.redoStack[|u.redoStack| - 1] == a;
    assert u.redoStack[..|u.redoStack| - 1] == st.redoStack;
    assert u.undoStack + [a] == st.undoStack;
    GridsEqual(Redone(u).canvas, Applied(st.canvas, a, false));
  }

  /** Redo then undo likewise puts both stacks back. */
  lemma RedoThenUndo(st: AppState)
    requires StateOk(st) && |st.redoStack| > 0
    ensures var a := st.redoStack[|st.redoStack| - 1];
      var r := Undone(Redone(st));
      r.undoStack == st.undoStack && r.redoStack == st.redoStack &&
      r.canvas == Applied(st.canvas, a, true)
  {
    var n := |st.redoStack|;
    var a := st.redoStack[n - 1];
    var u := Redone(st);
    assert u.undoStack[|u.undoStack| - 1] == a;
    assert u.undoStack[..|u.undoStack| - 1] == st.undoStack;
    assert u.redoStack + [a] == st.redoStack;
    GridsEqual(Undone(u).canvas, Applied(st.canvas, a, true));
  }

  /**
    Undoing a freshly painted cell restores the canvas exactly, and redoing it
    afterwards gives back exactly the state after the paint.
   */
  lemma PaintUndoRedo(st: AppState, reserved: set<Coord>, color: Color, c: Coord)
    requires StateOk(st) && InBounds(c) && c !in reserved
    ensures Undone(PaintCell(st, reserved, color, c)).canvas == st.canvas
    ensures Undone(PaintCell(st, reserved, color, c)).undoStack == st.undoStack
    ensures Redone(Undone(PaintCell(st, reserved, color, c))) == PaintCell(st, reserved, color, c)
  {
    var p := PaintCell(st, reserved, color, c);
    var a := DrawAction(c, color, At(st.canvas, c));
    assert p.undoStack[|p.undoStack| - 1] == a;
    GridsEqual(Undone(p).canvas, st.canvas);
    assert p.undoStack[..|p.undoStack| - 1] == st.undoStack;
    UndoThenRedo(p);
    GridsEqual(Redone(Undone(p)).canvas, p.canvas);
  }

  /**
    What painting a path does to the canvas: each unreserved cell of the path
    ends at the brush colour, every other cell keeps its colour.
   */
  lemma {:induction false} PaintPathCanvas(st: AppState, reserved: set<Coord>, color: Color, path: seq<Coord>)
    requires StateOk(st) && AllInBounds(path)
    ensures forall y, x :: 0 <= y < Size && 0 <= x < Size ==>
      PaintPath(st, reserved, color, path).canvas[y][x] ==
        if Coord(x, y) in path && Coord(x, y) !in reserved then color else st.canvas[y][x]
    decreases |path|
  {
    if path != [] {
      var n := |path|;
      var init := path[..n - 1];
      assert forall c :: c in init ==> c in path;
      PaintPathCanvas(st, reserved, color, init);
      assert path == init + [path[n - 1]];
      assert forall c :: c in path <==> c in init || c == path[n - 1];
    }
  }

  /**
    What painting a path does to the stacks: the old undo stack is kept below
    one new single-cell action per unreserved cell, and the redo stack is
    emptied as soon as one cell is painted.
   */
  lemma {:induction false} PaintPathStacks(st: AppState, reserved: set<Coord>, color: Color, path: seq<Coord>)
    requires StateOk(st) && AllInBounds(path)
    ensures var r := PaintPath(st, reserved, color, path);
      |r.undoStack| == |st.undoStack| + Unreserved(path, reserved) &&
      r.undoStack[..|st.undoStack|] == st.undoStack &&
      (forall i :: |st.undoStack| <= i < |r.undoStack| ==>
         r.undoStack[i].color == color && |r.undoStack[i].coordinates| == 1 &&
         r.undoStack[i].coordinates[0] in path && r.undoStack[i].coordinates[0] !in reserved) &&
      r.redoStack == (if Unreserved(path, reserved) == 0 then st.redoStack else [])
    decreases |path|
  {
    if path != [] {
      var n := |path|;
      var init := path[..n - 1];
      assert forall c :: c in init ==> c in path;
      PaintPathStacks(st, reserved, color, init);
      var mid := PaintPath(st, reserved, color, init);
      assert path[n - 1] in path;
      if path[n - 1] !in reserved {
        assert (mid.undoStack + [DrawAction(path[n - 1], color, At(mid.canvas, path[n - 1]))])[..|st.undoStack|]
          == mid.undoStack[..|st.undoStack|];
      }
    }
  }

  /** Painting any path leaves every reserved cell as it was. */
  lemma ReservedUntouched(st: AppState, reserved: set<Coord>, color: Color, path: seq<Coord>, c: Coord)
    requires StateOk(st) && AllInBounds(path) && InBounds(c) && c in reserved
    ensures At(PaintPath(st, reserved, color, path).canvas, c) == At(st.canvas, c)
  {
    PaintPathCanvas(st, reserved, color, path);
  }
  /**
    When no stacked action touches a reserved cell, undo and redo leave every
    reserved cell as it was, and still no stacked action touches one.
   */
  lemma UndoRedoKeepReserved(st: AppState, reserved: set<Coord>)
    requires StateOk(st) && AllAvoid(st.undoStack, reserved) && AllAvoid(st.redoStack, reserved)
    ensures AllAvoid(Undone(st).undoStack, reserved) && AllAvoid(Undone(st).redoStack, reserved)
    ensures AllAvoid(Redone(st).undoStack, reserved) && AllAvoid(Redone(st).redoStack, reserved)
    ensures forall c :: c in reserved && InBounds(c) ==>
      At(Undone(st).canvas, c) == At(st.canvas, c) && At(Redone(st).canvas, c) == At(st.canvas, c)
  {
    if |st.undoStack| > 0 {
      var a := st.undoStack[|st.undoStack| - 1];
      assert a in st.undoStack;
      assert forall b :: b in Undone(st).undoStack ==> b in st.undoStack;
      forall c | c in reserved && InBounds(c)
        ensures At(Undone(st).canvas, c) == At(st.canvas, c)
      {
        assert c !in a.coordinates;
      }
    }
    if |st.redoStack| > 0 {
      var a := st.redoStack[|st.redoStack| - 1];
      assert a in st.redoStack;
      assert forall b :: b in Redone(st).redoStack ==> b in st.redoStack;
      forall c | c in reserved && InBounds(c)
        ensures At(Redone(st).canvas, c) == At(st.canvas, c)
      {
        assert c !in a.coordinates;
      }
    }
  }

  /** Painting pushes only actions that avoid the reserved cells. */
  lemma PaintPathAvoids(st: AppState, reserved: set<Coord>, color: Color, path: seq<Coord>)
    requires StateOk(st) && AllInBounds(path)
    requires AllAvoid(st.undoStack, reserved) && AllAvoid(st.redoStack, reserved)
    ensures AllAvoid(PaintPath(st, reserved, color, path).undoStack, reserved)
    ensures AllAvoid(PaintPath(st, reserved, color, path).redoStack, reserved)
  {
    PaintPathStacks(st, reserved, color, path);
    var r := PaintPath(st, reserved, color, path);
    forall a | a in r.undoStack
      ensures Avoids(a, reserved)
    {
      var i :| 0 <= i < |r.undoStack| && r.undoStack[i] == a;
      if i < |st.undoStack| {
        assert a == r.undoStack[..|st.undoStack|][i];
      } else {
        assert a.coordinates == [a.coordinates[0]];
      }
    }
  }
}
