/**
  undoRedo.js (and the same three functions in draw.js): snapshot history.
  `saveState` pushes a deep copy of the whole grid; undo and redo swap the
  live grid with the top of one stack, pushing a copy of the live grid on the
  other. A deep copy of the grid is a `Grid` value, so a snapshot can never
  change after it has been taken.
 */
module Snapshots {
  import opened Pixels

  /** The live grid and the two snapshot stacks (tops last). */
  datatype History = History(grid: Grid, undoStack: seq<Grid>, redoStack: seq<Grid>)

  ghost predicate HistoryOk(h: History) {
    IsGrid(h.grid) &&
    (forall g :: g in h.undoStack ==> IsGrid(g)) &&
    (forall g :: g in h.redoStack ==> IsGrid(g))
  }

  function Top(s: seq<Grid>): Grid
    requires |s| > 0
  {
    s[|s| - 1]
  }

  function Pop(s: seq<Grid>): seq<Grid>
    requires |s| > 0
  {
    s[..|s| - 1]
  }

  /** `saveState`: the live grid becomes the undo top; the redo stack is emptied. */
  function Save(h: History): (r: History)
    ensures r.grid == h.grid && |r.undoStack| == |h.undoStack| + 1 && r.redoStack == []
  {
    History(h.grid, h.undoStack + [h.grid], [])
  }

  /**
    `undoLastAction`: with an empty undo stack nothing happens; otherwise the
    live grid goes onto the redo stack and the undo top becomes the live grid.
   */
  function Undo(h: History): (r: History)
    ensures |r.undoStack| + |r.redoStack| == |h.undoStack| + |h.redoStack|
    ensures |h.undoStack| == 0 ==> r == h
  {
    if |h.undoStack| == 0 then h
    else History(Top(h.undoStack), Pop(h.undoStack), h.redoStack + [h.grid])
  }

  /** `redoLastAction`: the mirror image of `Undo`. */
  function Redo(h: History): (r: History)
    ensures |r.undoStack| + |r.redoStack| == |h.undoStack| + |h.redoStack|
    ensures |h.redoStack| == 0 ==> r == h
  {
    if |h.redoStack| == 0 then h
    else History(Top(h.redoStack), h.undoStack + [h.grid], Pop(h.redoStack))
  }

  /** Saving, undoing and redoing keep every grid of the history a 32 x 32 grid. */
  lemma HistoryOkKept(h: History)
    requires HistoryOk(h)
    ensures HistoryOk(Save(h)) && HistoryOk(Undo(h)) && HistoryOk(Redo(h))
  {
  }

  /** `k` undos in a row. */
  function UndoTimes(h: History, k: nat): History
    decreases k
  {
    if k == 0 then h else Undo(UndoTimes(h, k - 1))
  }

  /** `k` redos in a row. */
  function RedoTimes(h: History, k: nat): History
    decreases k
  {
    if k == 0 then h else RedoTimes(Redo(h), k - 1)
  }

  /** A fresh grid array holding `g`: what `JSON.parse` of a snapshot yields. */
  method NewGridArray(g: Grid) returns (a: array2<Color>)
    requires IsGrid(g)
    ensures fresh(a) && IsGridArray(a) && Rows(a) == g
  {
    a := new Color[Size, Size]((y, x) requires 0 <= y < Size && 0 <= x < Size => g[y][x]);
    RowsEqual(a, g);
  }

  /** The history of undoRedo.js, with the live grid as one of its fields. */
  class SnapshotHistory {
    var pixels: array2<Color>
    var undoStack: seq<Grid>
    var redoStack: seq<Grid>

    ghost predicate Valid()
      reads this
    {
      IsGridArray(pixels) &&
      (forall g :: g in undoStack ==> IsGrid(g)) &&
      (forall g :: g in redoStack ==> IsGrid(g))
    }

    ghost function State(): History
      reads this, pixels
    {
      History(Rows(pixels), undoStack, redoStack)
    }

    /** A fresh grid, every cell the background colour, and no history. */
    constructor ()
      ensures Valid() && fresh(pixels)
      ensures State() == History(Filled(Background), [], [])
    {
      pixels := new Color[Size, Size]((y, x) => Background);
      undoStack := [];
      redoStack := [];
      new;
      RowsEqual(pixels, Filled(Background));
    }

    method SaveState()
      requires Valid()
      modifies this
      ensures Valid() && pixels == old(pixels)
      ensures State() == Save(old(State()))
    {
      undoStack := undoStack + [Rows(pixels)];
      redoStack := [];
    }

    /** On a non-empty undo stack the live grid is replaced by a fresh array. */
    method UndoLastAction()
      requires Valid()
      modifies this
      ensures Valid()
      ensures State() == Undo(old(State()))
      ensures if |old(undoStack)| > 0 then fresh(pixels) else pixels == old(pixels)
    {
      if |undoStack| > 0 {
        redoStack := redoStack + [Rows(pixels)];
        var top := undoStack[|undoStack| - 1];
        undoStack := undoStack[..|undoStack| - 1];
        pixels := NewGridArray(top);
      }
    }

    /** On a non-empty redo stack the live grid is replaced by a fresh array. */
    method RedoLastAction()
      requires Valid()
      modifies this
      ensures Valid()
      ensures State() == Redo(old(State()))
      ensures if |old(redoStack)| > 0 then fresh(pixels) else pixels == old(pixels)
    {
      if |redoStack| > 0 {
        undoStack := undoStack + [Rows(pixels)];
        var top := redoStack[|redoStack| - 1];
        redoStack := redoStack[..|redoStack| - 1];
        pixels := NewGridArray(top);
      }
    }
  }

  /**
    Undo makes the former undo top the live grid and puts the former live grid
    on top of the redo stack; the undo stack loses exactly its top.
   */
  lemma UndoMovesTop(h: History)
    requires |h.undoStack| > 0
    ensures Undo(h).grid == h.undoStack[|h.undoStack| - 1]
    ensures Undo(h).undoStack + [h.undoStack[|h.undoStack| - 1]] == h.undoStack
    ensures Undo(h).redoStack == h.redoStack + [h.grid]
  {
  }

  /** Redo makes the former redo top the live grid and puts the former live grid on the undo stack. */
  lemma RedoMovesTop(h: History)
    requires |h.redoStack| > 0
    ensures Redo(h).grid == h.redoStack[|h.redoStack| - 1]
    ensures Redo(h).redoStack + [h.redoStack[|h.redoStack| - 1]] == h.redoStack
    ensures Redo(h).undoStack == h.undoStack + [h.grid]
  {
  }

  /** Undo then redo gives back exactly the history before the undo. */
  lemma UndoThenRedo(h: History)
    requires |h.undoStack| > 0
    ensures Redo(Undo(h)) == h
  {
    assert Pop(h.undoStack) + [Top(h.undoStack)] == h.undoStack;
    assert Pop(Undo(h).redoStack) == h.redoStack;
  }

  /** Redo then undo gives back exactly the history before the redo. */
  lemma RedoThenUndo(h: History)
    requires |h.redoStack| > 0
    ensures Undo(Redo(h)) == h
  {
    assert Pop(h.redoStack) + [Top(h.redoStack)] == h.redoStack;
    assert Pop(Redo(h).undoStack) == h.undoStack;
  }

  /**
    Saving and then undoing restores the saved grid and undo stack; the redo
    stack then holds only that same grid.
   */
  lemma SaveThenUndo(h: History)
    ensures Undo(Save(h)) == History(h.grid, h.undoStack, [h.grid])
  {
    assert Pop(Save(h).undoStack) == h.undoStack;
  }

  /** `k` undos need the undo stack to have at least `k` entries; they shift `k` snapshots across. */
  lemma {:induction false} UndoTimesLengths(h: History, k: nat)
    requires k <= |h.undoStack|
    ensures |UndoTimes(h, k).undoStack| == |h.undoStack| - k
    ensures |UndoTimes(h, k).redoStack| == |h.redoStack| + k
  {
    if k > 0 {
      UndoTimesLengths(h, k - 1);
    }
  }

  /** A redo after `k` undos takes back the last of them. */
  lemma RedoAfterUndos(h: History, k: nat)
    requires 0 < k <= |h.undoStack|
    ensures Redo(UndoTimes(h, k)) == UndoTimes(h, k - 1)
  {
    UndoTimesLengths(h, k - 1);
    UndoThenRedo(UndoTimes(h, k - 1));
  }

  /** Any number of undos, followed by as many redos, restores the history exactly. */
  lemma {:induction false} UndoRedoTimes(h: History, k: nat)
    requires k <= |h.undoStack|
    ensures RedoTimes(UndoTimes(h, k), k) == h
  {
    if k > 0 {
      RedoAfterUndos(h, k);
      UndoRedoTimes(h, k - 1);
    }
  }
}
