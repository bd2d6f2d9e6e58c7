/**
  clearSave.js (and `clearCanvas` in draw.js): clearing the grid. Unless it is
  the initial clear, the grid is saved first, so one undo brings it back; then
  every row is filled in place with the background colour.
 */
module ClearSave {
  import opened Pixels
  import opened Snapshots

  /** The history after `clearCanvas(init)`. */
  function Cleared(h: History, init: bool): (r: History)
    ensures HistoryOk(h) ==> HistoryOk(r)
    ensures IsGrid(r.grid)
    ensures forall y, x :: 0 <= y < Size && 0 <= x < Size ==> r.grid[y][x] == Background
    ensures init ==> r.undoStack == h.undoStack && r.redoStack == h.redoStack
    ensures !init ==> r.undoStack == h.undoStack + [h.grid] && r.redoStack == []
  {
    var saved := if init then h else Save(h);
    History(Filled(Background), saved.undoStack, saved.redoStack)
  }

  /** `clearCanvas(init)`: save unless `init`, then fill the live grid array in place. */
  method ClearCanvas(h: SnapshotHistory, init: bool)
    requires h.Valid()
    modifies h, h.pixels
    ensures h.Valid() && h.pixels == old(h.pixels)
    ensures h.State() == Cleared(old(h.State()), init)
  {
    if !init {
      h.SaveState();
    }
    var a := h.pixels;
    for y := 0 to Size
      modifies a
      invariant forall r, c :: 0 <= r < y && 0 <= c < Size ==> a[r, c] == Background
    {
      for x := 0 to Size
        modifies a
        invariant forall r, c :: 0 <= r < y && 0 <= c < Size ==> a[r, c] == Background
        invariant forall c :: 0 <= c < x ==> a[y, c] == Background
      {
        a[y, x] := Background;
      }
    }
    RowsEqual(a, Filled(Background));
  }

  /** Clearing a second time leaves the grid the first clear produced. */
  lemma ClearTwice(h: History, first: bool, second: bool)
    ensures Cleared(Cleared(h, first), second).grid == Cleared(h, first).grid
  {
  }

  /** A clear that is not the initial one is undone by a single undo. */
  lemma ClearThenUndo(h: History)
    ensures Undo(Cleared(h, false)).grid == h.grid
    ensures Undo(Cleared(h, false)).undoStack == h.undoStack
    ensures Undo(Cleared(h, false)).redoStack == [Filled(Background)]
  {
    assert Pop(Cleared(h, false).undoStack) == h.undoStack;
  }
}
