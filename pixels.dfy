/**
  The vocabulary shared by every version of the editor: colours, cell
  coordinates and the 32 x 32 grid of colours.
 */
module Pixels {

  /** A colour is the CSS colour text the program stores; app.js never looks inside it. */
  datatype Color = Css(text: string)

  /** Cells per side of the grid (`gridSize` in draw.js, `canvas.width / 32` cells in app.js). */
  const Size: nat := 32

  /** The canvas colour of a fresh or cleared grid. */
  const Background: Color := Css("#FCE184")

  /** The colour of the reserved neck lines, and the starting brush colour. */
  const Ink: Color := Css("#0F0E0C")

  datatype Option<T> = None | Some(value: T)

  /** A cell (column x, row y), or, in draw.js, a point measured in canvas pixels. */
  datatype Coord = Coord(x: int, y: int)

  /** A grid as rows: `g[y][x]` is the colour of column x in row y. */
  type Grid = seq<seq<Color>>

  predicate InBounds(c: Coord) {
    0 <= c.x < Size && 0 <= c.y < Size
  }

  predicate IsGrid(g: Grid) {
    |g| == Size && forall y :: 0 <= y < Size ==> |g[y]| == Size
  }

  predicate IsGridArray(a: array2<Color>) {
    a.Length0 == Size && a.Length1 == Size
  }

  function At(g: Grid, c: Coord): Color
    requires IsGrid(g) && InBounds(c)
  {
    g[c.y][c.x]
  }

  /** The rows of a grid array, as a value (what a deep copy of the grid holds). */
  function Rows(a: array2<Color>): (g: Grid)
    reads a
    ensures |g| == a.Length0
    ensures forall y :: 0 <= y < a.Length0 ==> |g[y]| == a.Length1
    ensures forall y, x :: 0 <= y < a.Length0 && 0 <= x < a.Length1 ==> g[y][x] == a[y, x]
  {
    seq(a.Length0, y requires 0 <= y < a.Length0 reads a =>
      seq(a.Length1, x requires 0 <= x < a.Length1 reads a => a[y, x]))
  }

  /** `g` with the one cell `c` repainted. */
  function SetCell(g: Grid, c: Coord, color: Color): (r: Grid)
    requires IsGrid(g) && InBounds(c)
    ensures IsGrid(r) && At(r, c) == color
  {
    g[c.y := g[c.y][c.x := color]]
  }

  /** Repainting one cell leaves every other cell as it was. */
  lemma SetCellOnly(g: Grid, c: Coord, color: Color)
    requires IsGrid(g) && InBounds(c)
    ensures forall y, x :: 0 <= y < Size && 0 <= x < Size ==>
      SetCell(g, c, color)[y][x] == if Coord(x, y) == c then color else g[y][x]
  {
  }

  /** A grid whose every cell is `color`. */
  function Filled(color: Color): (r: Grid)
    ensures IsGrid(r)
    ensures forall y, x :: 0 <= y < Size && 0 <= x < Size ==> r[y][x] == color
  {
    seq(Size, _ => seq(Size, _ => color))
  }

  /** A grid array holds exactly the grid `g` when they agree cell by cell. */
  lemma RowsEqual(a: array2<Color>, g: Grid)
    requires IsGridArray(a) && IsGrid(g)
    requires forall y, x :: 0 <= y < Size && 0 <= x < Size ==> a[y, x] == g[y][x]
    ensures Rows(a) == g
  {
    var r := Rows(a);
    forall y | 0 <= y < Size
      ensures r[y] == g[y]
    {
      assert |r[y]| == |g[y]|;
      assert forall x :: 0 <= x < Size ==> r[y][x] == g[y][x];
    }
  }

  /** Two grids are equal when they agree cell by cell. */
  lemma GridsEqual(g: Grid, h: Grid)
    requires IsGrid(g) && IsGrid(h)
    requires forall y, x :: 0 <= y < Size && 0 <= x < Size ==> g[y][x] == h[y][x]
    ensures g == h
  {
    forall y | 0 <= y < Size
      ensures g[y] == h[y]
    {
      assert |g[y]| == |h[y]|;
    }
  }
}
