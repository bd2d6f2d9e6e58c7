/**
  draw.js: the snapshot-based editor. The grid holds a colour per cell and is
  edited in place by `drawPixel`; a stroke saves one snapshot when it starts
  and then joins successive pointer positions with Bresenham's line, measured
  in canvas pixels and drawn cell by cell, skipping the cell under the
  highlight. Undo, redo and clear are those of undoRedo.js and clearSave.js.
 */
module Draw {
  import opened Pixels
  import opened Raster
  import opened JsText
  import opened Snapshots
  import opened ClearSave

  // ---------------------------------------------------------------------------
  // invertColor

  /** The body of `invertColor` for one channel: parse two digits, invert, print, pad. */
  function Channel(h: string, i: nat): string {
    PadStart(NumberToHex(Minus(255, ParseHex(Substring(h, 2 * i, 2 * i + 2)))), 2, '0')
  }

  /** `invertColor`: drop a leading '#', invert the three channels, print them with a '#'. */
  function InvertColor(hex: string): string {
    var h := if |hex| > 0 && hex[0] == '#' then SliceFrom1(hex) else hex;
    "#" + Channel(h, 0) + Channel(h, 1) + Channel(h, 2)
  }

  /** '#' followed by six hex digits. */
  predicate IsHexColor(s: string) {
    |s| == 7 && s[0] == '#' && forall i :: 1 <= i < 7 ==> IsHexDigit(s[i])
  }

  /** The value of channel i (0 red, 1 green, 2 blue) of a hex colour. */
  function ChannelValue(s: string, i: nat): (v: nat)
    requires IsHexColor(s) && i < 3
    ensures v < 256
  {
    16 * DigitValue(s[1 + 2 * i]) + DigitValue(s[2 + 2 * i])
  }

  /** A hex digit in lower case. */
  function Lower(c: char): char {
    if 'A' <= c <= 'F' then (c as int - 'A' as int + 'a' as int) as char else c
  }

  /** The hex colour with its digits in lower case. */
  function LowerHex(s: string): (r: string)
    requires IsHexColor(s)
    ensures |r| == 7 && r[0] == '#' && forall i :: 1 <= i < 7 ==> r[i] == Lower(s[i])
  {
    "#" + seq(6, i requires 0 <= i < 6 => Lower(s[i + 1]))
  }

  /** Two lower-case digits for a value below 256. */
  function Pair(v: nat): (r: string)
    requires v < 256
    ensures |r| == 2 && AllHex(r)
    ensures DigitValue(r[0]) == v / 16 && DigitValue(r[1]) == v % 16
    ensures forall i :: 0 <= i < 2 ==> !('A' <= r[i] <= 'F')
  {
    [HexDigit(v / 16), HexDigit(v % 16)]
  }

  /** Two hex digits are worth sixteen times the first plus the second. */
  lemma TwoDigitValue(t: string)
    requires |t| == 2 && AllHex(t)
    ensures HexValue(t, 0, 2) == 16 * DigitValue(t[0]) + DigitValue(t[1])
  {
    assert HexValue(t, 0, 1) == DigitValue(t[0]);
  }

  /** A value below 256 printed in base 16 and padded to two places is its `Pair`. */
  lemma PaddedByte(v: nat)
    requires v < 256
    ensures PadStart(ToHex(v), 2, '0') == Pair(v)
  {
    if v >= 16 {
      assert ToHex(v / 16) == [HexDigit(v / 16)];
    }
  }

  /** `substring(2i, 2i + 2)` of a long enough string is its two characters there. */
  lemma SubstringPair(h: string, i: nat)
    requires 2 * i + 2 <= |h|
    ensures Substring(h, 2 * i, 2 * i + 2) == [h[2 * i], h[2 * i + 1]]
  {
  }

  /** Two hex digits parse to their value. */
  lemma ParsePair(t: string)
    requires |t| == 2 && AllHex(t)
    ensures ParseHex(t) == Num(16 * DigitValue(t[0]) + DigitValue(t[1]))
  {
    TwoDigitValue(t);
    ParseHexDigits(t);
  }

  /** `(255 - v).toString(16).padStart(2, '0')` for a byte `v`. */
  lemma InvertByte(v: nat)
    requires v < 256
    ensures PadStart(NumberToHex(Minus(255, Num(v))), 2, '0') == Pair(255 - v)
  {
    PaddedByte(255 - v);
  }

  /** A channel of two hex digits worth `v` inverts to two lower-case digits of 255 minus `v`. */
  lemma ChannelOfPair(h: string, i: nat, v: nat)
    requires 2 * i + 2 <= |h| && IsHexDigit(h[2 * i]) && IsHexDigit(h[2 * i + 1])
    requires v == 16 * DigitValue(h[2 * i]) + DigitValue(h[2 * i + 1])
    ensures v < 256 && Channel(h, i) == Pair(255 - v)
  {
    SubstringPair(h, i);
    ParsePair([h[2 * i], h[2 * i + 1]]);
    InvertByte(v);
  }

  /** The inverse of a hex colour: '#' and, per channel, the two lower-case digits of 255 minus it. */
  function Inverted(s: string): string
    requires IsHexColor(s)
  {
    "#" + Pair(255 - ChannelValue(s, 0)) + Pair(255 - ChannelValue(s, 1)) + Pair(255 - ChannelValue(s, 2))
  }

  /** With a leading '#', `invertColor` works on the six characters after it. */
  lemma InvertColorChannels(s: string)
    requires |s| > 0 && s[0] == '#'
    ensures InvertColor(s) == "#" + Channel(SliceFrom1(s), 0) + Channel(SliceFrom1(s), 1) + Channel(SliceFrom1(s), 2)
  {
  }

  /** Channel i of the characters after the first, when they are two hex digits worth `v`. */
  lemma ChannelAfterFirst(s: string, i: nat, v: nat)
    requires 2 * i + 3 <= |s| && IsHexDigit(s[2 * i + 1]) && IsHexDigit(s[2 * i + 2])
    requires v == 16 * DigitValue(s[2 * i + 1]) + DigitValue(s[2 * i + 2])
    ensures v < 256 && Channel(SliceFrom1(s), i) == Pair(255 - v)
  {
    var h := SliceFrom1(s);
    assert h[2 * i] == s[2 * i + 1] && h[2 * i + 1] == s[2 * i + 2];
    ChannelOfPair(h, i, v);
  }

  /** '#' and three strings, joined, are determined by the three strings. */
  lemma JoinEqual(a0: string, a1: string, a2: string, b0: string, b1: string, b2: string)
    requires a0 == b0 && a1 == b1 && a2 == b2
    ensures "#" + a0 + a1 + a2 == "#" + b0 + b1 + b2
  {
  }

  /** Text after a '#' whose three channels invert to `p0`, `p1`, `p2` inverts to '#' and the three. */
  lemma InvertFromChannels(s: string, p0: string, p1: string, p2: string)
    requires |s| > 0 && s[0] == '#'
    requires Channel(SliceFrom1(s), 0) == p0 && Channel(SliceFrom1(s), 1) == p1 && Channel(SliceFrom1(s), 2) == p2
    ensures InvertColor(s) == "#" + p0 + p1 + p2
  {
    InvertColorChannels(s);
    var h := SliceFrom1(s);
    JoinEqual(Channel(h, 0), Channel(h, 1), Channel(h, 2), p0, p1, p2);
  }

  /** On a hex colour `invertColor` computes `Inverted`. */
  lemma InvertFormula(s: string)
    requires IsHexColor(s)
    ensures InvertColor(s) == Inverted(s)
  {
    var v0, v1, v2 := ChannelValue(s, 0), ChannelValue(s, 1), ChannelValue(s, 2);
    ChannelAfterFirst(s, 0, v0);
    ChannelAfterFirst(s, 1, v1);
    ChannelAfterFirst(s, 2, v2);
    InvertFromChannels(s, Pair(255 - v0), Pair(255 - v1), Pair(255 - v2));
  }

  /** The seven characters of '#' and three pairs. */
  lemma PairsAt(p0: string, p1: string, p2: string)
    requires |p0| == 2 && |p1| == 2 && |p2| == 2
    ensures var r := "#" + p0 + p1 + p2;
      |r| == 7 && r[0] == '#' &&
      r[1] == p0[0] && r[2] == p0[1] && r[3] == p1[0] && r[4] == p1[1] && r[5] == p2[0] && r[6] == p2[1]
  {
  }

  /** A pair of hex digits has no upper-case digit. */
  predicate LowerPair(p: string) {
    |p| == 2 && AllHex(p) && !('A' <= p[0] <= 'F') && !('A' <= p[1] <= 'F')
  }

  /** '#' and three lower-case pairs make a lower-case hex colour whose channels are the pairs' values. */
  lemma JoinedColor(p0: string, p1: string, p2: string)
    requires LowerPair(p0) && LowerPair(p1) && LowerPair(p2)
    ensures var r := "#" + p0 + p1 + p2;
      IsHexColor(r) && (forall i :: 1 <= i < 7 ==> !('A' <= r[i] <= 'F')) &&
      ChannelValue(r, 0) == 16 * DigitValue(p0[0]) + DigitValue(p0[1]) &&
      ChannelValue(r, 1) == 16 * DigitValue(p1[0]) + DigitValue(p1[1]) &&
      ChannelValue(r, 2) == 16 * DigitValue(p2[0]) + DigitValue(p2[1])
  {
    PairsAt(p0, p1, p2);
  }

  /** A pair is a lower-case pair worth its value. */
  lemma PairIsLower(v: nat)
    requires v < 256
    ensures LowerPair(Pair(v)) && 16 * DigitValue(Pair(v)[0]) + DigitValue(Pair(v)[1]) == v
  {
  }

  /** The inverse is a lower-case hex colour whose channels are 255 minus those of `s`. */
  lemma InvertedHexColor(s: string)
    requires IsHexColor(s)
    ensures IsHexColor(Inverted(s))
    ensures forall i :: 1 <= i < 7 ==> !('A' <= Inverted(s)[i] <= 'F')
    ensures ChannelValue(Inverted(s), 0) == 255 - ChannelValue(s, 0)
    ensures ChannelValue(Inverted(s), 1) == 255 - ChannelValue(s, 1)
    ensures ChannelValue(Inverted(s), 2) == 255 - ChannelValue(s, 2)
  {
    var v0, v1, v2 := 255 - ChannelValue(s, 0), 255 - ChannelValue(s, 1), 255 - ChannelValue(s, 2);
    PairIsLower(v0);
    PairIsLower(v1);
    PairIsLower(v2);
    JoinedColor(Pair(v0), Pair(v1), Pair(v2));
  }

  /**
    On '#' and six hex digits, `invertColor` returns '#' and six lower-case
    hex digits, each channel (red, green, blue) being 255 minus the same
    channel of the input.
   */
  lemma InvertHexColor(s: string)
    requires IsHexColor(s)
    ensures IsHexColor(InvertColor(s))
    ensures forall i :: 1 <= i < 7 ==> !('A' <= InvertColor(s)[i] <= 'F')
    ensures ChannelValue(InvertColor(s), 0) == 255 - ChannelValue(s, 0)
    ensures ChannelValue(InvertColor(s), 1) == 255 - ChannelValue(s, 1)
    ensures ChannelValue(InvertColor(s), 2) == 255 - ChannelValue(s, 2)
  {
    InvertFormula(s);
    InvertedHexColor(s);
  }

  lemma LowerDigit(c: char)
    requires IsHexDigit(c)
    ensures HexDigit(DigitValue(c)) == Lower(c)
  {
  }

  /** Two hex digits, read as a value, inverted twice and printed as a pair, come back in lower case. */
  lemma PairFlip(a: char, b: char, v: nat)
    requires IsHexDigit(a) && IsHexDigit(b)
    requires v + 16 * DigitValue(a) + DigitValue(b) == 255
    ensures Pair(255 - v) == [Lower(a), Lower(b)]
  {
    var w := 16 * DigitValue(a) + DigitValue(b);
    assert w / 16 == DigitValue(a) && w % 16 == DigitValue(b);
    LowerDigit(a);
    LowerDigit(b);
  }

  /** The lower-case colour as '#' and three pairs. */
  lemma LowerHexPairs(s: string)
    requires IsHexColor(s)
    ensures LowerHex(s) ==
      "#" + [Lower(s[1]), Lower(s[2])] + [Lower(s[3]), Lower(s[4])] + [Lower(s[5]), Lower(s[6])]
  {
    PairsAt([Lower(s[1]), Lower(s[2])], [Lower(s[3]), Lower(s[4])], [Lower(s[5]), Lower(s[6])]);
  }

  /** Inverting the inverse gives the colour back, in lower case. */
  lemma InvertedTwice(s: string)
    requires IsHexColor(s)
    ensures IsHexColor(Inverted(s)) && Inverted(Inverted(s)) == LowerHex(s)
  {
    InvertedHexColor(s);
    var r := Inverted(s);
    var v0, v1, v2 := ChannelValue(r, 0), ChannelValue(r, 1), ChannelValue(r, 2);
    PairFlip(s[1], s[2], v0);
    PairFlip(s[3], s[4], v1);
    PairFlip(s[5], s[6], v2);
    LowerHexPairs(s);
    JoinEqual(Pair(255 - v0), Pair(255 - v1), Pair(255 - v2),
      [Lower(s[1]), Lower(s[2])], [Lower(s[3]), Lower(s[4])], [Lower(s[5]), Lower(s[6])]);
  }

  /** Inverting a hex colour twice gives the colour back, in lower case. */
  lemma InvertTwice(s: string)
    requires IsHexColor(s)
    ensures InvertColor(InvertColor(s)) == LowerHex(s)
  {
    InvertFormula(s);
    InvertedTwice(s);
    InvertFormula(Inverted(s));
  }

  /** Without the leading '#' the six digits invert the same way. */
  lemma InvertWithoutHash(s: string)
    requires IsHexColor(s)
    ensures InvertColor(SliceFrom1(s)) == InvertColor(s)
  {
    assert !IsHexDigit('#');
  }

  /** A channel of text without hex digits is "NaN". */
  lemma ChannelNaN(h: string, i: nat)
    requires forall j :: 0 <= j < |h| ==> !IsHexDigit(h[j])
    ensures Channel(h, i) == "NaN"
  {
    ParseHexNoDigits(Substring(h, 2 * i, 2 * i + 2));
  }

  /** Three "NaN" channels. */
  lemma JoinNaN()
    ensures "#" + "NaN" + "NaN" + "NaN" == "#NaNNaNNaN"
  {
  }

  /** Text with no hex digit at all (after an optional '#') inverts to "#NaNNaNNaN". */
  lemma InvertNoDigits(s: string)
    requires forall i :: 0 <= i < |s| ==> !IsHexDigit(s[i])
    ensures InvertColor(s) == "#NaNNaNNaN"
  {
    var h := if |s| > 0 && s[0] == '#' then SliceFrom1(s) else s;
    assert forall i :: 0 <= i < |h| ==> !IsHexDigit(h[i]);
    ChannelNaN(h, 0);
    ChannelNaN(h, 1);
    ChannelNaN(h, 2);
    JoinEqual(Channel(h, 0), Channel(h, 1), Channel(h, 2), "NaN", "NaN", "NaN");
    JoinNaN();
  }

  // ---------------------------------------------------------------------------
  // Cells of canvas points

  /** The cell under canvas point p: `Math.floor(x / pixelWidth)`, `Math.floor(y / pixelHeight)`. */
  function CellOf(p: Coord, w: nat, h: nat): Coord
    requires w > 0 && h > 0
  {
    Coord(p.x / w, p.y / h)
  }

  function CellsOf(points: seq<Coord>, w: nat, h: nat): (cells: seq<Coord>)
    requires w > 0 && h > 0
    ensures |cells| == |points|
    ensures forall i :: 0 <= i < |points| ==> cells[i] == CellOf(points[i], w, h)
  {
    seq(|points|, i requires 0 <= i < |points| => CellOf(points[i], w, h))
  }

  /** Floor division by a positive number is monotone. */
  lemma DivMonotone(a: int, b: int, w: int)
    requires a <= b && w > 0
    ensures a / w <= b / w
  {
    var qa, qb := a / w, b / w;
    assert a == w * qa + a % w && 0 <= a % w < w;
    assert b == w * qb + b % w && 0 <= b % w < w;
    if qa > qb {
      MulMonotone(w, qb + 1, qa);
    }
  }

  lemma MulMonotone(w: int, a: int, b: int)
    requires w > 0 && a <= b
    ensures w * a <= w * b
  {
    ProductNonNegative(w, b - a);
    assert w * b - w * a == w * (b - a);
  }

  /** Points one apart fall in cells at most one apart. */
  lemma DivStep(a: int, w: int)
    requires w > 0
    ensures a / w <= (a + 1) / w <= a / w + 1
  {
    DivMonotone(a, a + 1, w);
    var q, q1 := a / w, (a + 1) / w;
    assert a == w * q + a % w && 0 <= a % w < w;
    assert a + 1 == w * q1 + (a + 1) % w && 0 <= (a + 1) % w < w;
    if q1 > q + 1 {
      MulMonotone(w, q + 2, q1);
    }
  }

  lemma AdjacentCells(p: Coord, q: Coord, w: nat, h: nat)
    requires w > 0 && h > 0 && Adjacent(p, q)
    ensures Adjacent(CellOf(p, w, h), CellOf(q, w, h))
  {
    if p.x < q.x { DivStep(p.x, w); } else if q.x < p.x { DivStep(q.x, w); }
    if p.y < q.y { DivStep(p.y, h); } else if q.y < p.y { DivStep(q.y, h); }
  }

  /** The cells of an 8-connected run of points are 8-connected. */
  lemma ConnectedCells(points: seq<Coord>, w: nat, h: nat)
    requires w > 0 && h > 0 && Connected(points)
    ensures Connected(CellsOf(points, w, h))
  {
    forall i | 0 < i < |points|
      ensures Adjacent(CellsOf(points, w, h)[i - 1], CellsOf(points, w, h)[i])
    {
      AdjacentCells(points[i - 1], points[i], w, h);
    }
  }

  /** A value between two others has its quotient between theirs. */
  lemma DivBetween(v: int, a: int, b: int, w: int)
    requires w > 0 && Between(v, a, b)
    ensures Between(v / w, a / w, b / w)
  {
    if a <= v <= b {
      DivMonotone(a, v, w);
      DivMonotone(v, b, w);
    } else {
      DivMonotone(b, v, w);
      DivMonotone(v, a, w);
    }
  }

  /** A point in the box of two points whose cells are on the grid is itself over the grid. */
  lemma BoxCellInBounds(s: Segment, c: Coord, w: nat, h: nat)
    requires w > 0 && h > 0 && InBox(s, c)
    requires InBounds(CellOf(Coord(s.x0, s.y0), w, h)) && InBounds(CellOf(Coord(s.x1, s.y1), w, h))
    ensures InBounds(CellOf(c, w, h))
  {
    DivBetween(c.x, s.x0, s.x1, w);
    DivBetween(c.y, s.y0, s.y1, h);
  }

  // ---------------------------------------------------------------------------
  // Strokes

  /** `drawPixel` on each cell in turn, except the hovered cell. */
  function Stroke(g: Grid, cells: seq<Coord>, hovered: Option<Coord>, color: Color): (r: Grid)
    requires IsGrid(g) && forall c :: c in cells ==> InBounds(c)
    ensures IsGrid(r)
    decreases |cells|
  {
    if cells == [] then g
    else
      var n := |cells|;
      var prev := Stroke(g, cells[..n - 1], hovered, color);
      if hovered == Some(cells[n - 1]) then prev else SetCell(prev, cells[n - 1], color)
  }

  /**
    What a stroke does to the grid: every cell it passes over, except the
    hovered one, ends in the brush colour; every other cell keeps its colour.
   */
  lemma {:induction false} StrokeCanvas(g: Grid, cells: seq<Coord>, hovered: Option<Coord>, color: Color)
    requires IsGrid(g) && forall c :: c in cells ==> InBounds(c)
    ensures forall y, x :: 0 <= y < Size && 0 <= x < Size ==>
      Stroke(g, cells, hovered, color)[y][x] ==
        if Coord(x, y) in cells && hovered != Some(Coord(x, y)) then color else g[y][x]
    decreases |cells|
  {
    if cells != [] {
      var n := |cells|;
      var init := cells[..n - 1];
      assert forall c :: c in init ==> c in cells;
      StrokeCanvas(g, init, hovered, color);
      assert cells == init + [cells[n - 1]];
      assert forall c :: c in cells <==> c in init || c == cells[n - 1];
      SetCellOnly(Stroke(g, init, hovered, color), cells[n - 1], color);
    }
  }

  /**
    The grid after the first k passes of the `drawLine` loop from `g`. (A
    pass whose cell is off the grid, which a loop between two points over the
    grid never makes, would change nothing.)
   */
  ghost function Stroked(g: Grid, s: Segment, w: nat, h: nat, hovered: Option<Coord>, color: Color, k: nat): (r: Grid)
    ensures IsGrid(g) ==> IsGrid(r)
  {
    if k == 0 then g
    else
      var prev := Stroked(g, s, w, h, hovered, color, k - 1);
      if w > 0 && h > 0 && IsGrid(prev) then
        var c := CellOf(CoordOf(Pass(Inclusive, s, k - 1)), w, h);
        if !InBounds(c) || hovered == Some(c) then prev else SetCell(prev, c, color)
      else prev
  }

  /** While the loop of `drawLine` runs, the cell of its current point is on the grid. */
  lemma PassCellInBounds(s: Segment, w: nat, h: nat, k: nat)
    requires w > 0 && h > 0
    requires InBounds(CellOf(Coord(s.x0, s.y0), w, h)) && InBounds(CellOf(Coord(s.x1, s.y1), w, h))
    requires Running(Inclusive, s, k)
    ensures InBounds(CellOf(CoordOf(Pass(Inclusive, s, k)), w, h))
  {
    CellsOnLine(Inclusive, s, k);
    OnTrackInBox(s, Pass(Inclusive, s, k));
    BoxCellInBounds(s, CoordOf(Pass(Inclusive, s, k)), w, h);
  }

  /** The cells of k passes are those of k - 1 passes and the cell of pass k - 1. */
  lemma CellsOfStep(s: Segment, w: nat, h: nat, k: nat)
    requires w > 0 && h > 0 && k > 0
    ensures CellsOf(Cells(Inclusive, s, k), w, h) ==
      CellsOf(Cells(Inclusive, s, k - 1), w, h) + [CellOf(CoordOf(Pass(Inclusive, s, k - 1)), w, h)]
  {
    var points := Cells(Inclusive, s, k);
    assert points == Cells(Inclusive, s, k - 1) + [CoordOf(Pass(Inclusive, s, k - 1))];
    assert forall i :: 0 <= i < k - 1 ==> points[i] == Cells(Inclusive, s, k - 1)[i];
  }

  /** While the loop runs, the cells of the points it has visited are on the grid. */
  lemma {:induction false} StrokeCellsInBounds(s: Segment, w: nat, h: nat, k: nat)
    requires w > 0 && h > 0
    requires InBounds(CellOf(Coord(s.x0, s.y0), w, h)) && InBounds(CellOf(Coord(s.x1, s.y1), w, h))
    requires k == 0 || Running(Inclusive, s, k - 1)
    ensures forall c :: c in CellsOf(Cells(Inclusive, s, k), w, h) ==> InBounds(c)
  {
    if k > 0 {
      StrokeCellsInBounds(s, w, h, k - 1);
      PassCellInBounds(s, w, h, k - 1);
      CellsOfStep(s, w, h, k);
    }
  }

  /** A stroke over one more cell is the shorter stroke followed by that cell. */
  lemma StrokeLast(g: Grid, cells: seq<Coord>, c: Coord, hovered: Option<Coord>, color: Color)
    requires IsGrid(g) && InBounds(c) && forall d :: d in cells ==> InBounds(d)
    ensures forall d :: d in cells + [c] ==> InBounds(d)
    ensures Stroke(g, cells + [c], hovered, color) ==
      var prev := Stroke(g, cells, hovered, color);
      if hovered == Some(c) then prev else SetCell(prev, c, color)
  {
    assert (cells + [c])[..|cells|] == cells;
  }

  /** The passes draw the cells of the points they visit, in order. */
  lemma {:induction false} StrokedIsStroke(g: Grid, s: Segment, w: nat, h: nat, hovered: Option<Coord>, color: Color, k: nat)
    requires IsGrid(g) && w > 0 && h > 0
    requires InBounds(CellOf(Coord(s.x0, s.y0), w, h)) && InBounds(CellOf(Coord(s.x1, s.y1), w, h))
    requires k == 0 || Running(Inclusive, s, k - 1)
    ensures forall c :: c in CellsOf(Cells(Inclusive, s, k), w, h) ==> InBounds(c)
    ensures Stroked(g, s, w, h, hovered, color, k) == Stroke(g, CellsOf(Cells(Inclusive, s, k), w, h), hovered, color)
  {
    StrokeCellsInBounds(s, w, h, k);
    if k > 0 {
      var before := CellsOf(Cells(Inclusive, s, k - 1), w, h);
      var c := CellOf(CoordOf(Pass(Inclusive, s, k - 1)), w, h);
      StrokedIsStroke(g, s, w, h, hovered, color, k - 1);
      PassCellInBounds(s, w, h, k - 1);
      CellsOfStep(s, w, h, k);
      StrokeLast(g, before, c, hovered, color);
    }
  }

  /**
    The body of the `drawLine` loop after the end test: both tests read the
    same `e2`; with `dy` stored negated they are one `Step` of the inclusive
    variant.
   */
  method InclusiveStep(ghost s: Segment, x0: int, y0: int, err0: int, dx: int, dy: int, sx: int, sy: int)
    returns (x: int, y: int, err: int)
    requires dx == Dx(s) && dy == -Dy(s) && sx == Sx(s) && sy == Sy(s)
    ensures Pos(x, y, err) == Step(Inclusive, s, Pos(x0, y0, err0))
  {
    x, y, err := x0, y0, err0;
    var e2 := 2 * err;
    if e2 >= dy {
      err := err + dy;
      x := x + sx;
    }
    if e2 <= dx {
      err := err + dx;
      y := y + sy;
    }
  }

  // ---------------------------------------------------------------------------
  // The editor

  class PixelEditor {
    /** The grid and the two snapshot stacks. */
    const history: SnapshotHistory
    /** `pixelWidth` and `pixelHeight`: canvas pixels per cell. */
    const pixelWidth: nat
    const pixelHeight: nat
    var isDrawing: bool
    var currentColor: Color
    /** `lastX`, `lastY`: the previous pointer position, in canvas pixels. */
    var last: Option<Coord>
    /** `hoveredX`, `hoveredY`: the highlighted cell. */
    var hovered: Option<Coord>

    ghost predicate Valid()
      reads this, history
    {
      history.Valid() && pixelWidth > 0 && pixelHeight > 0 &&
      (isDrawing ==> last.Some? && InBounds(CellOf(last.value, pixelWidth, pixelHeight))) &&
      (hovered.Some? ==> InBounds(hovered.value))
    }

    ghost function State(): History
      reads this, history, history.pixels
    {
      history.State()
    }

    /**
      A canvas of the given size in canvas pixels, at least one pixel per
      cell; a fresh background grid, no history, ink as the brush colour.
     */
    constructor (canvasWidth: nat, canvasHeight: nat)
      requires canvasWidth >= Size && canvasHeight >= Size
      ensures Valid() && fresh(history) && fresh(history.pixels)
      ensures State() == History(Filled(Background), [], [])
      ensures pixelWidth == canvasWidth / Size && pixelHeight == canvasHeight / Size
      ensures !isDrawing && currentColor == Ink && last == None && hovered == None
    {
      history := new SnapshotHistory();
      pixelWidth := canvasWidth / Size;
      pixelHeight := canvasHeight / Size;
      isDrawing := false;
      currentColor := Ink;
      last := None;
      hovered := None;
    }

    /** `drawPixel`: set one cell of the grid. */
    method DrawPixel(x: int, y: int, color: Color)
      requires Valid() && InBounds(Coord(x, y))
      modifies history.pixels
      ensures Rows(history.pixels) == SetCell(old(Rows(history.pixels)), Coord(x, y), color)
    {
      ghost var before := Rows(history.pixels);
      history.pixels[y, x] := color;
      RowsEqual(history.pixels, SetCell(before, Coord(x, y), color));
    }

    /**
      `drawLine`: Bresenham's loop over canvas points from `a` to `b`,
      drawing the cell of every point it visits unless that cell is hovered.
     */
    method DrawLine(a: Coord, b: Coord, color: Color)
      requires Valid()
      requires InBounds(CellOf(a, pixelWidth, pixelHeight)) && InBounds(CellOf(b, pixelWidth, pixelHeight))
      modifies history.pixels
      ensures forall c :: c in CellsOf(Line(Inclusive, Segment(a.x, a.y, b.x, b.y)), pixelWidth, pixelHeight) ==> InBounds(c)
      ensures Rows(history.pixels) == Stroke(old(Rows(history.pixels)),
        CellsOf(Line(Inclusive, Segment(a.x, a.y, b.x, b.y)), pixelWidth, pixelHeight), hovered, color)
    {
      ghost var s := Segment(a.x, a.y, b.x, b.y);
      ghost var start := Rows(history.pixels);
      var x1, y1 := a.x, a.y;
      var dx: int := Abs(b.x - a.x);
      var sx := if a.x < b.x then 1 else -1;
      var dy: int := -(Abs(b.y - a.y) as int);
      var sy := if a.y < b.y then 1 else -1;
      var err := dx + dy;
      ghost var i := 0;
      while true
        invariant Drawing(start, s, color, i, Pos(x1, y1, err))
        decreases Remaining(s, Pos(x1, y1, err))
      {
        var x := x1 / pixelWidth;
        var y := y1 / pixelHeight;
        DrawPointCell(start, s, color, i, x, y);
        if x1 == b.x && y1 == b.y {
          StrokeDone(start, s, color, i);
          break;
        }
        DrawingNext(start, s, color, i);
        x1, y1, err := InclusiveStep(s, x1, y1, err, dx, dy, sx, sy);
        i := i + 1;
      }
    }

    /**
      The `drawLine` loop invariant: the loop has made i passes without
      reaching the end point, its variables hold the position of pass i, and
      the grid shows the first i passes.
     */
    ghost predicate Drawing(start: Grid, s: Segment, color: Color, i: nat, p: Pos)
      reads this, history, history.pixels
    {
      Valid() && IsGrid(start) &&
      InBounds(CellOf(Coord(s.x0, s.y0), pixelWidth, pixelHeight)) &&
      InBounds(CellOf(Coord(s.x1, s.y1), pixelWidth, pixelHeight)) &&
      Running(Inclusive, s, i) && p == Pass(Inclusive, s, i) &&
      Rows(history.pixels) == Stroked(start, s, pixelWidth, pixelHeight, hovered, color, i)
    }

    /** A pass short of the end point keeps the invariant for the next pass, and the next position is nearer the end. */
    lemma DrawingNext(start: Grid, s: Segment, color: Color, i: nat)
      requires Valid() && IsGrid(start)
      requires InBounds(CellOf(Coord(s.x0, s.y0), pixelWidth, pixelHeight))
      requires InBounds(CellOf(Coord(s.x1, s.y1), pixelWidth, pixelHeight))
      requires Running(Inclusive, s, i) && !AtEnd(s, Pass(Inclusive, s, i))
      requires Rows(history.pixels) == Stroked(start, s, pixelWidth, pixelHeight, hovered, color, i + 1)
      ensures Drawing(start, s, color, i + 1, Step(Inclusive, s, Pass(Inclusive, s, i)))
      ensures 0 <= Remaining(s, Step(Inclusive, s, Pass(Inclusive, s, i))) < Remaining(s, Pass(Inclusive, s, i))
    {
      LineSplit(Inclusive, s, i);
      StepKeepsTrack(Inclusive, s, Pass(Inclusive, s, i));
    }

    /** The drawing half of a pass: draw the cell of the current point unless it is hovered. */
    method DrawPointCell(ghost start: Grid, ghost s: Segment, color: Color, ghost k: nat, x: int, y: int)
      requires Drawing(start, s, color, k, Pass(Inclusive, s, k))
      requires CellOf(CoordOf(Pass(Inclusive, s, k)), pixelWidth, pixelHeight) == Coord(x, y)
      modifies history.pixels
      ensures Valid()
      ensures Rows(history.pixels) == Stroked(start, s, pixelWidth, pixelHeight, hovered, color, k + 1)
    {
      PassCellInBounds(s, pixelWidth, pixelHeight, k);
      if hovered != Some(Coord(x, y)) {
        DrawPixel(x, y, color);
      }
    }

    /** A loop that has stopped at the end point has drawn the cells of all of `Line`. */
    lemma StrokeDone(start: Grid, s: Segment, color: Color, n: nat)
      requires Valid() && IsGrid(start) && pixelWidth > 0 && pixelHeight > 0
      requires InBounds(CellOf(Coord(s.x0, s.y0), pixelWidth, pixelHeight))
      requires InBounds(CellOf(Coord(s.x1, s.y1), pixelWidth, pixelHeight))
      requires Running(Inclusive, s, n) && AtEnd(s, Pass(Inclusive, s, n))
      requires Rows(history.pixels) == Stroked(start, s, pixelWidth, pixelHeight, hovered, color, n + 1)
      ensures forall c :: c in CellsOf(Line(Inclusive, s), pixelWidth, pixelHeight) ==> InBounds(c)
      ensures Rows(history.pixels) == Stroke(start, CellsOf(Line(Inclusive, s), pixelWidth, pixelHeight), hovered, color)
    {
      StrokedIsStroke(start, s, pixelWidth, pixelHeight, hovered, color, n + 1);
      CellsAreLine(Inclusive, s, n);
    }

    method SaveState()
      requires Valid()
      modifies history
      ensures Valid() && history.pixels == old(history.pixels)
      ensures State() == Save(old(State()))
    {
      history.SaveState();
    }

    method UndoLastAction()
      requires Valid()
      modifies history
      ensures Valid() && State() == Undo(old(State()))
    {
      history.UndoLastAction();
    }

    method RedoLastAction()
      requires Valid()
      modifies history
      ensures Valid() && State() == Redo(old(State()))
    {
      history.RedoLastAction();
    }

    method ClearCanvas(init: bool)
      requires Valid()
      modifies history, history.pixels
      ensures Valid() && State() == Cleared(old(State()), init)
    {
      ClearSave.ClearCanvas(history, init);
    }

    /**
      `mousedown`: remember the point, save one snapshot for the whole stroke,
      start drawing and draw the cell under the point.
     */
    method MouseDown(p: Coord)
      requires Valid() && InBounds(CellOf(p, pixelWidth, pixelHeight))
      modifies this, history, history.pixels
      ensures Valid() && isDrawing && last == Some(p)
      ensures hovered == old(hovered) && currentColor == old(currentColor)
      ensures State().undoStack == old(State().undoStack) + [old(State().grid)]
      ensures State().redoStack == []
      ensures State().grid == SetCell(old(State().grid), CellOf(p, pixelWidth, pixelHeight), currentColor)
    {
      last := Some(p);
      SaveState();
      isDrawing := true;
      var c := CellOf(p, pixelWidth, pixelHeight);
      DrawPixel(c.x, c.y, currentColor);
    }

    /**
      `mousemove`: while drawing, join the previous point to this one; then
      highlight the cell under the pointer and remember the point.
     */
    method MouseMove(p: Coord)
      requires Valid() && InBounds(CellOf(p, pixelWidth, pixelHeight))
      modifies this, history.pixels
      ensures Valid() && isDrawing == old(isDrawing) && currentColor == old(currentColor)
      ensures last == Some(p) && hovered == Some(CellOf(p, pixelWidth, pixelHeight))
      ensures State().undoStack == old(State().undoStack) && State().redoStack == old(State().redoStack)
      ensures !old(isDrawing) ==> State().grid == old(State().grid)
      ensures old(isDrawing) ==>
        var line := Line(Inclusive, Segment(old(last).value.x, old(last).value.y, p.x, p.y));
        var cells := CellsOf(line, pixelWidth, pixelHeight);
        (forall c :: c in cells ==> InBounds(c)) &&
        State().grid == Stroke(old(State().grid), cells, old(hovered), currentColor)
    {
      if isDrawing {
        DrawLine(last.value, p, currentColor);
      }
      hovered := Some(CellOf(p, pixelWidth, pixelHeight));
      last := Some(p);
    }

    /** `mouseup`: the stroke ends. */
    method MouseUp()
      requires Valid()
      modifies this
      ensures Valid() && !isDrawing
      ensures last == old(last) && hovered == old(hovered) && currentColor == old(currentColor)
    {
      isDrawing := false;
    }

    /** `mouseleave`: the stroke ends and the highlight goes. */
    method MouseLeave()
      requires Valid()
      modifies this
      ensures Valid() && !isDrawing && hovered == None
      ensures last == old(last) && currentColor == old(currentColor)
    {
      isDrawing := false;
      hovered := None;
    }
  }

  /**
    The cells a `mousemove` stroke draws: they start at the previous point's
    cell, end at the new point's cell, and are 8-connected.
   */
  lemma StrokeCellsProperties(s: Segment, w: nat, h: nat)
    requires w > 0 && h > 0
    ensures var cells := CellsOf(Line(Inclusive, s), w, h);
      |cells| >= 1 && cells[0] == CellOf(Coord(s.x0, s.y0), w, h) &&
      cells[|cells| - 1] == CellOf(Coord(s.x1, s.y1), w, h) &&
      Connected(cells)
  {
    LineProperties(Inclusive, s);
    ConnectedCells(Line(Inclusive, s), w, h);
  }
}
