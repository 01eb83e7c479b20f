/** The VGA framebuffer the trace is drawn on: 80 columns of 60 rows, row 0
    at the top and row 59 at the bottom. The pixel-set primitive belongs to
    the VGA block library; here it is a write into a two-dimensional array
    indexed [x, y], and a write outside the 80 x 60 area changes nothing. */
module Display {

  /** The colours the voltmeter uses: background, clip alarm, HIGH-range and
      LOW-range trace. */
  datatype Color = Black | Red | Orange | Green

  const Width: int := 80       // VGA_WIDTH
  const WidthMax: int := 79    // VGA_WIDTH_MAX
  const Height: int := 60      // VGA_HEIGHT
  const Top: int := 0          // VGA_TOP
  const Bottom: int := 60      // VGA_BOTTOM

  /** A C `short`, the type of redraw_line's column and row arguments. */
  type Short = n: int | -0x8000 <= n < 0x8000

  /** The rows of column x, top to bottom. */
  ghost function Column(screen: array2<Color>, x: int): seq<Color>
    requires 0 <= x < screen.Length0
    reads screen
  {
    seq(screen.Length1, y requires 0 <= y < screen.Length1 reads screen => screen[x, y])
  }

  /** A column of Height rows shows a trace of height h when exactly the rows
      below Bottom - h (leaving row 0 aside) are lit, and the top row carries
      the clip alarm exactly when h is the full height. Colours of lit rows
      are not constrained. */
  ghost predicate Shows(col: seq<Color>, h: int)
    requires |col| == Height
  {
    (forall y :: 1 <= y < Height ==> (col[y] == Black <==> y < Bottom - h)) &&
    (col[Top] == Red <==> h == Height)
  }

  /** VGA_SetPixelXY. */
  method SetPixelXY(screen: array2<Color>, x: Short, y: Short, c: Color)
    modifies screen
    ensures forall i, j :: 0 <= i < screen.Length0 && 0 <= j < screen.Length1 ==>
              screen[i, j] == if i == x && j == y then c else old(screen[i, j])
  {
    if 0 <= x < screen.Length0 && 0 <= y < screen.Length1 {
      screen[x, y] := c;
    }
  }

  /** Pixel-wise agreement of a screen with a list of columns is equality of
      every column. */
  lemma ColumnsFromPixels(screen: array2<Color>, cols: seq<seq<Color>>)
    requires |cols| == screen.Length0
    requires forall c :: 0 <= c < |cols| ==> |cols[c]| == screen.Length1
    requires forall c, y :: 0 <= c < |cols| && 0 <= y < screen.Length1 ==> screen[c, y] == cols[c][y]
    ensures forall c :: 0 <= c < |cols| ==> Column(screen, c) == cols[c]
  {
    forall c | 0 <= c < |cols|
      ensures Column(screen, c) == cols[c]
    {
      assert forall y :: 0 <= y < screen.Length1 ==> Column(screen, c)[y] == cols[c][y];
    }
  }
}
