/** Differential redraw of one column of the trace (redraw_line in
    mcu/main.c). Only the rows whose state differs between the column's old
    record and its new one are written. */
module Redraw {
  import opened Display

  /** A C `unsigned char`. */
  type Byte = n: nat | n < 0x100

  /** `struct line`: the height of one column of the trace in pixels and its
      colour. */
  datatype Line = Line(maxVal: Byte, color: Color)

  /** A record the acquisition loop can produce: no taller than the screen,
      and drawn in a visible colour whenever it is lit at all. */
  predicate WellFormed(l: Line)
  {
    l.maxVal <= Height && (l.maxVal > 0 ==> l.color != Black)
  }

  /** The top row after a repaint: the clip alarm at full height, else
      background. */
  function TopPixel(n: Line): Color
  {
    if n.maxVal == Height then Red else Black
  }

  /** The colour of row y after redrawing a column from record `o` to record
      `n`, when it had colour `prev` before:
      - equal heights: nothing is written, even when the colours differ;
      - a colour change: rows Bottom - n.maxVal .. Bottom - 1 take the new
        colour, the rows above them down to row 1 are blanked, and the top
        row is set;
      - shrinking in the same colour: exactly the rows
        [Bottom - o.maxVal, Bottom - n.maxVal) are blanked, the top row is
        not written separately;
      - growing in the same colour: exactly the rows
        [Bottom - n.maxVal, Bottom - o.maxVal) take the colour, then the top
        row is set. */
  function RedrawnPixel(n: Line, o: Line, y: int, prev: Color): Color
  {
    if n.maxVal == o.maxVal then prev
    else if n.color != o.color then
      if y == Top then TopPixel(n)
      else if y >= Bottom - n.maxVal then n.color
      else Black
    else if n.maxVal < o.maxVal then
      if Bottom - o.maxVal <= y < Bottom - n.maxVal then Black else prev
    else
      if y == Top then TopPixel(n)
      else if Bottom - n.maxVal <= y < Bottom - o.maxVal then n.color
      else prev
  }

  /** A whole column after the redraw. */
  function Redrawn(col: seq<Color>, n: Line, o: Line): seq<Color>
  {
    seq(|col|, y requires 0 <= y < |col| => RedrawnPixel(n, o, y, col[y]))
  }

  /** The geometry is kept: a column that shows the old record's height shows
      the new record's height after the redraw. Colours may be stale, since a
      redraw between records of equal height writes nothing. */
  lemma KeepsGeometry(col: seq<Color>, n: Line, o: Line)
    requires |col| == Height
    requires WellFormed(n) && o.maxVal <= Height
    requires Shows(col, o.maxVal)
    ensures Shows(Redrawn(col, n, o), n.maxVal)
  {
    var res := Redrawn(col, n, o);
    forall y | 1 <= y < Height
      ensures res[y] == Black <==> y < Bottom - n.maxVal
    {
      assert col[y] == Black <==> y < Bottom - o.maxVal;
    }
    assert res[Top] == Red <==> n.maxVal == Height by {
      assert col[Top] == Red <==> o.maxVal == Height;
    }
  }

  /** Records of equal height leave the column as it was. */
  lemma {:induction false} EqualHeightsUnchanged(col: seq<Color>, n: Line, o: Line)
    requires n.maxVal == o.maxVal
    ensures Redrawn(col, n, o) == col
  {
    assert forall y :: 0 <= y < |col| ==> Redrawn(col, n, o)[y] == col[y];
  }

  /** A colour change repaints the whole column: the result does not depend
      on what the column held before. */
  lemma {:induction false} ColorChangeRepaintsAll(col1: seq<Color>, col2: seq<Color>, n: Line, o: Line)
    requires |col1| == |col2|
    requires n.maxVal != o.maxVal && n.color != o.color
    ensures Redrawn(col1, n, o) == Redrawn(col2, n, o)
  {
    assert forall y :: 0 <= y < |col1| ==> Redrawn(col1, n, o)[y] == Redrawn(col2, n, o)[y];
  }

  /** Redrawing the same pair twice has the effect of redrawing it once. */
  lemma {:induction false} RedrawIdempotent(col: seq<Color>, n: Line, o: Line)
    ensures Redrawn(Redrawn(col, n, o), n, o) == Redrawn(col, n, o)
  {
    var once := Redrawn(col, n, o);
    assert forall y :: 0 <= y < |col| ==> Redrawn(once, n, o)[y] == once[y];
  }

  /** The screen after a redraw, stated column by column from the pixels. */
  lemma Conclude(screen: array2<Color>, before: seq<seq<Color>>, n: Line, o: Line, x: int)
    requires screen.Length0 == Width && screen.Length1 == Height
    requires |before| == Width && forall c :: 0 <= c < Width ==> |before[c]| == Height
    requires forall c, y :: 0 <= c < Width && 0 <= y < Height ==>
               screen[c, y] == if c == x then RedrawnPixel(n, o, y, before[c][y]) else before[c][y]
    ensures forall c :: 0 <= c < Width ==>
              Column(screen, c) == if c == x then Redrawn(before[c], n, o) else before[c]
    ensures 0 <= x < Width && WellFormed(n) && o.maxVal <= Height && Shows(before[x], o.maxVal) ==>
              Shows(Column(screen, x), n.maxVal)
  {
    var after := seq(Width, c requires 0 <= c < Width => if c == x then Redrawn(before[c], n, o) else before[c]);
    ColumnsFromPixels(screen, after);
    if 0 <= x < Width && WellFormed(n) && o.maxVal <= Height && Shows(before[x], o.maxVal) {
      KeepsGeometry(before[x], n, o);
    }
  }

  /** redraw_line(new, old, x_coord). Column x becomes the redrawn column and
      no other pixel changes; a column that showed the old height shows the
      new one. A column x off the screen leaves the screen as it was. */
  method RedrawLine(screen: array2<Color>, n: Line, o: Line, x: Short)
    requires screen.Length0 == Width && screen.Length1 == Height
    modifies screen
    ensures forall c :: 0 <= c < Width ==>
              Column(screen, c) == if c == x then Redrawn(old(Column(screen, c)), n, o) else old(Column(screen, c))
    ensures 0 <= x < Width && WellFormed(n) && o.maxVal <= Height && Shows(old(Column(screen, x)), o.maxVal) ==>
              Shows(Column(screen, x), n.maxVal)
  {
    ghost var before := seq(Width, c requires 0 <= c < Width reads screen => Column(screen, c));
    var i: Short;

    if n.maxVal == o.maxVal {
      Conclude(screen, before, n, o, x);
      return;
    } else if n.color != o.color {
      // The whole column in the new colour, then the rest blanked.
      i := Bottom - 1;
      while i >= Bottom - n.maxVal
        invariant Bottom - n.maxVal - 1 <= i <= Bottom - 1
        invariant forall c, y :: 0 <= c < Width && 0 <= y < Height ==>
                    screen[c, y] == if c == x && y > i then n.color else before[c][y]
      {
        SetPixelXY(screen, x, i, n.color);
        i := i - 1;
      }
      while i > Top
        invariant i <= Bottom - n.maxVal - 1
        invariant Top <= i || i == Bottom - n.maxVal - 1
        invariant forall c, y :: 0 <= c < Width && 0 <= y < Height ==>
                    screen[c, y] == if c == x && y >= Bottom - n.maxVal then n.color
                                    else if c == x && y > i then Black
                                    else before[c][y]
      {
        SetPixelXY(screen, x, i, Black);
        i := i - 1;
      }
    } else if n.maxVal < o.maxVal {
      // Lower: blank the vacated rows and stop.
      i := Bottom - o.maxVal;
      while i < Bottom - n.maxVal
        invariant Bottom - o.maxVal <= i <= Bottom - n.maxVal
        invariant forall c, y :: 0 <= c < Width && 0 <= y < Height ==>
                    screen[c, y] == if c == x && Bottom - o.maxVal <= y < i then Black else before[c][y]
      {
        SetPixelXY(screen, x, i, Black);
        i := i + 1;
      }
      Conclude(screen, before, n, o, x);
      return;
    } else {
      // Higher: paint the missing rows.
      i := Bottom - n.maxVal;
      while i < Bottom - o.maxVal
        invariant Bottom - n.maxVal <= i <= Bottom - o.maxVal
        invariant forall c, y :: 0 <= c < Width && 0 <= y < Height ==>
                    screen[c, y] == if c == x && Bottom - n.maxVal <= y < i then n.color else before[c][y]
      {
        SetPixelXY(screen, x, i, n.color);
        i := i + 1;
      }
    }

    // The clip alarm on the top row.
    if n.maxVal == Height {
      SetPixelXY(screen, x, Top, Red);
    } else {
      SetPixelXY(screen, x, Top, Black);
    }
    Conclude(screen, before, n, o, x);
  }
}
