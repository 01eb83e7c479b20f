/** The acquisition-render loop of mcu/main.c: an 81-slot ring buffer of
    column records (vga_buffer), with a zero-height sentinel in its last slot,
    redrawn differentially onto the 80 x 60 display after every sample.

    The display invariant, kept in both phases: column c of the screen shows
    the height of the record written 79 - c cycles before the newest one (the
    newest at column 79), or height 0 while fewer records exist. */
module Scope {
  import opened Display
  import opened Redraw
  import opened Sampler

  const BufferSize: nat := 81    // VGA_BUFFER_SIZE

  /** C `unsigned long` and `unsigned short`. */
  type ULong = n: nat | n < 0x1_0000_0000
  type UShort = n: nat | n < 0x1_0000

  /** The trace colour for the range the sample was taken on. */
  function ColorOf(refer: Reference): (c: Color)
    ensures c != Black
    ensures c == Orange <==> refer == ReferHigh
    ensures refer == ReferLow ==> c == Green
  {
    if refer == ReferHigh then Orange else Green
  }

  /** `voltage * VGA_HEIGHT / MAX_VOLTAGE`, computed in unsigned long and
      stored in the unsigned char `max_val`. For a voltage in range it is
      the floor of voltage * 60 / 500. */
  function PixelHeight(voltage: ULong): (h: Byte)
    ensures voltage <= MaxVoltage ==> h * MaxVoltage <= voltage * Height < (h + 1) * MaxVoltage
  {
    var product := voltage * Height % 0x1_0000_0000;
    assert voltage <= MaxVoltage ==> product == voltage * Height <= 30000;
    var quotient := product / MaxVoltage;
    assert voltage <= MaxVoltage ==>
      quotient * MaxVoltage <= product < quotient * MaxVoltage + MaxVoltage && quotient <= Height;
    quotient % 0x100
  }

  /** Heights of in-range voltages fit the screen, and only full scale
      reaches the top row. */
  lemma PixelHeightBounds(voltage: ULong)
    requires voltage <= MaxVoltage
    ensures PixelHeight(voltage) <= Height
    ensures PixelHeight(voltage) == Height <==> voltage == MaxVoltage
  {
    var h := PixelHeight(voltage);
    assert h * MaxVoltage <= voltage * Height < (h + 1) * MaxVoltage;
  }

  lemma PixelHeightMonotone(v: ULong, w: ULong)
    requires v <= w <= MaxVoltage
    ensures PixelHeight(v) <= PixelHeight(w)
  {
    var hv, hw := PixelHeight(v), PixelHeight(w);
    assert v * Height <= w * Height;
  }

  /** `x_coord--` on an unsigned short. */
  function Decrement(u: UShort): (d: UShort)
    ensures (d + 1) % 0x1_0000 == u
    ensures u != 0x8000 ==> ToShort(d) == ToShort(u) - 1
  {
    (u + 0xFFFF) % 0x1_0000
  }

  /** An unsigned short passed as redraw_line's `short` argument (two's
      complement, so 65535 arrives as -1). */
  function ToShort(u: UShort): (s: Short)
    ensures (s - u) % 0x1_0000 == 0
    ensures s < 0 <==> u >= 0x8000
  {
    if u < 0x8000 then u else u - 0x1_0000
  }

  /** The slot before slot i around the ring:
      `(i - 1) < 0 ? (VGA_BUFFER_SIZE - 1) : (i - 1)`. */
  function Prev(i: int): (p: int)
    ensures 0 <= i < BufferSize ==> 0 <= p < BufferSize && Slot(p, 1) == i
  {
    if i - 1 < 0 then BufferSize - 1 else i - 1
  }

  /** Position of slot k in the ring, counted from the oldest slot. */
  function Age(k: int, oldest: int): int
  {
    if k >= oldest then k - oldest else k + BufferSize - oldest
  }

  /** The slot j places after slot `first` around the ring (0 <= j <= 80);
      in the steady phase Slot(oldest, j) holds the record of age j. */
  function Slot(first: int, j: int): int
  {
    if first + j < BufferSize then first + j else first + j - BufferSize
  }

  /** The height column c should show when `p` is every record written so
      far: the record written 79 - c cycles before the newest, or 0 if there
      is none. */
  ghost function Shown(p: seq<Line>, c: int): int
    requires 0 <= c < Width
  {
    if |p| - Width + c >= 0 then p[|p| - Width + c].maxVal else 0
  }

  /** One redraw_line call of a refresh: the column and the two buffer slots. */
  datatype Call = Call(x: Short, newSlot: nat, oldSlot: nat)

  class Oscilloscope {
    var buffer: array<Line>       // vga_buffer
    var screen: array2<Color>     // the VGA display
    var act: nat
    var oldest: nat
    /** Every record written to the buffer, in order. */
    ghost var pushed: seq<Line>

    ghost predicate Valid()
      reads this, buffer, screen
    {
      buffer.Length == BufferSize && screen.Length0 == Width && screen.Length1 == Height &&
      (forall k :: 0 <= k < BufferSize ==> WellFormed(buffer[k])) &&
      (forall c :: 0 <= c < Width ==> Shows(Column(screen, c), Shown(pushed, c)))
    }

    /** The fill phase: slots 0 .. act - 1 hold the records written so far,
        and the sentinel still has height 0 until the last fill cycle. */
    ghost predicate Filling()
      reads this, buffer
      ensures Filling() ==> act <= buffer.Length && buffer[..act] == pushed
    {
      buffer.Length == BufferSize && act <= BufferSize && |pushed| == act &&
      (forall k :: 0 <= k < act ==> buffer[k] == pushed[k]) &&
      (act < BufferSize ==> buffer[BufferSize - 1].maxVal == 0)
    }

    /** The steady phase: the buffer holds the last 81 records, the oldest in
        slot `oldest` and the others following it around the ring. */
    ghost predicate Steady()
      reads this, buffer
      ensures Steady() ==> buffer.Length == BufferSize && oldest < BufferSize && |pushed| >= BufferSize &&
                           buffer[oldest] == pushed[|pushed| - BufferSize] &&
                           buffer[Prev(oldest)] == pushed[|pushed| - 1]
    {
      buffer.Length == BufferSize && oldest < BufferSize && |pushed| >= BufferSize &&
      forall k :: 0 <= k < BufferSize ==> buffer[k] == pushed[|pushed| - BufferSize + Age(k, oldest)]
    }

    /** The ring read from its oldest slot onwards. */
    ghost function Contents(): seq<Line>
      reads this, buffer
      requires buffer.Length == BufferSize
    {
      var slots, first := buffer[..], oldest;
      seq(BufferSize, j requires 0 <= j < BufferSize => slots[(first + j) % BufferSize])
    }

    /** Start-up: the zero-initialised global buffer, the sentinel in its last
        slot (zero height, BLACK) and a display cleared to background. */
    constructor ()
      ensures Valid() && Filling()
      ensures act == 0 && pushed == []
      ensures buffer[BufferSize - 1] == Line(0, Black)
      ensures forall x, y :: 0 <= x < Width && 0 <= y < Height ==> screen[x, y] == Black
      ensures fresh(buffer) && fresh(screen)
    {
      var b := new Line[BufferSize](_ => Line(0, Black));
      b[BufferSize - 1] := b[BufferSize - 1].(color := Black);
      b[BufferSize - 1] := b[BufferSize - 1].(maxVal := 0);
      buffer := b;
      screen := new Color[Width, Height]((_, _) => Black);
      act, oldest := 0, 0;
      pushed := [];
    }

    /** One redraw loop of main: slots hi down to lo, each against the slot
        before it (the last slot for slot 0), the first at column x_coord = x
        and each next one column further left. Returns x_coord after the
        loop. Writing cx for the column x stands for, slot i lands on column
        cx - hi + i; a column that showed the height of the slot before slot
        i shows the height of slot i afterwards, and columns outside the run
        are left as they were. */
    method RedrawRun(hi: int, lo: int, x: UShort) returns (xEnd: UShort, ghost calls: seq<Call>)
      requires buffer.Length == BufferSize && screen.Length0 == Width && screen.Length1 == Height
      requires 0 <= lo <= hi + 1 && hi < BufferSize
      requires -1 <= ToShort(x) - (hi - lo) && ToShort(x) <= WidthMax
      requires forall k :: 0 <= k < BufferSize ==> WellFormed(buffer[k])
      requires forall c :: 0 <= c < Width && ToShort(x) - hi + lo <= c <= ToShort(x) ==>
                 Shows(Column(screen, c), buffer[Prev(c - ToShort(x) + hi)].maxVal)
      modifies screen
      ensures forall c :: 0 <= c < Width && ToShort(x) - hi + lo <= c <= ToShort(x) ==>
                Shows(Column(screen, c), buffer[c - ToShort(x) + hi].maxVal)
      ensures forall c :: 0 <= c < Width && !(ToShort(x) - hi + lo <= c <= ToShort(x)) ==>
                Column(screen, c) == old(Column(screen, c))
      ensures ToShort(xEnd) == ToShort(x) - (hi - lo + 1)
      ensures |calls| == hi - lo + 1
      ensures forall k :: 0 <= k < |calls| ==> calls[k] == Call(ToShort(x) - k, hi - k, Prev(hi - k))
    {
      ghost var cx := ToShort(x);
      var i := hi;
      xEnd := x;
      calls := [];
      while i >= lo
        invariant lo - 1 <= i <= hi
        invariant ToShort(xEnd) == cx - (hi - i)
        invariant |calls| == hi - i
        invariant forall k :: 0 <= k < |calls| ==> calls[k] == Call(cx - k, hi - k, Prev(hi - k))
        invariant forall c :: 0 <= c < Width && cx - hi + i < c <= cx ==>
                    Shows(Column(screen, c), buffer[c - cx + hi].maxVal)
        invariant forall c :: 0 <= c < Width && cx - hi + lo <= c <= cx - hi + i ==>
                    Shows(Column(screen, c), buffer[Prev(c - cx + hi)].maxVal)
        invariant forall c :: 0 <= c < Width && !(cx - hi + i < c <= cx) ==>
                    Column(screen, c) == old(Column(screen, c))
      {
        RedrawLine(screen, buffer[i], buffer[Prev(i)], ToShort(xEnd));
        // Record exactly the arguments of the call just made.
        calls := calls + [Call(ToShort(xEnd), i, Prev(i))];
        xEnd := Decrement(xEnd);
        i := i - 1;
      }
    }

    /** Store the record of a fill pass at slot `act`: first its colour,
        then its height. */
    method Store(line: Line)
      requires Filling() && act < BufferSize && WellFormed(line)
      requires forall k :: 0 <= k < BufferSize ==> WellFormed(buffer[k])
      modifies buffer, this`pushed
      ensures buffer[..] == old(buffer[..])[act := line]
      ensures pushed == old(pushed) + [line]
      ensures forall k :: 0 <= k < BufferSize ==> WellFormed(buffer[k])
      ensures forall k :: 0 <= k <= act ==> buffer[k] == pushed[k]
      ensures act < BufferSize - 1 ==> buffer[BufferSize - 1].maxVal == 0
    {
      buffer[act] := buffer[act].(color := line.color);
      buffer[act] := buffer[act].(maxVal := line.maxVal);
      pushed := pushed + [line];
    }

    /** One pass of the fill loop: sample, store the record at `act`, redraw
        the records act .. 0 from column 79 leftwards, each against its
        predecessor (the sentinel for slot 0), and advance `act`. In the last
        pass (act = 80) the record overwrites the sentinel and the final call
        goes to column 65535, which reaches redraw_line as -1, off the screen. */
    method FillStep(high: seq<AdcCode>, low: seq<AdcCode>)
      returns (voltage: nat, refer: Reference, ghost calls: seq<Call>)
      requires Valid() && Filling() && act < BufferSize
      requires |high| == Readings && |low| == Readings
      modifies this, buffer, screen
      ensures Valid() && Filling()
      ensures buffer == old(buffer) && screen == old(screen) && oldest == old(oldest)
      ensures act == old(act) + 1
      ensures voltage <= MaxVoltage
      ensures refer == ReferHigh <==> Average(high) >= SwitchValue
      ensures Average(high) < SwitchValue ==> voltage == Scale(Average(low))
      ensures Average(high) == AdcMaxValue ==> voltage == MaxVoltage
      ensures SwitchValue <= Average(high) < AdcMaxValue ==> voltage == Scale(Average(high))
      ensures buffer[..] == old(buffer[..])[old(act) := Line(PixelHeight(voltage), ColorOf(refer))]
      ensures pushed == old(pushed) + [Line(PixelHeight(voltage), ColorOf(refer))]
      ensures |calls| == old(act) + 1
      ensures forall k :: 0 <= k < |calls| ==> calls[k] == Call(WidthMax - k, old(act) - k, Prev(old(act) - k))
    {
      var measurements;
      voltage, refer, measurements := GetVoltage(high, low);

      PixelHeightBounds(voltage);
      ghost var before := pushed;
      Store(Line(PixelHeight(voltage), ColorOf(refer)));

      // Column c held the record before slot c - 79 + act.
      forall c | 0 <= c < Width && WidthMax - act <= c
        ensures Shows(Column(screen, c), buffer[Prev(c - WidthMax + act)].maxVal)
      {
        assert Shown(before, c) == buffer[Prev(c - WidthMax + act)].maxVal;
      }
      var xEnd;
      xEnd, calls := RedrawRun(act, 0, WidthMax);
      forall c | 0 <= c < Width
        ensures Shows(Column(screen, c), Shown(pushed, c))
      {
        if c < WidthMax - act {
          assert Shown(before, c) == 0 == Shown(pushed, c);
        } else {
          assert Shown(pushed, c) == buffer[c - WidthMax + act].maxVal;
        }
      }
      act := act + 1;
    }

    /** After the fill loop: `oldest = 0`. */
    method StartSteady()
      requires Valid() && Filling() && act == BufferSize
      modifies this
      ensures Valid() && Steady()
      ensures oldest == 0
      ensures act == old(act) && pushed == old(pushed) && buffer == old(buffer) && screen == old(screen)
    {
      oldest := 0;
    }

    /** Advance the cursors and store the record: `act` takes the oldest
        slot and `oldest` moves one slot on. */
    method Advance(line: Line)
      requires Steady() && WellFormed(line)
      requires forall k :: 0 <= k < BufferSize ==> WellFormed(buffer[k])
      modifies this, buffer
      ensures Steady()
      ensures forall k :: 0 <= k < BufferSize ==> WellFormed(buffer[k])
      ensures buffer == old(buffer) && screen == old(screen)
      ensures act == old(oldest) && oldest == (act + 1) % BufferSize
      ensures buffer[..] == old(buffer[..])[act := line]
      ensures pushed == old(pushed) + [line]
    {
      act := oldest;
      oldest := (oldest + 1) % BufferSize;
      buffer[act] := buffer[act].(color := line.color);
      buffer[act] := buffer[act].(maxVal := line.maxVal);
      pushed := pushed + [line];
      forall k | 0 <= k < BufferSize
        ensures buffer[k] == pushed[|pushed| - BufferSize + Age(k, oldest)]
      {
        if k != act {
          assert Age(k, oldest) == Age(k, old(oldest)) - 1;
        }
      }
    }

    /** One pass of the endless loop: sample, take the oldest slot as the new
        `act` and advance `oldest`, store the record there, and refresh the
        screen. */
    method SteadyStep(high: seq<AdcCode>, low: seq<AdcCode>)
      returns (voltage: nat, refer: Reference, ghost calls: seq<Call>)
      requires Valid() && Steady()
      requires |high| == Readings && |low| == Readings
      modifies this, buffer, screen
      ensures Valid() && Steady()
      ensures buffer == old(buffer) && screen == old(screen)
      ensures act == old(oldest) && oldest == (act + 1) % BufferSize
      ensures voltage <= MaxVoltage
      ensures refer == ReferHigh <==> Average(high) >= SwitchValue
      ensures Average(high) < SwitchValue ==> voltage == Scale(Average(low))
      ensures Average(high) == AdcMaxValue ==> voltage == MaxVoltage
      ensures SwitchValue <= Average(high) < AdcMaxValue ==> voltage == Scale(Average(high))
      ensures buffer[..] == old(buffer[..])[act := Line(PixelHeight(voltage), ColorOf(refer))]
      ensures pushed == old(pushed) + [Line(PixelHeight(voltage), ColorOf(refer))]
      ensures |calls| == Width
      ensures forall k :: 0 <= k < Width ==>
                calls[k].x == WidthMax - k && calls[k].newSlot == Slot(oldest, Width - k) &&
                calls[k].newSlot != oldest && calls[k].oldSlot == Prev(calls[k].newSlot)
    {
      var measurements;
      voltage, refer, measurements := GetVoltage(high, low);
      PixelHeightBounds(voltage);
      ghost var before := pushed;
      Advance(Line(PixelHeight(voltage), ColorOf(refer)));
      forall c | 0 <= c < Width
        ensures Shows(Column(screen, c), buffer[Slot(oldest, c)].maxVal)
      {
        ShownInRing(before, c);
      }
      calls := Refresh();
      forall c | 0 <= c < Width
        ensures Shows(Column(screen, c), Shown(pushed, c))
      {
        ShownInRing(before, c);
      }
    }

    /** The steady-phase refresh: all 80 columns from 79 down to 0, newest
        record first, each slot against the slot before it. Every column
        moves from the record of Slot(oldest, c) to that of
        Slot(oldest, c + 1), and slot `oldest` is never drawn as the new
        record. */
    method Refresh() returns (ghost calls: seq<Call>)
      requires buffer.Length == BufferSize && screen.Length0 == Width && screen.Length1 == Height
      requires forall k :: 0 <= k < BufferSize ==> WellFormed(buffer[k])
      requires act < BufferSize && oldest == (act + 1) % BufferSize
      requires forall c :: 0 <= c < Width ==> Shows(Column(screen, c), buffer[Slot(oldest, c)].maxVal)
      modifies screen
      ensures forall c :: 0 <= c < Width ==> Shows(Column(screen, c), buffer[Slot(oldest, c + 1)].maxVal)
      ensures |calls| == Width
      ensures forall k :: 0 <= k < Width ==>
                calls[k].x == WidthMax - k && calls[k].newSlot == Slot(oldest, Width - k) &&
                calls[k].newSlot != oldest && calls[k].oldSlot == Prev(calls[k].newSlot)
    {
      if act == BufferSize - 1 {
        calls := RefreshInOrder();
      } else {
        calls := RefreshWrapped();
      }
    }

    /** The refresh when `act` is the last slot: the ring is in order and is
        redrawn in one run, slots 80 .. 1 on columns 79 .. 0. */
    method RefreshInOrder() returns (ghost calls: seq<Call>)
      requires buffer.Length == BufferSize && screen.Length0 == Width && screen.Length1 == Height
      requires forall k :: 0 <= k < BufferSize ==> WellFormed(buffer[k])
      requires act == BufferSize - 1 && oldest == 0
      requires forall c :: 0 <= c < Width ==> Shows(Column(screen, c), buffer[Slot(oldest, c)].maxVal)
      modifies screen
      ensures forall c :: 0 <= c < Width ==> Shows(Column(screen, c), buffer[Slot(oldest, c + 1)].maxVal)
      ensures |calls| == Width
      ensures forall k :: 0 <= k < Width ==>
                calls[k].x == WidthMax - k && calls[k].newSlot == Slot(oldest, Width - k) &&
                calls[k].newSlot != oldest && calls[k].oldSlot == Prev(calls[k].newSlot)
    {
      forall c | 0 <= c < Width
        ensures Shows(Column(screen, c), buffer[Prev(c - WidthMax + act)].maxVal)
      {
        assert Prev(c - WidthMax + act) == Slot(oldest, c);
      }
      var xEnd;
      xEnd, calls := RedrawRun(act, 1, WidthMax);
      forall c | 0 <= c < Width
        ensures Shows(Column(screen, c), buffer[Slot(oldest, c + 1)].maxVal)
      {
        assert c - WidthMax + act == Slot(oldest, c + 1);
      }
    }

    /** The refresh when the ring wraps: slots act .. 0 on columns
        79 .. 79 - act, then slots 80 .. oldest + 1 on the columns left of
        them, down to column 0. */
    method RefreshWrapped() returns (ghost calls: seq<Call>)
      requires buffer.Length == BufferSize && screen.Length0 == Width && screen.Length1 == Height
      requires forall k :: 0 <= k < BufferSize ==> WellFormed(buffer[k])
      requires act < BufferSize - 1 && oldest == act + 1
      requires forall c :: 0 <= c < Width ==> Shows(Column(screen, c), buffer[Slot(oldest, c)].maxVal)
      modifies screen
      ensures forall c :: 0 <= c < Width ==> Shows(Column(screen, c), buffer[Slot(oldest, c + 1)].maxVal)
      ensures |calls| == Width
      ensures forall k :: 0 <= k < Width ==>
                calls[k].x == WidthMax - k && calls[k].newSlot == Slot(oldest, Width - k) &&
                calls[k].newSlot != oldest && calls[k].oldSlot == Prev(calls[k].newSlot)
    {
      forall c | 0 <= c < Width && WidthMax - act <= c
        ensures Shows(Column(screen, c), buffer[Prev(c - WidthMax + act)].maxVal)
      {
        assert Prev(c - WidthMax + act) == Slot(oldest, c);
      }
      var xEnd;
      ghost var calls1, calls2;
      xEnd, calls1 := RedrawRun(act, 0, WidthMax);

      ghost var cx := ToShort(xEnd);
      assert cx == WidthMax - act - 1;
      forall c | 0 <= c < Width && c <= cx
        ensures Shows(Column(screen, c), buffer[Prev(c - cx + BufferSize - 1)].maxVal)
      {
        assert Prev(c - cx + BufferSize - 1) == Slot(oldest, c);
      }
      xEnd, calls2 := RedrawRun(BufferSize - 1, oldest + 1, xEnd);

      forall c | 0 <= c < Width
        ensures Shows(Column(screen, c), buffer[Slot(oldest, c + 1)].maxVal)
      {
        if c <= cx {
          assert c - cx + BufferSize - 1 == Slot(oldest, c + 1);
        } else {
          assert c - WidthMax + act == Slot(oldest, c + 1);
        }
      }
      calls := calls1 + calls2;
    }

    /** In the steady phase, once a new record is written, column c has been
        showing the record in slot Slot(oldest, c) and should show the one in
        Slot(oldest, c + 1), the slot after it around the ring. */
    lemma ShownInRing(before: seq<Line>, c: int)
      requires Steady() && |pushed| == |before| + 1 && before == pushed[..|before|]
      requires 0 <= c < Width
      ensures Shown(before, c) == buffer[Slot(oldest, c)].maxVal
      ensures Shown(pushed, c) == buffer[Slot(oldest, c + 1)].maxVal
      ensures Prev(Slot(oldest, c + 1)) == Slot(oldest, c)
    {
      assert Age(Slot(oldest, c), oldest) == c && Age(Slot(oldest, c + 1), oldest) == c + 1;
      assert buffer[Slot(oldest, c)] == pushed[|pushed| - BufferSize + Age(Slot(oldest, c), oldest)];
      assert buffer[Slot(oldest, c + 1)] == pushed[|pushed| - BufferSize + Age(Slot(oldest, c + 1), oldest)];
    }

    /** What the display invariant means pixel by pixel: the bottom pixel of
        column c is lit exactly when the record it shows has a positive
        height, and its top pixel is the red clip alarm exactly when that
        record is at full height. */
    lemma PixelsShowHistory()
      requires Valid()
      ensures forall c :: 0 <= c < Width ==>
                (screen[c, Bottom - 1] == Black <==> Shown(pushed, c) <= 0) &&
                (screen[c, Top] == Red <==> Shown(pushed, c) == Height)
    {
      forall c | 0 <= c < Width
        ensures screen[c, Bottom - 1] == Black <==> Shown(pushed, c) <= 0
        ensures screen[c, Top] == Red <==> Shown(pushed, c) == Height
      {
        var col := Column(screen, c);
        assert col[Bottom - 1] == screen[c, Bottom - 1] && col[Top] == screen[c, Top];
        assert Shows(col, Shown(pushed, c));
      }
    }

    /** In the steady phase the screen mirrors the ring: column c shows the
        height of slot (oldest + 1 + c) mod 81, so slot `oldest`, the next
        to be overwritten, is the one record not on screen. */
    lemma DisplayMirrorsBuffer()
      requires Valid() && Steady()
      ensures forall c :: 0 <= c < Width ==>
                Shows(Column(screen, c), buffer[(oldest + 1 + c) % BufferSize].maxVal)
    {
      forall c | 0 <= c < Width
        ensures Shows(Column(screen, c), buffer[(oldest + 1 + c) % BufferSize].maxVal)
      {
        var k := (oldest + 1 + c) % BufferSize;
        assert Age(k, oldest) == c + 1;
        assert buffer[k] == pushed[|pushed| - BufferSize + Age(k, oldest)];
      }
    }

    /** Read from `oldest` around the ring, the buffer holds the last 81
        records written, oldest first. */
    lemma ContentsAreLastRecords()
      requires Steady()
      ensures Contents() == pushed[|pushed| - BufferSize..]
    {
      forall j | 0 <= j < BufferSize
        ensures Contents()[j] == pushed[|pushed| - BufferSize + j]
      {
        var k := (oldest + j) % BufferSize;
        assert Age(k, oldest) == j;
        assert buffer[k] == pushed[|pushed| - BufferSize + Age(k, oldest)];
      }
    }
  }
}
