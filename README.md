# FITkit voltmeter: sampler, ring buffer and differential trace renderer

This project models the core of a microcontroller voltmeter (`mcu/main.c`,
`mcu/voltmeter.c`) in Dafny and proves properties of that model.

- **Sampler** (`sampler.dfy`, module `Sampler`). One measurement averages eight
  12-bit conversion registers: they are summed and shifted right by three.
  `get_voltage` first measures on the HIGH (2.5 V) reference. Below the switch
  value 2457 it measures again on the LOW (1.5 V) reference. A saturated HIGH
  average (4095) is reported as the full-scale 500 (5.00 V in 10 mV units).
  Any other average is scaled by `raw * 250 / 2048`. The eight codes that each
  reference would produce are method inputs. The global `Refer_Voltage` is
  returned as a `Reference` value, together with the number of measurements
  taken.
- **Display** (`display.dfy`, module `Display`). The VGA framebuffer is an
  80 x 60 `array2<Color>` indexed `[x, y]`, with row 0 at the top.
  `SetPixelXY` writes one pixel; a write outside the screen changes nothing.
  `Shows(col, h)` is the geometry of a column drawn at height h. Row y ≥ 1 is
  background exactly when y < 60 - h. Row 0 carries the red clip alarm
  exactly when h = 60.
- **Redraw** (`redraw.dfy`, module `Redraw`). `redraw_line` is a method with
  the source's loops and early returns. `RedrawnPixel` gives the colour of
  each row after the call, case by case. The method is proved to produce
  exactly that column and to touch no other column. It is also proved to
  carry a column that shows the old height to one that shows the new height.
- **Scope** (`scope.dfy`, module `Scope`). The class `Oscilloscope` holds
  `vga_buffer` (81 slots, with the sentinel in slot 80), the screen, and the
  cursors `act` and `oldest`. The fill pass and the steady pass of `main` are
  one method each. A ghost field `pushed` records every record written. The
  class invariant `Valid()` holds in both phases. It says that column c shows
  the height of the record written 79 - c passes before the newest one (the
  newest at column 79), or height 0 if there is no such record. `Filling()` and `Steady()` say
  where each of those records sits in the ring.

## Model

| member | source | states |
|---|---|---|
| `Sampler.Average` | mcu/voltmeter.c:149-153 | The mean of the eight registers, via `>> 3`, is the floor of their sum divided by 8 (8·raw ≤ sum < 8·raw + 8). It is itself a code in [0, 4095]. Each four-register partial sum, computed in the registers' 16-bit width, stays below 65536. |
| `Sampler.SumOfEight` | mcu/voltmeter.c:150-151 | The two-part register sum equals the sum of the eight codes. |
| `Sampler.SumBound` | mcu/voltmeter.c:150-151 | n codes sum to at most 4095·n, so the eight-register total is at most 32760 and the unsigned-long accumulator does not wrap. |
| `Sampler.ShiftRightThree` | mcu/voltmeter.c:153 | Shifting right by three bits (three halvings) is floor division by 8. |
| `Sampler.Scale` | mcu/voltmeter.c:86 | `raw * 250 / 2048` of a 12-bit code is below 500, and the largest code 4095 gives 499. |
| `Sampler.ScaleMonotone` | mcu/voltmeter.c:86 | The scaling is monotone non-decreasing in the raw average. |
| `Sampler.GetVoltage` | mcu/voltmeter.c:71-87 | Result in [0, 500]. Range is HIGH iff the first average ≥ 2457. First average < 2457: two measurements, result = Scale(second average), same factor as HIGH. First average = 4095: one measurement, result 500. Otherwise: one measurement, result = Scale(first average). |
| `Display.SetPixelXY` | mcu/main.c:157 | Pixel (x, y) takes the colour and every other pixel keeps its colour; an off-screen (x, y) changes nothing. |
| `Redraw.RedrawLine` | mcu/main.c:119-164 | Column x becomes `Redrawn(old column)` and every other column is unchanged. Equal heights: no pixel written. Colour change: rows ≥ 60-new get the new colour, rows [1, 60-new) go black, row 0 set. Same-colour shrink: exactly rows [60-old, 60-new) go black, row 0 not rewritten. Same-colour growth: exactly rows [60-new, 60-old) get the colour, row 0 set. Wherever row 0 is set, it becomes RED iff new height = 60, else BLACK. If the column showed the old height, it shows the new one. |
| `Redraw.KeepsGeometry` | mcu/main.c:119-164 | Heights ≤ 60 and a lit new record not black: a column showing the old height shows the new height after the redraw. This holds even though colours can go stale. |
| `Redraw.EqualHeightsUnchanged` | mcu/main.c:123-125 | Records of equal height leave the column unchanged, whatever their colours. |
| `Redraw.ColorChangeRepaintsAll` | mcu/main.c:126-137 | A height change with a colour change repaints the whole column: the result does not depend on the previous pixels. |
| `Redraw.RedrawIdempotent` | mcu/main.c:119-164 | Redrawing the same (new, old) pair twice gives the same column as redrawing it once. |
| `Scope.PixelHeight` | mcu/main.c:211 | `voltage * 60 / 500` is computed in 32-bit and stored in a byte. For voltage ≤ 500 it is the floor of voltage·60/500. |
| `Scope.PixelHeightBounds` | mcu/main.c:211 | For voltage ≤ 500 (MAX_VOLTAGE, voltmeter.h:40) the height is at most 60, and it is 60 iff voltage = 500. |
| `Scope.PixelHeightMonotone` | mcu/main.c:258 | The height conversion is monotone non-decreasing on [0, 500]. |
| `Scope.ColorOf` | mcu/main.c:200-207 | The trace colour is never BLACK: ORANGE exactly for the HIGH range, GREEN for the LOW range (also main.c:247-254). |
| `Scope.Prev` | mcu/main.c:222 | `(i - 1) < 0 ? 80 : i - 1` (also main.c:278) is a slot in [0, 80], and slot i is the one after it around the ring. |
| `Scope.Decrement` | mcu/main.c:221 | `x_coord--` on an unsigned short (also main.c:271, 277, 281) undoes an increment modulo 65536. Read as a signed short, it is one less, except at the wrap from -32768. |
| `Scope.ToShort` | mcu/main.c:222 | The unsigned-short column passed to `redraw_line`'s `short x_coord` (main.c:119) keeps its value modulo 65536. It is negative exactly when the top bit is set, so 65535 arrives as -1. |
| `Scope.Oscilloscope.Filling` | mcu/main.c:194-227 | The fill-phase invariant: slots 0..act−1 hold exactly the records written so far, in order, and the sentinel keeps height 0 until the last fill pass. |
| `Scope.Oscilloscope.Steady` | mcu/main.c:236-288 | The steady-phase invariant: slot k holds the record of age `Age(k, oldest)` among the last 81. In particular slot `oldest` holds the oldest record and the slot before it (`Prev(oldest)`) holds the newest. |
| `Scope.Oscilloscope.PixelsShowHistory` | mcu/main.c:155-161 | The display invariant `Valid()`, read pixel by pixel: column c's bottom pixel is lit iff the record 79 − c passes before the newest has positive height, and its top pixel is RED iff that record is at full height. |
| `Scope.Oscilloscope.constructor` | mcu/main.c:188-190 | Slot 80 is the zero-height BLACK sentinel. The screen is cleared, nothing is pushed yet, `act` = 0, and `Valid()` and `Filling()` hold. |
| `Scope.Oscilloscope.Store` | mcu/main.c:200-211 | Only slot `act` changes, to the new record. Slots 0..act hold the records in order. The sentinel stays at height 0 until the last fill pass. |
| `Scope.Oscilloscope.RedrawRun` | mcu/main.c:221-223 | One redraw loop (also main.c:271-273 and 277-283). Slots hi..lo are drawn right to left, each against slot `(i-1) < 0 ? 80 : i-1`. A run column that showed the previous slot's height shows its own slot's height. Columns outside the run are unchanged. `x_coord` is decremented once per call, with unsigned-short wrap. |
| `Scope.Oscilloscope.FillStep` | mcu/main.c:194-227 | The fill pass keeps `Valid()` and `Filling()` and writes only slot `act`, then increments `act`. Redraw calls go to columns 79, 78, … with slot act−k against its predecessor. At act = 80 the last call targets column −1 (65535 as a short), off screen, and the sentinel is overwritten. The returned voltage, whose height is stored at slot `act`, is the one `get_voltage` gives for the inputs: Scale(low average) below 2457, 500 at saturation, Scale(high average) otherwise. |
| `Scope.Oscilloscope.StartSteady` | mcu/main.c:230 | `oldest := 0` after the fill loop turns `Filling()` into `Steady()`. |
| `Scope.Oscilloscope.Advance` | mcu/main.c:242-258 | `act := oldest` and `oldest := (oldest+1) % 81`, so both stay in [0, 80] and `oldest == (act+1) % 81`. Only `vga_buffer[act]` changes, and `Steady()` is kept. |
| `Scope.Oscilloscope.SteadyStep` | mcu/main.c:236-288 | The steady pass keeps `Valid()` and `Steady()`, moves the cursors as in Advance and writes only slot `act`. It makes exactly 80 redraw calls, on columns 79 down to 0, one each. Call k draws the slot of age 80−k (the newest, `act`, at column 79) against its predecessor. Slot `oldest` is never the new record. The returned voltage, whose height is stored at slot `act`, is the one `get_voltage` gives for the inputs: Scale(low average) below 2457, 500 at saturation, Scale(high average) otherwise. |
| `Scope.Oscilloscope.Refresh` | mcu/main.c:268-284 | Every column moves from the height of slot Slot(oldest, c) to that of Slot(oldest, c+1). There are 80 calls, one per column, and slot `oldest` is never the new record. |
| `Scope.Oscilloscope.RefreshInOrder` | mcu/main.c:268-273 | Refresh when act = 80: one run, slots 80..1 on columns 79..0. |
| `Scope.Oscilloscope.RefreshWrapped` | mcu/main.c:275-284 | Refresh when act < 80: two runs, slots act..0 on columns 79..79−act, then slots 80..oldest+1 on the columns to their left. |
| `Scope.Oscilloscope.DisplayMirrorsBuffer` | mcu/main.c:268-284 | In the steady phase, column c shows the height of slot (oldest+1+c) mod 81. The only slot not on screen is `oldest`, the next one to be overwritten. |
| `Scope.Oscilloscope.ContentsAreLastRecords` | mcu/main.c:242-258 | In the steady phase, the ring read from `oldest` onwards is exactly the last 81 records written, oldest first. |

## Left out

- The analog converter's register programming and busy-wait
  (mcu/voltmeter.c:104-146) are not modelled. The eight codes per reference
  are inputs. The wait has no timeout in the code, and none is added.
- Hardware bring-up (`initialize_hardware`, `WDG_stop`), `delay_ms`, and the
  LED indicators `set_led_d5`/`set_led_d6` are side effects with no data flow
  into the core.
- `print_user_help`, `decode_user_cmd`, `fpga_initialized`, `LCD_init`,
  `LCD_write_string`, `term_send_str_crlf` and the `sprintf` readout are
  foreign text output. The step methods return the voltage that would be
  printed.
- `vga_block.h` is not part of this model. `VGA_SetPixelXY` is an array write
  that ignores off-screen coordinates, and the colours are an enumeration.
  `VRAM_Init` is assumed to leave the screen cleared to BLACK.
- The zero-initialised slots of `vga_buffer` are taken as height 0 with colour
  BLACK. They are never read before they are written.
- The endless `while (1)` loop is not modelled as a loop. One fill pass and
  one steady pass are methods that preserve the invariants, and liveness is
  not modelled.
- Scope.Oscilloscope.Valid: the display invariant covers only the geometry
  (which rows are lit, and the clip alarm). It does not cover trace colours.
  The code itself leaves a column's colour stale when two records of equal
  height have different ranges.
- Scope.Oscilloscope.FillStep: the off-screen call at column −1 in the last
  fill pass is taken to write nothing. What the VGA library does with such a
  coordinate is not part of this model.

## Notes on the code

- The sentinel in slot 80 has colour BLACK (mcu/main.c:189), not a range
  colour.
- The LOW range is scaled by the same `250 / 2048` as the HIGH range
  (mcu/voltmeter.c:86). The code has no per-range factor, and the model keeps
  it that way.
- The saturation short-circuit applies only to the first (HIGH) average. A LOW
  average of 4095 is scaled to 499.
- Both redraw loops run right to left, from column 79 (newest record)
  downwards. During the fill phase the trace is right-aligned: after pass
  `act`, columns 79 − act .. 79 hold records 0 .. act.
