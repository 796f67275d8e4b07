# Time-to-bitmap encoder of vrchat-time-shaders, in Dafny

This project models `generate_image` from `flask/main.py`. The function turns a local time into a 64×64 RGB picture. The picture is an 8×8 grid of 8-pixel cells, and each cell's colour carries three bits of a time or date field.

- **TimeEncoder** (`time_encoder.dfy`) derives the scalars from the calendar fields of `now`: `year - 1900`, `month - 1`, `day`, `hour`, `minute`, `second`, `ms`, `weekday` and `moonAge`. `ms` is the sub-second fraction rescaled to 0..63, `weekday` is `isoweekday() % 7`, and `moonAge` is a Metonic-cycle estimate of the moon's age. Each scalar is split into 3-bit groups. `Layout` lists the 18 `drawCell(x, y, v)` calls in the order the source makes them. `Grid` is the 8×8 cell grid those calls leave, with 0 in every undrawn cell.
- **ImageRenderer** (`image_renderer.dfy`) covers the drawing.
  - `NewCanvas` is the black 64×64 canvas.
  - `DrawCell` fills one cell's rectangle with a nested loop over an `array2<Rgb>` indexed `[x, y]`. The fill includes both corners and is clipped to the canvas.
  - `GenerateImage` makes the 18 calls one after another, as lines 95-114 do.
  - `Pixel` is the specification of the canvas: each pixel has the colour of the last fill that covers it, or black.
  - The lemmas say which fill wins each pixel. `Expected` describes the whole picture region by region.
- **RoundTrip** (`round_trip.dfy`) is what a consumer of the image can decode. `ColourValue` turns a colour back into 3 bits. `ReadGrid` reads the grid back by sampling the centre of each block. `Decode` puts the fields back together. The lemmas prove that decoding the rendered image of a valid moment returns every field, with the year offset kept modulo 512.

Python's `x & 0b111`, `x >> k` and `v & (1 << k) != 0` are modelled as `x % 8`, `x / 2^k` and `(x / 2^k) % 2 == 1`. On Python's unbounded two's-complement integers these equal floor-based modulo and division, and Dafny's `%` and `/` by a positive divisor also round toward minus infinity. So the model is exact for negative year offsets (years before 1900) too. Python's `%` with a positive divisor is floor-based as well, which is why `moonAge` and `weekday` use Dafny's `%` unchanged.

The `ms` expression `int(now.microsecond/1000*64/1000)` is computed in floating point. It is modelled as the integer `(us * 64) / 1000000`. The two agree on every microsecond value 0..999999:
- The exact quotient `us * 64 / 1000000` is an integer only when `us` is a multiple of 15625. At those values every intermediate is exactly representable.
- Everywhere else the exact quotient is at least 1/15625 (about 6.4e-5) away from the nearest integer. That is far more than the rounding error of two double-precision operations, so truncation picks the same integer.

For 2023-06-15 14:30:45, a Thursday, the year offset is 123 = 0b001_111_011. `flask/main.py` line 106 puts `(123 >> 6) & 0b111 = 1` in cell (2,1), a red cell (`ImageRenderer.WorkedExample`).

Undrawn cells hold 0 in the grid and show black at every block centre. They are not black at every pixel of their blocks. The inclusive fills of cells (0,2) and (1,2) reach pixel row 24 and pixel column 16. Those pixels belong to blocks (0,3), (1,3), (2,3) and (2,2). Likewise, the fills of row 1 reach pixel row 16 (the top row of row-2 blocks). `ImageRenderer.Expected` states where this happens.

## Model

| member | source | states |
|---|---|---|
| `TimeEncoder.Derive` | flask/main.py:85-93 | for a valid datetime every derived scalar lies in its range: month 0..11, day 1..31, hour 0..23, minute and second 0..59, ms 0..63, weekday 0..6, moonAge 0..29; the year is counted from 1900 and the month from 0 |
| `TimeEncoder.Ms` | flask/main.py:91 | for microseconds 0..999999 the result is in 0..63, and it is the largest r with r·1000000 ≤ us·64 (the truncation of us·64/10^6) |
| `TimeEncoder.MsMonotone` | flask/main.py:91 | ms never decreases as the microseconds grow |
| `TimeEncoder.Weekday` | flask/main.py:92 | an ISO weekday 1..7 maps into 0..6: Sunday (7) becomes 0 and Monday..Saturday keep 1..6 |
| `TimeEncoder.MoonAge` | flask/main.py:93 | the moon age is in [0, 30) for every year, including years before 2009 |
| `TimeEncoder.MoonAgeMetonic` | flask/main.py:93 | the moon age repeats with a period of 19 years |
| `TimeEncoder.Shr` | flask/main.py:96 | `x >> k` is the floor quotient: 2^k·r ≤ x < 2^k·(r+1), for every sign of x |
| `TimeEncoder.Low3` | flask/main.py:95 | `x & 0b111` is in 0..7 and x = 8·(x >> 3) + (x & 0b111) |
| `TimeEncoder.Layout` | flask/main.py:95-114 | there are 18 calls, and call i draws cell (i mod 8, i div 8): rows 0 and 1 whole and cells (0,2), (1,2) |
| `TimeEncoder.LayoutRowMajor` | flask/main.py:95-114 | the calls stay inside the 8×8 grid and come in strictly increasing row-major order |
| `TimeEncoder.LayoutBounded` | flask/main.py:95-114 | for fields in range every value passed to drawCell is in 0..7, including the unmasked high parts hour>>3, minute>>3, second>>3, ms>>3, month>>3, day>>3 and moonAge>>3 |
| `TimeEncoder.Encode` | flask/main.py:85-114 | the calls for a moment are in row-major order, and for a valid moment every value is a 3-bit value |
| `TimeEncoder.ValueAtDrawn` | flask/main.py:95-114 | in a row-major call list each call's value is what its cell holds |
| `TimeEncoder.ValueAtUndrawn` | flask/main.py:72 | a cell that no call draws holds 0 (black) |
| `TimeEncoder.YearGroups` | flask/main.py:104-106 | the three 3-bit groups of the year offset reassemble to the offset mod 512: (y&7) + 8·((y>>3)&7) + 64·((y>>6)&7) = y mod 512 |
| `ImageRenderer.BitRemainder` | flask/main.py:80-82 | `v & (1 << k) != 0` holds exactly when v mod 2^(k+1) ≥ 2^k, for every sign of v |
| `ImageRenderer.ColourChannels` | flask/main.py:80-82 | each channel is 0 or 255; red is 255 exactly when bit 0 of v is set (v odd), green exactly when bit 1 is set (v mod 4 ≥ 2), blue exactly when bit 2 is set (v mod 8 ≥ 4) |
| `ImageRenderer.Covers` | flask/main.py:76-83 | the inclusive rectangle of cell (x,y) covers the cell's whole 8×8 block, and beyond it only pixel column (x+1)·8 and pixel row (y+1)·8 |
| `ImageRenderer.PixelFromFill` | flask/main.py:72-83 | every pixel of the canvas is black or has the colour of a fill whose rectangle covers it |
| `ImageRenderer.NewCanvas` | flask/main.py:72 | the fresh canvas is 64×64 and black everywhere |
| `ImageRenderer.DrawCell` | flask/main.py:75-83 | after the fill, the canvas is the picture left by the earlier fills plus this one: pixels in the inclusive rectangle [x·8, (x+1)·8] × [y·8, (y+1)·8], clipped to the canvas, take the colour of v, and every other pixel keeps its colour; the rectangle of a column-7 cell ends at x = 64 and loses that column to the clipping |
| `ImageRenderer.GenerateImage` | flask/main.py:68-114 | the canvas it returns is fresh and holds exactly the picture of the 18 calls of `Encode(now)` made in source order |
| `ImageRenderer.LastCoverWins` | flask/main.py:83 | a pixel takes the colour of the last fill whose inclusive rectangle covers it |
| `ImageRenderer.UncoveredStaysBlack` | flask/main.py:72 | a pixel that no fill covers stays (0,0,0) |
| `ImageRenderer.BlockKeepsColour` | flask/main.py:75-83 | when fills come in row-major order, every pixel of a drawn cell's 8×8 block [x·8,(x+1)·8) × [y·8,(y+1)·8) has that cell's colour |
| `ImageRenderer.CentreShowsCell` | flask/main.py:75-83 | the centre pixel of cell (x,y)'s block has the colour of the value the grid holds at (x,y), in any call order; an undrawn cell's centre is black |
| `ImageRenderer.TopRowsWhole` | flask/main.py:95-111 | pixel rows 0..15 are exactly the colours of grid rows 0 and 1, block by block |
| `ImageRenderer.MoonCellsOverhang` | flask/main.py:113-114 | the moon-age cells' fills also paint column 16 (rows 16..24) and row 24 (columns 0..16); cell (1,2) wins from column 8 on |
| `ImageRenderer.SecondRowOverhang` | flask/main.py:104-111 | to the right of column 16, pixel row 16 shows row 1's colours because of the inclusive lower edge |
| `ImageRenderer.RestStaysBlack` | flask/main.py:72 | every pixel below row 24, and every pixel with x ≥ 17 and y ≥ 17, stays black |
| `ImageRenderer.ImageContents` | flask/main.py:68-114 | every pixel of the picture for any moment equals the region-by-region reference `Expected` |
| `ImageRenderer.WorkedExample` | flask/main.py:85-111 | for 2023-06-15 14:30:45 on a Thursday, the cells of the year offset, month, day, hour and weekday have the colours worked out by hand |
| `RoundTrip.ColourValue` | flask/main.py:80-82 | the value read back from a colour is a 3-bit value |
| `RoundTrip.ColourRoundTrip` | flask/main.py:80-82 | reading a cell colour back gives the three low bits of v: red is bit 0, green bit 1 and blue bit 2 |
| `RoundTrip.ColourInjective` | flask/main.py:80-82 | two values in 0..7 with the same colour are equal |
| `RoundTrip.ValueAtFromCalls` | flask/main.py:95-114 | every grid cell holds 0 or the value of one of the calls |
| `RoundTrip.EncodeGrid` | flask/main.py:95-114 | the grid of a moment holds the value of call 8y+x at cell (x,y), and 0 in the 46 cells after the 18 drawn ones |
| `RoundTrip.CentreReadsCell` | flask/main.py:80-83 | reading the centre pixel of a block returns the grid value of its cell when all values are 3-bit |
| `RoundTrip.ImageGivesGrid` | flask/main.py:72-83 | when every call's value is in 0..7, reading the block centres of the picture gives back the whole 8×8 grid, whatever the call order |
| `RoundTrip.GridRoundTrip` | flask/main.py:85-114 | reassembling a valid moment's grid gives back hour, minute, second, ms, month, day, moonAge and weekday exactly, and the year offset mod 512 |
| `RoundTrip.ImageRoundTrip` | flask/main.py:68-114 | decoding the rendered picture of a valid moment gives back every encoded field, with the year offset mod 512 |

## Left out

- The Flask app and its routes `/`, `/vrctime` and `/vrctime_test` (flask/main.py:21-46) are left out. They read a request header and stream the response, which is HTTP plumbing.
- `get_geo_info` (flask/main.py:48-54) is left out. It is a network call to ip-api.com behind a library cache. Its rule of not caching failures depends on that cache, which is not part of this model.
- `get_current_time` (flask/main.py:56-66) is left out. It reads the wall clock and uses foreign timezone libraries, falling back to Asia/Tokyo. The model takes the resulting local time as its input, a `Moment` of already-valid calendar fields.
- PNG serialisation into a `BytesIO` (flask/main.py:116-120) is left out because it is a foreign codec. The model ends with the pixel array.
- Pillow's drawing internals are modelled only as far as `drawCell` uses them: a solid rectangle fill that includes both corners and is clipped to the canvas.
- `ms` is modelled with integer arithmetic instead of the source's floating point. The two agree on every valid microsecond value, for the reason given above.
- `TimeEncoder.Valid` only bounds each calendar field (for example day 1..31). It does not model the days in each month or agreement between the weekday and the date. No property here depends on those.
