/**
 * The renderer of generate_image: a black 64x64 RGB canvas on which each
 * drawCell call fills one cell's rectangle with the colour of its 3-bit
 * value. The rectangle fill includes both corners, so each fill covers
 * 9x9 pixels (clipped to the canvas) and overlaps its right and lower
 * neighbours by one pixel; the later fill wins there.
 */
module ImageRenderer {
  import opened TimeEncoder

  /** Side of a cell in pixels. */
  const CELL: nat := 8
  /** Side of the canvas in pixels. */
  const SIZE: nat := CELL * 8

  type Channel = c: int | 0 <= c < 256

  datatype Rgb = Rgb(r: Channel, g: Channel, b: Channel)

  const Black := Rgb(0, 0, 0)

  /** Python's `(v & (1 << k)) != 0`: bit k of v, for every sign of v. */
  predicate Bit(v: int, k: nat) {
    Shr(v, k) % 2 == 1
  }

  /** Bit k of v is set exactly when the remainder of v modulo 2^(k+1)
      reaches 2^k, for every sign of v. */
  lemma BitRemainder(v: int, k: nat)
    ensures Bit(v, k) <==> v % (2 * Pow2(k)) >= Pow2(k)
  {
    ShrTwice(v, k);
  }

  /** Multiplying by a positive m keeps the order. */
  lemma MulMonotone(m: int, s: int, t: int)
    requires m > 0 && s <= t
    ensures m * s <= m * t
  {
    assert m * t == m * s + m * (t - s);
  }

  /** Division by a positive m is determined by its quotient and remainder. */
  lemma DivModUnique(v: int, m: int, a: int, b: int)
    requires m > 0 && v == m * a + b && 0 <= b < m
    ensures v / m == a && v % m == b
  {
    var q := v / m;
    if a > q {
      MulMonotone(m, q + 1, a);
    } else if a < q {
      MulMonotone(m, a + 1, q);
    }
  }

  /** Bit k of v splits the remainder modulo 2^(k+1) into 2^k and the rest. */
  lemma ShrTwice(v: int, k: nat)
    ensures v % (2 * Pow2(k)) == Pow2(k) * (Shr(v, k) % 2) + v % Pow2(k)
  {
    var d := Pow2(k);
    var q := Shr(v, k);
    var r := v - d * q;
    DivModUnique(v, d, q, r);
    var q2, bit := q / 2, q % 2;
    assert d * q == (2 * d) * q2 + d * bit by {
      assert q == 2 * q2 + bit;
      assert d * (2 * q2 + bit) == d * (2 * q2) + d * bit;
    }
    if bit == 0 {
      assert d * bit == 0;
    } else {
      assert d * bit == d;
    }
    DivModUnique(v, 2 * d, q2, d * bit + r);
  }

  /** The colour drawCell picks for v: bit 0 turns red on, bit 1 green, bit 2 blue. */
  function Colour(v: int): (c: Rgb) {
    Rgb(if Bit(v, 0) then 255 else 0,
        if Bit(v, 1) then 255 else 0,
        if Bit(v, 2) then 255 else 0)
  }

  /** Each channel of the colour of v is full or off: red is on exactly when
      v is odd, green when v mod 4 is at least 2, blue when v mod 8 is at
      least 4, for every sign of v. */
  lemma ColourChannels(v: int)
    ensures Colour(v).r in {0, 255} && Colour(v).g in {0, 255} && Colour(v).b in {0, 255}
    ensures Colour(v).r == 255 <==> v % 2 == 1
    ensures Colour(v).g == 255 <==> v % 4 >= 2
    ensures Colour(v).b == 255 <==> v % 8 >= 4
  {
    BitRemainder(v, 0);
    BitRemainder(v, 1);
    BitRemainder(v, 2);
    assert Pow2(1) == 2 && Pow2(2) == 4;
  }

  /** Whether the fill of drawCell(c.x, c.y, c.v) paints pixel (px, py):
      the rectangle [x*CELL, y*CELL, (x+1)*CELL, (y+1)*CELL] with both
      corners included: the cell's whole block, and beyond it only the
      pixel column (x+1)*CELL and the pixel row (y+1)*CELL. */
  predicate Covers(c: Cell, px: int, py: int)
    ensures InBlock(c, px, py) ==> Covers(c, px, py)
    ensures Covers(c, px, py) ==>
      InBlock(c, px, py) || px == (c.x + 1) * CELL || py == (c.y + 1) * CELL
  {
    c.x * CELL <= px <= (c.x + 1) * CELL && c.y * CELL <= py <= (c.y + 1) * CELL
  }

  /** Pixel (px, py) of a black canvas after the fills of `cells`, in order:
      the colour of the last fill that covers it, else black. */
  function Pixel(cells: seq<Cell>, px: int, py: int): (p: Rgb) {
    if cells == [] then Black
    else
      var n := |cells| - 1;
      if Covers(cells[n], px, py) then Colour(cells[n].v) else Pixel(cells[..n], px, py)
  }

  /** Every pixel is black or has the colour of a fill that covers it. */
  lemma {:induction false} PixelFromFill(cells: seq<Cell>, px: int, py: int)
    ensures Pixel(cells, px, py) == Black ||
      exists i :: 0 <= i < |cells| && Covers(cells[i], px, py) && Pixel(cells, px, py) == Colour(cells[i].v)
  {
    if cells != [] {
      var n := |cells| - 1;
      if !Covers(cells[n], px, py) {
        PixelFromFill(cells[..n], px, py);
        if Pixel(cells, px, py) != Black {
          var i :| 0 <= i < n && Covers(cells[..n][i], px, py) && Pixel(cells, px, py) == Colour(cells[..n][i].v);
          assert cells[..n][i] == cells[i];
        }
      }
    }
  }

  /** The canvas after the fills of `cells`, indexed [x][y]. */
  function ImageOf(cells: seq<Cell>): (img: seq<seq<Rgb>>)
    ensures |img| == SIZE && forall px :: 0 <= px < SIZE ==> |img[px]| == SIZE
  {
    seq(SIZE, px requires 0 <= px < SIZE =>
      seq(SIZE, py requires 0 <= py < SIZE => Pixel(cells, px, py)))
  }

  /** The canvas holds exactly the picture the fills of `cells` leave. */
  ghost predicate Shows(canvas: array2<Rgb>, cells: seq<Cell>)
    reads canvas
  {
    canvas.Length0 == SIZE && canvas.Length1 == SIZE &&
    forall px, py :: 0 <= px < SIZE && 0 <= py < SIZE ==> canvas[px, py] == Pixel(cells, px, py)
  }

  /** A fresh SIZE x SIZE RGB canvas, black everywhere. */
  method NewCanvas() returns (canvas: array2<Rgb>)
    ensures fresh(canvas) && Shows(canvas, [])
  {
    canvas := new Rgb[SIZE, SIZE]((px, py) => Black);
  }

  /** drawCell(x, y, v): fill the inclusive rectangle of cell (x, y) with
      Colour(v), clipped to the canvas. `drawn` names the fills made before. */
  method DrawCell(canvas: array2<Rgb>, x: nat, y: nat, v: int, ghost drawn: seq<Cell>)
    requires Shows(canvas, drawn)
    modifies canvas
    ensures Shows(canvas, drawn + [Cell(x, y, v)])
  {
    var x0, y0 := x * CELL, y * CELL;
    var x1, y1 := (x + 1) * CELL, (y + 1) * CELL;
    var colour := Colour(v);
    var xEnd := if x1 < SIZE then x1 else SIZE - 1;
    var yEnd := if y1 < SIZE then y1 else SIZE - 1;
    var px := x0;
    while px <= xEnd
      invariant x0 <= px <= xEnd + 1 || (px == x0 && x0 > xEnd)
      invariant forall qx, qy :: 0 <= qx < SIZE && 0 <= qy < SIZE ==>
        canvas[qx, qy] == if Covers(Cell(x, y, v), qx, qy) && qx < px then colour else old(canvas[qx, qy])
    {
      var py := y0;
      while py <= yEnd
        invariant y0 <= py <= yEnd + 1 || (py == y0 && y0 > yEnd)
        invariant forall qx, qy :: 0 <= qx < SIZE && 0 <= qy < SIZE ==>
          canvas[qx, qy] ==
            if Covers(Cell(x, y, v), qx, qy) && (qx < px || (qx == px && qy < py)) then colour
            else old(canvas[qx, qy])
      {
        canvas[px, py] := colour;
        py := py + 1;
      }
      px := px + 1;
    }
    ghost var after := drawn + [Cell(x, y, v)];
    assert after[..|after| - 1] == drawn;
  }

  /** generate_image's drawing: a black canvas and the 18 drawCell calls
      of lines 95-114, in the same order. */
  method GenerateImage(now: Moment) returns (canvas: array2<Rgb>)
    ensures fresh(canvas) && Shows(canvas, Encode(now))
  {
    var year   := now.year - 1900;
    var month  := now.month - 1;
    var day    := now.day;
    var hour   := now.hour;
    var minute := now.minute;
    var second := now.second;
    var ms     := Ms(now.microsecond);
    var weekday := Weekday(now.isoWeekday);
    var moonAge := MoonAge(now.year, now.month, now.day);

    canvas := NewCanvas();
    ghost var drawn: seq<Cell> := [];
    DrawCell(canvas, 0, 0, Low3(hour), drawn);
    drawn := drawn + [Cell(0, 0, Low3(hour))];
    DrawCell(canvas, 1, 0, Shr(hour, 3), drawn);
    drawn := drawn + [Cell(1, 0, Shr(hour, 3))];
    DrawCell(canvas, 2, 0, Low3(minute), drawn);
    drawn := drawn + [Cell(2, 0, Low3(minute))];
    DrawCell(canvas, 3, 0, Shr(minute, 3), drawn);
    drawn := drawn + [Cell(3, 0, Shr(minute, 3))];
    DrawCell(canvas, 4, 0, Low3(second), drawn);
    drawn := drawn + [Cell(4, 0, Low3(second))];
    DrawCell(canvas, 5, 0, Shr(second, 3), drawn);
    drawn := drawn + [Cell(5, 0, Shr(second, 3))];
    DrawCell(canvas, 6, 0, Low3(ms), drawn);
    drawn := drawn + [Cell(6, 0, Low3(ms))];
    DrawCell(canvas, 7, 0, Shr(ms, 3), drawn);
    drawn := drawn + [Cell(7, 0, Shr(ms, 3))];
    assert drawn == [
      Cell(0, 0, Low3(hour)), Cell(1, 0, Shr(hour, 3)), Cell(2, 0, Low3(minute)), Cell(3, 0, Shr(minute, 3)),
      Cell(4, 0, Low3(second)), Cell(5, 0, Shr(second, 3)), Cell(6, 0, Low3(ms)), Cell(7, 0, Shr(ms, 3))];

    DrawCell(canvas, 0, 1, Low3(year), drawn);
    drawn := drawn + [Cell(0, 1, Low3(year))];
    DrawCell(canvas, 1, 1, Low3(Shr(year, 3)), drawn);
    drawn := drawn + [Cell(1, 1, Low3(Shr(year, 3)))];
    DrawCell(canvas, 2, 1, Low3(Shr(year, 6)), drawn);
    drawn := drawn + [Cell(2, 1, Low3(Shr(year, 6)))];
    DrawCell(canvas, 3, 1, Low3(month), drawn);
    drawn := drawn + [Cell(3, 1, Low3(month))];
    DrawCell(canvas, 4, 1, Shr(month, 3), drawn);
    drawn := drawn + [Cell(4, 1, Shr(month, 3))];
    DrawCell(canvas, 5, 1, Low3(day), drawn);
    drawn := drawn + [Cell(5, 1, Low3(day))];
    DrawCell(canvas, 6, 1, Shr(day, 3), drawn);
    drawn := drawn + [Cell(6, 1, Shr(day, 3))];
    DrawCell(canvas, 7, 1, weekday, drawn);
    drawn := drawn + [Cell(7, 1, weekday)];
    assert drawn == [
      Cell(0, 0, Low3(hour)), Cell(1, 0, Shr(hour, 3)), Cell(2, 0, Low3(minute)), Cell(3, 0, Shr(minute, 3)),
      Cell(4, 0, Low3(second)), Cell(5, 0, Shr(second, 3)), Cell(6, 0, Low3(ms)), Cell(7, 0, Shr(ms, 3)),
      Cell(0, 1, Low3(year)), Cell(1, 1, Low3(Shr(year, 3))), Cell(2, 1, Low3(Shr(year, 6))), Cell(3, 1, Low3(month)),
      Cell(4, 1, Shr(month, 3)), Cell(5, 1, Low3(day)), Cell(6, 1, Shr(day, 3)), Cell(7, 1, weekday)];

    DrawCell(canvas, 0, 2, Low3(moonAge), drawn);
    drawn := drawn + [Cell(0, 2, Low3(moonAge))];
    DrawCell(canvas, 1, 2, Shr(moonAge, 3), drawn);
    drawn := drawn + [Cell(1, 2, Shr(moonAge, 3))];
    assert drawn == [
      Cell(0, 0, Low3(hour)), Cell(1, 0, Shr(hour, 3)), Cell(2, 0, Low3(minute)), Cell(3, 0, Shr(minute, 3)),
      Cell(4, 0, Low3(second)), Cell(5, 0, Shr(second, 3)), Cell(6, 0, Low3(ms)), Cell(7, 0, Shr(ms, 3)),
      Cell(0, 1, Low3(year)), Cell(1, 1, Low3(Shr(year, 3))), Cell(2, 1, Low3(Shr(year, 6))), Cell(3, 1, Low3(month)),
      Cell(4, 1, Shr(month, 3)), Cell(5, 1, Low3(day)), Cell(6, 1, Shr(day, 3)), Cell(7, 1, weekday),
      Cell(0, 2, Low3(moonAge)), Cell(1, 2, Shr(moonAge, 3))];
    EncodeCalls(now);
  }

  /** The calls of a moment written out one by one, as generate_image makes them. */
  lemma EncodeCalls(now: Moment)
    ensures
      var year, month, day := now.year - 1900, now.month - 1, now.day;
      var hour, minute, second := now.hour, now.minute, now.second;
      var ms, weekday := Ms(now.microsecond), Weekday(now.isoWeekday);
      var moonAge := MoonAge(now.year, now.month, now.day);
      Encode(now) == [
        Cell(0, 0, Low3(hour)), Cell(1, 0, Shr(hour, 3)),
        Cell(2, 0, Low3(minute)), Cell(3, 0, Shr(minute, 3)),
        Cell(4, 0, Low3(second)), Cell(5, 0, Shr(second, 3)),
        Cell(6, 0, Low3(ms)), Cell(7, 0, Shr(ms, 3)),
        Cell(0, 1, Low3(year)), Cell(1, 1, Low3(Shr(year, 3))),
        Cell(2, 1, Low3(Shr(year, 6))),
        Cell(3, 1, Low3(month)), Cell(4, 1, Shr(month, 3)),
        Cell(5, 1, Low3(day)), Cell(6, 1, Shr(day, 3)),
        Cell(7, 1, weekday),
        Cell(0, 2, Low3(moonAge)), Cell(1, 2, Shr(moonAge, 3))]
  {
  }

  /** Pixel (px, py) lies in the CELL x CELL block of cell c. */
  predicate InBlock(c: Cell, px: int, py: int) {
    c.x * CELL <= px < (c.x + 1) * CELL && c.y * CELL <= py < (c.y + 1) * CELL
  }

  /** The last fill that covers a pixel decides its colour. */
  lemma {:induction false} LastCoverWins(cells: seq<Cell>, i: nat, px: int, py: int)
    requires i < |cells| && Covers(cells[i], px, py)
    requires forall j :: i < j < |cells| ==> !Covers(cells[j], px, py)
    ensures Pixel(cells, px, py) == Colour(cells[i].v)
  {
    var n := |cells| - 1;
    if i < n {
      assert forall j :: 0 <= j < n ==> cells[..n][j] == cells[j];
      LastCoverWins(cells[..n], i, px, py);
    }
  }

  /** A pixel that no fill covers keeps the black of the fresh canvas. */
  lemma {:induction false} UncoveredStaysBlack(cells: seq<Cell>, px: int, py: int)
    requires forall j :: 0 <= j < |cells| ==> !Covers(cells[j], px, py)
    ensures Pixel(cells, px, py) == Black
  {
    if cells != [] {
      var n := |cells| - 1;
      assert forall j :: 0 <= j < n ==> cells[..n][j] == cells[j];
      UncoveredStaysBlack(cells[..n], px, py);
    }
  }

  /** When the fills come in row-major order, each fill's block keeps its
      colour whole: only earlier fills of left and upper neighbours reach
      into it, and later fills stop short of it. */
  lemma BlockKeepsColour(cells: seq<Cell>, i: nat, px: int, py: int)
    requires RowMajor(cells) && i < |cells| && InBlock(cells[i], px, py)
    ensures Pixel(cells, px, py) == Colour(cells[i].v)
  {
    forall j | i < j < |cells| ensures !Covers(cells[j], px, py) {
      assert Rank(cells[i]) < Rank(cells[j]);
    }
    LastCoverWins(cells, i, px, py);
  }

  /** The centre pixel of the block of cell (x, y) is covered by the fills
      of that cell only, so it shows the cell's value in any call order. */
  lemma {:induction false} CentreShowsCell(cells: seq<Cell>, x: nat, y: nat)
    ensures Pixel(cells, x * CELL + CELL / 2, y * CELL + CELL / 2) == Colour(ValueAt(cells, x, y))
  {
    if cells == [] {
      assert Colour(0) == Black;
    } else {
      var n := |cells| - 1;
      CentreShowsCell(cells[..n], x, y);
    }
  }

  /** The 18 fills of generate_image sit at row-major positions 0..17. */
  predicate Positioned(cells: seq<Cell>) {
    |cells| == 18 && forall i :: 0 <= i < |cells| ==> cells[i].x == i % 8 && cells[i].y == i / 8
  }

  /** Which fill wins each pixel of generate_image's canvas, region by
      region: rows 0-1 of cells are drawn whole; the moon-age cells (0,2)
      and (1,2) overhang by one pixel to the right (column 16) and below
      (row 24), (1,2) winning where they meet; row 1 overhangs into pixel
      row 16 right of column 16; the fill of cell (7,1) at x = 64 is
      clipped away; every other pixel stays black. */
  function Expected(cells: seq<Cell>, px: int, py: int): (p: Rgb)
    requires |cells| == 18 && 0 <= px < SIZE && 0 <= py < SIZE
  {
    if py < 2 * CELL then Colour(cells[8 * (py / CELL) + px / CELL].v)
    else if py <= 3 * CELL && px <= 2 * CELL then Colour(cells[if px < CELL then 16 else 17].v)
    else if py == 2 * CELL then Colour(cells[8 + px / CELL].v)
    else Black
  }

  lemma TopRowsWhole(cells: seq<Cell>, px: int, py: int)
    requires Positioned(cells) && 0 <= px < SIZE && 0 <= py < 2 * CELL
    ensures Pixel(cells, px, py) == Colour(cells[8 * (py / CELL) + px / CELL].v)
  {
    var i := 8 * (py / CELL) + px / CELL;
    assert cells[i].x == px / CELL && cells[i].y == py / CELL;
    forall j | i < j < |cells| ensures !Covers(cells[j], px, py) {
      assert cells[j].x == j % 8 && cells[j].y == j / 8;
    }
    LastCoverWins(cells, i, px, py);
  }

  lemma MoonCellsOverhang(cells: seq<Cell>, px: int, py: int)
    requires Positioned(cells) && 0 <= px <= 2 * CELL && 2 * CELL <= py <= 3 * CELL
    ensures Pixel(cells, px, py) == Colour(cells[if px < CELL then 16 else 17].v)
  {
    assert cells[16].x == 0 && cells[16].y == 2 && cells[17].x == 1 && cells[17].y == 2;
    LastCoverWins(cells, if px < CELL then 16 else 17, px, py);
  }

  lemma SecondRowOverhang(cells: seq<Cell>, px: int)
    requires Positioned(cells) && 2 * CELL < px < SIZE
    ensures Pixel(cells, px, 2 * CELL) == Colour(cells[8 + px / CELL].v)
  {
    var i := 8 + px / CELL;
    assert cells[i].x == px / CELL && cells[i].y == 1;
    forall j | i < j < |cells| ensures !Covers(cells[j], px, 2 * CELL) {
      assert cells[j].x == j % 8 && cells[j].y == j / 8;
    }
    LastCoverWins(cells, i, px, 2 * CELL);
  }

  lemma RestStaysBlack(cells: seq<Cell>, px: int, py: int)
    requires Positioned(cells) && 0 <= px < SIZE && 2 * CELL < py < SIZE
    requires py > 3 * CELL || px > 2 * CELL
    ensures Pixel(cells, px, py) == Black
  {
    forall j | 0 <= j < |cells| ensures !Covers(cells[j], px, py) {
      assert cells[j].x == j % 8 && cells[j].y == j / 8;
    }
    UncoveredStaysBlack(cells, px, py);
  }

  /** The whole 64x64 picture that generate_image draws for `now`. */
  lemma ImageContents(now: Moment, px: int, py: int)
    requires 0 <= px < SIZE && 0 <= py < SIZE
    ensures Pixel(Encode(now), px, py) == Expected(Encode(now), px, py)
  {
    var cells := Encode(now);
    if py < 2 * CELL {
      TopRowsWhole(cells, px, py);
    } else if py <= 3 * CELL && px <= 2 * CELL {
      MoonCellsOverhang(cells, px, py);
    } else if py == 2 * CELL {
      SecondRowOverhang(cells, px);
    } else {
      RestStaysBlack(cells, px, py);
    }
  }

  /** 2023-06-15 14:30:45.000, a Thursday: the year offset 123 splits into
      3 (yellow), 7 (white) and 1 (red); month 5 is magenta; day 15 splits
      into 7 (white) and 1 (red); hour 14 into 6 (cyan) and 1 (red);
      weekday 4 is blue. */
  lemma WorkedExample()
    ensures var cells := Encode(Moment(2023, 6, 15, 14, 30, 45, 0, 4));
      Colour(cells[8].v) == Rgb(255, 255, 0) && Colour(cells[9].v) == Rgb(255, 255, 255) &&
      Colour(cells[10].v) == Rgb(255, 0, 0) && Colour(cells[11].v) == Rgb(255, 0, 255) &&
      Colour(cells[12].v) == Black && Colour(cells[13].v) == Rgb(255, 255, 255) &&
      Colour(cells[14].v) == Rgb(255, 0, 0) && Colour(cells[0].v) == Rgb(0, 255, 255) &&
      Colour(cells[1].v) == Rgb(255, 0, 0) && Colour(cells[15].v) == Rgb(0, 0, 255)
  {
    var f := Derive(Moment(2023, 6, 15, 14, 30, 45, 0, 4));
    var cells := Layout(f);
    assert f.year == 123 && f.month == 5 && f.day == 15 && f.hour == 14 && f.weekday == 4;
    assert Pow2(3) == 8 && Pow2(6) == 64;
    assert cells[8].v == 3 && cells[9].v == 7 && cells[10].v == 1 by {
      assert Shr(123, 3) == 15 && Shr(123, 6) == 1;
    }
    assert cells[11].v == 5 && cells[12].v == 0 && cells[13].v == 7 && cells[14].v == 1;
    assert cells[0].v == 6 && cells[1].v == 1 && cells[15].v == 4;
    ColourTable();
  }

  /** The eight colours of the 3-bit values. */
  lemma ColourTable()
    ensures Colour(0) == Black && Colour(1) == Rgb(255, 0, 0) && Colour(3) == Rgb(255, 255, 0)
    ensures Colour(4) == Rgb(0, 0, 255) && Colour(5) == Rgb(255, 0, 255)
    ensures Colour(6) == Rgb(0, 255, 255) && Colour(7) == Rgb(255, 255, 255)
  {
    assert Pow2(1) == 2 && Pow2(2) == 4;
  }
}
