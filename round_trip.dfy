/**
 * What a consumer of the image can read back: each cell's 3-bit value
 * from its colour, the 8x8 grid from the centres of the blocks, and the
 * time fields from the grid by undoing the 3-bit split.
 */
module RoundTrip {
  import opened TimeEncoder
  import opened ImageRenderer

  /** The 3-bit value a colour stands for: red is bit 0, green bit 1, blue bit 2. */
  function ColourValue(c: Rgb): (v: int)
    ensures 0 <= v < 8
  {
    (if c.r == 255 then 1 else 0) + (if c.g == 255 then 2 else 0) + (if c.b == 255 then 4 else 0)
  }

  /** The colour of v gives back the three low bits of v: nothing of
      them is lost and nothing above them is kept. */
  lemma ColourRoundTrip(v: int)
    ensures ColourValue(Colour(v)) == Low3(v)
  {
    var h := v / 2;
    var q := h / 2;
    assert Shr(v, 0) == v && Shr(v, 1) == h;
    assert Shr(v, 2) == q by {
      assert 2 * h <= v < 2 * h + 2;
      assert 2 * q <= h < 2 * q + 2;
    }
    var low := v % 2 + 2 * (h % 2) + 4 * (q % 2);
    assert v == 8 * (q / 2) + low by {
      assert v == 2 * h + v % 2 && h == 2 * q + h % 2 && q == 2 * (q / 2) + q % 2;
    }
    DivModUnique(v, 8, q / 2, low);
  }

  /** Two 3-bit values with the same colour are the same value. */
  lemma ColourInjective(a: int, b: int)
    requires 0 <= a < 8 && 0 <= b < 8 && Colour(a) == Colour(b)
    ensures a == b
  {
    ColourRoundTrip(a);
    ColourRoundTrip(b);
  }

  /** The grid read back from a 64x64 image, sampling the centre pixel of
      each cell's block. */
  function ReadGrid(img: seq<seq<Rgb>>): (g: seq<seq<int>>)
    requires |img| == SIZE && forall px :: 0 <= px < SIZE ==> |img[px]| == SIZE
    ensures |g| == 8 && forall x :: 0 <= x < 8 ==> |g[x]| == 8
  {
    seq(8, x requires 0 <= x < 8 =>
      seq(8, y requires 0 <= y < 8 => ColourValue(img[x * CELL + CELL / 2][y * CELL + CELL / 2])))
  }

  /** The fields put back together from the grid, as the layout split them. */
  function Decode(g: seq<seq<int>>): (f: Fields)
    requires |g| == 8 && forall x :: 0 <= x < 8 ==> |g[x]| == 8
  {
    Fields(
      year := g[0][1] + 8 * g[1][1] + 64 * g[2][1],
      month := g[3][1] + 8 * g[4][1],
      day := g[5][1] + 8 * g[6][1],
      hour := g[0][0] + 8 * g[1][0],
      minute := g[2][0] + 8 * g[3][0],
      second := g[4][0] + 8 * g[5][0],
      ms := g[6][0] + 8 * g[7][0],
      weekday := g[7][1],
      moonAge := g[0][2] + 8 * g[1][2])
  }

  /** What the encoding keeps of the fields: all of them, the year offset
      only modulo 512 (its three 3-bit groups). */
  function Kept(f: Fields): (k: Fields) {
    f.(year := f.year % 512)
  }

  /** A cell holds the value of one of the calls, or 0. */
  lemma {:induction false} ValueAtFromCalls(cells: seq<Cell>, x: nat, y: nat)
    ensures ValueAt(cells, x, y) == 0 ||
            exists i :: 0 <= i < |cells| && ValueAt(cells, x, y) == cells[i].v
  {
    if cells != [] {
      var n := |cells| - 1;
      if !(cells[n].x == x && cells[n].y == y) {
        ValueAtFromCalls(cells[..n], x, y);
        if ValueAt(cells, x, y) != 0 {
          var i :| 0 <= i < n && ValueAt(cells, x, y) == cells[..n][i].v;
          assert cells[..n][i] == cells[i];
        }
      }
    }
  }

  /** The CellGrid of a moment: cell (x, y) holds the value of the call at
      row-major position 8y + x, and the 46 cells after the 18 drawn ones
      hold 0. */
  lemma EncodeGrid(now: Moment, x: nat, y: nat)
    requires x < 8 && y < 8
    ensures Grid(Encode(now))[x][y] == if 8 * y + x < 18 then Encode(now)[8 * y + x].v else 0
  {
    var cells := Encode(now);
    if 8 * y + x < 18 {
      ValueAtDrawn(cells, 8 * y + x);
    } else {
      forall i | 0 <= i < |cells| ensures cells[i].x != x || cells[i].y != y {
        assert Rank(cells[i]) == i;
      }
      ValueAtUndrawn(cells, x, y);
    }
  }

  /** The centre of the block of cell (x, y) reads back the cell's value. */
  lemma CentreReadsCell(cells: seq<Cell>, x: nat, y: nat)
    requires forall i :: 0 <= i < |cells| ==> 0 <= cells[i].v < 8
    requires x < 8 && y < 8
    ensures ColourValue(ImageOf(cells)[x * CELL + CELL / 2][y * CELL + CELL / 2]) == ValueAt(cells, x, y)
  {
    var px, py := x * CELL + CELL / 2, y * CELL + CELL / 2;
    var v := ValueAt(cells, x, y);
    assert ImageOf(cells)[px][py] == Pixel(cells, px, py);
    CentreShowsCell(cells, x, y);
    ValueAtFromCalls(cells, x, y);
    assert 0 <= v < 8;
    ColourRoundTrip(v);
  }

  /** Sampling the block centres of the canvas gives back the grid, for any
      calls with 3-bit values: the inclusive overhang of the fills never
      reaches a centre. */
  lemma ImageGivesGrid(cells: seq<Cell>)
    requires forall i :: 0 <= i < |cells| ==> 0 <= cells[i].v < 8
    ensures ReadGrid(ImageOf(cells)) == Grid(cells)
  {
    var read := ReadGrid(ImageOf(cells));
    var grid := Grid(cells);
    forall x | 0 <= x < 8 ensures read[x] == grid[x] {
      forall y | 0 <= y < 8 ensures read[x][y] == grid[x][y] {
        CentreReadsCell(cells, x, y);
      }
    }
  }

  /** Reassembling the grid of a valid moment gives back every field it
      encodes: hour, minute, second, ms, month, day and moonAge whole, the
      weekday, and the year offset modulo 512. */
  lemma GridRoundTrip(now: Moment)
    requires Valid(now)
    ensures Decode(Grid(Encode(now))) == Kept(Derive(now))
  {
    var f := Derive(now);
    var g := Grid(Encode(now));
    forall x: nat, y: nat | x < 8 && y < 3
      ensures g[x][y] == if 8 * y + x < 18 then Encode(now)[8 * y + x].v else 0
    {
      EncodeGrid(now, x, y);
    }
    assert Pow2(3) == 8;
    YearGroups(f.year);
  }

  /** The round trip of the image format: decoding the rendered image of a valid moment
      reproduces the encoded fields. */
  lemma ImageRoundTrip(now: Moment)
    requires Valid(now)
    ensures Decode(ReadGrid(ImageOf(Encode(now)))) == Kept(Derive(now))
  {
    ImageGivesGrid(Encode(now));
    GridRoundTrip(now);
  }
}
