/**
 * The time encoder of generate_image: the calendar fields of a local time
 * are reduced to small scalars, and each scalar is split into 3-bit groups,
 * one group per cell of an 8x8 grid.
 */
module TimeEncoder {

  /** The fields of the local datetime `now` that generate_image reads. */
  datatype Moment = Moment(
    year: int, month: int, day: int,
    hour: int, minute: int, second: int,
    microsecond: int, isoWeekday: int)

  /** What a datetime guarantees of its fields (isoWeekday: 1 = Monday .. 7 = Sunday). */
  predicate Valid(m: Moment) {
    1 <= m.year <= 9999 && 1 <= m.month <= 12 && 1 <= m.day <= 31 &&
    0 <= m.hour <= 23 && 0 <= m.minute <= 59 && 0 <= m.second <= 59 &&
    0 <= m.microsecond <= 999999 && 1 <= m.isoWeekday <= 7
  }

  /** The scalars generate_image derives from `now`, named as in the source:
      `year` counts from 1900 and `month` from 0. */
  datatype Fields = Fields(
    year: int, month: int, day: int,
    hour: int, minute: int, second: int,
    ms: int, weekday: int, moonAge: int)

  function Pow2(k: nat): (r: nat)
    ensures r >= 1
  {
    if k == 0 then 1 else 2 * Pow2(k - 1)
  }

  /** Python's `x >> k`. Python integers shift arithmetically, which is
      division by 2^k rounded toward minus infinity for every sign of x;
      Dafny's `/` by a positive divisor rounds the same way. */
  function Shr(x: int, k: nat): (r: int)
    ensures Pow2(k) * r <= x < Pow2(k) * r + Pow2(k)
  {
    x / Pow2(k)
  }

  /** Python's `x & 0b111`: the three low bits, for every sign of x. */
  function Low3(x: int): (r: int)
    ensures 0 <= r < 8
    ensures x == 8 * Shr(x, 3) + r
  {
    x % 8
  }

  /** The sub-second fraction rescaled to 0..63: `int(us/1000*64/1000)`. */
  function Ms(us: int): (r: int)
    ensures 0 <= us < 1000000 ==> 0 <= r < 64
    ensures r * 1000000 <= us * 64 < r * 1000000 + 1000000
  {
    (us * 64) / 1000000
  }

  /** `isoweekday() % 7`: Sunday becomes 0, Monday..Saturday keep 1..6. */
  function Weekday(isoWeekday: int): (r: int)
    ensures 1 <= isoWeekday <= 7 ==> 0 <= r <= 6
    ensures isoWeekday == 7 ==> r == 0
    ensures 1 <= isoWeekday <= 6 ==> r == isoWeekday
  {
    isoWeekday % 7
  }

  /** The Metonic-cycle approximation of the age of the moon, in days. */
  function MoonAge(year: int, month: int, day: int): (r: int)
    ensures 0 <= r < 30
  {
    (((year - 2009) % 19) * 11 + (month + 1) + (day + 1)) % 30
  }

  /** Every field of a valid moment stays in the range the layout was made for. */
  predicate InRange(f: Fields) {
    -1899 <= f.year <= 8099 && 0 <= f.month <= 11 && 1 <= f.day <= 31 &&
    0 <= f.hour <= 23 && 0 <= f.minute <= 59 && 0 <= f.second <= 59 &&
    0 <= f.ms <= 63 && 0 <= f.weekday <= 6 && 0 <= f.moonAge < 30
  }

  function Derive(m: Moment): (f: Fields)
    ensures Valid(m) ==> InRange(f)
    ensures f.year + 1900 == m.year && f.month + 1 == m.month
  {
    Fields(
      m.year - 1900, m.month - 1, m.day,
      m.hour, m.minute, m.second,
      Ms(m.microsecond), Weekday(m.isoWeekday),
      MoonAge(m.year, m.month, m.day))
  }

  /** One `drawCell(x, y, v)` call: cell (x, y) of the grid gets the value v. */
  datatype Cell = Cell(x: nat, y: nat, v: int)

  /** The row-major position of a cell of the 8x8 grid. */
  function Rank(c: Cell): (r: int) {
    8 * c.y + c.x
  }

  /** Cells lie in the grid and come in strictly increasing row-major order. */
  predicate RowMajor(cells: seq<Cell>) {
    (forall i :: 0 <= i < |cells| ==> cells[i].x < 8 && cells[i].y < 8) &&
    (forall i, j :: 0 <= i < j < |cells| ==> Rank(cells[i]) < Rank(cells[j]))
  }

  /** The 18 drawCell calls of generate_image, in the order it makes them. */
  function Layout(f: Fields): (cells: seq<Cell>)
    ensures |cells| == 18
    ensures forall i :: 0 <= i < |cells| ==> cells[i].x == i % 8 && cells[i].y == i / 8
  {
    [ Cell(0, 0, Low3(f.hour)),   Cell(1, 0, Shr(f.hour, 3)),
      Cell(2, 0, Low3(f.minute)), Cell(3, 0, Shr(f.minute, 3)),
      Cell(4, 0, Low3(f.second)), Cell(5, 0, Shr(f.second, 3)),
      Cell(6, 0, Low3(f.ms)),     Cell(7, 0, Shr(f.ms, 3)),
      Cell(0, 1, Low3(f.year)),   Cell(1, 1, Low3(Shr(f.year, 3))),
      Cell(2, 1, Low3(Shr(f.year, 6))),
      Cell(3, 1, Low3(f.month)),  Cell(4, 1, Shr(f.month, 3)),
      Cell(5, 1, Low3(f.day)),    Cell(6, 1, Shr(f.day, 3)),
      Cell(7, 1, f.weekday),
      Cell(0, 2, Low3(f.moonAge)), Cell(1, 2, Shr(f.moonAge, 3)) ]
  }

  /** The calls generate_image makes for the local time m. */
  function Encode(m: Moment): (cells: seq<Cell>)
    ensures RowMajor(cells)
    ensures Valid(m) ==> forall i :: 0 <= i < |cells| ==> 0 <= cells[i].v < 8
  {
    var cells := Layout(Derive(m));
    LayoutRowMajor(Derive(m));
    if Valid(m) then LayoutBounded(Derive(m)); cells else cells
  }

  lemma LayoutRowMajor(f: Fields)
    ensures RowMajor(Layout(f))
  {
    var cells := Layout(f);
    forall i | 0 <= i < |cells| ensures Rank(cells[i]) == i { }
  }

  /** For fields in range no value passed to drawCell exceeds 3 bits: the
      unmasked high parts (hour >> 3, ..., moonAge >> 3) stay below 8. */
  lemma LayoutBounded(f: Fields)
    requires InRange(f)
    ensures forall i :: 0 <= i < |Layout(f)| ==> 0 <= Layout(f)[i].v < 8
  {
    var cells := Layout(f);
    assert Pow2(3) == 8;
    assert 0 <= Shr(f.hour, 3) < 8 && 0 <= Shr(f.minute, 3) < 8;
    assert 0 <= Shr(f.second, 3) < 8 && 0 <= Shr(f.ms, 3) < 8;
    assert 0 <= Shr(f.month, 3) < 8 && 0 <= Shr(f.day, 3) < 8;
    assert 0 <= Shr(f.moonAge, 3) < 8;
  }

  /** The value the grid ends up holding at cell (x, y): that of the last
      call for the cell, or 0 (black) for a cell no call draws. */
  function ValueAt(cells: seq<Cell>, x: nat, y: nat): (v: int) {
    if cells == [] then 0
    else
      var c := cells[|cells| - 1];
      if c.x == x && c.y == y then c.v else ValueAt(cells[..|cells| - 1], x, y)
  }

  /** The 8x8 cell grid, indexed [x][y]. */
  function Grid(cells: seq<Cell>): (g: seq<seq<int>>)
    ensures |g| == 8 && forall x :: 0 <= x < 8 ==> |g[x]| == 8
  {
    seq(8, x requires 0 <= x < 8 => seq(8, y requires 0 <= y < 8 => ValueAt(cells, x, y)))
  }

  /** In a row-major call list each call decides its own cell. */
  lemma {:induction false} ValueAtDrawn(cells: seq<Cell>, i: nat)
    requires RowMajor(cells) && i < |cells|
    ensures ValueAt(cells, cells[i].x, cells[i].y) == cells[i].v
  {
    var n := |cells| - 1;
    if i < n {
      assert Rank(cells[i]) < Rank(cells[n]);
      assert RowMajor(cells[..n]) by {
        forall j | 0 <= j < n ensures cells[..n][j] == cells[j] { }
      }
      assert cells[..n][i] == cells[i];
      ValueAtDrawn(cells[..n], i);
    }
  }

  /** A cell that no call draws holds 0. */
  lemma {:induction false} ValueAtUndrawn(cells: seq<Cell>, x: nat, y: nat)
    requires forall i :: 0 <= i < |cells| ==> cells[i].x != x || cells[i].y != y
    ensures ValueAt(cells, x, y) == 0
  {
    if cells != [] {
      var n := |cells| - 1;
      assert forall i :: 0 <= i < n ==> cells[..n][i] == cells[i];
      ValueAtUndrawn(cells[..n], x, y);
    }
  }

  /** Splitting x into three 3-bit groups keeps exactly x mod 512: the year
      is kept modulo 512, for years before 1900 too. */
  lemma YearGroups(x: int)
    ensures Low3(x) + 8 * Low3(Shr(x, 3)) + 64 * Low3(Shr(x, 6)) == x % 512
  {
    var a := Shr(x, 3);
    var b := Shr(a, 3);
    assert Shr(x, 6) == b by {
      assert 8 * a <= x < 8 * a + 8;
      assert 8 * b <= a < 8 * b + 8;
      assert 64 * b <= x < 64 * b + 64;
    }
    var top := Low3(b);
    assert b == 8 * Shr(b, 3) + top;
    assert x == 512 * Shr(b, 3) + (Low3(x) + 8 * Low3(a) + 64 * top);
  }

  /** The sub-second scale never goes down as the microseconds grow. */
  lemma MsMonotone(us1: int, us2: int)
    requires us1 <= us2
    ensures Ms(us1) <= Ms(us2)
  {
  }

  /** The moon age repeats every 19 years (the Metonic cycle), for years
      before the 2009 epoch as well as after it. */
  lemma MoonAgeMetonic(year: int, month: int, day: int)
    ensures MoonAge(year + 19, month, day) == MoonAge(year, month, day)
  {
    assert (year + 19 - 2009) % 19 == (year - 2009) % 19;
  }
}
