/**
 * Histogram equalisation of a 24-bit image on its luminance (bmp24equalize.c).
 *
 * Every pixel's luminance is rounded and clamped to a level in [0, 255]; the levels are
 * counted, accumulated and scaled into a 256-entry map, and a second pass recomputes each
 * pixel's level and rebuilds the pixel from the mapped level and its own chrominance.
 * The floating-point colour conversions are parameters of the model (ColourSpace); the
 * integer clamps around them are modelled exactly.
 */
module Bmp24Equalize {
  import opened Bytes
  import opened Equalization
  import opened Bmp24

  /** The three rounded channel values yuv2rgb computes before its clamp. */
  datatype Channels = Channels(r: int, g: int, b: int)

  /**
   * The floating-point parts of the conversion: luma(p) is (int)roundf(Y) for rgb2yuv of p,
   * and rounded(level, p) holds the three (int)roundf values yuv2rgb computes from the
   * luminance level and the chrominance U, V of p.
   */
  datatype ColourSpace = ColourSpace(luma: Pixel -> int, rounded: (byte, Pixel) -> Channels)

  /** The clamped luminance index Yi of a pixel. */
  function Level(cs: ColourSpace, p: Pixel): (l: byte)
    ensures cs.luma(p) < 0 ==> l == 0
    ensures cs.luma(p) > 255 ==> l == 255
    ensures 0 <= cs.luma(p) <= 255 ==> l == cs.luma(p)
  {
    Clamp(cs.luma(p))
  }

  /** yuv2rgb's stores: each rounded channel clamped into [0, 255]. */
  function Yuv2Rgb(c: Channels): (p: Pixel)
    ensures forall b: byte :: Dist(p.red, c.r) <= Dist(b, c.r)
    ensures forall b: byte :: Dist(p.green, c.g) <= Dist(b, c.g)
    ensures forall b: byte :: Dist(p.blue, c.b) <= Dist(b, c.b)
    ensures 0 <= c.r < 0x100 ==> p.red == c.r
    ensures 0 <= c.g < 0x100 ==> p.green == c.g
    ensures 0 <= c.b < 0x100 ==> p.blue == c.b
  {
    Pixel(Clamp(c.r), Clamp(c.g), Clamp(c.b))
  }

  /** The levels of one row, left to right. */
  function RowLevels(cs: ColourSpace, row: seq<Pixel>): (l: seq<byte>)
    ensures |l| == |row|
  {
    if row == [] then [] else RowLevels(cs, row[..|row| - 1]) + [Level(cs, row[|row| - 1])]
  }

  /** The levels of a grid in the order the histogram loop visits them: row by row. */
  function Levels(cs: ColourSpace, grid: seq<seq<Pixel>>): (l: seq<byte>)
  {
    if grid == [] then [] else Levels(cs, grid[..|grid| - 1]) + RowLevels(cs, grid[|grid| - 1])
  }

  /** Every row of the grid holds width pixels. */
  ghost predicate Rectangular(grid: seq<seq<Pixel>>, width: nat)
  {
    forall y :: 0 <= y < |grid| ==> |grid[y]| == width
  }

  /** There is one level per pixel: N = width * height levels in all. */
  lemma {:induction false} LevelsLength(cs: ColourSpace, grid: seq<seq<Pixel>>, width: nat)
    requires Rectangular(grid, width)
    ensures |Levels(cs, grid)| == width * |grid|
  {
    if grid != [] {
      LevelsLength(cs, grid[..|grid| - 1], width);
      assert width * |grid| == width * (|grid| - 1) + width;
    }
  }

  /** A first rows' levels are no more than all the levels. */
  lemma {:induction false} LevelsPrefixLength(cs: ColourSpace, grid: seq<seq<Pixel>>, y: nat)
    requires y <= |grid|
    ensures |Levels(cs, grid[..y])| <= |Levels(cs, grid)|
  {
    if y < |grid| {
      assert grid[..|grid| - 1][..y] == grid[..y];
      LevelsPrefixLength(cs, grid[..|grid| - 1], y);
    } else {
      assert grid[..y] == grid;
    }
  }

  /**
   * The histogram of the levels holds N = width * height samples: its bins add up to N
   * and, N being below 2^32, the cumulative distribution is non-decreasing and ends at N.
   */
  lemma {:induction false} HistogramOfLevels(cs: ColourSpace, grid: seq<seq<Pixel>>, width: nat, i: nat, j: nat)
    requires Rectangular(grid, width) && width * |grid| < U32_MODULUS
    requires i <= j < LEVELS
    ensures
      var h := HistogramOf(Levels(cs, grid));
      var c := Cdf(h);
      Sum(h) == width * |grid| && c[LEVELS - 1] == width * |grid| && c[i] <= c[j]
  {
    LevelsLength(cs, grid, width);
    HistogramTotal(Levels(cs, grid));
    CdfMonotone(HistogramOf(Levels(cs, grid)), i, j);
  }

  /** The level of every pixel is occupied: the histogram counted it. */
  lemma {:induction false} LevelOccupied(cs: ColourSpace, grid: seq<seq<Pixel>>, y: nat, x: nat)
    requires y < |grid| && x < |grid[y]|
    ensures Count(Levels(cs, grid), Level(cs, grid[y][x])) > 0
  {
    var init, last := grid[..|grid| - 1], grid[|grid| - 1];
    var v := Level(cs, grid[y][x]);
    CountAppend(Levels(cs, init), RowLevels(cs, last), v);
    if y == |grid| - 1 {
      RowLevelAt(cs, last, x);
      CountMember(RowLevels(cs, last), x);
    } else {
      assert init[y] == grid[y];
      LevelOccupied(cs, init, y, x);
    }
  }

  lemma {:induction false} RowLevelAt(cs: ColourSpace, row: seq<Pixel>, x: nat)
    requires x < |row|
    ensures RowLevels(cs, row)[x] == Level(cs, row[x])
  {
    if x < |row| - 1 {
      RowLevelAt(cs, row[..|row| - 1], x);
    }
  }

  /**
   * table[i] = roundf((cdf[i] - cdf_min) / (N - cdf_min) * 255) where that is defined, that is
   * for cdf_min <= cdf[i] <= N with cdf_min < N; the model puts 0 elsewhere.
   */
  function MapEntry(c: u32, cdfMin: u32, total: int): (level: byte)
    ensures cdfMin < total && c == cdfMin ==> level == 0
    ensures cdfMin < total && c == total ==> level == 255
  {
    if cdfMin < total && cdfMin <= c <= total then RoundedScale(c - cdfMin, total - cdfMin) else 0
  }

  /** The lookup table built from the cumulative distribution. */
  function LevelMap(cdf: seq<u32>, cdfMin: u32, total: int): (m: seq<byte>)
    ensures |m| == |cdf|
  {
    seq(|cdf|, i requires 0 <= i < |cdf| => MapEntry(cdf[i], cdfMin, total))
  }

  /** The table of a luminance sample s, with N = |s|. */
  function TableOf(s: seq<byte>): (m: seq<byte>)
    ensures |m| == LEVELS
  {
    var c := Cdf(HistogramOf(s));
    LevelMap(c, CdfMin(c), |s|)
  }

  /** Entry i of the table is the map formula at cdf[i]. */
  lemma TableOfEntry(s: seq<byte>, i: nat)
    requires i < LEVELS
    ensures
      var c := Cdf(HistogramOf(s));
      TableOf(s)[i] == MapEntry(c[i], CdfMin(c), |s|)
  {
  }

  /** Equalisation is defined when cdf_min < N, so that N - cdf_min is no zero divisor. */
  ghost predicate Equalizable(s: seq<byte>)
  {
    CdfMin(Cdf(HistogramOf(s))) < |s|
  }

  /**
   * Every level the second pass reads from the table is occupied, so it is read where the
   * table is defined: cdf_min <= cdf[v] <= N, and the entry is the rounded scaled difference
   * without wrap-around.
   */
  lemma {:induction false} OccupiedEntry(s: seq<byte>, v: nat)
    requires |s| < U32_MODULUS && v < LEVELS && Count(s, v) > 0 && Equalizable(s)
    ensures
      var c := Cdf(HistogramOf(s));
      && CdfMin(c) <= c[v] <= |s|
      && TableOf(s)[v] == RoundedScale(c[v] - CdfMin(c), |s| - CdfMin(c))
  {
    var h := HistogramOf(s);
    HistogramCounts(s, v);
    CdfMinIsFirstCount(s);
    HistogramTotal(s);
    var k := FirstPositive(Cdf(h));
    CdfMonotone(h, k, v);
    CdfMonotone(h, v, LEVELS - 1);
  }

  /**
   * From the first occupied level on the table is non-decreasing; the first occupied level
   * maps to 0 and the top level to 255.
   */
  lemma {:induction false} TableShape(s: seq<byte>, i: nat, j: nat)
    requires |s| < U32_MODULUS && Equalizable(s)
    requires FirstPositive(Cdf(HistogramOf(s))) <= i <= j < LEVELS
    ensures TableOf(s)[i] <= TableOf(s)[j]
    ensures TableOf(s)[FirstPositive(Cdf(HistogramOf(s)))] == 0
    ensures TableOf(s)[LEVELS - 1] == 255
  {
    var h := HistogramOf(s);
    var c := Cdf(h);
    var cdfMin := CdfMin(c);
    var k := FirstPositive(c);
    CdfMinIsFirstCount(s);
    HistogramTotal(s);
    CdfMonotone(h, k, i);
    CdfMonotone(h, i, j);
    CdfMonotone(h, j, LEVELS - 1);
    RoundedScaleMonotone(c[i] - cdfMin, c[j] - cdfMin, |s| - cdfMin);
  }

  /** yuv2rgb of the mapped level of p and the chrominance of p. */
  function Recoloured(cs: ColourSpace, m: seq<byte>, p: Pixel): (q: Pixel)
    requires |m| == LEVELS
    ensures
      var c := cs.rounded(m[Level(cs, p)], p);
      && (0 <= c.r < 0x100 ==> q.red == c.r)
      && (0 <= c.g < 0x100 ==> q.green == c.g)
      && (0 <= c.b < 0x100 ==> q.blue == c.b)
  {
    Yuv2Rgb(cs.rounded(m[Level(cs, p)], p))
  }

  function RecolouredRow(cs: ColourSpace, m: seq<byte>, row: seq<Pixel>): (r: seq<Pixel>)
    requires |m| == LEVELS
    ensures |r| == |row|
  {
    seq(|row|, x requires 0 <= x < |row| => Recoloured(cs, m, row[x]))
  }

  function Remapped(cs: ColourSpace, m: seq<byte>, grid: seq<seq<Pixel>>): (r: seq<seq<Pixel>>)
    requires |m| == LEVELS
    ensures |r| == |grid|
  {
    seq(|grid|, y requires 0 <= y < |grid| => RecolouredRow(cs, m, grid[y]))
  }

  /**
   * What bmp24_equalize does to the grid. The result has the grid's shape, and every output
   * pixel depends on its own input pixel only: equal input pixels give equal output pixels.
   */
  function Equalized(cs: ColourSpace, grid: seq<seq<Pixel>>): (e: seq<seq<Pixel>>)
    ensures |e| == |grid| && forall y :: 0 <= y < |grid| ==> |e[y]| == |grid[y]|
    ensures forall y1, x1, y2, x2 ::
      (0 <= y1 < |grid| && 0 <= x1 < |grid[y1]| && 0 <= y2 < |grid| && 0 <= x2 < |grid[y2]| &&
       grid[y1][x1] == grid[y2][x2]) ==> e[y1][x1] == e[y2][x2]
  {
    Remapped(cs, TableOf(Levels(cs, grid)), grid)
  }

  /**
   * Each output pixel is yuv2rgb of its own chrominance and the level its luminance level v
   * maps to, which is round((cdf[v] - cdf_min) / (N - cdf_min) * 255) with cdf_min <= cdf[v] <= N:
   * no pixel reads a table entry where the formula is undefined.
   */
  lemma {:induction false} EqualizedPixel(cs: ColourSpace, grid: seq<seq<Pixel>>, width: nat, y: nat, x: nat)
    requires Rectangular(grid, width) && width * |grid| < U32_MODULUS
    requires Equalizable(Levels(cs, grid))
    requires y < |grid| && x < width
    ensures
      var s := Levels(cs, grid);
      var c := Cdf(HistogramOf(s));
      && |s| == width * |grid|
      && CdfMin(c) <= c[Level(cs, grid[y][x])] <= |s|
      && Equalized(cs, grid)[y][x] == Yuv2Rgb(cs.rounded(RoundedScale(c[Level(cs, grid[y][x])] - CdfMin(c), |s| - CdfMin(c)), grid[y][x]))
  {
    var s := Levels(cs, grid);
    var p := grid[y][x];
    LevelsLength(cs, grid, width);
    LevelOccupied(cs, grid, y, x);
    var v := Level(cs, p);
    var m := TableOf(s);
    OccupiedEntry(s, v);
    assert Equalized(cs, grid)[y][x] == Recoloured(cs, m, p) == Yuv2Rgb(cs.rounded(m[v], p));
  }

  /**
   * bmp24_equalize. histOk and cdfOk say whether the callocs of hist and cdf succeed; when
   * either fails the image is left as it was.
   */
  method Equalize(img: Image?, cs: ColourSpace, histOk: bool, cdfOk: bool)
    requires img != null ==> img.Valid()
    requires img != null && img.data != null ==> img.width * img.height < 0x8000_0000
    requires img != null && img.data != null && histOk && cdfOk ==> Equalizable(Levels(cs, img.Grid()))
    modifies if img == null then {} else img.Rows()
    ensures img != null ==> img.Valid()
    ensures img != null && img.data != null ==>
      img.Grid() == if histOk && cdfOk then Equalized(cs, old(img.Grid())) else old(img.Grid())
  {
    if img == null || img.data == null {
      return;
    }
    var n := img.width * img.height;
    ghost var g := img.Grid();
    LevelsLength(cs, g, img.width);
    var table := LuminanceTable(img.data, img.width, cs, n, histOk, cdfOk, g);
    if table == null {
      assert GridOf(img.data) == g;
      return;
    }
    Recolour(img.data, img.width, cs, table, g);
    assert GridOf(img.data) == Equalized(cs, g);
  }

  /**
   * The first three steps of bmp24_equalize: the histogram of the levels, its cumulative
   * distribution, cdf_min and the table; null where one of the two callocs fails.
   */
  method LuminanceTable(data: array<array?<Pixel>>, width: int, cs: ColourSpace, n: int, histOk: bool, cdfOk: bool, ghost g: seq<seq<Pixel>>)
    returns (table: array?<byte>)
    requires forall y :: 0 <= y < data.Length ==> data[y] != null && data[y].Length == width
    requires g == GridOf(data) && n == |Levels(cs, g)| < U32_MODULUS
    ensures table == null <==> !histOk || !cdfOk
    ensures table != null ==> fresh(table) && table[..] == TableOf(Levels(cs, g))
  {
    if !histOk {
      return null;
    }
    var hist := new u32[LEVELS](_ => 0);
    CountLevels(hist, data, width, cs, g);
    ghost var h := hist[..];
    if !cdfOk {
      return null;
    }
    var cdf := new u32[LEVELS](_ => 0);
    FillCdf(hist, cdf);
    ghost var c := cdf[..];
    var cdfMin := FindCdfMin(cdf);
    table := new byte[LEVELS](_ => 0);
    FillMap(table, cdf, cdfMin, n);
    assert table[..] == LevelMap(c, CdfMin(c), n);
  }

  /** The histogram loops: hist[Yi]++ for every pixel, row by row. */
  method CountLevels(hist: array<u32>, data: array<array?<Pixel>>, width: int, cs: ColourSpace, ghost g: seq<seq<Pixel>>)
    requires hist.Length == LEVELS && forall v :: 0 <= v < LEVELS ==> hist[v] == 0
    requires forall y :: 0 <= y < data.Length ==> data[y] != null && data[y].Length == width
    requires g == GridOf(data) && |Levels(cs, g)| < U32_MODULUS
    modifies hist
    ensures hist[..] == HistogramOf(Levels(cs, g))
  {
    assert g[..0] == [];
    assert hist[..] == HistogramOf([]);
    for y := 0 to data.Length
      invariant hist[..] == HistogramOf(Levels(cs, g[..y]))
    {
      LevelsPrefixLength(cs, g, y + 1);
      assert g[..y + 1][..y] == g[..y];
      assert Levels(cs, g[..y + 1]) == Levels(cs, g[..y]) + RowLevels(cs, data[y][..]);
      CountRow(hist, data[y], cs, Levels(cs, g[..y]));
    }
    assert g[..data.Length] == g;
  }

  /** The inner histogram loop over one row. */
  method CountRow(hist: array<u32>, row: array<Pixel>, cs: ColourSpace, ghost done: seq<byte>)
    requires hist.Length == LEVELS && hist[..] == HistogramOf(done)
    requires |done| + row.Length < U32_MODULUS
    modifies hist
    ensures hist[..] == HistogramOf(done + RowLevels(cs, row[..]))
  {
    assert row[..0] == [];
    assert done + RowLevels(cs, row[..0]) == done;
    for x := 0 to row.Length
      invariant hist[..] == HistogramOf(done + RowLevels(cs, row[..x]))
    {
      ghost var seen := done + RowLevels(cs, row[..x]);
      var v := Level(cs, row[x]);
      hist[v] := hist[v] + 1;
      assert row[..x + 1][..x] == row[..x];
      assert seen + [v] == done + RowLevels(cs, row[..x + 1]);
    }
    assert row[..row.Length] == row[..];
  }

  /** The table loop: table[i] from cdf[i], cdf_min and N. */
  method FillMap(table: array<byte>, cdf: array<u32>, cdfMin: u32, n: int)
    requires table.Length == LEVELS && cdf.Length == LEVELS
    modifies table
    ensures table[..] == LevelMap(cdf[..], cdfMin, n)
  {
    for i := 0 to LEVELS
      invariant forall k :: 0 <= k < i ==> table[k] == MapEntry(cdf[k], cdfMin, n)
    {
      table[i] := MapEntry(cdf[i], cdfMin, n);
    }
  }

  /** The second pass: every row rewritten in place from the table. */
  method Recolour(data: array<array?<Pixel>>, width: int, cs: ColourSpace, table: array<byte>, ghost g: seq<seq<Pixel>>)
    requires table.Length == LEVELS
    requires forall y :: 0 <= y < data.Length ==> data[y] != null && data[y].Length == width
    requires forall y, z :: 0 <= y < z < data.Length ==> data[y] != data[z]
    requires g == GridOf(data)
    modifies RowSet(data)
    ensures GridOf(data) == Remapped(cs, table[..], g)
  {
    for y := 0 to data.Length
      invariant forall k :: 0 <= k < y ==> data[k][..] == RecolouredRow(cs, table[..], g[k])
      invariant forall k :: y <= k < data.Length ==> data[k][..] == g[k]
    {
      RecolourRow(data[y], cs, table);
    }
  }

  /** The inner loop of the second pass over one row. */
  method RecolourRow(row: array<Pixel>, cs: ColourSpace, table: array<byte>)
    requires table.Length == LEVELS
    modifies row
    ensures row[..] == RecolouredRow(cs, table[..], old(row[..]))
  {
    ghost var r := row[..];
    for x := 0 to row.Length
      invariant forall k :: 0 <= k < x ==> row[k] == Recoloured(cs, table[..], r[k])
      invariant forall k :: x <= k < row.Length ==> row[k] == r[k]
    {
      var p := row[x];
      row[x] := Yuv2Rgb(cs.rounded(table[Level(cs, p)], p));
    }
  }
}
