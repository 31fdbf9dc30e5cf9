/**
 * Histogram equalisation of an 8-bit image (bmp8equalize.c).
 *
 * Rows are stored padded to a multiple of 4 bytes; the histogram counts only the first
 * width bytes of each row, while the final remap rewrites every byte of the buffer,
 * padding included.
 */
module Bmp8Equalize {
  import opened Bytes
  import opened Results
  import opened Equalization
  import opened Bmp8

  /** Bytes per stored row: the width padded up to a multiple of 4. */
  function RowSize(width: nat): (rowSize: nat)
    ensures rowSize % 4 == 0 && width <= rowSize < width + 4
  {
    width + (4 - width % 4) % 4
  }

  /** The offset y * rowSize of row y in the buffer, written as a sum of y row sizes. */
  function RowStart(rowSize: nat, y: nat): (start: nat)
  {
    if y == 0 then 0 else RowStart(rowSize, y - 1) + rowSize
  }

  lemma {:induction false} RowStartIsProduct(rowSize: nat, y: nat)
    ensures RowStart(rowSize, y) == y * rowSize
  {
    if y > 0 {
      RowStartIsProduct(rowSize, y - 1);
    }
  }

  lemma {:induction false} RowStartMonotone(rowSize: nat, y: nat, z: nat)
    requires y <= z
    ensures RowStart(rowSize, y) <= RowStart(rowSize, z)
  {
    if y < z {
      RowStartMonotone(rowSize, y, z - 1);
    }
  }

  /** Row y starts at least y widths into the buffer, since each padded row is at least width long. */
  lemma {:induction false} RowStartCovers(width: nat, y: nat)
    ensures width * y <= RowStart(RowSize(width), y)
  {
    if y > 0 {
      RowStartCovers(width, y - 1);
    }
  }

  /** The buffer holds every byte the histogram reads; the last row's padding is not read. */
  predicate PixelsFit(width: nat, height: nat, size: nat)
  {
    height == 0 || RowStart(RowSize(width), height - 1) + width <= size
  }

  lemma FitsPrefix(width: nat, height: nat, k: nat, size: nat)
    requires PixelsFit(width, height, size) && k <= height
    ensures PixelsFit(width, k, size)
  {
    if k > 0 {
      RowStartMonotone(RowSize(width), k - 1, height - 1);
    }
  }

  /** Every image sample has its own place in the buffer, so width * height fits in 32 bits with the buffer. */
  lemma PixelCountFits(width: nat, height: nat, size: nat)
    requires PixelsFit(width, height, size)
    ensures width * height <= size
  {
    if height > 0 {
      RowStartCovers(width, height - 1);
      assert width * height == width * (height - 1) + width;
    }
  }

  /** The image samples in row order: the first width bytes of each padded row. */
  function Pixels(data: seq<byte>, width: nat, height: nat): (p: seq<byte>)
    requires PixelsFit(width, height, |data|)
    ensures |p| == width * height
    decreases height
  {
    if height == 0 then []
    else
      FitsPrefix(width, height, height - 1, |data|);
      var start := RowStart(RowSize(width), height - 1);
      Pixels(data, width, height - 1) + data[start..start + width]
  }

  /**
   * Sample x of row y sits at RowStart(width, y) + x = y * width + x in Pixels and at
   * y * rowSize + x in the buffer: Pixels keeps each row's first width bytes and drops
   * its padding.
   */
  lemma {:induction false} PixelsAt(data: seq<byte>, width: nat, height: nat, y: nat, x: nat)
    requires PixelsFit(width, height, |data|) && y < height && x < width
    ensures RowStart(width, y) + x < |Pixels(data, width, height)|
    ensures RowStart(RowSize(width), y) + x < |data|
    ensures Pixels(data, width, height)[RowStart(width, y) + x] == data[RowStart(RowSize(width), y) + x]
  {
    PixelsKeep(data, width, y + 1, height);
    PixelsLastRow(data, width, y, x);
    var p, q := Pixels(data, width, y + 1), Pixels(data, width, height);
    assert q[RowStart(width, y) + x] == q[..|p|][RowStart(width, y) + x];
  }

  /** The samples of the first k rows stay in place as rows are added below them. */
  lemma {:induction false} PixelsKeep(data: seq<byte>, width: nat, k: nat, height: nat)
    requires PixelsFit(width, height, |data|) && k <= height
    ensures PixelsFit(width, k, |data|)
    ensures Pixels(data, width, k) <= Pixels(data, width, height)
    decreases height
  {
    FitsPrefix(width, height, k, |data|);
    if k < height {
      FitsPrefix(width, height, height - 1, |data|);
      PixelsKeep(data, width, k, height - 1);
      assert Pixels(data, width, height - 1) <= Pixels(data, width, height);
    }
  }

  /** The samples of row y, the last of y + 1 rows, follow the rows above and are that row's first width bytes. */
  lemma PixelsLastRow(data: seq<byte>, width: nat, y: nat, x: nat)
    requires PixelsFit(width, y + 1, |data|) && x < width
    ensures RowStart(width, y) + x < |Pixels(data, width, y + 1)|
    ensures RowStart(RowSize(width), y) + x < |data|
    ensures Pixels(data, width, y + 1)[RowStart(width, y) + x] == data[RowStart(RowSize(width), y) + x]
  {
    FitsPrefix(width, y + 1, y, |data|);
    PixelsLength(data, width, y);
    var start := RowStart(RowSize(width), y);
    var above, row := Pixels(data, width, y), data[start..start + width];
    assert Pixels(data, width, y + 1) == above + row;
    assert (above + row)[|above| + x] == row[x];
  }

  /** The sample count as the repeated sum RowStart(width, height). */
  lemma PixelsLength(data: seq<byte>, width: nat, height: nat)
    requires PixelsFit(width, height, |data|)
    ensures |Pixels(data, width, height)| == RowStart(width, height)
  {
    RowStartIsProduct(width, height);
  }

  /** C's (unsigned) cdf[i] after normalisation, with d and m the unsigned differences. */
  function NormalisedLevel(c: u32, cdfMin: u32, total: u32): (level: byte)
    requires total != cdfMin
    ensures cdfMin <= c <= total ==> level == RoundedScale(c - cdfMin, total - cdfMin)
    ensures cdfMin < total && !(cdfMin <= c <= total) ==> level == 255
  {
    var d := SubU32(c, cdfMin);
    var m := SubU32(total, cdfMin);
    // normalized = d / m * 255 is never negative: d is unsigned; above 255 it is clamped.
    if d >= m then 255 else RoundedScale(d, m)
  }

  function Normalised(cdf: seq<u32>, cdfMin: u32, total: u32): (t: seq<byte>)
    requires total != cdfMin
    ensures |t| == |cdf|
  {
    seq(|cdf|, i requires 0 <= i < |cdf| => NormalisedLevel(cdf[i], cdfMin, total))
  }

  /** bmp8_computeCDF's lookup table for a histogram and a pixel total; None where it returns NULL. */
  function EqualizationTable(hist: seq<nat>, total: u32): (t: Option<seq<byte>>)
    requires |hist| == LEVELS
    ensures t.None? <==> total == 0 || total == CdfMin(Cdf(hist))
    ensures t.Some? ==> |t.value| == LEVELS
  {
    var c := Cdf(hist);
    var cdfMin: u32 := CdfMin(c);
    if total == 0 || total == cdfMin then None else Some(Normalised(c, cdfMin, total))
  }

  /** An occupied level lies at or after the first positive cumulative value. */
  lemma OccupiedFromFirst(s: seq<byte>, v: nat)
    requires |s| < U32_MODULUS && v < LEVELS && Count(s, v) > 0
    ensures FirstPositive(Cdf(HistogramOf(s))) <= v
  {
    var h := HistogramOf(s);
    HistogramCounts(s, v);
    HistogramTotal(s);
    CdfIsPrefixSum(h, v);
    SumLast(h[..v + 1]);
    assert h[..v + 1][v] == h[v];
  }

  lemma SumLast(h: seq<nat>)
    requires h != []
    ensures Sum(h) >= h[|h| - 1]
  {
  }

  /**
   * The table of a histogram proper (total = number of samples): the first occupied level
   * maps to 0, every level from it on to round((cdf[v] - cdf_min) / (total - cdf_min) * 255),
   * the levels whose cumulative value is the total to 255, and the levels below the first
   * occupied one to 255, because cdf[v] - cdf_min wraps around and the clamp catches it.
   */
  lemma {:induction false} TableLevels(s: seq<byte>, v: nat)
    requires |s| < U32_MODULUS && v < LEVELS
    requires EqualizationTable(HistogramOf(s), |s|).Some?
    ensures
      var c := Cdf(HistogramOf(s));
      var cdfMin := CdfMin(c);
      var k := FirstPositive(c);
      var t := EqualizationTable(HistogramOf(s), |s|).value;
      && k < LEVELS
      && (k <= v ==> cdfMin <= c[v] <= |s| && t[v] == RoundedScale(c[v] - cdfMin, |s| - cdfMin))
      && (v == k ==> t[v] == 0)
      && (c[v] == |s| ==> t[v] == 255)
      && (v < k ==> t[v] == 255)
  {
    var h := HistogramOf(s);
    var c := Cdf(h);
    HistogramTotal(s);
    CdfMinIsFirstCount(s);
    var k := FirstPositive(c);
    var cdfMin := CdfMin(c);
    CdfMonotone(h, v, LEVELS - 1);
    if k <= v {
      CdfMonotone(h, k, v);
    }
  }

  /** From the first occupied level on, the table is non-decreasing. */
  lemma {:induction false} TableMonotone(s: seq<byte>, i: nat, j: nat)
    requires |s| < U32_MODULUS
    requires EqualizationTable(HistogramOf(s), |s|).Some?
    requires FirstPositive(Cdf(HistogramOf(s))) <= i <= j < LEVELS
    ensures EqualizationTable(HistogramOf(s), |s|).value[i] <= EqualizationTable(HistogramOf(s), |s|).value[j]
  {
    var h := HistogramOf(s);
    var c := Cdf(h);
    TableLevels(s, i);
    TableLevels(s, j);
    HistogramTotal(s);
    CdfMonotone(h, i, j);
    RoundedScaleMonotone(c[i] - CdfMin(c), c[j] - CdfMin(c), |s| - CdfMin(c));
  }

  /** Below the first occupied level the table is not monotone: level 0 maps to 255 and that level to 0. */
  lemma {:induction false} TableWrapsBelowFirst(s: seq<byte>)
    requires |s| < U32_MODULUS
    requires EqualizationTable(HistogramOf(s), |s|).Some?
    requires Count(s, 0) == 0
    ensures
      var k := FirstPositive(Cdf(HistogramOf(s)));
      var t := EqualizationTable(HistogramOf(s), |s|).value;
      0 < k < LEVELS && t[0] == 255 && t[k] == 0
  {
    var h := HistogramOf(s);
    HistogramCounts(s, 0);
    CdfMinIsFirstCount(s);
    TableLevels(s, 0);
    TableLevels(s, FirstPositive(Cdf(h)));
  }

  /** t[b] for every byte b. */
  function Remapped(s: seq<byte>, t: seq<byte>): (r: seq<byte>)
    requires |t| == LEVELS
    ensures |r| == |s|
  {
    seq(|s|, i requires 0 <= i < |s| => t[s[i]])
  }

  /** The byte at position i becomes the table entry of its old value. */
  lemma RemappedAt(s: seq<byte>, t: seq<byte>, i: nat)
    requires |t| == LEVELS && i < |s|
    ensures Remapped(s, t)[i] == t[s[i]]
  {
  }

  /** What bmp8_equalize does to an image's bytes; None where it leaves them alone. */
  function Equalized(data: seq<byte>, width: u32, height: u32): (r: Option<seq<byte>>)
    requires PixelsFit(width, height, |data|) && |data| < U32_MODULUS
    ensures r.None? <==>
      width as int * height as int == 0 ||
      width as int * height as int == CdfMin(Cdf(HistogramOf(Pixels(data, width, height))))
    ensures r.Some? ==> |r.value| == |data|
    ensures r.Some? ==> forall i, j :: 0 <= i < |data| && 0 <= j < |data| && data[i] == data[j] ==> r.value[i] == r.value[j]
  {
    PixelCountFits(width, height, |data|);
    var t := EqualizationTable(HistogramOf(Pixels(data, width, height)), width * height);
    if t.None? then None else Some(Remapped(data, t.value))
  }

  /**
   * Equalisation leaves a byte at an occupied level v at the rounded scaled cumulative value,
   * sends its darkest level to 0 and its brightest to 255, and keeps the order of the bytes
   * at occupied levels.
   */
  lemma {:induction false} EqualizedBytes(data: seq<byte>, width: u32, height: u32, i: nat, j: nat)
    requires PixelsFit(width, height, |data|) && |data| < U32_MODULUS
    requires Equalized(data, width, height).Some?
    requires i < |data| && j < |data| && data[i] <= data[j]
    requires Count(Pixels(data, width, height), data[i]) > 0
    ensures
      var s := Pixels(data, width, height);
      var c := Cdf(HistogramOf(s));
      && CdfMin(c) <= c[data[i]] <= |s|
      && Equalized(data, width, height).value[i] == RoundedScale(c[data[i]] - CdfMin(c), |s| - CdfMin(c))
      && Equalized(data, width, height).value[i] <= Equalized(data, width, height).value[j]
      && (c[data[i]] == CdfMin(c) ==> Equalized(data, width, height).value[i] == 0)
      && (c[data[i]] == |s| ==> Equalized(data, width, height).value[i] == 255)
  {
    var s := Pixels(data, width, height);
    var t := EqualizedTable(data, width, height);
    var r := Equalized(data, width, height).value;
    assert r[i] == t[data[i]] && r[j] == t[data[j]];
    OccupiedLevel(s, data[i], data[j]);
  }

  /** An occupied level v maps to its rounded scaled cumulative value, and to no more than any level above it. */
  lemma OccupiedLevel(s: seq<byte>, v: nat, w: nat)
    requires |s| < U32_MODULUS && v <= w < LEVELS && Count(s, v) > 0
    requires EqualizationTable(HistogramOf(s), |s|).Some?
    ensures
      var c := Cdf(HistogramOf(s));
      var t := EqualizationTable(HistogramOf(s), |s|).value;
      && CdfMin(c) <= c[v] <= |s|
      && t[v] == RoundedScale(c[v] - CdfMin(c), |s| - CdfMin(c))
      && t[v] <= t[w]
      && (c[v] == CdfMin(c) ==> t[v] == 0)
      && (c[v] == |s| ==> t[v] == 255)
  {
    OccupiedFromFirst(s, v);
    TableLevels(s, v);
    TableMonotone(s, v, w);
  }

  /** The table Equalized applies: the pixel count is |Pixels|, and the result is Remapped by it. */
  lemma EqualizedTable(data: seq<byte>, width: u32, height: u32) returns (t: seq<byte>)
    requires PixelsFit(width, height, |data|) && |data| < U32_MODULUS
    requires Equalized(data, width, height).Some?
    ensures |Pixels(data, width, height)| < U32_MODULUS
    ensures EqualizationTable(HistogramOf(Pixels(data, width, height)), |Pixels(data, width, height)|).Some?
    ensures t == EqualizationTable(HistogramOf(Pixels(data, width, height)), |Pixels(data, width, height)|).value
    ensures Equalized(data, width, height).value == Remapped(data, t)
  {
    PixelCountFits(width, height, |data|);
    t := EqualizationTable(HistogramOf(Pixels(data, width, height)), |Pixels(data, width, height)|).value;
  }

  /** bmp8_computeHistogram; callocOk says whether calloc succeeds. */
  method ComputeHistogram(img: Image?, callocOk: bool) returns (hist: array?<u32>)
    requires img != null ==> img.Valid()
    requires img != null && img.data != null ==> PixelsFit(img.width, img.height, img.dataSize)
    ensures hist == null <==> img == null || img.data == null || !callocOk
    ensures hist != null ==>
      && img != null && img.data != null
      && fresh(hist) && hist.Length == LEVELS
      && hist[..] == HistogramOf(Pixels(img.data[..], img.width, img.height))
  {
    if img == null || img.data == null || !callocOk {
      return null;
    }
    hist := new u32[LEVELS](_ => 0);
    CountRows(hist, img.data, img.width, img.height);
  }

  /** The two loops of bmp8_computeHistogram over a zeroed histogram: every row but not its padding. */
  method CountRows(hist: array<u32>, data: array<byte>, width: u32, height: u32)
    requires hist.Length == LEVELS && data.Length < U32_MODULUS
    requires PixelsFit(width, height, data.Length)
    requires forall v :: 0 <= v < LEVELS ==> hist[v] == 0
    modifies hist
    ensures hist[..] == HistogramOf(Pixels(data[..], width, height))
  {
    var padding := (4 - width % 4) % 4;
    var rowSize: nat := width as int + padding as int;
    ghost var d := data[..];
    assert rowSize == RowSize(width);
    assert hist[..] == HistogramOf(Pixels(d, width, 0));
    for y := 0 to height
      invariant PixelsFit(width, y, |d|)
      invariant hist[..] == HistogramOf(Pixels(d, width, y))
    {
      FitsPrefix(width, height, y + 1, |d|);
      RowStep(d, width, y);
      var start := RowStart(rowSize, y);
      ghost var row := d[start..start + width];
      CountRow(hist, data, start, width, Pixels(d, width, y), row);
      RowAppended(d, width, y, row);
    }
  }

  /** Row y of the samples is the first width bytes of the padded row y; its padding is skipped. */
  lemma RowStep(data: seq<byte>, width: nat, y: nat)
    requires PixelsFit(width, y + 1, |data|)
    ensures RowStart(RowSize(width), y) + width <= |data|
    ensures |Pixels(data, width, y)| + width <= |data|
    ensures Pixels(data, width, y + 1) == Pixels(data, width, y) + data[RowStart(RowSize(width), y)..RowStart(RowSize(width), y) + width]
  {
    PixelCountFits(width, y + 1, |data|);
  }

  lemma RowAppended(data: seq<byte>, width: nat, y: nat, row: seq<byte>)
    requires PixelsFit(width, y + 1, |data|)
    requires RowStart(RowSize(width), y) + width <= |data|
    requires row == data[RowStart(RowSize(width), y)..RowStart(RowSize(width), y) + width]
    ensures HistogramOf(Pixels(data, width, y) + row) == HistogramOf(Pixels(data, width, y + 1))
  {
  }

  /** The inner loop of bmp8_computeHistogram: hist[data[start + x]]++ for x < width, start = y * rowSize. */
  method CountRow(hist: array<u32>, data: array<byte>, start: nat, width: nat, ghost done: seq<byte>, ghost row: seq<byte>)
    requires hist.Length == LEVELS && start + width <= data.Length && row == data[start..start + width]
    requires |done| + width < U32_MODULUS
    requires hist[..] == HistogramOf(done)
    modifies hist
    ensures hist[..] == HistogramOf(done + row)
  {
    assert done + data[start..start] == done;
    for x := 0 to width
      invariant hist[..] == HistogramOf(done + data[start..start + x])
    {
      ghost var seen := done + data[start..start + x];
      var v := data[start + x];
      hist[v] := hist[v] + 1;
      assert seen + [v] == done + data[start..start + x + 1];
    }
    assert data[start..start + width] == row;
  }

  /** bmp8_computeCDF; callocOk says whether calloc succeeds. */
  method ComputeCdf(hist: array?<u32>, total: u32, callocOk: bool) returns (cdf: array?<u32>)
    requires hist != null ==> hist.Length == LEVELS
    ensures cdf == null <==> hist == null || total == 0 || !callocOk || EqualizationTable(hist[..], total).None?
    ensures cdf != null ==>
      && hist != null
      && fresh(cdf) && cdf.Length == LEVELS
      && EqualizationTable(hist[..], total).Some?
      && cdf[..] == EqualizationTable(hist[..], total).value
  {
    if hist == null || total == 0 || !callocOk {
      return null;
    }
    cdf := new u32[LEVELS](_ => 0);
    FillCdf(hist, cdf);
    var cdfMin := FindCdfMin(cdf);
    if total == cdfMin {
      return null;
    }
    ghost var c := cdf[..];
    for i := 0 to LEVELS
      invariant cdf[..i] == Normalised(c, cdfMin, total)[..i]
      invariant cdf[i..] == c[i..]
    {
      cdf[i] := NormalisedLevel(cdf[i], cdfMin, total);
    }
  }

  /** bmp8_equalize; the two flags say whether the histogram's and the CDF's callocs succeed. */
  method Equalize(img: Image?, histAllocated: bool, cdfAllocated: bool)
    requires img != null ==> img.Valid()
    requires img != null && img.data != null ==> PixelsFit(img.width, img.height, img.dataSize)
    modifies PixelBuffer(img)
    ensures img != null && img.data != null ==>
      var r := Equalized(old(img.data[..]), img.width, img.height);
      img.data[..] == if histAllocated && cdfAllocated && r.Some? then r.value else old(img.data[..])
  {
    if img == null || img.data == null {
      return;
    }
    var hist := ComputeHistogram(img, histAllocated);
    if hist == null {
      return;
    }
    PixelCountFits(img.width, img.height, img.dataSize);
    var cdf := ComputeCdf(hist, img.width * img.height, cdfAllocated);
    if cdf == null {
      return;
    }
    ghost var r := Equalized(img.data[..], img.width, img.height);
    assert r.Some? && r.value == Remapped(img.data[..], cdf[..]);
    Remap(img.data, cdf);
  }

  /** The final loop of bmp8_equalize: every byte of the buffer, padding included, becomes cdf[byte]. */
  method Remap(data: array<byte>, cdf: array<u32>)
    requires cdf.Length == LEVELS && forall v :: 0 <= v < LEVELS ==> cdf[v] < 0x100
    modifies data
    ensures data[..] == Remapped(old(data[..]), cdf[..])
  {
    ghost var t := cdf[..];
    ghost var s := data[..];
    for i := 0 to data.Length
      invariant forall k :: 0 <= k < i ==> data[k] == Remapped(s, t)[k]
      invariant forall k :: i <= k < data.Length ==> data[k] == s[k]
    {
      data[i] := cdf[data[i]];
    }
  }
}
