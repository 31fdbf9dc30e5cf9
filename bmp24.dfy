/**
 * The 24-bit image (bmp24.h, bmp24.c): the bits-per-pixel offset, the pixel and the
 * in-memory image, whose pixel grid is an array of separately allocated rows, and the
 * allocation of that grid.
 */
module Bmp24 {
  import opened Bytes

  /** Offset of the bits-per-pixel field (BITMAP_DEPTH), the one header field read here. */
  const BITMAP_DEPTH: nat := 0x1C

  /** t_pixel: one 8-bit value per channel. */
  datatype Pixel = Pixel(red: byte, green: byte, blue: byte)

  /** t_bmp24 as far as the equaliser uses it: the geometry and the rows data[y][x]. */
  class Image {
    var width: int
    var height: int
    var data: array?<array?<Pixel>>

    /** A grid that is present has height distinct rows of width pixels each. */
    ghost predicate Valid()
      reads this, data
    {
      data != null ==>
        && 0 <= width && 0 <= height
        && data.Length == height
        && (forall y :: 0 <= y < height ==> data[y] != null && data[y].Length == width)
        && (forall y, z :: 0 <= y < z < height ==> data[y] != data[z])
    }

    /** The row arrays, which the transforms rewrite. */
    ghost function Rows(): set<array?<Pixel>>
      reads this, data
    {
      if data == null then {} else RowSet(data)
    }

    /** The pixel values, row by row. */
    ghost function Grid(): (g: seq<seq<Pixel>>)
      requires Valid() && data != null
      reads this, data, Rows()
      ensures |g| == height && forall y :: 0 <= y < height ==> |g[y]| == width
    {
      GridOf(data)
    }

    constructor (width: nat, height: nat, pixels: array?<array?<Pixel>>)
      requires pixels != null ==> pixels.Length == height
      requires pixels != null ==> forall y :: 0 <= y < height ==> pixels[y] != null && pixels[y].Length == width
      requires pixels != null ==> forall y, z :: 0 <= y < z < height ==> pixels[y] != pixels[z]
      ensures Valid() && this.width == width && this.height == height && data == pixels
    {
      this.width := width;
      this.height := height;
      data := pixels;
    }
  }

  ghost function RowSet(data: array<array?<Pixel>>): (rows: set<array?<Pixel>>)
    reads data
  {
    set y | 0 <= y < data.Length :: data[y]
  }

  /** The contents of the rows of a grid. */
  ghost function GridOf(data: array<array?<Pixel>>): (g: seq<seq<Pixel>>)
    requires forall y :: 0 <= y < data.Length ==> data[y] != null
    reads data, RowSet(data)
    ensures |g| == data.Length && forall y :: 0 <= y < data.Length ==> g[y] == data[y][..]
  {
    seq(data.Length, y requires 0 <= y < data.Length && data[y] != null reads data, RowSet(data) => data[y][..])
  }

  /** The blocks of a grid: the array of row pointers and the rows. */
  ghost function Blocks(outer: array<array?<Pixel>>, rows: seq<array?<Pixel>>): (blocks: set<object?>)
  {
    {outer as object?} + set r | r in rows :: r as object?
  }

  lemma BlocksAppend(outer: array<array?<Pixel>>, rows: seq<array?<Pixel>>, row: array?<Pixel>)
    ensures Blocks(outer, rows + [row]) == Blocks(outer, rows) + {row as object?}
  {
    var left, right := Blocks(outer, rows + [row]), Blocks(outer, rows) + {row as object?};
    forall o | o in left ensures o in right {
      if o != outer {
        var r :| r in rows + [row] && o == r as object?;
        assert r in rows || r == row;
      }
    }
    forall o | o in right ensures o in left {
      if o != outer && o != row {
        var r :| r in rows && o == r as object?;
        assert r in rows + [row];
      } else if o == row {
        assert (rows + [row])[|rows|] == row;
        assert row in rows + [row];
      }
    }
  }

  /** Freeing the first row of the list removes exactly that block, as the rows are distinct. */
  lemma BlocksFreeFirst(outer: array<array?<Pixel>>, rows: seq<array?<Pixel>>)
    requires rows != [] && rows[0] !in rows[1..] && rows[0] as object? != outer
    ensures Blocks(outer, rows[1..]) == Blocks(outer, rows) - {rows[0] as object?}
  {
    assert forall r :: r in rows <==> r == rows[0] || r in rows[1..];
  }

  /**
   * bmp24_allocateDataPixels: an array of height row pointers, then one array of width
   * pixels per row. outerOk says whether the first malloc succeeds and rowOk(i) whether the
   * malloc of row i does. When a row fails, the rows allocated so far and the outer array
   * are freed; live is the set of blocks still allocated when the function returns.
   */
  method AllocateDataPixels(width: nat, height: nat, outerOk: bool, rowOk: nat -> bool)
    returns (pixels: array?<array?<Pixel>>, ghost live: set<object?>)
    ensures pixels == null <==> !outerOk || exists i :: 0 <= i < height && !rowOk(i)
    ensures pixels == null ==> live == {}
    ensures pixels != null ==>
      && fresh(pixels) && pixels.Length == height
      && (forall y :: 0 <= y < height ==> pixels[y] != null && fresh(pixels[y]) && pixels[y].Length == width)
      && (forall y, z :: 0 <= y < z < height ==> pixels[y] != pixels[z])
      && live == Blocks(pixels, pixels[..])
  {
    if !outerOk {
      return null, {};
    }
    pixels := new array?<Pixel>[height];
    live := {pixels};
    for i := 0 to height
      invariant forall k :: 0 <= k < i ==> rowOk(k)
      invariant forall y :: 0 <= y < i ==> pixels[y] != null && fresh(pixels[y]) && pixels[y].Length == width
      invariant forall y, z :: 0 <= y < z < i ==> pixels[y] != pixels[z]
      invariant live == Blocks(pixels, pixels[..i])
    {
      if !rowOk(i) {
        for j := 0 to i
          invariant live == Blocks(pixels, pixels[j..i])
          invariant forall y, z :: 0 <= y < z < i ==> pixels[y] != pixels[z]
        {
          assert pixels[j..i][0] == pixels[j] && pixels[j..i][1..] == pixels[j + 1..i];
          assert pixels[j] !in pixels[j + 1..i] by {
            forall k | j + 1 <= k < i ensures pixels[k] != pixels[j] { }
          }
          BlocksFreeFirst(pixels, pixels[j..i]);
          live := live - {pixels[j]};
        }
        assert pixels[i..i] == [];
        live := live - {pixels};
        return null, live;
      }
      var row := new Pixel[width];
      pixels[i] := row;
      live := live + {row};
      assert pixels[..i + 1] == pixels[..i] + [row];
      BlocksAppend(pixels, pixels[..i], row);
    }
    assert pixels[..] == pixels[..height];
  }
}
