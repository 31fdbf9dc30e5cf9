/**
 * detectBitDepth (main.c): which of the two image types a file holds, from the 2-byte
 * bits-per-pixel field at offset 28 (BITMAP_DEPTH) of the header.
 */
module BitDepth {
  import opened Bytes
  import opened Results
  import Bmp8
  import Bmp24

  /**
   * The depth of a file, or -1. file is None when the file cannot be opened. When the file
   * is too short for the field, fread leaves bits unset; unread stands for that value.
   */
  function DetectBitDepth(file: Option<seq<byte>>, unread: u16): (depth: int)
    ensures depth == -1 || depth == 8 || depth == 24
    ensures file.None? ==> depth == -1
    ensures file.Some? && |file.value| >= Bmp24.BITMAP_DEPTH + 2 ==>
      && (depth == 8 <==> U16At(file.value, Bmp24.BITMAP_DEPTH) == 8)
      && (depth == 24 <==> U16At(file.value, Bmp24.BITMAP_DEPTH) == 24)
    ensures file.Some? && |file.value| < Bmp24.BITMAP_DEPTH + 2 ==>
      depth == if unread == 8 || unread == 24 then unread as int else -1
  {
    match file
    case None => -1
    case Some(bytes) =>
      var bits := if |bytes| >= Bmp24.BITMAP_DEPTH + 2 then U16At(bytes, Bmp24.BITMAP_DEPTH) else unread;
      if bits == 8 || bits == 24 then bits as int else -1
  }

  /** Every file the 8-bit loader accepts is detected as 8-bit: both read the same field. */
  lemma DecodedIsEightBit(file: seq<byte>, unread: u16)
    requires Bmp8.Decode(file).Ok?
    ensures DetectBitDepth(Some(file), unread) == 8
  {
    assert Bmp8.DEPTH_AT == Bmp24.BITMAP_DEPTH;
  }
}
