/**
 * The 8-bit grayscale BMP image (t_bmp8) and its codec and per-byte transforms.
 *
 * A file is a 54-byte header, a 1024-byte colour table and dataSize pixel bytes, read
 * and written as three opaque blocks. Width, height, depth and dataSize are the
 * little-endian fields of the header at offsets 18, 22, 28 and 34.
 */
module Bmp8 {
  import opened Bytes
  import opened Results

  const HEADER_SIZE: nat := 54
  const COLOR_TABLE_SIZE: nat := 1024
  const BITS_PER_PIXEL: nat := 8

  const WIDTH_AT: nat := 18
  const HEIGHT_AT: nat := 22
  const DEPTH_AT: nat := 28
  const DATA_SIZE_AT: nat := 34

  /** Where the pixel bytes start: right after the header and the colour table. */
  const PIXELS_AT: nat := HEADER_SIZE + COLOR_TABLE_SIZE

  /** The content of a loaded image, as values. */
  datatype Bmp8 = Bmp8(
    header: seq<byte>,
    colorTable: seq<byte>,
    data: seq<byte>,
    width: u32,
    height: u32,
    colorDepth: u16,
    dataSize: u32)

  /** The header starts with the ASCII signature "BM". */
  predicate HasMagic(header: seq<byte>): (b: bool)
    requires |header| >= 2
    ensures b <==> header[..2] == [0x42, 0x4D]
  {
    header[0] == 'B' as int && header[1] == 'M' as int
  }

  /** What a successful load produces: blocks of the right sizes, and fields that agree with the header. */
  predicate WellFormed(img: Bmp8)
  {
    && |img.header| == HEADER_SIZE
    && |img.colorTable| == COLOR_TABLE_SIZE
    && HasMagic(img.header)
    && img.width == U32At(img.header, WIDTH_AT)
    && img.height == U32At(img.header, HEIGHT_AT)
    && img.colorDepth == U16At(img.header, DEPTH_AT)
    && img.colorDepth == BITS_PER_PIXEL
    && img.dataSize == U32At(img.header, DATA_SIZE_AT)
    && |img.data| == img.dataSize
  }

  /** Why a file is refused; each one prints its own diagnostic and yields NULL. */
  datatype LoadError = ShortHeader | NotBmp | NotEightBit | ShortColorTable | ShortData

  /** The format part of bmp8_loadImage, over the bytes of an opened file. */
  function Decode(file: seq<byte>): (r: Result<Bmp8, LoadError>)
    ensures |file| < HEADER_SIZE ==> r == Err(ShortHeader)
    ensures |file| >= HEADER_SIZE && !HasMagic(file) ==> r == Err(NotBmp)
    ensures |file| >= HEADER_SIZE && HasMagic(file) && U16At(file, DEPTH_AT) != BITS_PER_PIXEL ==> r == Err(NotEightBit)
    ensures |file| >= HEADER_SIZE && HasMagic(file) && U16At(file, DEPTH_AT) == BITS_PER_PIXEL && |file| < PIXELS_AT ==>
      r == Err(ShortColorTable)
    ensures (|file| >= PIXELS_AT && HasMagic(file) && U16At(file, DEPTH_AT) == BITS_PER_PIXEL &&
             |file| - PIXELS_AT < U32At(file, DATA_SIZE_AT)) ==> r == Err(ShortData)
    ensures r.Ok? <==>
      && |file| >= PIXELS_AT
      && HasMagic(file)
      && U16At(file, DEPTH_AT) == BITS_PER_PIXEL
      && |file| - PIXELS_AT >= U32At(file, DATA_SIZE_AT)
    ensures r.Ok? ==>
      && WellFormed(r.value)
      && r.value.width == U32At(file, WIDTH_AT)
      && r.value.height == U32At(file, HEIGHT_AT)
      && r.value.dataSize == U32At(file, DATA_SIZE_AT)
      && Encode(r.value) == file[..PIXELS_AT + r.value.dataSize]
  {
    if |file| < HEADER_SIZE then Err(ShortHeader)
    else
      var header := file[..HEADER_SIZE];
      assert U16At(header, DEPTH_AT) == U16At(file, DEPTH_AT);
      if !HasMagic(header) then Err(NotBmp)
      else if U16At(header, DEPTH_AT) != BITS_PER_PIXEL then Err(NotEightBit)
      else if |file| < PIXELS_AT then Err(ShortColorTable)
      else
        var dataSize := U32At(header, DATA_SIZE_AT);
        assert dataSize == U32At(file, DATA_SIZE_AT);
        if |file| - PIXELS_AT < dataSize then Err(ShortData)
        else
          var img := Bmp8(header, file[HEADER_SIZE..PIXELS_AT], file[PIXELS_AT..PIXELS_AT + dataSize],
                          U32At(header, WIDTH_AT), U32At(header, HEIGHT_AT), U16At(header, DEPTH_AT), dataSize);
          assert img.width == U32At(file, WIDTH_AT);
          assert img.height == U32At(file, HEIGHT_AT);
          assert Encode(img) == file[..PIXELS_AT + dataSize];
          Ok(img)
  }

  /** bmp8_saveImage's output: the header, the colour table and dataSize pixel bytes, nothing recomputed. */
  function Encode(img: Bmp8): (bytes: seq<byte>)
    requires img.dataSize <= |img.data|
    ensures |bytes| == |img.header| + |img.colorTable| + img.dataSize
    ensures bytes[..|img.header|] == img.header
    ensures bytes[|img.header|..|img.header| + |img.colorTable|] == img.colorTable
    ensures bytes[|img.header| + |img.colorTable|..] == img.data[..img.dataSize]
  {
    img.header + img.colorTable + img.data[..img.dataSize]
  }

  /** Loading what was saved gives the image back. */
  lemma DecodeEncode(img: Bmp8)
    requires WellFormed(img)
    ensures Decode(Encode(img)) == Ok(img)
  {
    var file := Encode(img);
    assert file[..HEADER_SIZE] == img.header;
    assert file[HEADER_SIZE..PIXELS_AT] == img.colorTable;
    assert file[PIXELS_AT..PIXELS_AT + img.dataSize] == img.data;
  }

  /** t_bmp8 in memory; only the bytes behind data change after loading. */
  class Image {
    var header: seq<byte>
    var colorTable: seq<byte>
    var data: array?<byte>
    var width: u32
    var height: u32
    var colorDepth: u16
    var dataSize: u32

    /** The header and the colour table have their fixed sizes; a pixel buffer holds exactly dataSize bytes. */
    ghost predicate Valid()
      reads this
    {
      && |header| == HEADER_SIZE
      && |colorTable| == COLOR_TABLE_SIZE
      && (data != null ==> data.Length == dataSize)
    }

    function Value(): (v: Bmp8)
      reads this, data
      requires data != null
    {
      Bmp8(header, colorTable, data[..], width, height, colorDepth, dataSize)
    }

    constructor (v: Bmp8)
      requires |v.header| == HEADER_SIZE && |v.colorTable| == COLOR_TABLE_SIZE
      requires |v.data| == v.dataSize
      ensures Valid() && data != null && fresh(data)
      ensures Value() == v
    {
      header, colorTable := v.header, v.colorTable;
      width, height, colorDepth, dataSize := v.width, v.height, v.colorDepth, v.dataSize;
      data := new byte[v.dataSize](i requires 0 <= i < v.dataSize => v.data[i]);
      new;
      assert data[..] == v.data;
    }
  }

  /**
   * bmp8_loadImage. The file is None when it cannot be opened; structAllocated and
   * dataAllocated say whether the two mallocs succeed.
   */
  method Load(file: Option<seq<byte>>, structAllocated: bool, dataAllocated: bool) returns (img: Image?)
    ensures img != null <==> file.Some? && structAllocated && Decode(file.value).Ok? && dataAllocated
    ensures img != null ==>
      && fresh(img) && fresh(img.data)
      && img.Valid() && img.data != null
      && img.Value() == Decode(file.value).value
  {
    if file.None? || !structAllocated {
      return null;
    }
    var decoded := Decode(file.value);
    if decoded.Err? || !dataAllocated {
      return null;
    }
    img := new Image(decoded.value);
  }

  /**
   * bmp8_saveImage, returning 0 or -1 as its declaration documents, with the bytes
   * written; destinationOpened says whether the destination file could be created.
   */
  method Save(img: Image?, destinationOpened: bool) returns (status: int, written: seq<byte>)
    requires img != null ==> img.Valid() && img.data != null
    ensures status == 0 || status == -1
    ensures status == 0 <==> img != null && destinationOpened
    ensures status == 0 ==> written == Encode(img.Value()) && |written| == PIXELS_AT + img.dataSize
    ensures status == -1 ==> written == []
  {
    if img == null || !destinationOpened {
      return -1, [];
    }
    written := img.header + img.colorTable + img.data[..img.dataSize];
    status := 0;
  }

  // Per-byte transforms, as values.

  /** The negative: every byte and its image add up to 255. */
  function Negated(s: seq<byte>): (r: seq<byte>)
    ensures |r| == |s| && forall i :: 0 <= i < |s| ==> r[i] as int + s[i] as int == 255
  {
    seq(|s|, i requires 0 <= i < |s| => 255 - s[i])
  }

  /** The brightness change: b + value where that is a byte, 255 above and 0 below. */
  function Brightened(s: seq<byte>, value: int): (r: seq<byte>)
    ensures |r| == |s|
    ensures forall i :: 0 <= i < |s| ==>
      if s[i] + value > 255 then r[i] == 255 else if s[i] + value < 0 then r[i] == 0 else r[i] == s[i] + value
  {
    seq(|s|, i requires 0 <= i < |s| => Clamp(s[i] + value))
  }

  /** Binarisation: white exactly at or above the threshold, black elsewhere. */
  function Thresholded(s: seq<byte>, threshold: int): (r: seq<byte>)
    ensures |r| == |s|
    ensures forall i :: 0 <= i < |s| ==> (r[i] == 0 || r[i] == 255) && (r[i] == 255 <==> s[i] >= threshold)
  {
    seq(|s|, i requires 0 <= i < |s| => if s[i] >= threshold then 255 else 0)
  }

  /** The negative is an involution. */
  lemma NegatedTwice(s: seq<byte>)
    ensures Negated(Negated(s)) == s
  {
  }

  /** A brightness change of 0 keeps every byte. */
  lemma BrightenedByZero(s: seq<byte>)
    ensures Brightened(s, 0) == s
  {
  }

  /** Brightness keeps the order of the bytes and saturates past +-255. */
  lemma BrightenedOrder(s: seq<byte>, value: int, i: nat, j: nat)
    requires i < |s| && j < |s| && s[i] <= s[j]
    ensures Brightened(s, value)[i] <= Brightened(s, value)[j]
    ensures value >= 255 ==> Brightened(s, value)[i] == 255
    ensures value <= -255 ==> Brightened(s, value)[i] == 0
  {
    ClampMonotone(s[i] + value, s[j] + value);
  }

  /** Two brightness changes in the same direction add up, because neither saturates back. */
  lemma BrightenedTwice(s: seq<byte>, a: int, b: int)
    requires (a >= 0 && b >= 0) || (a <= 0 && b <= 0)
    ensures Brightened(Brightened(s, a), b) == Brightened(s, a + b)
  {
  }

  /** The threshold is inclusive: a byte equal to it becomes white, the byte below it black. */
  lemma ThresholdedExample()
    ensures Thresholded([0, 127, 128, 255], 128) == [0, 0, 255, 255]
  {
  }

  /** The frame of a transform: the pixel bytes, when the image and its buffer exist. */
  function PixelBuffer(img: Image?): (frame: set<array<byte>>)
    reads img
  {
    if img != null && img.data != null then {img.data} else {}
  }

  /** bmp8_negative: every byte b becomes 255 - b; a NULL image or buffer is left alone. */
  method Negative(img: Image?)
    requires img != null ==> img.Valid()
    modifies PixelBuffer(img)
    ensures img != null && img.data != null ==> img.data[..] == Negated(old(img.data[..]))
  {
    if img == null || img.data == null {
      return;
    }
    var data := img.data;
    ghost var s := data[..];
    for i := 0 to img.dataSize
      invariant forall k :: 0 <= k < i ==> data[k] == Negated(s)[k]
      invariant forall k :: i <= k < data.Length ==> data[k] == s[k]
    {
      data[i] := 255 - data[i];
    }
  }

  /** bmp8_brightness: every byte b becomes b + value saturated into [0, 255]. */
  method Brightness(img: Image?, value: int)
    requires img != null ==> img.Valid()
    requires -0x8000_0000 <= value <= 0x7FFF_FFFF - 255
    modifies PixelBuffer(img)
    ensures img != null && img.data != null ==> img.data[..] == Brightened(old(img.data[..]), value)
  {
    if img == null || img.data == null {
      return;
    }
    var data := img.data;
    ghost var s := data[..];
    for i := 0 to img.dataSize
      invariant forall k :: 0 <= k < i ==> data[k] == Brightened(s, value)[k]
      invariant forall k :: i <= k < data.Length ==> data[k] == s[k]
    {
      var newValue := data[i] + value;
      if newValue > 255 {
        newValue := 255;
      } else if newValue < 0 {
        newValue := 0;
      }
      data[i] := newValue;
    }
  }

  /** bmp8_threshold: a byte at or above the threshold becomes 255, any other 0. */
  method Threshold(img: Image?, threshold: int)
    requires img != null ==> img.Valid()
    modifies PixelBuffer(img)
    ensures img != null && img.data != null ==> img.data[..] == Thresholded(old(img.data[..]), threshold)
  {
    if img == null || img.data == null {
      return;
    }
    var data := img.data;
    ghost var s := data[..];
    for i := 0 to img.dataSize
      invariant forall k :: 0 <= k < i ==> data[k] == Thresholded(s, threshold)[k]
      invariant forall k :: i <= k < data.Length ==> data[k] == s[k]
    {
      data[i] := if data[i] >= threshold then 255 else 0;
    }
  }
}
