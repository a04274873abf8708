/**
 * Row layout and MSB-first bit packing of the monochrome pixel buffer that
 * saveAsOneBitBmp fills before handing it to the imaging library.
 *
 * The buffer holds `height` rows of `PaddedBytesPerRow(width)` bytes each,
 * laid out top-down (row y starts at byte y * stride). Pixel x of a row sits in
 * byte x / 8 of that row, at bit 7 - x % 8, so the leftmost pixel of each byte
 * is its most significant bit. A set bit means white, a clear bit black.
 */
module RowPacking {

  /** Bytes one row of `width` 1-bit pixels needs before padding. */
  function BytesPerRow(width: nat): nat
  {
    (width + 7) / 8
  }

  /**
   * BytesPerRow rounded up to the BMP row alignment: the least multiple of 4
   * that holds BytesPerRow bytes.
   */
  function PaddedBytesPerRow(width: nat): (stride: nat)
    ensures stride % 4 == 0
    ensures BytesPerRow(width) <= stride < BytesPerRow(width) + 4
  {
    var b := BytesPerRow(width);
    if b % 4 == 0 then b else (b / 4 + 1) * 4
  }

  /** No padding is added to an aligned row, and a padded row has room for all `width` pixels. */
  lemma PaddedStrideBounds(width: nat)
    ensures BytesPerRow(width) % 4 == 0 ==> PaddedBytesPerRow(width) == BytesPerRow(width)
    ensures width <= 8 * PaddedBytesPerRow(width)
  {
  }

  /**
   * An independent definition of the same stride: one 4-byte word per started
   * group of 32 pixels.
   */
  lemma PaddedStrideIsWholeWords(width: nat)
    ensures PaddedBytesPerRow(width) == (width + 31) / 32 * 4
  {
    var q := width / 32;
    var r := width % 32;
    assert width == 32 * q + r;
    assert BytesPerRow(width) == 4 * q + (r + 7) / 8;
    if r == 0 {
      assert (width + 31) / 32 == q;
    } else {
      assert (width + 31) / 32 == q + 1;
      assert 1 <= (r + 7) / 8 <= 4;
      assert BytesPerRow(width) / 4 == q + (r + 7) / 8 / 4;
    }
  }

  /** The byte whose only set bit is bit k (0 is the least significant), that is `1 << k`. */
  function Mask(k: nat): (m: bv8)
    requires k < 8
    ensures m == 1 << k
  {
    match k
    case 0 => 0x01 case 1 => 0x02 case 2 => 0x04 case 3 => 0x08
    case 4 => 0x10 case 5 => 0x20 case 6 => 0x40 case 7 => 0x80
  }

  /** Bit k of the byte b. */
  predicate BitIsSet(b: bv8, k: nat)
    requires k < 8
  {
    b & Mask(k) != 0
  }

  /** Two different bit positions have disjoint masks. */
  lemma MasksDisjoint(j: nat, k: nat)
    requires j < 8 && k < 8 && j != k
    ensures Mask(j) & Mask(k) == 0
  {
  }

  /** OR with mask k sets bit k, AND with its complement clears it; bit j != k is kept either way. */
  lemma SetOrClearBit(b: bv8, k: nat, j: nat)
    requires k < 8 && j < 8
    ensures BitIsSet(b | Mask(k), j) == (j == k || BitIsSet(b, j))
    ensures BitIsSet(b & !Mask(k), j) == (j != k && BitIsSet(b, j))
  {
    var mj, mk := Mask(j), Mask(k);
    if j != k {
      MasksDisjoint(j, k);
      assert mj & mk == 0;
      assert (b | mk) & mj == b & mj;
      assert (b & !mk) & mj == b & mj;
    } else {
      assert mk != 0;
      assert (b | mk) & mk == mk;
      assert (b & !mk) & mk == 0;
    }
  }

  /**
   * The value of one set/clear step, `b | (1 << k)` for a white pixel and
   * `b & ~(1 << k)` for a black one: bit k becomes the pixel's colour and the
   * other seven bits of the byte stay as they were.
   */
  function WithBit(b: bv8, k: nat, white: bool): (r: bv8)
    requires k < 8
    ensures forall j :: 0 <= j < 8 ==> BitIsSet(r, j) == if j == k then white else BitIsSet(b, j)
  {
    assert forall j :: 0 <= j < 8 ==>
      BitIsSet(b | Mask(k), j) == (j == k || BitIsSet(b, j)) &&
      BitIsSet(b & !Mask(k), j) == (j != k && BitIsSet(b, j))
    by {
      forall j | 0 <= j < 8
        ensures BitIsSet(b | Mask(k), j) == (j == k || BitIsSet(b, j))
        ensures BitIsSet(b & !Mask(k), j) == (j != k && BitIsSet(b, j))
      {
        SetOrClearBit(b, k, j);
      }
    }
    if white then b | Mask(k) else b & !Mask(k)
  }

  /** A byte is determined by its eight bits. */
  lemma ByteFromBits(a: bv8, b: bv8)
    requires forall k :: 0 <= k < 8 ==> BitIsSet(a, k) == BitIsSet(b, k)
    ensures a == b
  {
    assert BitIsSet(a, 0) == BitIsSet(b, 0);
    assert BitIsSet(a, 1) == BitIsSet(b, 1);
    assert BitIsSet(a, 2) == BitIsSet(b, 2);
    assert BitIsSet(a, 3) == BitIsSet(b, 3);
    assert BitIsSet(a, 4) == BitIsSet(b, 4);
    assert BitIsSet(a, 5) == BitIsSet(b, 5);
    assert BitIsSet(a, 6) == BitIsSet(b, 6);
    assert BitIsSet(a, 7) == BitIsSet(b, 7);
  }

  /**
   * Index of the byte that holds pixel (x, y) in a buffer of the given stride:
   * for a pixel inside the padded row, a byte of row y.
   */
  function ByteIndex(stride: nat, x: nat, y: nat): (i: nat)
    ensures x < 8 * stride ==> y * stride <= i < (y + 1) * stride
  {
    assert (y + 1) * stride == y * stride + stride;
    y * stride + x / 8
  }

  /** Position of pixel x inside its byte, counted from the least significant bit. */
  function BitIndex(x: nat): (k: nat)
    ensures k < 8
    ensures k == 7 <==> x % 8 == 0
  {
    7 - x % 8
  }

  /** True when the bit of pixel (x, y) exists in s and is set. */
  predicate PixelBit(s: seq<bv8>, stride: nat, x: nat, y: nat)
  {
    ByteIndex(stride, x, y) < |s| && BitIsSet(s[ByteIndex(stride, x, y)], BitIndex(x))
  }

  /** `white` is a grid of `height` rows of `width` white/black decisions. */
  predicate IsGrid(white: seq<seq<bool>>, width: nat, height: nat)
  {
    |white| == height && forall y :: 0 <= y < height ==> |white[y]| == width
  }

  /**
   * s is the packed image of the grid: it has exactly stride * height bytes,
   * every pixel's bit says whether the pixel is white, and every bit position
   * past `width` in a row (up to the end of its padded stride) is clear.
   */
  ghost predicate PacksGrid(s: seq<bv8>, white: seq<seq<bool>>, width: nat, height: nat)
    requires IsGrid(white, width, height)
  {
    var stride := PaddedBytesPerRow(width);
    && |s| == stride * height
    && forall y, x :: 0 <= y < height && 0 <= x < 8 * stride ==>
         PixelBit(s, stride, x, y) == (x < width && white[y][x])
  }

  /** A bit slot of row y lies inside a buffer of stride * height bytes. */
  lemma SlotInBounds(stride: nat, height: nat, x: nat, y: nat)
    requires x < 8 * stride && y < height
    ensures ByteIndex(stride, x, y) < stride * height
  {
    assert x / 8 < stride;
    calc {
      ByteIndex(stride, x, y);
    <
      y * stride + stride;
    ==
      (y + 1) * stride;
    <=  { MulMonotone(y + 1, height, stride); }
      height * stride;
    }
  }

  lemma MulMonotone(a: nat, b: nat, c: nat)
    requires a <= b
    ensures a * c <= b * c
  {
  }

  /** Distinct pixels of the padded rows own distinct bits. */
  lemma SlotInjective(stride: nat, x1: nat, y1: nat, x2: nat, y2: nat)
    requires x1 < 8 * stride && x2 < 8 * stride
    requires ByteIndex(stride, x1, y1) == ByteIndex(stride, x2, y2)
    requires BitIndex(x1) == BitIndex(x2)
    ensures x1 == x2 && y1 == y2
  {
    SameRow(stride, x1, y1, x2, y2);
    SameRow(stride, x2, y2, x1, y1);
    assert x1 == 8 * (x1 / 8) + x1 % 8;
    assert x2 == 8 * (x2 / 8) + x2 % 8;
  }

  lemma SameRow(stride: nat, x1: nat, y1: nat, x2: nat, y2: nat)
    requires x1 < 8 * stride && x2 < 8 * stride
    requires ByteIndex(stride, x1, y1) == ByteIndex(stride, x2, y2)
    ensures y1 <= y2
  {
    if y2 < y1 {
      MulMonotone(y2 + 1, y1, stride);
    }
  }

  /** Every bit of a buffer of stride * height bytes belongs to some pixel slot. */
  lemma SlotOfBit(stride: nat, height: nat, i: nat, k: nat) returns (x: nat, y: nat)
    requires i < stride * height && k < 8
    ensures x < 8 * stride && y < height
    ensures ByteIndex(stride, x, y) == i && BitIndex(x) == k
  {
    y := i / stride;
    x := (i % stride) * 8 + (7 - k);
    assert x / 8 == i % stride && x % 8 == 7 - k;
    if height <= y {
      MulMonotone(height, y, stride);
    }
  }

  /** Each set/clear step changes only the bit of its own pixel. */
  lemma SetPixelEffect(s: seq<bv8>, stride: nat, height: nat, x: nat, y: nat, white: bool, x': nat, y': nat)
    requires |s| == stride * height
    requires x < 8 * stride && y < height && x' < 8 * stride && y' < height
    ensures ByteIndex(stride, x, y) < |s|
    ensures var i := ByteIndex(stride, x, y);
      PixelBit(s[i := WithBit(s[i], BitIndex(x), white)], stride, x', y')
        == if x' == x && y' == y then white else PixelBit(s, stride, x', y')
  {
    SlotInBounds(stride, height, x, y);
    SlotInBounds(stride, height, x', y');
    var i := ByteIndex(stride, x, y);
    if ByteIndex(stride, x', y') == i {
      if BitIndex(x) == BitIndex(x') {
        SlotInjective(stride, x, y, x', y');
      }
    }
  }

  /** Reading back the buffer: pixel (x, y) is white exactly when bit 7 - x % 8 of byte y * stride + x / 8 is set. */
  lemma PackedPixelIs(s: seq<bv8>, white: seq<seq<bool>>, width: nat, height: nat, x: nat, y: nat)
    requires IsGrid(white, width, height) && PacksGrid(s, white, width, height)
    requires x < width && y < height
    ensures var stride := PaddedBytesPerRow(width);
      && y * stride + x / 8 < stride * height
      && 0 <= 7 - x % 8 <= 7
      && BitIsSet(s[y * stride + x / 8], 7 - x % 8) == white[y][x]
  {
    var stride := PaddedBytesPerRow(width);
    PaddedStrideBounds(width);
    SlotInBounds(stride, height, x, y);
    assert PixelBit(s, stride, x, y) == white[y][x];
  }

  /** The loop's index arithmetic stays inside the buffer for every pixel of the image. */
  lemma PixelIndexInBounds(width: nat, height: nat, x: nat, y: nat)
    requires x < width && y < height
    ensures 0 <= y * PaddedBytesPerRow(width) + x / 8 < PaddedBytesPerRow(width) * height
    ensures 0 <= 7 - x % 8 <= 7
  {
    PaddedStrideBounds(width);
    SlotInBounds(PaddedBytesPerRow(width), height, x, y);
  }

  /** The padding bytes of every row, past BytesPerRow(width), are zero. */
  lemma PaddingBytesZero(s: seq<bv8>, white: seq<seq<bool>>, width: nat, height: nat, y: nat, j: nat)
    requires IsGrid(white, width, height) && PacksGrid(s, white, width, height)
    requires y < height && BytesPerRow(width) <= j < PaddedBytesPerRow(width)
    ensures y * PaddedBytesPerRow(width) + j < |s|
    ensures s[y * PaddedBytesPerRow(width) + j] == 0
  {
    var stride := PaddedBytesPerRow(width);
    var i := y * stride + j;
    SlotInBounds(stride, height, 8 * j, y);
    assert ByteIndex(stride, 8 * j, y) == i;
    forall k | 0 <= k < 8
      ensures BitIsSet(s[i], k) == BitIsSet(0, k)
    {
      var x := 8 * j + (7 - k);
      assert x / 8 == j && BitIndex(x) == k;
      assert width <= 8 * BytesPerRow(width) <= x;
      assert !PixelBit(s, stride, x, y);
    }
    ByteFromBits(s[i], 0);
  }

  /** The packed buffer is uniquely determined by the grid. */
  lemma PackingUnique(s1: seq<bv8>, s2: seq<bv8>, white: seq<seq<bool>>, width: nat, height: nat)
    requires IsGrid(white, width, height)
    requires PacksGrid(s1, white, width, height) && PacksGrid(s2, white, width, height)
    ensures s1 == s2
  {
    var stride := PaddedBytesPerRow(width);
    forall i | 0 <= i < |s1|
      ensures s1[i] == s2[i]
    {
      forall k | 0 <= k < 8
        ensures BitIsSet(s1[i], k) == BitIsSet(s2[i], k)
      {
        var x, y := SlotOfBit(stride, height, i, k);
        assert PixelBit(s1, stride, x, y) == PixelBit(s2, stride, x, y);
      }
      ByteFromBits(s1[i], s2[i]);
    }
  }

  /** One set/clear step on the buffer, in place. */
  method SetPixel(pixelData: array<bv8>, byteIndex: nat, bitIndex: nat, isWhite: bool)
    requires byteIndex < pixelData.Length && bitIndex < 8
    modifies pixelData
    ensures pixelData[..] == old(pixelData[..])[byteIndex := WithBit(old(pixelData[byteIndex]), bitIndex, isWhite)]
  {
    if isWhite {
      pixelData[byteIndex] := pixelData[byteIndex] | (1 << bitIndex);
    } else {
      pixelData[byteIndex] := pixelData[byteIndex] & !(1 << bitIndex);
    }
  }

  /**
   * Allocates a zeroed buffer of PaddedBytesPerRow(width) * height bytes and
   * packs the grid into it row by row, left to right.
   */
  method PackPixels(white: seq<seq<bool>>, width: nat, height: nat) returns (pixelData: array<bv8>)
    requires IsGrid(white, width, height)
    ensures PacksGrid(pixelData[..], white, width, height)
  {
    var bytesPerRow := (width + 7) / 8;
    var paddedBytesPerRow := if bytesPerRow % 4 == 0 then bytesPerRow else (bytesPerRow / 4 + 1) * 4;
    assert paddedBytesPerRow == PaddedBytesPerRow(width);
    PaddedStrideBounds(width);
    pixelData := new bv8[paddedBytesPerRow * height](_ => 0);
    var y := 0;
    while y < height
      invariant 0 <= y <= height
      invariant pixelData.Length == paddedBytesPerRow * height
      invariant forall y', x' :: 0 <= y' < height && 0 <= x' < 8 * paddedBytesPerRow ==>
        PixelBit(pixelData[..], paddedBytesPerRow, x', y') == (x' < width && y' < y && white[y'][x'])
    {
      var x := 0;
      while x < width
        invariant 0 <= x <= width
        invariant forall y', x' :: 0 <= y' < height && 0 <= x' < 8 * paddedBytesPerRow ==>
          PixelBit(pixelData[..], paddedBytesPerRow, x', y')
            == (x' < width && (y' < y || (y' == y && x' < x)) && white[y'][x'])
      {
        var isWhite := white[y][x];
        var byteIndex := y * paddedBytesPerRow + x / 8;
        var bitIndex := 7 - x % 8;
        ghost var before := pixelData[..];
        SlotInBounds(paddedBytesPerRow, height, x, y);
        SetPixel(pixelData, byteIndex, bitIndex, isWhite);
        forall y', x' | 0 <= y' < height && 0 <= x' < 8 * paddedBytesPerRow
          ensures PixelBit(pixelData[..], paddedBytesPerRow, x', y')
            == (x' < width && (y' < y || (y' == y && x' < x + 1)) && white[y'][x'])
        {
          SetPixelEffect(before, paddedBytesPerRow, height, x, y, isWhite, x', y');
        }
        x := x + 1;
      }
      y := y + 1;
    }
  }
}
