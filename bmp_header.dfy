/**
 * The header check of verifyBmpHeader: the first 54 bytes of a BMP file
 * (the 14-byte BITMAPFILEHEADER followed by the 40-byte BITMAPINFOHEADER) are
 * decoded at fixed offsets as little-endian two's-complement integers, and a
 * warning is raised for each of three conditions a 1-bit, two-colour BMP
 * must meet.
 */
module BmpHeader {

  /** Bytes read from the start of the file: BITMAPFILEHEADER + BITMAPINFOHEADER. */
  const HeaderSize: nat := 54

  /** One byte of the file, as an unsigned value. */
  type Byte = x: int | 0 <= x < 0x100

  const TwoTo16: int := 0x1_0000
  const TwoTo31: int := 0x8000_0000
  const TwoTo32: int := 0x1_0000_0000

  /** The range of a Java `short`. */
  predicate InInt16(v: int) { -TwoTo16 / 2 <= v < TwoTo16 / 2 }

  /** The range of a Java `int`. */
  predicate InInt32(v: int) { -TwoTo31 <= v < TwoTo31 }

  /** Value of two bytes read least significant first, as an unsigned number. */
  function LeUnsigned16(b: seq<Byte>): (u: nat)
    requires |b| == 2
    ensures u < TwoTo16
  {
    b[0] as int + 0x100 * (b[1] as int)
  }

  /** Value of four bytes read least significant first, as an unsigned number. */
  function LeUnsigned32(b: seq<Byte>): (u: nat)
    requires |b| == 4
    ensures u < TwoTo32
  {
    b[0] as int + 0x100 * (b[1] as int + 0x100 * (b[2] as int + 0x100 * (b[3] as int)))
  }

  /**
   * A Java `short` read little-endian from two bytes: the two's-complement
   * value, the one 16-bit value congruent to the unsigned reading modulo 2^16.
   */
  function LeInt16(b: seq<Byte>): (v: int)
    requires |b| == 2
    ensures InInt16(v) && (v - LeUnsigned16(b)) % TwoTo16 == 0
    ensures v < 0 <==> b[1] >= 0x80
  {
    var u := LeUnsigned16(b);
    if u < TwoTo16 / 2 then u else u - TwoTo16
  }

  /**
   * A Java `int` read little-endian from four bytes: the two's-complement
   * value, the one 32-bit value congruent to the unsigned reading modulo 2^32.
   */
  function LeInt32(b: seq<Byte>): (v: int)
    requires |b| == 4
    ensures InInt32(v) && (v - LeUnsigned32(b)) % TwoTo32 == 0
    ensures v < 0 <==> b[3] >= 0x80
  {
    var u := LeUnsigned32(b);
    if u < TwoTo31 then u else u - TwoTo32
  }

  /** Splitting a number into its low byte and the rest. */
  lemma SplitByte(u: int, low: int, rest: int)
    requires 0 <= low < 0x100 && u == low + 0x100 * rest
    ensures u % 0x100 == low && u / 0x100 == rest
  {
  }

  /** The two little-endian two's-complement bytes of a Java `short`. */
  function EncodeInt16(v: int): (b: seq<Byte>)
    requires InInt16(v)
    ensures |b| == 2
  {
    var u := if v < 0 then v + TwoTo16 else v;
    [u % 0x100, u / 0x100]
  }

  /** The four little-endian two's-complement bytes of a Java `int`. */
  function EncodeInt32(v: int): (b: seq<Byte>)
    requires InInt32(v)
    ensures |b| == 4
  {
    var u := if v < 0 then v + TwoTo32 else v;
    var q1 := u / 0x100;
    var q2 := q1 / 0x100;
    var q3 := q2 / 0x100;
    [u % 0x100, q1 % 0x100, q2 % 0x100, q3]
  }

  /** Reading two bytes as a `short` gives a value in range whose encoding is exactly those bytes. */
  lemma Int16BytesRoundTrip(b: seq<Byte>)
    requires |b| == 2
    ensures InInt16(LeInt16(b)) && EncodeInt16(LeInt16(b)) == b
  {
    var u := LeUnsigned16(b);
    var v := LeInt16(b);
    assert (if v < 0 then v + TwoTo16 else v) == u;
    SplitByte(u, b[0], b[1]);
  }

  /** Encoding a `short` and reading it back gives the same value. */
  lemma Int16ValueRoundTrip(v: int)
    requires InInt16(v)
    ensures LeInt16(EncodeInt16(v)) == v
  {
    var u := if v < 0 then v + TwoTo16 else v;
    SplitByte(u, u % 0x100, u / 0x100);
    assert LeUnsigned16(EncodeInt16(v)) == u;
  }

  /** Reading four bytes as an `int` gives a value in range whose encoding is exactly those bytes. */
  lemma Int32BytesRoundTrip(b: seq<Byte>)
    requires |b| == 4
    ensures InInt32(LeInt32(b)) && EncodeInt32(LeInt32(b)) == b
  {
    var u := LeUnsigned32(b);
    var v := LeInt32(b);
    assert (if v < 0 then v + TwoTo32 else v) == u;
    var r2 := b[2] as int + 0x100 * (b[3] as int);
    var r1 := b[1] as int + 0x100 * r2;
    SplitByte(u, b[0], r1);
    SplitByte(r1, b[1], r2);
    SplitByte(r2, b[2], b[3]);
  }

  /** Encoding an `int` and reading it back gives the same value. */
  lemma Int32ValueRoundTrip(v: int)
    requires InInt32(v)
    ensures LeInt32(EncodeInt32(v)) == v
  {
    var u := if v < 0 then v + TwoTo32 else v;
    var q1 := u / 0x100;
    var q2 := q1 / 0x100;
    var q3 := q2 / 0x100;
    SplitByte(u, u % 0x100, q1);
    SplitByte(q1, q1 % 0x100, q2);
    SplitByte(q2, q2 % 0x100, q3);
    assert LeUnsigned32(EncodeInt32(v)) == u;
  }

  /** The fields verifyBmpHeader reads from the header, as Java values. */
  datatype HeaderFields = HeaderFields(
    signature: seq<Byte>,   // bytes 0..2
    fileSize: int,         // bytes 2..6
    pixelDataOffset: int,  // bytes 10..14
    infoHeaderSize: int,   // bytes 14..18
    width: int,            // bytes 18..22
    height: int,           // bytes 22..26
    bitsPerPixel: int,     // bytes 28..30, a `short`
    colorsUsed: int)       // bytes 46..50

  /**
   * Decodes the header fields. Each field is the Java integer whose
   * little-endian two's-complement encoding is exactly its byte range.
   */
  function DecodeHeader(header: seq<Byte>): (f: HeaderFields)
    requires |header| == HeaderSize
    ensures f.signature == header[0..2]
    ensures InInt32(f.fileSize) && EncodeInt32(f.fileSize) == header[2..6]
    ensures InInt32(f.pixelDataOffset) && EncodeInt32(f.pixelDataOffset) == header[10..14]
    ensures InInt32(f.infoHeaderSize) && EncodeInt32(f.infoHeaderSize) == header[14..18]
    ensures InInt32(f.width) && EncodeInt32(f.width) == header[18..22]
    ensures InInt32(f.height) && EncodeInt32(f.height) == header[22..26]
    ensures InInt16(f.bitsPerPixel) && EncodeInt16(f.bitsPerPixel) == header[28..30]
    ensures InInt32(f.colorsUsed) && EncodeInt32(f.colorsUsed) == header[46..50]
  {
    Int32BytesRoundTrip(header[2..6]);
    Int32BytesRoundTrip(header[10..14]);
    Int32BytesRoundTrip(header[14..18]);
    Int32BytesRoundTrip(header[18..22]);
    Int32BytesRoundTrip(header[22..26]);
    Int16BytesRoundTrip(header[28..30]);
    Int32BytesRoundTrip(header[46..50]);
    HeaderFields(
      header[0..2],
      LeInt32(header[2..6]),
      LeInt32(header[10..14]),
      LeInt32(header[14..18]),
      LeInt32(header[18..22]),
      LeInt32(header[22..26]),
      LeInt16(header[28..30]),
      LeInt32(header[46..50]))
  }

  /** Two headers decode to the same field exactly when they agree on that field's bytes. */
  lemma FieldsDependOnlyOnTheirBytes(h1: seq<Byte>, h2: seq<Byte>)
    requires |h1| == HeaderSize && |h2| == HeaderSize
    ensures (DecodeHeader(h1).signature == DecodeHeader(h2).signature) <==> h1[0..2] == h2[0..2]
    ensures (DecodeHeader(h1).fileSize == DecodeHeader(h2).fileSize) <==> h1[2..6] == h2[2..6]
    ensures (DecodeHeader(h1).pixelDataOffset == DecodeHeader(h2).pixelDataOffset) <==> h1[10..14] == h2[10..14]
    ensures (DecodeHeader(h1).infoHeaderSize == DecodeHeader(h2).infoHeaderSize) <==> h1[14..18] == h2[14..18]
    ensures (DecodeHeader(h1).width == DecodeHeader(h2).width) <==> h1[18..22] == h2[18..22]
    ensures (DecodeHeader(h1).height == DecodeHeader(h2).height) <==> h1[22..26] == h2[22..26]
    ensures (DecodeHeader(h1).bitsPerPixel == DecodeHeader(h2).bitsPerPixel) <==> h1[28..30] == h2[28..30]
    ensures (DecodeHeader(h1).colorsUsed == DecodeHeader(h2).colorsUsed) <==> h1[46..50] == h2[46..50]
  {
  }

  /** One warning of verifyBmpHeader, carrying the value it reports. */
  datatype Warning =
    | SignatureNotBM(foundSignature: seq<Byte>)
    | NotOneBitPerPixel(found: int)
    | NotTwoColours(found: int)

  /**
   * `new String(bytes)` equals "BM" exactly when the two bytes are the codes of
   * 'B' and 'M', under an ASCII-compatible default charset; read as a
   * little-endian word these are the BMP magic number 0x4D42.
   */
  function IsBmSignature(signature: seq<Byte>): (r: bool)
    ensures r <==> |signature| == 2 && signature[0] == 'B' as int && signature[1] == 'M' as int
    ensures r <==> |signature| == 2 && LeUnsigned16(signature) == 0x4D42
  {
    if |signature| == 2 then
      SplitByte(LeUnsigned16(signature), signature[0], signature[1]);
      signature == [0x42, 0x4D]
    else
      false
  }

  /** The warnings raised for decoded fields, in the order verifyBmpHeader checks them. */
  function Warnings(f: HeaderFields): (ws: seq<Warning>)
    ensures SignatureNotBM(f.signature) in ws <==> !IsBmSignature(f.signature)
    ensures NotOneBitPerPixel(f.bitsPerPixel) in ws <==> f.bitsPerPixel != 1
    ensures NotTwoColours(f.colorsUsed) in ws <==> f.colorsUsed != 2
    ensures forall w :: w in ws ==>
      w == SignatureNotBM(f.signature) || w == NotOneBitPerPixel(f.bitsPerPixel) || w == NotTwoColours(f.colorsUsed)
    ensures ws == [] <==> IsBmSignature(f.signature) && f.bitsPerPixel == 1 && f.colorsUsed == 2
  {
    (if !IsBmSignature(f.signature) then [SignatureNotBM(f.signature)] else [])
    + (if f.bitsPerPixel != 1 then [NotOneBitPerPixel(f.bitsPerPixel)] else [])
    + (if f.colorsUsed != 2 then [NotTwoColours(f.colorsUsed)] else [])
  }

  predicate WarnsSignature(ws: seq<Warning>) { exists w :: w in ws && w.SignatureNotBM? }

  predicate WarnsBitsPerPixel(ws: seq<Warning>) { exists w :: w in ws && w.NotOneBitPerPixel? }

  predicate WarnsColours(ws: seq<Warning>) { exists w :: w in ws && w.NotTwoColours? }

  /**
   * The whole check on the raw header bytes: a warning of each kind is raised
   * exactly when its bytes differ from those of a 1-bit, two-colour BMP.
   */
  function VerifyHeader(header: seq<Byte>): (ws: seq<Warning>)
    requires |header| == HeaderSize
    ensures WarnsSignature(ws) <==> header[0..2] != [0x42, 0x4D]
    ensures WarnsBitsPerPixel(ws) <==> header[28..30] != [0x01, 0x00]
    ensures WarnsColours(ws) <==> header[46..50] != [0x02, 0x00, 0x00, 0x00]
    ensures |ws| <= 3
    ensures ws == [] <==>
      header[0..2] == [0x42, 0x4D] && header[28..30] == [0x01, 0x00] && header[46..50] == [0x02, 0x00, 0x00, 0x00]
  {
    var f := DecodeHeader(header);
    assert EncodeInt16(1) == [0x01, 0x00];
    assert EncodeInt32(2) == [0x02, 0x00, 0x00, 0x00];
    Int16ValueRoundTrip(1);
    Int32ValueRoundTrip(2);
    Warnings(f)
  }

  /** A header left all zero by a read that returned no bytes draws all three warnings. */
  lemma ZeroHeaderWarnsThrice()
    ensures VerifyHeader(seq(HeaderSize, _ => 0)) == [SignatureNotBM([0, 0]), NotOneBitPerPixel(0), NotTwoColours(0)]
  {
    var h: seq<Byte> := seq(HeaderSize, _ => 0);
    var f := DecodeHeader(h);
    assert h[0..2] == [0, 0] && h[28..30] == [0, 0] && h[46..50] == [0, 0, 0, 0];
    assert f.signature == [0, 0] && f.bitsPerPixel == 0 && f.colorsUsed == 0;
  }

  /**
   * A read that fills only the first n bytes leaves the rest of the header
   * zero: fewer than 2 bytes draw the signature warning, at most 28 the
   * bits-per-pixel warning (value 0) and at most 46 the colours warning
   * (value 0).
   */
  lemma ShortReadWarnings(header: seq<Byte>, n: nat)
    requires |header| == HeaderSize && n <= HeaderSize
    requires forall i :: n <= i < HeaderSize ==> header[i] == 0
    ensures n < 2 ==> WarnsSignature(VerifyHeader(header))
    ensures n <= 28 ==> NotOneBitPerPixel(0) in VerifyHeader(header)
    ensures n <= 46 ==> NotTwoColours(0) in VerifyHeader(header)
  {
    var f := DecodeHeader(header);
    if n < 2 {
      assert header[1] == 0;
    }
    if n <= 28 {
      assert header[28..30] == [0, 0];
      assert f.bitsPerPixel == 0;
    }
    if n <= 46 {
      assert header[46..50] == [0, 0, 0, 0];
      assert f.colorsUsed == 0;
    }
  }
}
