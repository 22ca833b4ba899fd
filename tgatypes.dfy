/**
 * The value types of tgaimage.h: the 18-byte file header, the pixel colour
 * and the pixel formats. The header is serialised field by field in
 * little-endian order instead of through a packed struct.
 */
module TgaTypes {
  import opened Wrappers
  import opened Bytes
  import Arith

  /** A `std::int8_t` header field. */
  type Int8 = x: int | -128 <= x < 128

  /** A `short` header field. */
  type Int16 = x: int | -32768 <= x < 32768

  /** The two's-complement byte of a signed 8-bit value. */
  function ByteOf(v: Int8): byte
  {
    (if v < 0 then v + 256 else v) as byte
  }

  /** The signed 8-bit value a byte stands for. */
  function SignedOf(b: byte): Int8
  {
    if b < 128 then b as int else b as int - 256
  }

  lemma SignedOfByteOf(v: Int8)
    ensures SignedOf(ByteOf(v)) == v
  {
  }

  lemma ByteOfSignedOf(b: byte)
    ensures ByteOf(SignedOf(b)) == b
  {
  }

  /** The unsigned 16-bit pattern of a `short`. */
  function Unsigned16(v: Int16): (u: nat)
    ensures u < 65536
  {
    if v < 0 then v as int + 65536 else v as int
  }

  /** The low (first stored) byte of a little-endian `short`. */
  function LoByte(v: Int16): byte
  {
    (Unsigned16(v) % 256) as byte
  }

  /** The high (second stored) byte of a little-endian `short`. */
  function HiByte(v: Int16): byte
  {
    (Unsigned16(v) / 256) as byte
  }

  /** The `short` whose little-endian bytes are lo, hi. */
  function ShortOf(lo: byte, hi: byte): Int16
  {
    var u := lo as int + 256 * hi as int;
    if u < 32768 then u else u - 65536
  }

  lemma ShortOfBytes(v: Int16)
    ensures ShortOf(LoByte(v), HiByte(v)) == v
  {
    var u := Unsigned16(v);
    var lo, hi := u % 256, u / 256;
    assert u == lo + 256 * hi;
  }

  lemma BytesOfShort(lo: byte, hi: byte)
    ensures LoByte(ShortOf(lo, hi)) == lo && HiByte(ShortOf(lo, hi)) == hi
  {
    LoOfShort(lo, hi);
    HiOfShort(lo, hi);
  }

  lemma UnsignedShortOf(lo: byte, hi: byte)
    ensures Unsigned16(ShortOf(lo, hi)) == lo as int + 256 * hi as int
  {
  }

  lemma LoOfShort(lo: byte, hi: byte)
    ensures LoByte(ShortOf(lo, hi)) == lo
  {
    var u := Unsigned16(ShortOf(lo, hi));
    UnsignedShortOf(lo, hi);
    Arith.DivModUnique(u, 256, hi as int, lo as int);
  }

  lemma HiOfShort(lo: byte, hi: byte)
    ensures HiByte(ShortOf(lo, hi)) == hi
  {
    var u := Unsigned16(ShortOf(lo, hi));
    UnsignedShortOf(lo, hi);
    Arith.DivModUnique(u, 256, hi as int, lo as int);
  }

  /** TGA_Header: the fields of the packed 18-byte structure, in file order. */
  datatype Header = Header(
    idLength: Int8,
    colorMapType: Int8,
    dataTypeCode: Int8,
    colorMapOrigin: Int16,
    colorMapLength: Int16,
    colorMapDepth: Int8,
    xOrigin: Int16,
    yOrigin: Int16,
    width: Int16,
    height: Int16,
    bitsPerPixel: Int8,
    imageDescriptor: Int8)

  const HeaderSize: nat := 18

  /**
   * The header's bytes: one byte per std::int8_t, two little-endian bytes
   * per short, no padding; data type code at offset 2, width at 12, height
   * at 14, bits per pixel at 16, image descriptor at 17.
   */
  function EncodeHeader(h: Header): (r: seq<byte>)
    ensures |r| == HeaderSize
  {
    [ByteOf(h.idLength), ByteOf(h.colorMapType), ByteOf(h.dataTypeCode),
     LoByte(h.colorMapOrigin), HiByte(h.colorMapOrigin),
     LoByte(h.colorMapLength), HiByte(h.colorMapLength),
     ByteOf(h.colorMapDepth),
     LoByte(h.xOrigin), HiByte(h.xOrigin),
     LoByte(h.yOrigin), HiByte(h.yOrigin),
     LoByte(h.width), HiByte(h.width),
     LoByte(h.height), HiByte(h.height),
     ByteOf(h.bitsPerPixel), ByteOf(h.imageDescriptor)]
  }

  /** The header read from its 18 bytes. */
  function ParseHeader(b: seq<byte>): Header
    requires |b| == HeaderSize
  {
    Header(
      SignedOf(b[0]), SignedOf(b[1]), SignedOf(b[2]),
      ShortOf(b[3], b[4]), ShortOf(b[5], b[6]),
      SignedOf(b[7]),
      ShortOf(b[8], b[9]), ShortOf(b[10], b[11]),
      ShortOf(b[12], b[13]), ShortOf(b[14], b[15]),
      SignedOf(b[16]), SignedOf(b[17]))
  }

  /** Reading back a written header gives every field back. */
  lemma ParseEncodeHeader(h: Header)
    ensures ParseHeader(EncodeHeader(h)) == h
  {
    SignedOfByteOf(h.idLength);
    SignedOfByteOf(h.colorMapType);
    SignedOfByteOf(h.dataTypeCode);
    SignedOfByteOf(h.colorMapDepth);
    SignedOfByteOf(h.bitsPerPixel);
    SignedOfByteOf(h.imageDescriptor);
    ShortOfBytes(h.colorMapOrigin);
    ShortOfBytes(h.colorMapLength);
    ShortOfBytes(h.xOrigin);
    ShortOfBytes(h.yOrigin);
    ShortOfBytes(h.width);
    ShortOfBytes(h.height);
  }

  /** Every 18-byte sequence is the encoding of the header read from it. */
  lemma EncodeParseHeader(b: seq<byte>)
    requires |b| == HeaderSize
    ensures EncodeHeader(ParseHeader(b)) == b
  {
    var e := EncodeHeader(ParseHeader(b));
    assert e[0] == b[0] by { ByteOfSignedOf(b[0]); }
    assert e[1] == b[1] by { ByteOfSignedOf(b[1]); }
    assert e[2] == b[2] by { ByteOfSignedOf(b[2]); }
    assert e[3] == b[3] && e[4] == b[4] by { BytesOfShort(b[3], b[4]); }
    assert e[5] == b[5] && e[6] == b[6] by { BytesOfShort(b[5], b[6]); }
    assert e[7] == b[7] by { ByteOfSignedOf(b[7]); }
    assert e[8] == b[8] && e[9] == b[9] by { BytesOfShort(b[8], b[9]); }
    assert e[10] == b[10] && e[11] == b[11] by { BytesOfShort(b[10], b[11]); }
    assert e[12] == b[12] && e[13] == b[13] by { BytesOfShort(b[12], b[13]); }
    assert e[14] == b[14] && e[15] == b[15] by { BytesOfShort(b[14], b[15]); }
    assert e[16] == b[16] by { ByteOfSignedOf(b[16]); }
    assert e[17] == b[17] by { ByteOfSignedOf(b[17]); }
  }

  // ---------------------------------------------------------------------

  /** TGAImage::Format: the supported bytes per pixel. */
  datatype Format = Grayscale | Rgb | Rgba
  {
    function BytesPerPixel(): int
    {
      match this
      case Grayscale => 1
      case Rgb => 3
      case Rgba => 4
    }
  }

  /** The format with the given number of bytes per pixel, if there is one. */
  function FormatOf(bpp: int): (r: Option<Format>)
    ensures r.Some? <==> bpp in {1, 3, 4}
    ensures r.Some? ==> r.value.BytesPerPixel() == bpp
  {
    if bpp == Grayscale.BytesPerPixel() then Some(Grayscale)
    else if bpp == Rgb.BytesPerPixel() then Some(Rgb)
    else if bpp == Rgba.BytesPerPixel() then Some(Rgba)
    else None
  }

  // ---------------------------------------------------------------------

  /** The four raw bytes of a colour, in blue, green, red, alpha order. */
  type Raw = s: seq<byte> | |s| == 4 witness [0, 0, 0, 0]

  /** TGAColor: four raw bytes and the number of them that are meaningful. */
  datatype Color = Color(raw: Raw, bytespp: int)
  {
    function B(): byte { raw[0] }
    function G(): byte { raw[1] }
    function R(): byte { raw[2] }
    function A(): byte { raw[3] }
  }

  /** TGAColor(): all bytes zero, one byte per pixel. */
  function DefaultColor(): (c: Color)
    ensures c.B() == c.G() == c.R() == c.A() == 0 && c.bytespp == 1
  {
    Color([0, 0, 0, 0], 1)
  }

  /** TGAColor(R, G, B, A): the named channels, stored blue first, four bytes per pixel. */
  function FromRgba(r: byte, g: byte, b: byte, a: byte): (c: Color)
    ensures c.R() == r && c.G() == g && c.B() == b && c.A() == a && c.bytespp == 4
    ensures c.raw[..3] == [b, g, r]
  {
    Color([b, g, r, a], 4)
  }

  /** TGAColor(p, bpp): the first bpp bytes of p, the others zero. */
  function FromBytes(p: seq<byte>, bpp: int): (c: Color)
    requires 0 <= bpp <= 4 && bpp <= |p|
    ensures c.raw[..bpp] == p[..bpp] && c.bytespp == bpp
    ensures forall k :: bpp <= k < 4 ==> c.raw[k] == 0
  {
    Color(p[..bpp] + seq(4 - bpp, _ => 0), bpp)
  }

  /** The copy constructor and assignment: every raw byte and the byte count carry over. */
  function CopyColor(c: Color): (d: Color)
    ensures d.raw == c.raw && d.bytespp == c.bytespp
  {
    Color(c.raw, c.bytespp)
  }

  /** A colour read back from its own first bpp bytes keeps them and zeroes the rest. */
  lemma FromBytesOfRaw(c: Color, bpp: int)
    requires 0 <= bpp <= 4
    ensures FromBytes(c.raw, bpp).raw[..bpp] == c.raw[..bpp]
    ensures (forall k :: bpp <= k < 4 ==> c.raw[k] == 0) && c.bytespp == bpp ==> FromBytes(c.raw, bpp) == c
  {
    if (forall k :: bpp <= k < 4 ==> c.raw[k] == 0) && c.bytespp == bpp {
      var d := FromBytes(c.raw, bpp);
      assert forall k :: 0 <= k < 4 ==> d.raw[k] == c.raw[k];
    }
  }

  /** Every colour built from r, g, b, a is stored as the bytes b, g, r, a: blue first, alpha last. */
  lemma StoredBlueFirst(r: byte, g: byte, b: byte, a: byte)
    ensures FromRgba(r, g, b, a).raw == [b, g, r, a]
  {
  }
}
