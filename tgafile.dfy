/**
 * What read_tga_file accepts and what write_tga_file emits, as functions of
 * byte streams: the header checks, the four supported image types, the
 * orientation bits of the image descriptor, and the 26-byte trailer.
 */
module TgaFile {
  import opened Wrappers
  import opened Bytes
  import opened Arith
  import opened TgaTypes
  import opened Pixels
  import opened Rle

  /** C++ division of an int by a positive int: the quotient is truncated toward zero. */
  function CDiv(a: int, b: int): (q: int)
    requires b > 0
    ensures a >= 0 ==> q * b <= a < (q + 1) * b
    ensures a < 0 ==> (q - 1) * b < a <= q * b
  {
    if a >= 0 then a / b else -((-a) / b)
  }

  /** The bytes per pixel a header announces: bitsperpixel / 8 on the signed 8-bit field. */
  function BytesPerPixelOf(h: Header): int
  {
    CDiv(h.bitsPerPixel, 8)
  }

  /** The header checks of read_tga_file: positive width and height, and 1, 3 or 4 bytes per pixel. */
  predicate ValidGeometry(h: Header)
  {
    h.width > 0 && h.height > 0 && FormatOf(BytesPerPixelOf(h)).Some?
  }

  /** Image types 2 (true-colour) and 3 (black and white): uncompressed pixels. */
  predicate IsRawType(dataTypeCode: int)
  {
    dataTypeCode == 2 || dataTypeCode == 3
  }

  /** Image types 10 (true-colour) and 11 (black and white): run-length packets. */
  predicate IsRleType(dataTypeCode: int)
  {
    dataTypeCode == 10 || dataTypeCode == 11
  }

  /** Bit 5 (0x20) of the image descriptor: the rows are stored top to bottom. */
  predicate TopToBottom(descriptor: Int8)
  {
    (ByteOf(descriptor) as int / 32) % 2 == 1
  }

  /** Bit 4 (0x10) of the image descriptor: the pixels of a row are stored right to left. */
  predicate RightToLeft(descriptor: Int8)
  {
    (ByteOf(descriptor) as int / 16) % 2 == 1
  }

  /** The stored pixels brought to top-left origin: flipped vertically, then horizontally, as the descriptor asks. */
  function Orient(s: seq<byte>, w: nat, h: nat, bpp: nat, descriptor: Int8): (r: seq<byte>)
    requires |s| == w * h * bpp
    ensures |r| == |s|
  {
    var v := if TopToBottom(descriptor) then s else FlipVertical(s, w, h, bpp);
    if RightToLeft(descriptor) then FlipHorizontal(v, w, h, bpp) else v
  }

  /** Pixel (x, y) of the oriented buffer is stored at (w - 1 - x or x, y or h - 1 - y). */
  lemma OrientPixel(s: seq<byte>, w: nat, h: nat, bpp: nat, descriptor: Int8, x: nat, y: nat)
    requires |s| == w * h * bpp && x < w && y < h
    ensures Pix(Orient(s, w, h, bpp, descriptor), w, bpp, x, y)
         == Pix(s, w, bpp, if RightToLeft(descriptor) then w - 1 - x else x,
                           if TopToBottom(descriptor) then y else h - 1 - y)
  {
    var v := if TopToBottom(descriptor) then s else FlipVertical(s, w, h, bpp);
    var x' := if RightToLeft(descriptor) then w - 1 - x else x;
    if RightToLeft(descriptor) {
      FlipHorizontalPixel(v, w, h, bpp, x, y);
    }
    if !TopToBottom(descriptor) {
      FlipVerticalPixel(s, w, h, bpp, x', y);
    }
  }

  /** Why read_tga_file returns false. */
  datatype ReadError = TruncatedHeader | BadGeometry | TruncatedData | BadRleData | UnknownFormat

  /** A decoded image: dimensions, bytes per pixel, and the pixels with the origin at the top left. */
  datatype Raster = Raster(width: nat, height: nat, bytespp: nat, data: seq<byte>)

  /**
   * read_tga_file on a stream: an 18-byte header that passes the checks,
   * then either width * height pixels verbatim (types 2, 3) or run-length
   * packets for width * height pixels (types 10, 11); anything may follow.
   */
  function DecodeFile(input: seq<byte>): (r: Result<Raster, ReadError>)
    ensures r == Err(TruncatedHeader) <==> |input| < HeaderSize
    ensures r == Err(BadGeometry) <==> |input| >= HeaderSize && !ValidGeometry(ParseHeader(input[..HeaderSize]))
    ensures r.Ok? ==>
      var h := ParseHeader(input[..HeaderSize]);
      && (IsRawType(h.dataTypeCode) || IsRleType(h.dataTypeCode))
      && r.value.width == h.width >= 1 && r.value.height == h.height >= 1
      && r.value.bytespp == BytesPerPixelOf(h) && FormatOf(r.value.bytespp).Some?
      && |r.value.data| == r.value.width * r.value.height * r.value.bytespp
  {
    if |input| < HeaderSize then Err(TruncatedHeader)
    else
      var h := ParseHeader(input[..HeaderSize]);
      if !ValidGeometry(h) then Err(BadGeometry)
      else DecodeBody(h, input[HeaderSize..])
  }

  /** The pixel part of read_tga_file, after a header that passed the checks. */
  function DecodeBody(h: Header, body: seq<byte>): (r: Result<Raster, ReadError>)
    requires ValidGeometry(h)
    ensures r.Ok? || r == Err(TruncatedData) || r == Err(BadRleData) || r == Err(UnknownFormat)
    ensures r.Ok? ==>
      && (IsRawType(h.dataTypeCode) || IsRleType(h.dataTypeCode))
      && r.value.width == h.width && r.value.height == h.height && r.value.bytespp == BytesPerPixelOf(h)
      && |r.value.data| == r.value.width * r.value.height * r.value.bytespp
  {
    var w: nat, ht: nat, bpp: nat := h.width, h.height, BytesPerPixelOf(h);
    var n := w * ht * bpp;
    if IsRawType(h.dataTypeCode) then
      if |body| < n then Err(TruncatedData)
      else
        var stored := body[..n];
        assert |stored| == w * ht * bpp;
        Ok(Raster(w, ht, bpp, Orient(stored, w, ht, bpp, h.imageDescriptor)))
    else if IsRleType(h.dataTypeCode) then
      match Decode(body, bpp, w * ht)
      case None => Err(BadRleData)
      case Some(dec) =>
        DecodeShape(body, bpp, w * ht);
        Assoc(w, ht, bpp);
        Ok(Raster(w, ht, bpp, Orient(dec.pixels, w, ht, bpp, h.imageDescriptor)))
    else Err(UnknownFormat)
  }

  /**
   * For the uncompressed types, pixel (x, y) of the decoded image is the
   * stored pixel at column w - 1 - x if bit 4 of the descriptor is set (x
   * otherwise) and at row y if bit 5 is set (h - 1 - y otherwise).
   */
  lemma DecodedRawPixel(input: seq<byte>, x: nat, y: nat)
    requires DecodeFile(input).Ok? && IsRawType(ParseHeader(input[..HeaderSize]).dataTypeCode)
    requires x < DecodeFile(input).value.width && y < DecodeFile(input).value.height
    ensures var r := DecodeFile(input).value;
      var d := ParseHeader(input[..HeaderSize]).imageDescriptor;
      Pix(r.data, r.width, r.bytespp, x, y)
        == Pix(input[HeaderSize..], r.width, r.bytespp,
               if RightToLeft(d) then r.width - 1 - x else x,
               if TopToBottom(d) then y else r.height - 1 - y)
  {
    var h := ParseHeader(input[..HeaderSize]);
    assert DecodeFile(input) == DecodeBody(h, input[HeaderSize..]);
    RawBodyData(h, input[HeaderSize..]);
    OrientedPrefixPixel(input[HeaderSize..], h.width, h.height, BytesPerPixelOf(h), h.imageDescriptor, x, y);
  }

  /** A raw body that decodes holds at least w * h pixels, and the decoded data are their first w * h, oriented. */
  lemma RawBodyData(h: Header, body: seq<byte>)
    requires ValidGeometry(h) && IsRawType(h.dataTypeCode) && DecodeBody(h, body).Ok?
    ensures h.width * h.height * BytesPerPixelOf(h) <= |body|
    ensures DecodeBody(h, body).value.data
         == Orient(body[..h.width * h.height * BytesPerPixelOf(h)], h.width, h.height, BytesPerPixelOf(h), h.imageDescriptor)
  {
  }

  /** Pixel (x, y) of the first w * h pixels of body, oriented, is pixel (w - 1 - x or x, y or h - 1 - y) of body. */
  lemma OrientedPrefixPixel(body: seq<byte>, w: nat, h: nat, bpp: nat, descriptor: Int8, x: nat, y: nat)
    requires w * h * bpp <= |body| && x < w && y < h
    ensures Pix(Orient(body[..w * h * bpp], w, h, bpp, descriptor), w, bpp, x, y)
         == Pix(body, w, bpp, if RightToLeft(descriptor) then w - 1 - x else x,
                              if TopToBottom(descriptor) then y else h - 1 - y)
  {
    var n := w * h * bpp;
    OrientPixel(body[..n], w, h, bpp, descriptor, x, y);
    PixOfTake(body, n, w, h, bpp, if RightToLeft(descriptor) then w - 1 - x else x,
              if TopToBottom(descriptor) then y else h - 1 - y);
  }

  /** A header that passes the geometry checks but names another image type (such as 1, colour-mapped) is refused. */
  lemma UnknownTypeRejected(input: seq<byte>)
    requires |input| >= HeaderSize && ValidGeometry(ParseHeader(input[..HeaderSize]))
    requires !IsRawType(ParseHeader(input[..HeaderSize]).dataTypeCode)
    requires !IsRleType(ParseHeader(input[..HeaderSize]).dataTypeCode)
    ensures DecodeFile(input) == Err(UnknownFormat)
  {
  }

  /**
   * The truncating bitsperpixel / 8 accepts bit depths 8 to 15, 24 to 31
   * and 32 to 39, and nothing else (a negative depth truncates to 0 or less).
   */
  lemma AcceptedBitDepths(bits: Int8)
    ensures FormatOf(CDiv(bits, 8)).Some? <==> 8 <= bits < 16 || 24 <= bits < 40
  {
  }

  // ---------------------------------------------------------------------
  // Writing

  /** The conversion of an int to `short`: the value modulo 2^16, read as signed. */
  function Wrap16(v: int): (r: Int16)
    ensures -32768 <= v < 32768 ==> r == v
    ensures (r - v) % 65536 == 0
  {
    (v + 32768) % 65536 - 32768
  }

  /** The conversion of an int to `std::int8_t`: the value modulo 2^8, read as signed. */
  function Wrap8(v: int): (r: Int8)
    ensures -128 <= v < 128 ==> r == v
    ensures (r - v) % 256 == 0
  {
    (v + 128) % 256 - 128
  }

  /** The data type code write_tga_file chooses: 3 or 11 for one byte per pixel, 2 or 10 otherwise. */
  function WriteTypeCode(bpp: int, rle: bool): Int8
  {
    if bpp == Grayscale.BytesPerPixel() then (if rle then 11 else 3) else (if rle then 10 else 2)
  }

  /** The header write_tga_file emits: all zero but for type, size, depth and the top-left origin bit. */
  function WriteHeader(w: int, h: int, bpp: int, rle: bool): Header
  {
    Header(0, 0, WriteTypeCode(bpp, rle), 0, 0, 0, 0, 0, Wrap16(w), Wrap16(h), Wrap8(bpp * 8), 0x20)
  }

  /** "TRUEVISION-XFILE." and its terminating zero byte, in ASCII. */
  const Signature: seq<byte> :=
    [84, 82, 85, 69, 86, 73, 83, 73, 79, 78, 45, 88, 70, 73, 76, 69, 46, 0]

  /** The developer area reference, the extension area reference (four zero bytes each), then the signature. */
  const Trailer: seq<byte> := [0, 0, 0, 0] + [0, 0, 0, 0] + Signature

  /** write_tga_file on a stream: header, pixels (verbatim or run-length packets), trailer. */
  function EncodeFile(w: nat, h: nat, bpp: nat, data: seq<byte>, rle: bool): (r: seq<byte>)
    requires |data| == w * h * bpp
  {
    EncodeHeader(WriteHeader(w, h, bpp, rle)) + EncodeBody(w, h, bpp, data, rle) + Trailer
  }

  /** The pixel part of write_tga_file: the buffer itself, or unload_rle_data's packets. */
  function EncodeBody(w: nat, h: nat, bpp: nat, data: seq<byte>, rle: bool): seq<byte>
    requires |data| == w * h * bpp
  {
    Assoc(w, h, bpp);
    if rle then Encode(data, bpp, w * h) else data
  }

  /** The written trailer: eight zero bytes, then the 18 bytes of the signature, which spell TRUEVISION-XFILE. */
  lemma TrailerBytes()
    ensures |Trailer| == 26 && Trailer[..8] == [0, 0, 0, 0, 0, 0, 0, 0] && Trailer[8..] == Signature
    ensures forall k :: 0 <= k < 17 ==> Signature[k] as int == "TRUEVISION-XFILE."[k] as int
    ensures Signature[17] == 0
  {
  }

  /**
   * The emitted header bytes: type code at offset 2, little-endian width at
   * 12 and height at 14, bpp * 8 at 16, 0x20 at 17, zero everywhere else;
   * the file ends with the trailer.
   */
  lemma EncodeFileLayout(w: nat, h: nat, bpp: nat, data: seq<byte>, rle: bool)
    requires |data| == w * h * bpp && w < 32768 && h < 32768 && bpp <= 15
    ensures var r := EncodeFile(w, h, bpp, data, rle);
      && |r| >= HeaderSize + |Trailer|
      && r[2] as int == WriteTypeCode(bpp, rle)
      && r[12] as int == w % 256 && r[13] as int == w / 256
      && r[14] as int == h % 256 && r[15] as int == h / 256
      && r[16] as int == bpp * 8 && r[17] == 0x20
      && (forall k :: 0 <= k < 12 && k != 2 ==> r[k] == 0)
      && r[|r| - |Trailer| ..] == Trailer
  {
    var r := EncodeFile(w, h, bpp, data, rle);
    var hd := EncodeHeader(WriteHeader(w, h, bpp, rle));
    var body := EncodeBody(w, h, bpp, data, rle);
    assert r == hd + body + Trailer;
    assert r[..HeaderSize] == hd;
    assert r[|r| - |Trailer| ..] == Trailer;
  }

  /**
   * Reading back a written image gives it back, raw or run-length encoded,
   * for dimensions that fit the header's 16-bit fields.
   */
  lemma FileRoundTrip(w: nat, h: nat, bpp: nat, data: seq<byte>, rle: bool)
    requires 1 <= w < 32768 && 1 <= h < 32768 && FormatOf(bpp).Some?
    requires |data| == w * h * bpp
    ensures DecodeFile(EncodeFile(w, h, bpp, data, rle)) == Ok(Raster(w, h, bpp, data))
  {
    var hd := WriteHeader(w, h, bpp, rle);
    var body := EncodeBody(w, h, bpp, data, rle);
    var r := EncodeFile(w, h, bpp, data, rle);
    assert r == EncodeHeader(hd) + (body + Trailer);
    assert r[..HeaderSize] == EncodeHeader(hd);
    assert r[HeaderSize..] == body + Trailer;
    WrittenHeader(w, h, bpp, rle);
    WrittenBody(hd, w, h, bpp, data, rle);
  }

  /**
   * The header written for an image of 1, 3 or 4 bytes per pixel whose sides
   * fit a short reads back unchanged, passes the checks of read_tga_file,
   * names the type written, and announces a top-left origin.
   */
  lemma WrittenHeader(w: nat, h: nat, bpp: nat, rle: bool)
    requires 1 <= w < 32768 && 1 <= h < 32768 && FormatOf(bpp).Some?
    ensures var hd := WriteHeader(w, h, bpp, rle);
      && ParseHeader(EncodeHeader(hd)) == hd && ValidGeometry(hd)
      && hd.width == w && hd.height == h && BytesPerPixelOf(hd) == bpp
      && TopToBottom(hd.imageDescriptor) && !RightToLeft(hd.imageDescriptor)
      && IsRawType(hd.dataTypeCode) == !rle && IsRleType(hd.dataTypeCode) == rle
  {
    ParseEncodeHeader(WriteHeader(w, h, bpp, rle));
    WrittenDepth(bpp);
    TopLeftDescriptor();
  }

  /** The depth field written for 1, 3 or 4 bytes per pixel reads back as that many bytes per pixel. */
  lemma WrittenDepth(bpp: int)
    requires FormatOf(bpp).Some?
    ensures CDiv(Wrap8(bpp * 8), 8) == bpp
  {
    assert bpp == 1 || bpp == 3 || bpp == 4;
  }

  /** Descriptor 0x20 announces rows stored top to bottom, pixels left to right. */
  lemma TopLeftDescriptor()
    ensures TopToBottom(0x20) && !RightToLeft(0x20)
  {
    assert ByteOf(0x20) as int / 32 % 2 == 1;
    assert ByteOf(0x20) as int / 16 % 2 == 0;
  }

  /** Behind such a header, the written pixels (and the trailer after them) decode to the image. */
  lemma WrittenBody(hd: Header, w: nat, h: nat, bpp: nat, data: seq<byte>, rle: bool)
    requires |data| == w * h * bpp && ValidGeometry(hd)
    requires hd.width == w && hd.height == h && BytesPerPixelOf(hd) == bpp
    requires TopToBottom(hd.imageDescriptor) && !RightToLeft(hd.imageDescriptor)
    requires IsRawType(hd.dataTypeCode) == !rle && IsRleType(hd.dataTypeCode) == rle
    ensures DecodeBody(hd, EncodeBody(w, h, bpp, data, rle) + Trailer) == Ok(Raster(w, h, bpp, data))
  {
    Assoc(w, h, bpp);
    if rle {
      EncodeDecode(data, bpp, w * h, Trailer);
    } else {
      assert (data + Trailer)[..w * h * bpp] == data;
    }
  }
}
