/**
 * TGAImage: the image object of tgaimage.cpp. It owns a byte buffer of
 * width * height pixels of bytespp bytes, row by row from the top-left
 * corner, and its methods read, write, flip and resample that buffer in
 * place. Streams are byte sequences: a read consumes its input, a write
 * returns the bytes it appends.
 */
module TgaImage {
  import opened Wrappers
  import opened Bytes
  import opened Arith
  import opened TgaTypes
  import opened Pixels
  import opened Rle
  import opened TgaFile

  /** memmove / memcpy: n bytes of src from soff on are copied over dst from doff on; dst may be src. */
  method Move(dst: array<byte>, doff: nat, src: array<byte>, soff: nat, n: nat)
    requires doff + n <= dst.Length && soff + n <= src.Length
    modifies dst
    ensures dst[..] == Splice(old(dst[..]), doff, old(src[soff .. soff + n]))
  {
    forall k | 0 <= k < n {
      dst[doff + k] := src[soff + k];
    }
  }

  /** Pixel p of a buffer of n pixels lies inside it. */
  lemma PixelInside(p: nat, n: nat, bpp: nat)
    requires p < n
    ensures 0 <= p * bpp && p * bpp + bpp <= n * bpp && (p + 1) * bpp == p * bpp + bpp
  {
    Span(p, 1, n, bpp);
  }

  class Image {
    var data: array?<byte>
    var width: int
    var height: int
    var bytespp: int

    /** An image with a buffer holds exactly width * height pixels of bytespp bytes. */
    ghost predicate Valid()
      reads this, data
    {
      data != null ==> 0 <= width && 0 <= height && 0 <= bytespp && data.Length == width * height * bytespp
    }

    /** TGAImage(): no buffer and all dimensions zero. */
    constructor Empty()
      ensures Valid() && data == null && width == 0 && height == 0 && bytespp == 0
    {
      data := null;
      width, height, bytespp := 0, 0, 0;
    }

    /** TGAImage(w, h, bpp): a buffer of w * h * bpp zero bytes. */
    constructor (w: int, h: int, bpp: int)
      requires 0 <= w && 0 <= h && 0 <= bpp
      ensures Valid() && data != null && fresh(data)
      ensures width == w && height == h && bytespp == bpp
      ensures forall k :: 0 <= k < data.Length ==> data[k] == 0
    {
      width, height, bytespp := w, h, bpp;
      MulMonotone(0, w, h);
      MulMonotone(0, w * h, bpp);
      data := new byte[w * h * bpp](_ => 0);
    }

    /** TGAImage(img): the same dimensions and a buffer of its own holding the same bytes. */
    constructor Copy(img: Image)
      requires img.Valid() && img.data != null
      ensures Valid() && data != null && fresh(data)
      ensures width == img.width && height == img.height && bytespp == img.bytespp
      ensures data[..] == img.data[..]
    {
      width, height, bytespp := img.width, img.height, img.bytespp;
      var nbytes := img.width * img.height * img.bytespp;
      var buf := new byte[nbytes];
      Move(buf, 0, img.data, 0, nbytes);
      data := buf;
    }

    /** operator=: a copy of img in a buffer of its own; assigning an image to itself changes nothing. */
    method Assign(img: Image)
      requires img.Valid() && (img != this ==> img.data != null)
      modifies this
      ensures Valid()
      ensures img == this ==> unchanged(this)
      ensures img != this ==>
        && data != null && fresh(data)
        && width == img.width && height == img.height && bytespp == img.bytespp
        && data[..] == img.data[..]
    {
      if img != this {
        width, height, bytespp := img.width, img.height, img.bytespp;
        var nbytes := img.width * img.height * img.bytespp;
        var buf := new byte[nbytes];
        Move(buf, 0, img.data, 0, nbytes);
        data := buf;
      }
    }

    /** Pixel (x, y) exists: there is a buffer and 0 <= x < width, 0 <= y < height. */
    predicate InBounds(x: int, y: int)
      reads this
    {
      data != null && 0 <= x < width && 0 <= y < height
    }

    /** The pixel (x, y) is pixel number p = x + y * width, whose bytes start at o = p * bytespp. */
    lemma PixelOffset(x: int, y: int, p: int, o: int)
      requires Valid() && InBounds(x, y)
      requires p == x + y * width && o == p * bytespp
      ensures 0 <= p < width * height && 0 <= o && o + bytespp <= data.Length && (p + 1) * bytespp == o + bytespp
    {
      MirrorAt(width, height, x, y);
      PixelInside(p, width * height, bytespp);
    }

    /**
     * get(x, y): outside the image, or without a buffer, the default colour;
     * otherwise the pixel's bytespp bytes, the remaining raw bytes zero.
     */
    function Get(x: int, y: int): (c: Color)
      reads this, data
      requires Valid() && (InBounds(x, y) ==> bytespp <= 4)
      ensures !InBounds(x, y) ==> c == DefaultColor()
      ensures InBounds(x, y) ==>
        && c.bytespp == bytespp
        && c.raw[..bytespp] == Pix(data[..], width, bytespp, x, y)
        && forall k :: bytespp <= k < 4 ==> c.raw[k] == 0
    {
      if !InBounds(x, y) then DefaultColor()
      else
        var p := x + y * width;
        var o := p * bytespp;
        PixelOffset(x, y, p, o);
        PixelAtIs(data[..], bytespp, p, o);
        FromBytes(data[o .. o + bytespp], bytespp)
    }

    /**
     * set(x, y, c): outside the image, or without a buffer, false and no
     * change; otherwise the first bytespp raw bytes of c replace pixel (x, y)
     * and nothing else, so that get(x, y) reads them back.
     */
    method Set(x: int, y: int, c: Color) returns (ok: bool)
      requires Valid() && (InBounds(x, y) ==> bytespp <= 4)
      modifies data
      ensures width == old(width) && height == old(height) && bytespp == old(bytespp) && data == old(data)
      ensures Valid()
      ensures ok == InBounds(x, y)
      ensures !ok && data != null ==> data[..] == old(data[..])
      ensures ok ==> 0 <= x + y * width < width * height && (x + y * width + 1) * bytespp <= data.Length
      ensures ok ==> data[..] == SetPixel(old(data[..]), bytespp, x + y * width, c.raw[..bytespp])
      ensures ok ==> Get(x, y).raw[..bytespp] == c.raw[..bytespp]
    {
      if !InBounds(x, y) {
        return false;
      }
      ghost var s := data[..];
      var p := x + y * width;
      var offset := p * bytespp;
      PixelOffset(x, y, p, offset);
      Store(data, offset, c.raw[..bytespp]);
      assert data[..] == SetPixel(s, bytespp, p, c.raw[..bytespp]);
      assert Pix(data[..], width, bytespp, x, y) == c.raw[..bytespp] by {
        SetPixelAt(s, bytespp, p, c.raw[..bytespp], p);
      }
      return true;
    }

    /**
     * clear(): every byte of the buffer becomes zero. Without a buffer the
     * image has no pixels and nothing is written.
     */
    method Clear()
      requires Valid() && (data == null ==> width * height * bytespp == 0)
      modifies data
      ensures Valid()
      ensures data != null ==> forall k :: 0 <= k < data.Length ==> data[k] == 0
    {
      if data != null {
        forall k | 0 <= k < data.Length {
          data[k] := 0;
        }
      }
    }

    /**
     * flip_vertically(): without a buffer, false; otherwise scanline j and
     * scanline height - 1 - j are exchanged through a line buffer, for every
     * j below height / 2.
     */
    method FlipVertically() returns (ok: bool)
      requires Valid()
      modifies data
      ensures Valid()
      ensures ok == (data != null)
      ensures ok ==> data[..] == FlipVertical(old(data[..]), width, height, bytespp)
    {
      if data == null {
        return false;
      }
      var bytes_per_line := width * bytespp;
      RowsFlippedEnds(data[..], width, height, bytespp);
      FlipLines(data, bytes_per_line, height);
      return true;
    }

    /**
     * flip_horizontally(): without a buffer, false; otherwise, through get
     * and set, pixel (i, j) and pixel (width - 1 - i, j) are exchanged for
     * every i below width / 2 and every row j.
     */
    method FlipHorizontally() returns (ok: bool)
      requires Valid() && (data != null ==> bytespp <= 4)
      modifies data
      ensures Valid()
      ensures ok == (data != null)
      ensures ok ==> data[..] == FlipHorizontal(old(data[..]), width, height, bytespp)
    {
      if data == null {
        return false;
      }
      ghost var s0 := data[..];
      ghost var w: nat, h: nat, bpp: nat := width, height, bytespp;
      var half := width / 2;
      ColumnsFlippedEnds(s0, w, h, bpp);
      var i := 0;
      while i < half
        invariant 0 <= i <= half
        invariant width == w && height == h && bytespp == bpp
        invariant data[..] == ColumnsFlipped(s0, w, h, bpp, i, 0)
      {
        ExchangeColumns(data, width, height, bytespp, i, s0);
        ColumnsFlippedNext(s0, w, h, bpp, i);
        i := i + 1;
      }
      return true;
    }

    /** width * height, the number of pixels of an image with a buffer. */
    function PixelCount(): (n: nat)
      reads this, data
      requires Valid() && data != null
      ensures n == width * height && data.Length == n * bytespp
    {
      MulMonotone(0, width, height);
      width * height
    }

    /**
     * load_rle_data(in): run-length packets are read into the buffer until
     * it holds width * height pixels; see ReadRleData.
     */
    method LoadRleData(input: seq<byte>) returns (ok: bool, rest: seq<byte>)
      requires Valid() && data != null && width >= 1 && height >= 1
      modifies data
      ensures Valid()
      ensures ok == Decode(input, bytespp, PixelCount()).Some?
      ensures ok ==> data[..] == Decode(input, bytespp, PixelCount()).value.pixels
      ensures ok ==> rest == Decode(input, bytespp, PixelCount()).value.rest
    {
      MulStrict(0, width, height);
      ok, rest := ReadRleData(data, bytespp, PixelCount(), input);
    }

    /** unload_rle_data(out): the packets that encode the buffer; see EncodePixels. */
    method UnloadRleData() returns (out: seq<byte>)
      requires Valid() && data != null
      ensures out == Encode(data[..], bytespp, PixelCount())
    {
      out := EncodePixels(data, bytespp, PixelCount());
    }

    /**
     * read_tga_file on a stream: the previous buffer is dropped; an 18-byte
     * header, its checks on width, height and bits per pixel, a new buffer,
     * the pixels verbatim (types 2, 3) or run-length packets (types 10, 11),
     * then a vertical flip unless bit 5 of the image descriptor is set and a
     * horizontal flip if bit 4 is set. Succeeds exactly when DecodeFile
     * does, and then holds the image DecodeFile describes.
     */
    method ReadTga(input: seq<byte>) returns (ok: bool)
      modifies this
      ensures ok == DecodeFile(input).Ok?
      ensures ok ==> Valid() && data != null && fresh(data)
      ensures ok ==>
        && width == DecodeFile(input).value.width && height == DecodeFile(input).value.height
        && bytespp == DecodeFile(input).value.bytespp && data[..] == DecodeFile(input).value.data
    {
      data := null;
      if |input| < HeaderSize {
        return false;
      }
      var header := ParseHeader(input[..HeaderSize]);
      width, height := header.width, header.height;
      bytespp := CDiv(header.bitsPerPixel, 8);
      if width <= 0 || height <= 0 || (bytespp != 1 && bytespp != 3 && bytespp != 4) {
        return false;
      }
      ok := ReadPixels(header, input[HeaderSize..]);
    }

    /**
     * The part of read_tga_file after the header checks: a new buffer of
     * width * height pixels, filled from the body as the type code says,
     * then brought to top-left origin.
     */
    method ReadPixels(header: Header, body: seq<byte>) returns (ok: bool)
      requires ValidGeometry(header)
      requires width == header.width && height == header.height && bytespp == BytesPerPixelOf(header)
      modifies this
      ensures width == old(width) && height == old(height) && bytespp == old(bytespp)
      ensures ok == DecodeBody(header, body).Ok?
      ensures ok ==> Valid() && data != null && fresh(data) && data[..] == DecodeBody(header, body).value.data
    {
      var npix := SizeOf(width, height);
      var nbytes := SizeOf(npix, bytespp);
      data := new byte[nbytes];
      if IsRawType(header.dataTypeCode) {
        if |body| < nbytes {
          return false;
        }
        Store(data, 0, body[..nbytes]);
        assert data[..] == body[..nbytes];
      } else if IsRleType(header.dataTypeCode) {
        var loaded, _ := LoadRleData(body);
        if !loaded {
          return false;
        }
      } else {
        return false;
      }
      Orientate(header.imageDescriptor);
      return true;
    }

    /** The flips at the end of read_tga_file: vertical unless bit 5 of the descriptor is set, horizontal if bit 4 is. */
    method Orientate(descriptor: Int8)
      requires Valid() && data != null && bytespp <= 4
      modifies data
      ensures Valid()
      ensures data[..] == Orient(old(data[..]), width, height, bytespp, descriptor)
    {
      if !TopToBottom(descriptor) {
        var flipped := FlipVertically();
      }
      if RightToLeft(descriptor) {
        var flipped := FlipHorizontally();
      }
    }

    /**
     * write_tga_file on a stream: a zeroed header with the type code, the
     * dimensions, bytespp * 8 bits per pixel and the top-left origin bit,
     * then the buffer verbatim or its run-length packets, then the trailer.
     * An image without a buffer is written with no pixels, as the default
     * constructor leaves it.
     */
    method WriteTga(rle: bool) returns (out: seq<byte>)
      requires Valid() && (data == null ==> width == 0 && height == 0 && bytespp == 0)
      ensures data != null ==> out == EncodeFile(width, height, bytespp, data[..], rle)
      ensures data == null ==> out == EncodeFile(0, 0, 0, [], rle)
    {
      var developer_area_ref: seq<byte> := [0, 0, 0, 0];
      var extension_area_ref: seq<byte> := [0, 0, 0, 0];
      var header := WriteHeader(width, height, bytespp, rle);
      out := EncodeHeader(header);
      if data == null {
        assert out + [] == out;
      } else if !rle {
        out := out + data[..];
      } else {
        var packets := UnloadRleData();
        out := out + packets;
      }
      out := out + developer_area_ref;
      out := out + extension_area_ref;
      out := out + Signature;
    }

    /**
     * scale(w, h): with a positive target size and a buffer, a new buffer of
     * w x h pixels replaces the old one, and every new pixel (x, y) is the
     * old pixel (SrcIndex(x, width, w), SrcIndex(y, height, h)); otherwise
     * false and no change.
     */
    method Scale(w: int, h: int) returns (ok: bool)
      requires Valid()
      modifies this
      ensures ok == (w > 0 && h > 0 && old(data) != null)
      ensures !ok ==> unchanged(this)
      ensures ok ==> Valid() && data != null && fresh(data) && width == w && height == h && bytespp == old(bytespp)
      ensures ok && old(width) > 0 && old(height) > 0 ==>
        data[..] == Scaled(old(data[..]), old(width), old(height), bytespp, w, h)
    {
      if w <= 0 || h <= 0 || data == null {
        return false;
      }
      var tdata := new byte[SizeOf(SizeOf(w, h), bytespp)];
      if width > 0 && height > 0 {
        ScaleInto(tdata, data, bytespp, width, height, w, h);
      }
      data := tdata;
      width, height := w, h;
      return true;
    }
  }

  /**
   * The inner loop of flip_horizontally: for every row j, pixel (i, j) and
   * pixel (w - 1 - i, j) trade colours.
   */
  method ExchangeColumns(d: array<byte>, w: nat, h: nat, bpp: nat, i: nat, ghost s0: seq<byte>)
    requires |s0| == w * h * bpp && i < w / 2
    requires d[..] == ColumnsFlipped(s0, w, h, bpp, i, 0)
    modifies d
    ensures d[..] == ColumnsFlipped(s0, w, h, bpp, i, h)
  {
    var j := 0;
    while j < h
      invariant 0 <= j <= h
      invariant d[..] == ColumnsFlipped(s0, w, h, bpp, i, j)
    {
      var p, q := i + j * w, (w - 1 - i) + j * w;
      ColumnsSwapStep(s0, w, h, bpp, i, j, p, q);
      ExchangePixels(d, bpp, p, q);
      j := j + 1;
    }
  }

  /**
   * One step of flip_horizontally: the colours of pixels p and q, each of
   * bpp bytes, are read and then each is written over the other, as the
   * get, get, set, set sequence does.
   */
  method ExchangePixels(d: array<byte>, bpp: nat, p: nat, q: nat)
    requires p != q && (p + 1) * bpp <= d.Length && (q + 1) * bpp <= d.Length
    modifies d
    ensures |PixelAt(old(d[..]), bpp, p)| == |PixelAt(old(d[..]), bpp, q)| == bpp
    ensures d[..] == SetPixel(SetPixel(old(d[..]), bpp, p, PixelAt(old(d[..]), bpp, q)), bpp, q, PixelAt(old(d[..]), bpp, p))
  {
    ghost var s := d[..];
    Distrib(p, 1, bpp);
    Distrib(q, 1, bpp);
    var o1, o2 := p * bpp, q * bpp;
    var c1, c2 := d[o1 .. o1 + bpp], d[o2 .. o2 + bpp];
    Store(d, o1, c2);
    Store(d, o2, c1);
    ExchangeBySplices(s, bpp, p, q, o1, o2, c1, c2);
  }

  /** memcpy from a value: the bytes of v are written over d from offset off on. */
  method Store(d: array<byte>, off: nat, v: seq<byte>)
    requires off + |v| <= d.Length
    modifies d
    ensures d[..] == Splice(old(d[..]), off, v)
  {
    forall k | 0 <= k < |v| {
      d[off + k] := v[k];
    }
  }

  /**
   * The loop of flip_vertically on a buffer of h lines of L bytes: line j
   * and line h - 1 - j are exchanged through a line buffer, for every j
   * below h / 2.
   */
  method FlipLines(d: array<byte>, L: nat, h: nat)
    requires d.Length == h * L
    modifies d
    ensures d[..] == RowsFlipped(old(d[..]), L, h, h / 2)
  {
    var half := h / 2;
    ghost var s0 := d[..];
    RowsFlippedNone(s0, L, h);
    var j := 0;
    while j < half
      invariant 0 <= j <= half
      invariant d[..] == RowsFlipped(s0, L, h, j)
    {
      var k := h - 1 - j;
      RowsFlippedStep(s0, L, h, j, k);
      SwapLines(d, L, j, k);
      j := j + 1;
    }
  }

  /**
   * The three memmove calls of one flip_vertically step: line j and line k,
   * each of L bytes, trade places through the line buffer, held here as the
   * sequence `line`.
   */
  method SwapLines(d: array<byte>, L: nat, j: nat, k: nat)
    requires j != k && (j + 1) * L <= d.Length && (k + 1) * L <= d.Length
    modifies d
    ensures |PixelAt(old(d[..]), L, j)| == |PixelAt(old(d[..]), L, k)| == L
    ensures d[..] == SetPixel(SetPixel(old(d[..]), L, j, PixelAt(old(d[..]), L, k)), L, k, PixelAt(old(d[..]), L, j))
  {
    ghost var s := d[..];
    Distrib(j, 1, L);
    Distrib(k, 1, L);
    var l1, l2 := j * L, k * L;
    var line := d[l1 .. l1 + L];
    Move(d, l1, d, l2, L);
    Store(d, l2, line);
    ExchangeBySplices(s, L, j, k, l1, l2, line, s[l2 .. l2 + L]);
  }

  // ---------------------------------------------------------------------
  // unload_rle_data

  /**
   * The run-length encoding of the npix pixels of d, packet by packet: scan
   * a packet from the current pixel, write its header byte, then all its
   * pixels (raw) or its one pixel (run).
   */
  method EncodePixels(d: array<byte>, bpp: nat, npix: nat) returns (out: seq<byte>)
    requires d.Length == npix * bpp
    ensures out == Encode(d[..], bpp, npix)
  {
    ghost var s := d[..];
    ghost var whole := Encode(s, bpp, npix);
    EncodedNone(s, bpp, npix);
    var curpix: nat := 0;
    out := [];
    while curpix < npix
      invariant curpix <= npix
      invariant EncodedUpTo(s, bpp, npix, curpix, out, whole)
    {
      var chunkstart := SizeOf(curpix, bpp);
      var raw, run_length := ScanPacket(d, bpp, npix, curpix);
      var len := if raw then SizeOf(run_length, bpp) else bpp;
      PacketInside(bpp, npix, curpix, chunkstart, len, raw, run_length);
      var packet := [PacketHeader(raw, run_length)] + d[chunkstart .. chunkstart + len];
      var out', next := out + packet, curpix + run_length;
      EncodeStep(s, bpp, npix, curpix, chunkstart, len, raw, run_length, out, packet, next, out', whole);
      out, curpix := out', next;
    }
    EncodedAll(s, bpp, npix, out, whole);
  }

  /** The number of bytes n pixels of bpp bytes take up, which is also where pixel n starts. */
  function SizeOf(n: nat, bpp: nat): (size: nat)
    ensures size == n * bpp
  {
    MulMonotone(0, n, bpp);
    n * bpp
  }

  /**
   * The inner loop of unload_rle_data: from pixel curpix on, compare each
   * pixel with its successor; the first comparison decides raw or run, and
   * the packet ends before a repeated pixel (raw), at a different pixel
   * (run), at 128 pixels or at the last pixel.
   */
  method ScanPacket(d: array<byte>, bpp: nat, npix: nat, curpix: nat) returns (raw: bool, run_length: nat)
    requires d.Length == npix * bpp && curpix < npix
    ensures 1 <= run_length <= MaxChunkLength && curpix + run_length <= npix
    ensures Packet(raw, curpix, run_length) == Scan(PixelList(d[..], bpp, npix), curpix, 1, true)
  {
    ghost var px := PixelList(d[..], bpp, npix);
    var curbyte := SizeOf(curpix, bpp);
    run_length := 1;
    raw := true;
    while curpix + run_length < npix && run_length < MaxChunkLength
      invariant 1 <= run_length <= MaxChunkLength && curpix + run_length <= npix
      invariant raw || run_length >= 2
      invariant curbyte == SizeOf(curpix + run_length - 1, bpp)
      invariant Scan(px, curpix, run_length, raw) == Scan(px, curpix, 1, true)
      decreases MaxChunkLength - run_length
    {
      ghost var k := curpix + run_length - 1;
      var succ_eq := SuccessorEqual(d, bpp, npix, k, curbyte);
      NextOffset(k, bpp, curbyte);
      curbyte := curbyte + bpp;
      ghost var raw0 := raw;
      if run_length == 1 {
        raw := !succ_eq;
      }
      ScanStep(px, curpix, run_length, raw0, succ_eq, raw);
      if raw && succ_eq {
        run_length := run_length - 1;
        break;
      }
      if !raw && !succ_eq {
        break;
      }
      run_length := run_length + 1;
    }
  }

  /** The bytes of pixel k + 1 start bpp bytes after those of pixel k. */
  lemma NextOffset(k: nat, bpp: nat, b: nat)
    requires b == SizeOf(k, bpp)
    ensures b + bpp == SizeOf(k + 1, bpp)
  {
    Distrib(k, 1, bpp);
  }

  /** Whether pixel k, whose bytes start at curbyte, equals pixel k + 1: compared byte by byte, stopping at the first difference. */
  method SuccessorEqual(d: array<byte>, bpp: nat, npix: nat, ghost k: nat, curbyte: nat) returns (succ_eq: bool)
    requires d.Length == npix * bpp && k + 1 < npix && curbyte == k * bpp
    ensures succ_eq == (PixelList(d[..], bpp, npix)[k] == PixelList(d[..], bpp, npix)[k + 1])
  {
    PixelPair(d[..], bpp, npix, k, curbyte);
    succ_eq := true;
    var t := 0;
    while succ_eq && t < bpp
      invariant 0 <= t <= bpp
      invariant succ_eq == (d[curbyte .. curbyte + t] == d[curbyte + bpp .. curbyte + bpp + t])
      invariant !succ_eq ==> d[curbyte .. curbyte + bpp] != d[curbyte + bpp .. curbyte + 2 * bpp]
    {
      succ_eq := d[curbyte + t] == d[curbyte + t + bpp];
      if !succ_eq {
        assert d[curbyte .. curbyte + bpp][t] != d[curbyte + bpp .. curbyte + 2 * bpp][t];
      }
      t := t + 1;
    }
  }

  /** Pixels k and k + 1 are the bpp bytes from lo = k * bpp on and the bpp bytes after them. */
  lemma PixelPair(s: seq<byte>, bpp: nat, npix: nat, k: nat, lo: nat)
    requires |s| == npix * bpp && k + 1 < npix && lo == k * bpp
    ensures lo + 2 * bpp <= |s|
    ensures PixelList(s, bpp, npix)[k] == s[lo .. lo + bpp]
    ensures PixelList(s, bpp, npix)[k + 1] == s[lo + bpp .. lo + 2 * bpp]
  {
    Span(k, 2, npix, bpp);
    PixelListAt(s, bpp, npix, k);
    PixelListAt(s, bpp, npix, k + 1);
    PixelAtIs(s, bpp, k, lo);
    Distrib(k, 1, bpp);
    PixelAtIs(s, bpp, k + 1, lo + bpp);
  }

  // ---------------------------------------------------------------------
  // load_rle_data

  /**
   * load_rle_data on a buffer of npix pixels: packets are read until npix
   * pixels are stored. A header or pixel missing from the input, or a packet
   * that brings more pixels than are missing, is a failure; the pixel count
   * is checked before each pixel is stored. On success the buffer holds the
   * decoded pixels and `rest` is the input after the last packet.
   */
  method ReadRleData(d: array<byte>, bpp: nat, npix: nat, input: seq<byte>) returns (ok: bool, rest: seq<byte>)
    requires d.Length == npix * bpp && npix >= 1
    modifies d
    ensures ok == Decode(input, bpp, npix).Some?
    ensures ok ==> d[..] == Decode(input, bpp, npix).value.pixels && rest == Decode(input, bpp, npix).value.rest
  {
    var currentpixel: nat := 0;
    var currentbyte: nat := 0;
    var pos: nat := 0;
    ghost var whole := Decode(input, bpp, npix);
    NothingRead(whole, d[..], input, bpp, npix);
    while currentpixel < npix
      invariant currentpixel <= npix && pos <= |input|
      invariant currentbyte == SizeOf(currentpixel, bpp) <= d.Length
      invariant ReadUpTo(whole, d[..], input, bpp, npix, pos, currentpixel, currentbyte)
    {
      ghost var s0 := d[..];
      var ok', pos', cp', cb' := ReadPacket(d, bpp, npix, input, pos, currentpixel, currentbyte);
      PacketRead(whole, d[..], s0, input, bpp, npix, pos, currentpixel, currentbyte, ok', pos', cp', cb');
      if !ok' {
        return false, [];
      }
      pos, currentpixel, currentbyte := pos', cp', cb';
    }
    AllRead(whole, d[..], input, bpp, npix, pos, currentpixel, currentbyte);
    ok, rest := true, input[pos..];
  }

  /**
   * The decoding `whole` of the input is the first cb bytes of buffer s
   * followed by the decoding of the npix - cp pixels still missing from pos.
   */
  ghost predicate ReadUpTo(whole: Option<Decoded>, s: seq<byte>, input: seq<byte>, bpp: nat, npix: nat, pos: nat, cp: nat, cb: nat)
    requires pos <= |input| && cp <= npix
  {
    cb <= |s| && whole == Prepend(s[..cb], Decode(input[pos..], bpp, npix - cp))
  }

  lemma NothingRead(whole: Option<Decoded>, s: seq<byte>, input: seq<byte>, bpp: nat, npix: nat)
    requires whole == Decode(input, bpp, npix)
    ensures ReadUpTo(whole, s, input, bpp, npix, 0, 0, 0)
  {
    assert input[0..] == input;
    assert s[..0] == [];
    PrependNothing(whole);
  }

  /** After one packet, either the decoding so far extends by the packet's pixels, or the whole decoding fails. */
  lemma PacketRead(whole: Option<Decoded>, s: seq<byte>, s0: seq<byte>, input: seq<byte>, bpp: nat, npix: nat,
                   pos: nat, cp: nat, cb: nat, ok: bool, pos': nat, cp': nat, cb': nat)
    requires pos <= |input| && cp < npix
    requires ReadUpTo(whole, s0, input, bpp, npix, pos, cp, cb)
    requires PacketStored(s, s0, bpp, npix, input, pos, cp, cb, ok, pos', cp', cb')
    ensures ok ==> pos' <= |input| && cp' <= npix && ReadUpTo(whole, s, input, bpp, npix, pos', cp', cb')
    ensures !ok ==> whole == None
  {
    if ok {
      assert s[..cb'] == s0[..cb] + s[cb .. cb'];
      PrependPrepend(s0[..cb], s[cb .. cb'], Decode(input[pos'..], bpp, npix - cp'));
    }
  }

  /** Once all npix pixels are stored, the buffer holds the decoded pixels and decoding stops at pos. */
  lemma AllRead(whole: Option<Decoded>, s: seq<byte>, input: seq<byte>, bpp: nat, npix: nat, pos: nat, cp: nat, cb: nat)
    requires pos <= |input| && cp == npix && cb == |s|
    requires ReadUpTo(whole, s, input, bpp, npix, pos, cp, cb)
    ensures whole == Some(Decoded(s, input[pos..]))
  {
    assert s[..cb] == s;
    assert s + [] == s;
  }

  /**
   * The outcome of reading one packet at pos into buffer s (s0 before), from
   * pixel cp (byte cb) on: either the packet's pixels are stored after the
   * untouched first cb bytes and decoding goes on at pos' with pixel cp', or
   * decoding fails from pos.
   */
  ghost predicate PacketStored(s: seq<byte>, s0: seq<byte>, bpp: nat, npix: nat, input: seq<byte>, pos: nat,
                               cp: nat, cb: nat, ok: bool, pos': nat, cp': nat, cb': nat)
    requires pos <= |input| && cp < npix
  {
    && (ok ==>
          && cp < cp' <= npix && cb <= cb' && cb' == SizeOf(cp', bpp) <= |s| == |s0| && pos' <= |input|
          && s[..cb] == s0[..cb]
          && DecodesTo(input, bpp, npix - cp, pos, s[cb .. cb'], pos', npix - cp'))
    && (!ok ==> FailsAt(input, bpp, npix - cp, pos))
  }

  /**
   * One packet of load_rle_data: its header byte, then a raw packet's
   * pixels or a run packet's one pixel, stored from pixel cp (byte cb) on.
   */
  method ReadPacket(d: array<byte>, bpp: nat, npix: nat, input: seq<byte>, pos: nat, cp: nat, cb: nat)
    returns (ok: bool, pos': nat, cp': nat, cb': nat)
    requires d.Length == npix * bpp && cp < npix && cb == SizeOf(cp, bpp) && pos <= |input|
    modifies d
    ensures PacketStored(d[..], old(d[..]), bpp, npix, input, pos, cp, cb, ok, pos', cp', cb')
  {
    if pos == |input| {
      PacketAtRejected(input, bpp, npix - cp, pos);
      return false, pos, cp, cb;
    }
    if input[pos] < 128 {
      ok, pos', cp', cb' := ReadRawPacket(d, bpp, npix, input, pos, cp, cb);
    } else {
      ok, pos', cp', cb' := ReadRunPacket(d, bpp, npix, input, pos, cp, cb);
    }
  }

  /** A raw packet at pos: its header byte, then chunkheader + 1 pixels of bpp bytes, each stored as it is read. */
  method ReadRawPacket(d: array<byte>, bpp: nat, npix: nat, input: seq<byte>, pos: nat, cp: nat, cb: nat)
    returns (ok: bool, pos': nat, cp': nat, cb': nat)
    requires d.Length == npix * bpp && cp < npix && cb == SizeOf(cp, bpp) && pos < |input| && input[pos] < 128
    modifies d
    ensures PacketStored(d[..], old(d[..]), bpp, npix, input, pos, cp, cb, ok, pos', cp', cb')
  {
    var chunkheader := input[pos];
    var n: nat := chunkheader as nat + 1;
    ok, pos', cp', cb' := CopyRawPixels(d, bpp, npix, input, pos + 1, n, cp, cb);
    ghost var got := if ok then d[cb .. cb'] else [];
    RawPacketRead(input, bpp, npix - cp, pos, n, ok, pos', got, if ok then npix - cp' else 0);
  }

  /** A run packet at pos: its header byte, then one pixel of bpp bytes, stored chunkheader - 127 times. */
  method ReadRunPacket(d: array<byte>, bpp: nat, npix: nat, input: seq<byte>, pos: nat, cp: nat, cb: nat)
    returns (ok: bool, pos': nat, cp': nat, cb': nat)
    requires d.Length == npix * bpp && cp < npix && cb == SizeOf(cp, bpp) && pos < |input| && input[pos] >= 128
    modifies d
    ensures PacketStored(d[..], old(d[..]), bpp, npix, input, pos, cp, cb, ok, pos', cp', cb')
  {
    var chunkheader := input[pos];
    var n: nat := chunkheader as nat - 127;
    if |input| - (pos + 1) < bpp {
      RunPacketRead(input, bpp, npix - cp, pos, n, false, pos, [], 0);
      return false, pos, cp, cb;
    }
    var colorbuffer := input[pos + 1 .. pos + 1 + bpp];
    ok, cp', cb' := RepeatPixelInto(d, bpp, npix, cp, cb, colorbuffer, n);
    pos' := pos + 1 + bpp;
    ghost var got := if ok then d[cb .. cb'] else [];
    RunPacketRead(input, bpp, npix - cp, pos, n, ok, pos', got, if ok then npix - cp' else 0);
  }

  /** The counters of CopyRawPixels after i of its n pixels, and why each early return is a failure. */
  lemma RawStepBounds(i: nat, n: nat, bpp: nat, pos: nat, pos': nat, cp: nat, cp': nat, cb': nat, npix: nat, len: nat)
    requires i < n && pos' == pos + SizeOf(i, bpp) <= len && cp' == cp + i && cb' == SizeOf(cp', bpp)
    ensures pos' + bpp == pos + SizeOf(i + 1, bpp)
    ensures len - pos' < bpp ==> len - pos < SizeOf(n, bpp)
    ensures cp' >= npix ==> npix - cp < n
    ensures cp' < npix ==> cb' + bpp == SizeOf(cp' + 1, bpp) <= SizeOf(npix, bpp)
  {
    Distrib(i, 1, bpp);
    MulMonotone(i + 1, n, bpp);
    if cp' < npix {
      Distrib(cp', 1, bpp);
      MulMonotone(cp' + 1, npix, bpp);
    }
  }

  /** Storing the next bpp input bytes right after the copied ones extends the copied region. */
  lemma RawGrow(t: seq<byte>, u: seq<byte>, s0: seq<byte>, cb: nat, input: seq<byte>, pos: nat, mid: nat, bpp: nat, cb': nat)
    requires cb' == cb + (mid - pos) && mid + bpp <= |input| && cb' + bpp <= |s0|
    requires Copied(u, s0, cb, input, pos, mid) && t == Splice(u, cb', input[mid .. mid + bpp])
    ensures Copied(t, s0, cb, input, pos, mid + bpp)
  {
    SliceSplit(input, pos, mid, mid + bpp);
    SpliceGrow(s0, cb, input[pos .. mid], input[mid .. mid + bpp], cb', input[pos .. mid + bpp]);
  }

  /** Stores the next pixel read from the input right after the bytes already copied. */
  method StoreNext(d: array<byte>, ghost s0: seq<byte>, cb: nat, ghost input: seq<byte>, ghost pos: nat, ghost mid: nat,
                   bpp: nat, cb': nat, colorbuffer: seq<byte>)
    requires cb' == cb + (mid - pos) && mid + bpp <= |input| && cb' + bpp <= d.Length && |s0| == d.Length
    requires colorbuffer == input[mid .. mid + bpp] && Copied(d[..], s0, cb, input, pos, mid)
    modifies d
    ensures Copied(d[..], s0, cb, input, pos, mid + bpp)
  {
    ghost var u := d[..];
    Store(d, cb', colorbuffer);
    RawGrow(d[..], u, s0, cb, input, pos, mid, bpp, cb');
  }

  /** The bytes input[pos .. pos'] have been copied into s0 at offset cb, and nothing else has changed. */
  ghost predicate Copied(t: seq<byte>, s0: seq<byte>, cb: nat, input: seq<byte>, pos: nat, pos': nat)
  {
    pos <= pos' <= |input| && cb + (pos' - pos) <= |s0| && t == Splice(s0, cb, input[pos .. pos'])
  }

  lemma NothingCopied(s0: seq<byte>, cb: nat, input: seq<byte>, pos: nat)
    requires cb <= |s0| && pos <= |input|
    ensures Copied(s0, s0, cb, input, pos, pos)
  {
    assert Splice(s0, cb, []) == s0;
  }

  lemma CopiedParts(t: seq<byte>, s0: seq<byte>, cb: nat, input: seq<byte>, pos: nat, pos': nat)
    requires Copied(t, s0, cb, input, pos, pos')
    ensures |t| == |s0| && t[..cb] == s0[..cb] && t[cb .. cb + (pos' - pos)] == input[pos .. pos']
  {
  }

  /**
   * The pixels of a raw packet: n times, read bpp bytes from the input at
   * pos, then store them at pixel cp' unless all npix pixels are stored.
   */
  method CopyRawPixels(d: array<byte>, bpp: nat, npix: nat, input: seq<byte>, pos: nat, n: nat, cp: nat, cb: nat)
    returns (ok: bool, pos': nat, cp': nat, cb': nat)
    requires d.Length == npix * bpp && cp <= npix && cb == SizeOf(cp, bpp) && pos <= |input|
    modifies d
    ensures ok ==> cp' == cp + n <= npix && pos' == pos + SizeOf(n, bpp) <= |input|
    ensures ok ==> cb <= cb' && cb' == SizeOf(cp', bpp) <= d.Length
    ensures ok ==> d[..cb] == old(d[..cb]) && d[cb .. cb'] == input[pos .. pos']
    ensures !ok ==> npix - cp < n || |input| - pos < SizeOf(n, bpp)
  {
    ghost var s0 := d[..];
    pos', cp', cb' := pos, cp, cb;
    NothingCopied(s0, cb, input, pos);
    var i: nat := 0;
    while i < n
      invariant i <= n && cp' == cp + i <= npix && cb' == SizeOf(cp', bpp) && cb <= cb' <= d.Length
      invariant pos' == pos + SizeOf(i, bpp) <= |input| && cb' - cb == pos' - pos
      invariant Copied(d[..], s0, cb, input, pos, pos')
    {
      RawStepBounds(i, n, bpp, pos, pos', cp, cp', cb', npix, |input|);
      if |input| - pos' < bpp {
        return false, pos', cp', cb';
      }
      var colorbuffer := input[pos' .. pos' + bpp];
      if cp' >= npix {
        return false, pos', cp', cb';
      }
      StoreNext(d, s0, cb, input, pos, pos', bpp, cb', colorbuffer);
      cp', cb', pos', i := cp' + 1, cb' + bpp, pos' + bpp, i + 1;
    }
    CopiedParts(d[..], s0, cb, input, pos, pos');
    ok := true;
  }

  /** The pixels of a run packet: n times, store the colour at pixel cp' unless all npix pixels are stored. */
  method RepeatPixelInto(d: array<byte>, bpp: nat, npix: nat, cp: nat, cb: nat, colorbuffer: seq<byte>, n: nat)
    returns (ok: bool, cp': nat, cb': nat)
    requires d.Length == npix * bpp && cp <= npix && cb == SizeOf(cp, bpp) && |colorbuffer| == bpp
    modifies d
    ensures ok ==> cp' == cp + n <= npix && cb <= cb' && cb' == SizeOf(cp', bpp) <= d.Length
    ensures ok ==> d[..cb] == old(d[..cb]) && d[cb .. cb'] == Repeat(colorbuffer, n)
    ensures !ok ==> npix - cp < n
  {
    cp', cb' := cp, cb;
    var i: nat := 0;
    while i < n
      invariant i <= n && cp' == cp + i <= npix && cb' == SizeOf(cp', bpp) && cb <= cb' <= d.Length
      invariant d[..cb] == old(d[..cb]) && d[cb .. cb'] == Repeat(colorbuffer, i)
    {
      if cp' >= npix {
        return false, cp', cb';
      }
      Distrib(cp', 1, bpp);
      MulMonotone(cp' + 1, npix, bpp);
      ghost var s := d[..];
      Store(d, cb', colorbuffer);
      assert d[cb .. cb' + bpp] == s[cb .. cb'] + colorbuffer;
      cp', cb', i := cp' + 1, cb' + bpp, i + 1;
    }
    ok := true;
  }

  // ---------------------------------------------------------------------
  // scale

  /** Line y of lines of L bytes ends at byte (y + 1) * L, inside a buffer of h lines. */
  lemma LineInside(y: nat, h: nat, L: nat)
    requires y < h
    ensures SizeOf(y, L) + L == SizeOf(y + 1, L) <= SizeOf(h, L)
  {
    Distrib(y, 1, L);
    MulMonotone(y + 1, h, L);
  }

  /**
   * The first x pixels of the row resampled from original row j stand
   * from byte nscanline on in t, and t is t0 everywhere else.
   */
  ghost predicate RowBuilt(t: seq<byte>, t0: seq<byte>, s: seq<byte>, w0: nat, h0: nat, bpp: nat, w: nat,
                           j: nat, x: nat, nscanline: nat)
  {
    && w0 >= 1 && w >= 1 && j < h0 && x <= w && |s| == w0 * h0 * bpp
    && |t| == |t0| && nscanline + SizeOf(x, bpp) <= |t0|
    && t == Splice(t0, nscanline, RowPrefix(s, w0, h0, bpp, w, j, x))
  }

  /**
   * The memcpy of scale's column pass: output pixel x of the row being
   * built from byte nscanline on becomes a copy of original pixel (i, j),
   * read from byte soff = oscanline + i * bpp.
   */
  method CopyPixel(t: array<byte>, d: array<byte>, w0: nat, h0: nat, bpp: nat, w: nat, ghost j: nat, ghost i: nat,
                   ghost x: nat, ghost nscanline: nat, ghost oscanline: nat, doff: nat, soff: nat, ghost t0: seq<byte>)
    requires t != d && w0 >= 1 && w >= 1 && j < h0 && i < w0 && x < w && d.Length == w0 * h0 * bpp
    requires SrcIndex(x, w0, w) == i && oscanline == SizeOf(j, SizeOf(w0, bpp))
    requires doff == nscanline + SizeOf(x, bpp) && soff == oscanline + SizeOf(i, bpp)
    requires nscanline + SizeOf(w, bpp) <= t.Length && RowBuilt(t[..], t0, d[..], w0, h0, bpp, w, j, x, nscanline)
    modifies t
    ensures RowBuilt(t[..], t0, d[..], w0, h0, bpp, w, j, x + 1, nscanline)
  {
    ghost var u, s := t[..], d[..];
    ghost var p := CopyInside(u, t0, s, w0, h0, bpp, w, j, i, x, nscanline, oscanline, doff, soff);
    Move(t, doff, d, soff, bpp);
    PixelCopied(t[..], u, t0, s, w0, h0, bpp, w, j, p, x, nscanline, doff, soff);
  }

  /** The pixel read by scale's memcpy lies in the original buffer, and the one written lies in the new row. */
  lemma CopyInside(u: seq<byte>, t0: seq<byte>, s: seq<byte>, w0: nat, h0: nat, bpp: nat, w: nat, j: nat, i: nat,
                   x: nat, nscanline: nat, oscanline: nat, doff: nat, soff: nat) returns (p: nat)
    requires w0 >= 1 && w >= 1 && j < h0 && i < w0 && x < w && |s| == w0 * h0 * bpp
    requires SrcIndex(x, w0, w) == i && oscanline == SizeOf(j, SizeOf(w0, bpp)) && soff == oscanline + SizeOf(i, bpp)
    requires doff == nscanline + SizeOf(x, bpp) && nscanline + SizeOf(w, bpp) <= |u|
    ensures p == SrcIndex(x, w0, w) + j * w0 && soff == p * bpp && soff + bpp <= |s| && doff + bpp <= |u|
  {
    p := i + SizeOf(j, w0);
    Assoc(j, w0, bpp);
    Distrib(j * w0, i, bpp);
    MulMonotone(j + 1, h0, w0);
    Distrib(j, 1, w0);
    MulMonotone(p + 1, w0 * h0, bpp);
    Distrib(p, 1, bpp);
    LineInside(x, w, bpp);
  }

  /** Copying original pixel p (column SrcIndex(x, w0, w) of row j) to output pixel x of the row being built extends the row by that pixel. */
  lemma PixelCopied(t: seq<byte>, u: seq<byte>, t0: seq<byte>, s: seq<byte>, w0: nat, h0: nat, bpp: nat, w: nat,
                    j: nat, p: nat, x: nat, nscanline: nat, doff: nat, soff: nat)
    requires w0 >= 1 && w >= 1 && j < h0 && x < w && |s| == w0 * h0 * bpp
    requires p == SrcIndex(x, w0, w) + j * w0 && soff == p * bpp && soff + bpp <= |s|
    requires doff == nscanline + SizeOf(x, bpp) && nscanline + SizeOf(w, bpp) <= |u|
    requires RowBuilt(u, t0, s, w0, h0, bpp, w, j, x, nscanline) && doff + bpp <= |u|
    requires t == Splice(u, doff, s[soff .. soff + bpp])
    ensures RowBuilt(t, t0, s, w0, h0, bpp, w, j, x + 1, nscanline)
  {
    LineInside(x, w, bpp);
    MulMonotone(x + 1, w, bpp);
    RowPrefixNext(s, w0, h0, bpp, w, j, x);
    PixelAtIs(s, bpp, p, soff);
    SpliceExtend(t, u, t0, nscanline, RowPrefix(s, w0, h0, bpp, w, j, x), PixelAt(s, bpp, p),
                 RowPrefix(s, w0, h0, bpp, w, j, x + 1), doff);
  }

  /** Writing px right after a block rp spliced in at nscanline splices in rp' == rp + px. */
  lemma SpliceExtend(t: seq<byte>, u: seq<byte>, t0: seq<byte>, nscanline: nat, rp: seq<byte>, px: seq<byte>,
                     rp': seq<byte>, doff: nat)
    requires nscanline + |rp| + |px| <= |t0| && u == Splice(t0, nscanline, rp)
    requires doff == nscanline + |rp| && t == Splice(u, doff, px) && rp' == rp + px
    ensures t == Splice(t0, nscanline, rp')
  {
    SpliceAppend(t0, nscanline, rp, px);
  }

  /**
   * The column pass of scale for original row j: errx gains w per original
   * pixel, and each time it reaches w0 one output pixel is emitted as a copy
   * of the current original pixel. The w output pixels of the row land from
   * byte nscanline on; nothing else changes.
   */
  method ScaleRow(t: array<byte>, d: array<byte>, w0: nat, h0: nat, bpp: nat, w: nat, j: nat, nscanline: nat, oscanline: nat)
    requires t != d && w0 >= 1 && w >= 1 && j < h0 && d.Length == w0 * h0 * bpp
    requires oscanline == SizeOf(j, SizeOf(w0, bpp)) && nscanline + SizeOf(w, bpp) <= t.Length
    modifies t
    ensures t[..] == Splice(old(t[..]), nscanline, RowPrefix(d[..], w0, h0, bpp, w, j, w))
  {
    ghost var t0 := t[..];
    ghost var s := d[..];
    assert t[..] == Splice(t0, nscanline, RowPrefix(s, w0, h0, bpp, w, j, 0));
    MulMonotone(0, w, bpp);
    var errx: int := 0;
    var nx: int := -(bpp as int);
    var ox: int := -(bpp as int);
    ghost var x: nat := 0;
    var i: nat := 0;
    while i < w0
      invariant i <= w0 && x <= w
      invariant errx == i * w - x * w0 && 0 <= errx < w0
      invariant nx == SizeOf(x, bpp) - bpp && ox == SizeOf(i, bpp) - bpp
      invariant RowBuilt(t[..], t0, s, w0, h0, bpp, w, j, x, nscanline)
    {
      ox := ox + bpp;
      errx := errx + w;
      Distrib(i, 1, w);
      Distrib(i, 1, bpp);
      errx, nx, x := EmitPixels(t, d, t0, w0, h0, bpp, w, j, i, nscanline, oscanline, errx, nx, ox, x);
      i := i + 1;
    }
    ErrorCountEnd(x, w0, w, errx);
  }

  /**
   * The inner loop of scale's row pass for original column i: while errx
   * reaches w0, the next pixel of the resampled row is a copy of pixel (i, j).
   */
  method EmitPixels(t: array<byte>, d: array<byte>, ghost t0: seq<byte>, w0: nat, h0: nat, bpp: nat, w: nat, ghost j: nat,
                    ghost i: nat, nscanline: nat, oscanline: nat, errx: int, nx: int, ox: nat, ghost x: nat)
    returns (errx': int, nx': int, ghost x': nat)
    requires t != d && w0 >= 1 && w >= 1 && j < h0 && i < w0 && d.Length == w0 * h0 * bpp
    requires oscanline == SizeOf(j, SizeOf(w0, bpp)) && nscanline + SizeOf(w, bpp) <= t.Length
    requires x <= w && errx == (i + 1) * w - x * w0 && 0 <= errx < w0 + w
    requires nx == SizeOf(x, bpp) - bpp && ox == SizeOf(i, bpp)
    requires RowBuilt(t[..], t0, d[..], w0, h0, bpp, w, j, x, nscanline)
    modifies t
    ensures x' <= w && errx' == (i + 1) * w - x' * w0 && 0 <= errx' < w0
    ensures nx' == SizeOf(x', bpp) - bpp
    ensures RowBuilt(t[..], t0, d[..], w0, h0, bpp, w, j, x', nscanline)
  {
    errx', nx', x' := errx, nx, x;
    while errx' >= w0
      invariant x' <= w
      invariant errx' == (i + 1) * w - x' * w0 && 0 <= errx' < w0 + w
      invariant nx' == SizeOf(x', bpp) - bpp
      invariant RowBuilt(t[..], t0, d[..], w0, h0, bpp, w, j, x', nscanline)
      decreases errx'
    {
      SrcIndexByError(x', i, w0, w, errx');
      errx' := errx' - w0;
      nx' := nx' + bpp;
      CopyPixel(t, d, w0, h0, bpp, w, j, i, x', nscanline, oscanline, nscanline + nx', oscanline + ox, t0);
      Distrib(x', 1, bpp);
      x' := x' + 1;
    }
  }

  /**
   * The line pass of scale after original row j, whose resampled row sits
   * at byte nscanline: erry gains h, and each time it reaches h0 one output
   * line is emitted; while at least two lines remain to emit, the row is
   * first copied to the next line.
   */
  method EmitLines(t: array<byte>, ghost s: seq<byte>, w0: nat, h0: nat, bpp: nat, w: nat, h: nat, ghost j: nat,
                   nlinebytes: nat, erry: int, nscanline: nat, ghost y: nat)
    returns (erry': int, nscanline': nat, ghost y': nat)
    requires w0 >= 1 && h0 >= 1 && w >= 1 && h >= 1 && j < h0 && |s| == w0 * h0 * bpp
    requires nlinebytes == SizeOf(w, bpp) && t.Length == SizeOf(h, nlinebytes)
    requires y < h && nscanline == SizeOf(y, nlinebytes) && nscanline + nlinebytes <= t.Length
    requires erry == (j + 1) * h - y * h0 && h <= erry < h0 + h
    requires t[..nscanline] == ScaledLines(s, w0, h0, bpp, w, h, y)
    requires t[nscanline .. nscanline + nlinebytes] == RowPrefix(s, w0, h0, bpp, w, j, w)
    modifies t
    ensures y' <= h && nscanline' == SizeOf(y', nlinebytes) <= t.Length
    ensures erry' == (j + 1) * h - y' * h0 && 0 <= erry' < h0
    ensures t[..nscanline'] == ScaledLines(s, w0, h0, bpp, w, h, y')
  {
    erry', nscanline', y' := erry, nscanline, y;
    while erry' >= h0
      invariant y' <= h && nscanline' == SizeOf(y', nlinebytes) <= t.Length
      invariant erry' == (j + 1) * h - y' * h0 && 0 <= erry' < h0 + h
      invariant t[..nscanline'] == ScaledLines(s, w0, h0, bpp, w, h, y')
      invariant erry' >= h0 ==>
        && nscanline' + nlinebytes <= t.Length
        && t[nscanline' .. nscanline' + nlinebytes] == RowPrefix(s, w0, h0, bpp, w, j, w)
      decreases erry'
    {
      var erry2, nscanline2 := erry' - h0, nscanline' + nlinebytes;
      ghost var y2 := y' + 1;
      EmitStep(s, w0, h0, bpp, w, h, j, nlinebytes, t.Length, erry', nscanline', y', erry2, nscanline2, y2);
      ghost var u := t[..];
      ghost var lines, row := ScaledLines(s, w0, h0, bpp, w, h, y'), RowPrefix(s, w0, h0, bpp, w, j, w);
      if erry2 >= h0 {
        Move(t, nscanline2, t, nscanline', nlinebytes);
        LineRepeated(u, nscanline', nscanline2, nlinebytes, lines, row, t[..]);
      } else {
        LineEmitted(u, nscanline', nscanline2, lines, row);
      }
      erry', nscanline', y' := erry2, nscanline2, y2;
    }
  }

  /** The lines emitted so far followed by the resampled row are the lines emitted after one more. */
  lemma LineEmitted(u: seq<byte>, a: nat, b: nat, lines: seq<byte>, row: seq<byte>)
    requires a <= b <= |u| && u[..a] == lines && u[a..b] == row
    ensures u[..b] == lines + row
  {
    assert u[..b] == u[..a] + u[a..b];
  }

  /** Copying the emitted row to the next line keeps what is emitted and starts the next line with the same row. */
  lemma LineRepeated(u: seq<byte>, a: nat, b: nat, L: nat, lines: seq<byte>, row: seq<byte>, u': seq<byte>)
    requires b == a + L && b + L <= |u| && u[..a] == lines && u[a..b] == row
    requires u' == Splice(u, b, u[a .. a + L])
    ensures u'[..b] == lines + row && u'[b .. b + L] == row
  {
    LineEmitted(u, a, b, lines, row);
  }

  /**
   * One emitted line: the counters move on by one line, the line emitted is
   * the resampled row j, and when the counter still reaches h0 there is room
   * for the next line.
   */
  lemma EmitStep(s: seq<byte>, w0: nat, h0: nat, bpp: nat, w: nat, h: nat, j: nat, nlinebytes: nat, len: nat,
                 erry: int, nscanline: nat, y: nat, erry2: int, nscanline2: nat, y2: nat)
    requires w0 >= 1 && h0 >= 1 && w >= 1 && h >= 1 && j < h0 && |s| == w0 * h0 * bpp && len == SizeOf(h, nlinebytes)
    requires y <= h && nscanline == SizeOf(y, nlinebytes) && erry == (j + 1) * h - y * h0 && h0 <= erry < h0 + h
    requires erry2 == erry - h0 && nscanline2 == nscanline + nlinebytes && y2 == y + 1
    ensures y2 <= h && nscanline2 == SizeOf(y2, nlinebytes) <= len
    ensures erry2 == (j + 1) * h - y2 * h0 && 0 <= erry2 < h0 + h
    ensures erry2 >= h0 ==> nscanline2 + nlinebytes <= len
    ensures ScaledLines(s, w0, h0, bpp, w, h, y2) == ScaledLines(s, w0, h0, bpp, w, h, y) + RowPrefix(s, w0, h0, bpp, w, j, w)
  {
    SrcIndexByError(y, j, h0, h, erry);
    ScaledLinesNext(s, w0, h0, bpp, w, h, y);
    LineInside(y, h, nlinebytes);
    if erry2 >= h0 {
      SrcIndexByError(y2, j, h0, h, erry2);
      LineInside(y2, h, nlinebytes);
    }
  }

  /**
   * One pass of the outer loop of scale: original row j is resampled into
   * the line at nscanline and emitted, keeping the loop's counters in step.
   */
  method ScaleLine(t: array<byte>, d: array<byte>, ghost s: seq<byte>, bpp: nat, w0: nat, h0: nat, w: nat, h: nat, j: nat,
                   nlinebytes: nat, olinebytes: nat, erry: int, nscanline: nat, oscanline: nat, ghost y: nat)
    returns (erry': int, nscanline': nat, oscanline': nat, ghost y': nat)
    requires t != d && w0 >= 1 && h0 >= 1 && w >= 1 && h >= 1 && j < h0
    requires d.Length == w0 * h0 * bpp && s == d[..]
    requires nlinebytes == SizeOf(w, bpp) && olinebytes == SizeOf(w0, bpp) && t.Length == SizeOf(h, nlinebytes)
    requires y <= h && erry == j * h - y * h0 && 0 <= erry < h0
    requires nscanline == SizeOf(y, nlinebytes) <= t.Length && oscanline == SizeOf(j, olinebytes)
    requires t[..nscanline] == ScaledLines(s, w0, h0, bpp, w, h, y)
    modifies t
    ensures y' <= h && erry' == (j + 1) * h - y' * h0 && 0 <= erry' < h0
    ensures nscanline' == SizeOf(y', nlinebytes) <= t.Length && oscanline' == SizeOf(j + 1, olinebytes)
    ensures t[..nscanline'] == ScaledLines(s, w0, h0, bpp, w, h, y')
  {
    ErrorCountBelow(y, j, h0, h, erry);
    LineInside(y, h, nlinebytes);
    ghost var before := t[..];
    ScaleRow(t, d, w0, h0, bpp, w, j, nscanline, oscanline);
    assert t[..nscanline] == before[..nscanline];
    Distrib(j, 1, h);
    Distrib(j, 1, olinebytes);
    oscanline' := oscanline + olinebytes;
    erry', nscanline', y' := EmitLines(t, s, w0, h0, bpp, w, h, j, nlinebytes, erry + h, nscanline, y);
  }

  /**
   * The loops of scale: every original row is resampled into the line at
   * nscanline, which is then emitted as often as the vertical error counter
   * says. The new buffer ends up holding the resampled image.
   */
  method ScaleInto(t: array<byte>, d: array<byte>, bpp: nat, w0: nat, h0: nat, w: nat, h: nat)
    requires t != d && w0 >= 1 && h0 >= 1 && w >= 1 && h >= 1
    requires d.Length == w0 * h0 * bpp && t.Length == w * h * bpp
    modifies t
    ensures t[..] == Scaled(d[..], w0, h0, bpp, w, h)
  {
    ghost var s := d[..];
    var nscanline: nat := 0;
    var oscanline: nat := 0;
    var erry: int := 0;
    var nlinebytes := SizeOf(w, bpp);
    var olinebytes := SizeOf(w0, bpp);
    Assoc(h, w, bpp);
    assert t.Length == SizeOf(h, nlinebytes);
    ghost var y: nat := 0;
    var j: nat := 0;
    while j < h0
      invariant j <= h0 && y <= h
      invariant erry == j * h - y * h0 && 0 <= erry < h0
      invariant nscanline == SizeOf(y, nlinebytes) <= t.Length && oscanline == SizeOf(j, olinebytes)
      invariant t[..nscanline] == ScaledLines(s, w0, h0, bpp, w, h, y)
    {
      erry, nscanline, oscanline, y := ScaleLine(t, d, s, bpp, w0, h0, w, h, j, nlinebytes, olinebytes, erry, nscanline, oscanline, y);
      j := j + 1;
    }
    ErrorCountEnd(y, h0, h, erry);
    assert t[..] == t[..nscanline];
  }
}
