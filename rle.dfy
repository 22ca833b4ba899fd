/**
 * Run-length encoded pixel data of a TGA file (data type codes 10 and 11).
 * The data is a sequence of packets. A packet starts with a header byte:
 * below 128 it announces a raw packet of header + 1 literal pixels, from 128
 * on a run packet of header - 127 copies of the single pixel that follows.
 */
module Rle {
  import opened Wrappers
  import opened Bytes
  import opened Arith
  import opened Pixels

  /** The longest packet, in pixels (max_chunk_length). */
  const MaxChunkLength: nat := 128

  // ---------------------------------------------------------------------
  // Packet headers

  /** Whether a packet header byte announces a raw packet. */
  predicate IsRawHeader(h: byte)
  {
    h < 128
  }

  /** The number of pixels a packet header byte announces. */
  function PacketLength(h: byte): nat
  {
    if IsRawHeader(h) then h as nat + 1 else h as nat - 127
  }

  /** The header byte written for a packet of `len` pixels. */
  function PacketHeader(raw: bool, len: nat): byte
    requires 1 <= len <= MaxChunkLength
  {
    if raw then (len - 1) as byte else (len + 128 - 1) as byte
  }

  /** A written header byte reads back as the same kind and length of packet. */
  lemma PacketHeaderRoundTrip(raw: bool, len: nat)
    requires 1 <= len <= MaxChunkLength
    ensures IsRawHeader(PacketHeader(raw, len)) == raw
    ensures PacketLength(PacketHeader(raw, len)) == len
  {
  }

  /** Every header byte is the header of the packet it announces, so every byte is a valid header. */
  lemma HeaderOfPacketLength(h: byte)
    ensures 1 <= PacketLength(h) <= MaxChunkLength
    ensures PacketHeader(IsRawHeader(h), PacketLength(h)) == h
  {
  }

  // ---------------------------------------------------------------------
  // Decoding (TGAImage::load_rle_data)

  /** `n` copies of the pixel p. */
  function Repeat(p: seq<byte>, n: nat): seq<byte>
  {
    if n == 0 then [] else Repeat(p, n - 1) + p
  }

  lemma {:induction false} RepeatLength(p: seq<byte>, n: nat)
    ensures |Repeat(p, n)| == n * |p|
  {
    if n > 0 {
      RepeatLength(p, n - 1);
      Distrib(n - 1, 1, |p|);
    }
  }

  /** Every pixel of a repetition is the repeated pixel. */
  lemma {:induction false} RepeatPixel(p: seq<byte>, n: nat, k: nat)
    requires k < n
    ensures PixelAt(Repeat(p, n), |p|, k) == p
  {
    Distrib(n - 1, 1, |p|);
    RepeatLength(p, n - 1);
    if k < n - 1 {
      RepeatPixel(p, n - 1, k);
      MulMonotone(k + 1, n - 1, |p|);
      PixelOfPrefix(Repeat(p, n - 1), p, |p|, k);
    } else {
      PixelOfSuffix(Repeat(p, n - 1), p, |p|, n - 1, 0);
    }
  }

  /** The decoded pixel bytes and the input that follows the last packet. */
  datatype Decoded = Decoded(pixels: seq<byte>, rest: seq<byte>)

  /** Prefixes `px` to a successful decoding; a failure stays a failure. */
  function Prepend(px: seq<byte>, r: Option<Decoded>): (r': Option<Decoded>)
    ensures r'.Some? <==> r.Some?
    ensures r.Some? ==> r'.value.pixels == px + r.value.pixels && r'.value.rest == r.value.rest
  {
    match r
    case None => None
    case Some(d) => Some(Decoded(px + d.pixels, d.rest))
  }

  /** A successful decoding with px prefixed came from a successful decoding. */
  lemma PrependSome(px: seq<byte>, r: Option<Decoded>, r': Option<Decoded>)
    requires r' == Prepend(px, r) && r'.Some?
    ensures r.Some? && |r'.value.pixels| == |px| + |r.value.pixels| && r'.value.rest == r.value.rest
  {
  }

  lemma PrependNothing(r: Option<Decoded>)
    ensures Prepend([], r) == r
  {
    if r.Some? {
      assert [] + r.value.pixels == r.value.pixels;
    }
  }

  lemma PrependPrepend(a: seq<byte>, b: seq<byte>, r: Option<Decoded>)
    ensures Prepend(a, Prepend(b, r)) == Prepend(a + b, r)
  {
    if r.Some? {
      assert a + (b + r.value.pixels) == (a + b) + r.value.pixels;
    }
  }

  /**
   * The decoding of `count` pixels of `bpp` bytes from the start of `input`.
   * It fails when the input ends inside a packet, and when a packet announces
   * more pixels than are still missing.
   */
  function Decode(input: seq<byte>, bpp: nat, count: nat): (r: Option<Decoded>)
    decreases |input|
  {
    if count == 0 then Some(Decoded([], input))
    else if |input| == 0 || |input| - 1 < PayloadSize(input[0], bpp) || count < PacketLength(input[0]) then None
    else
      var k := 1 + PayloadSize(input[0], bpp);
      Prepend(PacketPixels(input[0], input[1 .. k]), Decode(input[k..], bpp, count - PacketLength(input[0])))
  }

  /** The number of bytes that follow header byte h: all its pixels (raw) or its one pixel (run). */
  function PayloadSize(h: byte, bpp: nat): nat
  {
    if IsRawHeader(h) then PacketLength(h) * bpp else bpp
  }

  /** The pixels a packet with header byte h and the given payload stands for. */
  function PacketPixels(h: byte, payload: seq<byte>): seq<byte>
  {
    if IsRawHeader(h) then payload else Repeat(payload, PacketLength(h))
  }

  /** A successful decoding of at least one pixel starts with a whole packet that is not too long. */
  lemma DecodeFirstPacket(input: seq<byte>, bpp: nat, count: nat)
    requires count >= 1 && Decode(input, bpp, count).Some?
    ensures |input| >= 1 && PacketLength(input[0]) <= count
    ensures IsRawHeader(input[0]) ==> PacketLength(input[0]) * bpp <= |input| - 1
    ensures !IsRawHeader(input[0]) ==> bpp <= |input| - 1
  {
  }

  /** A successful decoding of at least one pixel reads a first packet of n pixels, then decodes the rest. */
  lemma DecodeUnfold(input: seq<byte>, bpp: nat, count: nat) returns (n: nat, next: seq<byte>)
    requires count >= 1 && Decode(input, bpp, count).Some?
    ensures n <= count && |next| < |input|
    ensures Decode(next, bpp, count - n).Some?
    ensures |Decode(input, bpp, count).value.pixels| == n * bpp + |Decode(next, bpp, count - n).value.pixels|
  {
    DecodeFirstPacket(input, bpp, count);
    n := PacketLength(input[0]);
    var payload: seq<byte>;
    if IsRawHeader(input[0]) {
      payload, next := input[1 .. 1 + n * bpp], input[1 + n * bpp ..];
      DecodeRawStep(input, bpp, count, n, payload, next, count - n);
    } else {
      payload, next := Repeat(input[1 .. 1 + bpp], n), input[1 + bpp ..];
      DecodeRunStep(input, bpp, count, n, payload, next, count - n);
      RepeatLength(input[1 .. 1 + bpp], n);
    }
    PrependSome(payload, Decode(next, bpp, count - n), Decode(input, bpp, count));
  }

  /** A successful decoding yields exactly count pixels of bpp bytes. */
  lemma {:induction false} DecodeShape(input: seq<byte>, bpp: nat, count: nat)
    ensures Shaped(input, bpp, count)
    decreases |input|
  {
    if count > 0 && Decode(input, bpp, count).Some? {
      var n, next := DecodeUnfold(input, bpp, count);
      DecodeShape(next, bpp, count - n);
      ShapeStep(input, next, bpp, count, n);
    }
  }

  /** A decoding that succeeds yields count pixels of bpp bytes. */
  ghost predicate Shaped(input: seq<byte>, bpp: nat, count: nat)
  {
    Decode(input, bpp, count).Some? ==>
      var d := Decode(input, bpp, count).value;
      |d.pixels| == count * bpp
  }

  /** A first packet of n pixels followed by a well-shaped decoding of the other count - n pixels is well-shaped. */
  lemma ShapeStep(input: seq<byte>, next: seq<byte>, bpp: nat, count: nat, n: nat)
    requires count >= 1 && Decode(input, bpp, count).Some?
    requires n <= count
    requires Decode(next, bpp, count - n).Some?
    requires |Decode(input, bpp, count).value.pixels| == n * bpp + |Decode(next, bpp, count - n).value.pixels|
    requires Shaped(next, bpp, count - n)
    ensures Shaped(input, bpp, count)
  {
    Distrib(n, count - n, bpp);
  }

  /** Decoding succeeds on an input only if that input is not empty and holds at least one pixel. */
  lemma DecodeNeedsInput(input: seq<byte>, bpp: nat, count: nat)
    requires count >= 1 && Decode(input, bpp, count).Some?
    ensures |input| >= 1 + bpp
  {
    var h := input[0];
    var n := PacketLength(h);
    if IsRawHeader(h) {
      MulMonotone(1, n, bpp);
    }
  }

  // ---------------------------------------------------------------------
  // Encoding (TGAImage::unload_rle_data)

  /** The npix pixels of a buffer, one entry per pixel. */
  function PixelList(d: seq<byte>, bpp: nat, npix: nat): (px: seq<seq<byte>>)
    ensures |px| == npix
  {
    if npix == 0 then [] else PixelList(d, bpp, npix - 1) + [PixelAt(d, bpp, npix - 1)]
  }

  /** Entry k of the pixel list is pixel k. */
  lemma {:induction false} PixelListAt(d: seq<byte>, bpp: nat, npix: nat, k: nat)
    requires k < npix
    ensures PixelList(d, bpp, npix)[k] == PixelAt(d, bpp, k)
  {
    if k < npix - 1 {
      PixelListAt(d, bpp, npix - 1, k);
    }
  }

  /** A packet of `len` pixels starting at pixel `start`; raw or a run. */
  datatype Packet = Packet(raw: bool, start: nat, len: nat)

  /** All pixels start, ..., start + len - 1 equal pixel start. */
  ghost predicate Uniform(px: seq<seq<byte>>, start: nat, len: nat)
    requires start + len <= |px|
  {
    forall k :: start <= k < start + len ==> px[k] == px[start]
  }

  /** No two neighbours among pixels start, ..., start + len - 1 are equal. */
  ghost predicate Distinct(px: seq<seq<byte>>, start: nat, len: nat)
    requires start + len <= |px|
  {
    forall k :: start <= k && k + 1 < start + len ==> px[k] != px[k + 1]
  }

  /**
   * The scan of unload_rle_data's inner loop from a packet of `len` pixels
   * at `start`: pixel start + len - 1 is compared with its successor; the
   * first comparison decides raw or run; a raw packet stops before a pixel
   * equal to its successor (which then starts a run), a run stops at a
   * different pixel; both stop at 128 pixels or at the last pixel.
   */
  function Scan(px: seq<seq<byte>>, start: nat, len: nat, raw: bool): (p: Packet)
    requires 1 <= len <= MaxChunkLength && start + len <= |px|
    requires raw || len >= 2
    decreases MaxChunkLength - len
    ensures p.start == start && 1 <= p.len <= MaxChunkLength && start + p.len <= |px|
    ensures !p.raw ==> p.len >= 2
  {
    if start + len < |px| && len < MaxChunkLength then
      var eq := px[start + len - 1] == px[start + len];
      var raw' := if len == 1 then !eq else raw;
      if raw' && eq then Packet(raw', start, len - 1)
      else if !raw' && !eq then Packet(raw', start, len)
      else Scan(px, start, len + 1, raw')
    else
      Packet(raw, start, len)
  }

  /** One comparison of the scan: it ends the packet, or the scan goes on with one more pixel. */
  lemma ScanStep(px: seq<seq<byte>>, start: nat, len: nat, raw: bool, eq: bool, raw': bool)
    requires 1 <= len < MaxChunkLength && start + len < |px| && (raw || len >= 2)
    requires eq == (px[start + len - 1] == px[start + len]) && raw' == if len == 1 then !eq else raw
    ensures raw' && eq ==> Scan(px, start, len, raw) == Packet(raw', start, len - 1)
    ensures !raw' && !eq ==> Scan(px, start, len, raw) == Packet(raw', start, len)
    ensures raw' != eq ==> Scan(px, start, len, raw) == Scan(px, start, len + 1, raw')
  {
  }

  /** A run packet holds at least two pixels, all equal; a raw packet holds no two equal neighbours. */
  ghost predicate WellShaped(px: seq<seq<byte>>, p: Packet)
    requires p.start + p.len <= |px|
  {
    (!p.raw ==> p.len >= 2 && Uniform(px, p.start, p.len))
    && (p.raw ==> Distinct(px, p.start, p.len))
  }

  /** A scan that starts distinct (raw) or uniform (run) ends with a well-shaped packet. */
  lemma {:induction false} ScanShape(px: seq<seq<byte>>, start: nat, len: nat, raw: bool)
    requires 1 <= len <= MaxChunkLength && start + len <= |px|
    requires raw || len >= 2
    requires raw ==> Distinct(px, start, len)
    requires !raw ==> Uniform(px, start, len)
    ensures WellShaped(px, Scan(px, start, len, raw))
    decreases MaxChunkLength - len
  {
    if start + len < |px| && len < MaxChunkLength {
      var eq := px[start + len - 1] == px[start + len];
      var raw' := if len == 1 then !eq else raw;
      if raw' && eq {
      } else if !raw' && !eq {
      } else {
        if raw' {
          assert Distinct(px, start, len + 1);
        } else {
          assert Uniform(px, start, len + 1);
        }
        ScanShape(px, start, len + 1, raw');
      }
    }
  }

  /** The packets lie back to back from pixel `from` to pixel `to`, 1 to 128 pixels each. */
  ghost predicate Tiles(ps: seq<Packet>, from: nat, to: nat)
    decreases |ps|
  {
    if ps == [] then from == to
    else ps[0].start == from && 1 <= ps[0].len <= MaxChunkLength && Tiles(ps[1..], from + ps[0].len, to)
  }

  /**
   * The packets that cover pixels cur, ..., |px| - 1, as unload_rle_data
   * cuts them: exactly once each, in order, 1 to 128 at a time.
   */
  function Chunks(px: seq<seq<byte>>, cur: nat): (ps: seq<Packet>)
    requires cur <= |px|
    decreases |px| - cur
    ensures Tiles(ps, cur, |px|)
  {
    if cur == |px| then []
    else
      var p := Scan(px, cur, 1, true);
      var ps := [p] + Chunks(px, p.start + p.len);
      assert ps[1..] == Chunks(px, p.start + p.len);
      ps
  }

  /** Every packet the encoder cuts is well shaped. */
  lemma {:induction false} ChunksShape(px: seq<seq<byte>>, cur: nat)
    requires cur <= |px|
    ensures AllWellShaped(px, Chunks(px, cur))
    decreases |px| - cur
  {
    if cur < |px| {
      var p := Scan(px, cur, 1, true);
      ChunksCons(px, cur);
      ScanShape(px, cur, 1, true);
      ChunksShape(px, p.start + p.len);
    }
  }

  /** The first packet cut from pixel cur on is the scanned one; the others are cut after it. */
  lemma ChunksCons(px: seq<seq<byte>>, cur: nat)
    requires cur < |px|
    ensures Chunks(px, cur) != [] && Chunks(px, cur)[0] == Scan(px, cur, 1, true)
    ensures Chunks(px, cur)[1..] == Chunks(px, cur + Scan(px, cur, 1, true).len)
  {
  }

  /** Every packet in the list lies within px and is well shaped. */
  ghost predicate AllWellShaped(px: seq<seq<byte>>, ps: seq<Packet>)
    decreases |ps|
  {
    ps == [] || (ps[0].start + ps[0].len <= |px| && WellShaped(px, ps[0]) && AllWellShaped(px, ps[1..]))
  }

  /** The bytes of one packet: its header, then all its pixels (raw) or its one pixel (run). */
  function PacketBytes(d: seq<byte>, bpp: nat, npix: nat, p: Packet): seq<byte>
    requires |d| == npix * bpp && 1 <= p.len <= MaxChunkLength && p.start + p.len <= npix
  {
    MulMonotone(p.start + p.len, npix, bpp);
    Distrib(p.start, p.len, bpp);
    [PacketHeader(p.raw, p.len)]
      + (if p.raw then d[p.start * bpp .. (p.start + p.len) * bpp] else PixelAt(d, bpp, p.start))
  }

  /** The packets, tiling pixels from ..., npix - 1, written one after the other. */
  function Serialize(d: seq<byte>, bpp: nat, npix: nat, ps: seq<Packet>, from: nat): seq<byte>
    requires |d| == npix * bpp && Tiles(ps, from, npix)
    decreases |ps|
  {
    if ps == [] then []
    else
      TilesBound(ps, from, npix);
      PacketBytes(d, bpp, npix, ps[0]) + Serialize(d, bpp, npix, ps[1..], from + ps[0].len)
  }

  lemma TilesBound(ps: seq<Packet>, from: nat, to: nat)
    requires ps != [] && Tiles(ps, from, to)
    ensures ps[0].start + ps[0].len <= to
  {
    TilesOrdered(ps[1..], from + ps[0].len, to);
  }

  lemma {:induction false} TilesOrdered(ps: seq<Packet>, from: nat, to: nat)
    requires Tiles(ps, from, to)
    ensures from <= to
    decreases |ps|
  {
    if ps != [] {
      TilesOrdered(ps[1..], from + ps[0].len, to);
    }
  }

  /** The run-length encoding of npix pixels of bpp bytes. */
  function Encode(d: seq<byte>, bpp: nat, npix: nat): seq<byte>
    requires |d| == npix * bpp
  {
    Serialize(d, bpp, npix, Chunks(PixelList(d, bpp, npix), 0), 0)
  }

  /** Serializing the packets from pixel cur on writes the scanned packet first, then the rest. */
  lemma SerializeChunks(d: seq<byte>, bpp: nat, npix: nat, px: seq<seq<byte>>, cur: nat)
    requires |d| == npix * bpp && |px| == npix && cur < npix
    ensures Scan(px, cur, 1, true).start + Scan(px, cur, 1, true).len <= npix
    ensures Serialize(d, bpp, npix, Chunks(px, cur), cur)
         == PacketBytes(d, bpp, npix, Scan(px, cur, 1, true))
          + Serialize(d, bpp, npix, Chunks(px, cur + Scan(px, cur, 1, true).len), cur + Scan(px, cur, 1, true).len)
  {
    var p := Scan(px, cur, 1, true);
    var rest := Chunks(px, p.start + p.len);
    assert Chunks(px, cur) == [p] + rest;
    assert ([p] + rest)[1..] == rest;
  }

  /** out followed by the packets that cover pixels cur, ..., npix - 1 is whole. */
  ghost predicate EncodedUpTo(s: seq<byte>, bpp: nat, npix: nat, cur: nat, out: seq<byte>, whole: seq<byte>)
  {
    |s| == npix * bpp && cur <= npix
    && out + Serialize(s, bpp, npix, Chunks(PixelList(s, bpp, npix), cur), cur) == whole
  }

  /** Nothing is written yet: the packets from the first pixel on are the whole encoding. */
  lemma EncodedNone(s: seq<byte>, bpp: nat, npix: nat)
    requires |s| == npix * bpp
    ensures EncodedUpTo(s, bpp, npix, 0, [], Encode(s, bpp, npix))
  {
    assert [] + Encode(s, bpp, npix) == Encode(s, bpp, npix);
  }

  /** Once every pixel is covered, the bytes written are the whole encoding. */
  lemma EncodedAll(s: seq<byte>, bpp: nat, npix: nat, out: seq<byte>, whole: seq<byte>)
    requires EncodedUpTo(s, bpp, npix, npix, out, whole)
    ensures out == whole
  {
    assert Chunks(PixelList(s, bpp, npix), npix) == [];
    assert out + [] == out;
  }

  /**
   * The packet scanned at curpix, whose bytes start at lo, is written as its
   * header and its len bytes; the packets after it follow.
   */
  lemma EncodeStep(s: seq<byte>, bpp: nat, npix: nat, curpix: nat, lo: nat, len: nat, raw: bool, run_length: nat,
                   out: seq<byte>, packet: seq<byte>, next: nat, out': seq<byte>, whole: seq<byte>)
    requires |s| == npix * bpp && curpix < npix && lo == curpix * bpp
    requires Packet(raw, curpix, run_length) == Scan(PixelList(s, bpp, npix), curpix, 1, true)
    requires len == (if raw then run_length * bpp else bpp) && lo + len <= |s|
    requires packet == [PacketHeader(raw, run_length)] + s[lo .. lo + len]
    requires EncodedUpTo(s, bpp, npix, curpix, out, whole)
    requires next == curpix + run_length && out' == out + packet
    ensures EncodedUpTo(s, bpp, npix, next, out', whole)
  {
    SerializeStep(s, bpp, npix, curpix, lo, len, raw, run_length, packet, next);
    var px := PixelList(s, bpp, npix);
    AppendChain(out, packet, Serialize(s, bpp, npix, Chunks(px, next), next), out',
                Serialize(s, bpp, npix, Chunks(px, curpix), curpix), whole);
  }

  /** If out and then packet + rest spell whole, so do out + packet and then rest. */
  lemma AppendChain(out: seq<byte>, packet: seq<byte>, rest: seq<byte>, out': seq<byte>, tail: seq<byte>, whole: seq<byte>)
    requires out + tail == whole && tail == packet + rest && out' == out + packet
    ensures out' + rest == whole
  {
    assert out + (packet + rest) == (out + packet) + rest;
  }

  /** A packet of run_length pixels from pixel curpix on, with len bytes of payload, lies inside the npix pixels. */
  lemma PacketInside(bpp: nat, npix: nat, curpix: nat, lo: nat, len: nat, raw: bool, run_length: nat)
    requires 1 <= run_length && curpix + run_length <= npix && lo == curpix * bpp
    requires len == if raw then run_length * bpp else bpp
    ensures lo + len <= npix * bpp
  {
    if raw {
      Span(curpix, run_length, npix, bpp);
    } else {
      Span(curpix, 1, npix, bpp);
    }
  }

  /** Serializing from the scanned packet on: its header and its len bytes from lo on, then the packets after it. */
  lemma SerializeStep(s: seq<byte>, bpp: nat, npix: nat, curpix: nat, lo: nat, len: nat, raw: bool, run_length: nat,
                      packet: seq<byte>, next: nat)
    requires |s| == npix * bpp && curpix < npix && lo == curpix * bpp
    requires Packet(raw, curpix, run_length) == Scan(PixelList(s, bpp, npix), curpix, 1, true)
    requires len == (if raw then run_length * bpp else bpp) && lo + len <= |s|
    requires packet == [PacketHeader(raw, run_length)] + s[lo .. lo + len] && next == curpix + run_length
    ensures next <= npix
    ensures Serialize(s, bpp, npix, Chunks(PixelList(s, bpp, npix), curpix), curpix)
         == packet + Serialize(s, bpp, npix, Chunks(PixelList(s, bpp, npix), next), next)
  {
    var px := PixelList(s, bpp, npix);
    SerializeChunks(s, bpp, npix, px, curpix);
    PacketBytesAt(s, bpp, npix, Packet(raw, curpix, run_length), lo, len);
  }

  /** The bytes of a packet are its header and, from byte lo = start * bpp on, len bytes. */
  lemma PacketBytesAt(s: seq<byte>, bpp: nat, npix: nat, p: Packet, lo: nat, len: nat)
    requires |s| == npix * bpp && 1 <= p.len <= MaxChunkLength && p.start + p.len <= npix
    requires lo == p.start * bpp && len == (if p.raw then p.len * bpp else bpp)
    ensures lo + len <= |s|
    ensures PacketBytes(s, bpp, npix, p) == [PacketHeader(p.raw, p.len)] + s[lo .. lo + len]
  {
    Span(p.start, p.len, npix, bpp);
    MulMonotone(1, p.len, bpp);
    if !p.raw {
      PixelAtIs(s, bpp, p.start, lo);
    }
  }

  /** A run of equal pixels is the repetition of its first pixel. */
  lemma {:induction false} UniformIsRepeat(d: seq<byte>, bpp: nat, npix: nat, start: nat, len: nat)
    requires |d| == npix * bpp && start + len <= npix && Uniform(PixelList(d, bpp, npix), start, len)
    ensures 0 <= start * bpp <= (start + len) * bpp <= |d|
    ensures d[start * bpp .. (start + len) * bpp] == Repeat(PixelAt(d, bpp, start), len)
  {
    MulMonotone(start, start + len, bpp);
    MulMonotone(start + len, npix, bpp);
    if len > 0 {
      var q := start + (len - 1);
      Distrib(q, 1, bpp);
      MulMonotone(start, q, bpp);
      UniformIsRepeat(d, bpp, npix, start, len - 1);
      PixelListAt(d, bpp, npix, q);
      PixelListAt(d, bpp, npix, start);
      assert PixelList(d, bpp, npix)[q] == PixelList(d, bpp, npix)[start];
      RepeatGrow(d, start * bpp, q * bpp, (start + len) * bpp, PixelAt(d, bpp, start), len);
    }
  }

  /** Bytes lo..mid holding n - 1 copies of p, followed by p itself, hold n copies of p. */
  lemma RepeatGrow(d: seq<byte>, lo: nat, mid: nat, hi: nat, p: seq<byte>, n: nat)
    requires lo <= mid <= hi <= |d| && n >= 1
    requires d[lo .. mid] == Repeat(p, n - 1) && d[mid .. hi] == p
    ensures d[lo .. hi] == Repeat(p, n)
  {
    assert d[lo .. hi] == d[lo .. mid] + d[mid .. hi];
  }

  /** One raw packet: its n * bpp bytes are taken as they are. */
  lemma {:induction false} DecodeRawStep(input: seq<byte>, bpp: nat, count: nat, n: nat, payload: seq<byte>, after: seq<byte>, left: nat)
    requires count >= 1 && |input| >= 1 && IsRawHeader(input[0]) && n == PacketLength(input[0])
    requires n * bpp <= |input| - 1 && n <= count && left == count - n
    requires payload == input[1 .. 1 + n * bpp] && after == input[1 + n * bpp ..]
    ensures Decode(input, bpp, count) == Prepend(payload, Decode(after, bpp, left))
  {
    assert PayloadSize(input[0], bpp) == n * bpp;
    assert PacketPixels(input[0], input[1 .. 1 + n * bpp]) == payload;
  }

  /** One run packet: its one pixel is repeated n times. */
  lemma {:induction false} DecodeRunStep(input: seq<byte>, bpp: nat, count: nat, n: nat, payload: seq<byte>, after: seq<byte>, left: nat)
    requires count >= 1 && |input| >= 1 && !IsRawHeader(input[0]) && n == PacketLength(input[0])
    requires bpp <= |input| - 1 && n <= count && left == count - n
    requires payload == Repeat(input[1 .. 1 + bpp], n) && after == input[1 + bpp ..]
    ensures Decode(input, bpp, count) == Prepend(payload, Decode(after, bpp, left))
  {
    assert PayloadSize(input[0], bpp) == bpp;
    assert PacketPixels(input[0], input[1 .. 1 + bpp]) == payload;
  }

  /** A first packet that the input cannot hold, or that brings more pixels than are wanted, makes decoding fail. */
  lemma DecodeRejects(input: seq<byte>, bpp: nat, count: nat)
    requires count >= 1 && |input| >= 1
    requires |input| - 1 < (if IsRawHeader(input[0]) then PacketLength(input[0]) * bpp else bpp)
          || count < PacketLength(input[0])
    ensures Decode(input, bpp, count) == None
  {
  }

  /** Decoding `count` pixels from pos gives `got`, then the decoding of `left` pixels from `next`. */
  ghost predicate DecodesTo(input: seq<byte>, bpp: nat, count: nat, pos: nat, got: seq<byte>, next: nat, left: nat)
    requires pos <= |input| && next <= |input|
  {
    Decode(input[pos..], bpp, count) == Prepend(got, Decode(input[next..], bpp, left))
  }

  /** Decoding `count` pixels from pos fails. */
  ghost predicate FailsAt(input: seq<byte>, bpp: nat, count: nat, pos: nat)
    requires pos <= |input|
  {
    Decode(input[pos..], bpp, count) == None
  }

  /** Decoding from a raw packet header at pos: the n * bpp bytes after it (got), then what follows them. */
  lemma RawPacketAt(input: seq<byte>, bpp: nat, count: nat, pos: nat, n: nat, next: nat, got: seq<byte>, left: nat)
    requires pos < |input| && IsRawHeader(input[pos]) && n == PacketLength(input[pos])
    requires 1 <= count && n <= count && next == pos + 1 + n * bpp <= |input|
    requires got == input[pos + 1 .. next] && left == count - n
    ensures Decode(input[pos..], bpp, count) == Prepend(got, Decode(input[next..], bpp, left))
  {
    var tail := input[pos..];
    assert tail[1 .. 1 + n * bpp] == got;
    assert tail[1 + n * bpp ..] == input[next..];
    DecodeRawStep(tail, bpp, count, n, got, input[next..], left);
  }

  /**
   * What reading a raw packet at pos establishes: when its n pixels fit the
   * input and the missing count, decoding yields them and goes on after
   * them; otherwise decoding fails.
   */
  lemma RawPacketRead(input: seq<byte>, bpp: nat, count: nat, pos: nat, n: nat, ok: bool, next: nat, got: seq<byte>, left: nat)
    requires pos < |input| && IsRawHeader(input[pos]) && n == PacketLength(input[pos]) && 1 <= count
    requires ok ==> n <= count && next == pos + 1 + n * bpp <= |input| && got == input[pos + 1 .. next] && left == count - n
    requires !ok ==> count < n || |input| - (pos + 1) < n * bpp
    ensures ok ==> next <= |input| && DecodesTo(input, bpp, count, pos, got, next, left)
    ensures !ok ==> FailsAt(input, bpp, count, pos)
  {
    if ok {
      RawPacketAt(input, bpp, count, pos, n, next, got, left);
    } else {
      PacketAtRejected(input, bpp, count, pos);
    }
  }

  /** Decoding from a run packet header at pos: n copies of the bpp bytes after it (got), then what follows them. */
  lemma RunPacketAt(input: seq<byte>, bpp: nat, count: nat, pos: nat, n: nat, next: nat, got: seq<byte>, left: nat)
    requires pos < |input| && !IsRawHeader(input[pos]) && n == PacketLength(input[pos])
    requires 1 <= count && n <= count && next == pos + 1 + bpp <= |input|
    requires got == Repeat(input[pos + 1 .. next], n) && left == count - n
    ensures Decode(input[pos..], bpp, count) == Prepend(got, Decode(input[next..], bpp, left))
  {
    var tail := input[pos..];
    assert tail[1 .. 1 + bpp] == input[pos + 1 .. next];
    assert tail[1 + bpp ..] == input[next..];
    DecodeRunStep(tail, bpp, count, n, got, input[next..], left);
  }

  /**
   * What reading a run packet at pos establishes: when its pixel is in the
   * input and its n copies fit the missing count, decoding yields them and
   * goes on after the pixel; otherwise decoding fails.
   */
  lemma RunPacketRead(input: seq<byte>, bpp: nat, count: nat, pos: nat, n: nat, ok: bool, next: nat, got: seq<byte>, left: nat)
    requires pos < |input| && !IsRawHeader(input[pos]) && n == PacketLength(input[pos]) && 1 <= count
    requires ok ==> n <= count && next == pos + 1 + bpp <= |input| && got == Repeat(input[pos + 1 .. next], n) && left == count - n
    requires !ok ==> count < n || |input| - (pos + 1) < bpp
    ensures ok ==> next <= |input| && DecodesTo(input, bpp, count, pos, got, next, left)
    ensures !ok ==> FailsAt(input, bpp, count, pos)
  {
    if ok {
      RunPacketAt(input, bpp, count, pos, n, next, got, left);
    } else {
      PacketAtRejected(input, bpp, count, pos);
    }
  }

  /** Decoding fails from pos when no header byte is left, when the packet there is cut short, or when it brings too many pixels. */
  lemma PacketAtRejected(input: seq<byte>, bpp: nat, count: nat, pos: nat)
    requires 1 <= count && pos <= |input|
    requires pos < |input| ==>
      |input| - (pos + 1) < (if IsRawHeader(input[pos]) then PacketLength(input[pos]) * bpp else bpp)
      || count < PacketLength(input[pos])
    ensures FailsAt(input, bpp, count, pos)
  {
    if pos < |input| {
      DecodeRejects(input[pos..], bpp, count);
    }
  }

  /** Decoding a packet the encoder wrote yields the pixels it covers, then decoding goes on after it. */
  lemma DecodePacket(d: seq<byte>, bpp: nat, npix: nat, p: Packet, after: seq<byte>, count: nat, left: nat, lo: nat, mid: nat)
    requires |d| == npix * bpp && 1 <= p.len <= MaxChunkLength && p.start + p.len <= npix
    requires p.len <= count && left == count - p.len
    requires lo == p.start * bpp && mid == (p.start + p.len) * bpp
    requires !p.raw ==> Uniform(PixelList(d, bpp, npix), p.start, p.len)
    ensures lo <= mid <= |d|
    ensures Decode(PacketBytes(d, bpp, npix, p) + after, bpp, count) == Prepend(d[lo .. mid], Decode(after, bpp, left))
  {
    if p.raw {
      DecodeRawPacket(d, bpp, npix, p, after, count);
    } else {
      DecodeRunPacket(d, bpp, npix, p, after, count);
    }
  }

  lemma DecodeRawPacket(d: seq<byte>, bpp: nat, npix: nat, p: Packet, after: seq<byte>, count: nat)
    requires |d| == npix * bpp && 1 <= p.len <= MaxChunkLength && p.start + p.len <= npix
    requires p.len <= count && p.raw
    ensures 0 <= p.start * bpp <= (p.start + p.len) * bpp <= |d|
    ensures Decode(PacketBytes(d, bpp, npix, p) + after, bpp, count)
         == Prepend(d[p.start * bpp .. (p.start + p.len) * bpp], Decode(after, bpp, count - p.len))
  {
    Span(p.start, p.len, npix, bpp);
    PacketHeaderRoundTrip(p.raw, p.len);
    var h, body := PacketHeader(p.raw, p.len), d[p.start * bpp .. (p.start + p.len) * bpp];
    assert PacketBytes(d, bpp, npix, p) == [h] + body;
    HeadSplit(h, body, after);
    DecodeRawStep([h] + body + after, bpp, count, p.len, body, after, count - p.len);
  }

  lemma DecodeRunPacket(d: seq<byte>, bpp: nat, npix: nat, p: Packet, after: seq<byte>, count: nat)
    requires |d| == npix * bpp && 1 <= p.len <= MaxChunkLength && p.start + p.len <= npix
    requires p.len <= count && !p.raw && Uniform(PixelList(d, bpp, npix), p.start, p.len)
    ensures 0 <= p.start * bpp <= (p.start + p.len) * bpp <= |d|
    ensures Decode(PacketBytes(d, bpp, npix, p) + after, bpp, count)
         == Prepend(d[p.start * bpp .. (p.start + p.len) * bpp], Decode(after, bpp, count - p.len))
  {
    PacketHeaderRoundTrip(p.raw, p.len);
    UniformIsRepeat(d, bpp, npix, p.start, p.len);
    var h, pixel := PacketHeader(p.raw, p.len), PixelAt(d, bpp, p.start);
    assert PacketBytes(d, bpp, npix, p) == [h] + pixel;
    assert |pixel| == bpp by { RepeatPixelLength(d, bpp, npix, p.start); }
    HeadSplit(h, pixel, after);
    DecodeRunStep([h] + pixel + after, bpp, count, p.len, Repeat(pixel, p.len), after, count - p.len);
  }

  /** Pixel start of a buffer of npix pixels, start < npix, has bpp bytes. */
  lemma RepeatPixelLength(d: seq<byte>, bpp: nat, npix: nat, start: nat)
    requires |d| == npix * bpp && start < npix
    ensures |PixelAt(d, bpp, start)| == bpp
  {
    Span(start, 1, npix, bpp);
  }

  /** A header byte followed by a body and what comes after: the body and the rest are recovered by slicing. */
  lemma HeadSplit(h: byte, body: seq<byte>, after: seq<byte>)
    ensures ([h] + body + after)[0] == h
    ensures ([h] + body + after)[1 .. 1 + |body|] == body
    ensures ([h] + body + after)[1 + |body| ..] == after
  {
  }

  /** Decoding well-shaped packets that tile pixels from on, followed by anything, gives those pixels back. */
  lemma {:induction false} DecodeTiles(d: seq<byte>, bpp: nat, npix: nat, ps: seq<Packet>, from: nat, tail: seq<byte>)
    requires |d| == npix * bpp && Tiles(ps, from, npix)
    requires AllWellShaped(PixelList(d, bpp, npix), ps)
    ensures from <= npix && from * bpp <= |d|
    ensures Decode(Serialize(d, bpp, npix, ps, from) + tail, bpp, npix - from) == Some(Decoded(d[from * bpp ..], tail))
    decreases |ps|
  {
    TilesOrdered(ps, from, npix);
    Span(from, 0, npix, bpp);
    if ps == [] {
      assert d[from * bpp ..] == [];
      assert Serialize(d, bpp, npix, ps, from) + tail == tail;
    } else {
      var p := ps[0];
      var next := from + p.len;
      TilesBound(ps, from, npix);
      Span(from, p.len, npix, bpp);
      DecodeTiles(d, bpp, npix, ps[1..], next, tail);
      var after := Serialize(d, bpp, npix, ps[1..], next) + tail;
      SerializeCons(d, bpp, npix, ps, from, tail);
      assert WellShaped(PixelList(d, bpp, npix), p);
      DecodeTilesStep(d, bpp, npix, p, from, next, from * bpp, next * bpp, after, tail);
    }
  }

  lemma SerializeCons(d: seq<byte>, bpp: nat, npix: nat, ps: seq<Packet>, from: nat, tail: seq<byte>)
    requires |d| == npix * bpp && Tiles(ps, from, npix) && ps != []
    ensures ps[0].start + ps[0].len <= npix && Tiles(ps[1..], from + ps[0].len, npix)
    ensures Serialize(d, bpp, npix, ps, from) + tail
         == PacketBytes(d, bpp, npix, ps[0]) + (Serialize(d, bpp, npix, ps[1..], from + ps[0].len) + tail)
  {
    TilesBound(ps, from, npix);
  }

  /** One step of DecodeTiles: the first packet, then what the rest decodes to. */
  lemma DecodeTilesStep(d: seq<byte>, bpp: nat, npix: nat, p: Packet, from: nat, next: nat, lo: nat, mid: nat,
                        after: seq<byte>, tail: seq<byte>)
    requires |d| == npix * bpp && p.start == from && 1 <= p.len <= MaxChunkLength && next == from + p.len <= npix
    requires lo == from * bpp && mid == next * bpp && lo <= mid <= |d|
    requires !p.raw ==> Uniform(PixelList(d, bpp, npix), p.start, p.len)
    requires Decode(after, bpp, npix - next) == Some(Decoded(d[mid ..], tail))
    ensures Decode(PacketBytes(d, bpp, npix, p) + after, bpp, npix - from) == Some(Decoded(d[lo ..], tail))
  {
    DecodePacket(d, bpp, npix, p, after, npix - from, npix - next, lo, mid);
    PrependSplit(d, lo, mid, tail, Decode(after, bpp, npix - next));
  }

  /** Bytes lo..mid of d put before a decoding that yields d from mid on yield d from lo on. */
  lemma PrependSplit(d: seq<byte>, lo: nat, mid: nat, tail: seq<byte>, r: Option<Decoded>)
    requires lo <= mid <= |d| && r == Some(Decoded(d[mid ..], tail))
    ensures Prepend(d[lo .. mid], r) == Some(Decoded(d[lo ..], tail))
  {
    SplitAt(d, lo, mid);
  }

  lemma SplitAt(s: seq<byte>, a: nat, b: nat)
    requires a <= b <= |s|
    ensures s[a..] == s[a .. b] + s[b..]
  {
  }

  /** Decoding the encoding of npix pixels, followed by anything, gives the pixels back and stops at the tail. */
  lemma EncodeDecode(d: seq<byte>, bpp: nat, npix: nat, tail: seq<byte>)
    requires |d| == npix * bpp
    ensures Decode(Encode(d, bpp, npix) + tail, bpp, npix) == Some(Decoded(d, tail))
  {
    var px := PixelList(d, bpp, npix);
    ChunksShape(px, 0);
    DecodeTiles(d, bpp, npix, Chunks(px, 0), 0, tail);
  }

  // ---------------------------------------------------------------------
  // The pixel slots the decoder writes while it reads one packet

  /**
   * The slots load_rle_data as written fills while it stores n pixels of a
   * packet from slot cur on, when the image has `count` slots: it writes a
   * pixel and only then checks whether the count was exceeded.
   */
  function WrittenSlotsAsWritten(cur: nat, n: nat, count: nat): (r: seq<nat>)
    ensures |r| <= n
    decreases n
  {
    if n == 0 then []
    else [cur] + (if cur + 1 > count then [] else WrittenSlotsAsWritten(cur + 1, n - 1, count))
  }

  /** The same packet stored with the check made before each write. */
  function WrittenSlotsChecked(cur: nat, n: nat, count: nat): (r: seq<nat>)
    ensures forall k :: 0 <= k < |r| ==> r[k] < count
    decreases n
  {
    if n == 0 || cur >= count then []
    else [cur] + WrittenSlotsChecked(cur + 1, n - 1, count)
  }

  /**
   * A packet that announces more pixels than are missing makes the decoder
   * as written fill slot `count`, one past the last pixel of the image, and
   * nothing else beyond what the checked decoder fills.
   */
  lemma {:induction false} AsWrittenOverrun(cur: nat, n: nat, count: nat)
    requires cur < count < cur + n
    ensures WrittenSlotsAsWritten(cur, n, count) == WrittenSlotsChecked(cur, n, count) + [count]
    decreases count - cur
  {
    if cur + 1 == count {
      assert WrittenSlotsAsWritten(cur + 1, n - 1, count) == [count];
    } else {
      AsWrittenOverrun(cur + 1, n - 1, count);
    }
  }

  /** A packet that fits fills the same slots in both versions, all inside the image. */
  lemma {:induction false} FittingPacketSlots(cur: nat, n: nat, count: nat)
    requires cur + n <= count
    ensures WrittenSlotsAsWritten(cur, n, count) == WrittenSlotsChecked(cur, n, count)
    ensures |WrittenSlotsChecked(cur, n, count)| == n
    decreases n
  {
    if n > 0 {
      FittingPacketSlots(cur + 1, n - 1, count);
    }
  }

  /** Worked example of AsWrittenOverrun: a 1 x 1 image whose only packet is the raw header 0x01 (two pixels) writes slot 1. */
  lemma OverrunExample()
    ensures WrittenSlotsAsWritten(0, PacketLength(1), 1) == [0, 1]
    ensures Decode([1, 7, 8], 1, 1) == None
  {
    AsWrittenOverrun(0, 2, 1);
  }

  // ---------------------------------------------------------------------
  // Examples

  /** Five equal pixels (bytes 30, 20, 10) become one run packet: header 132 and the pixel. */
  lemma EncodeRunExample()
    ensures Encode([30, 20, 10, 30, 20, 10, 30, 20, 10, 30, 20, 10, 30, 20, 10], 3, 5) == [132, 30, 20, 10]
  {
    var d: seq<byte> := [30, 20, 10, 30, 20, 10, 30, 20, 10, 30, 20, 10, 30, 20, 10];
    var q: seq<byte> := [30, 20, 10];
    FivePixels(d, q);
    FiveEqualScan(q);
    SerializeChunks(d, 3, 5, [q, q, q, q, q], 0);
    assert PacketBytes(d, 3, 5, Packet(false, 0, 5)) == [132, 30, 20, 10];
  }

  lemma FivePixels(d: seq<byte>, q: seq<byte>)
    requires d == [30, 20, 10, 30, 20, 10, 30, 20, 10, 30, 20, 10, 30, 20, 10] && q == [30, 20, 10]
    ensures PixelList(d, 3, 5) == [q, q, q, q, q]
  {
    var px := PixelList(d, 3, 5);
    forall k | 0 <= k < 5
      ensures px[k] == q
    {
      PixelListAt(d, 3, 5, k);
      PixelAtIs(d, 3, k, 3 * k);
      assert d[3 * k .. 3 * k + 3] == q;
    }
  }

  /** Five equal pixels are scanned as one run. */
  lemma FiveEqualScan(q: seq<byte>)
    ensures Scan([q, q, q, q, q], 0, 1, true) == Packet(false, 0, 5)
  {
    var px := [q, q, q, q, q];
    assert Scan(px, 0, 4, false) == Scan(px, 0, 5, false) == Packet(false, 0, 5);
    assert Scan(px, 0, 2, false) == Scan(px, 0, 3, false) == Scan(px, 0, 4, false);
  }

  /** Three grey pixels, one byte each, are the three one-byte sequences. */
  lemma ThreeGreys(d: seq<byte>)
    requires |d| == 3
    ensures PixelList(d, 1, 3) == [[d[0]], [d[1]], [d[2]]]
  {
    var px := PixelList(d, 1, 3);
    forall k | 0 <= k < 3
      ensures px[k] == [d[k]]
    {
      PixelListAt(d, 1, 3, k);
      PixelAtIs(d, 1, k, k);
    }
  }

  /** Three different grey pixels become one raw packet: header 2 and the three bytes. */
  lemma EncodeRawExample()
    ensures Encode([5, 6, 7], 1, 3) == [2, 5, 6, 7]
  {
    var d: seq<byte> := [5, 6, 7];
    var px: seq<seq<byte>> := [[5], [6], [7]];
    ThreeGreys(d);
    assert Scan(px, 0, 1, true) == Packet(true, 0, 3);
    SerializeChunks(d, 1, 3, px, 0);
    assert PacketBytes(d, 1, 3, Packet(true, 0, 3)) == [2, 5, 6, 7];
  }

  /** A raw packet stops before two equal pixels, which then form a run: 1, 2, 2 becomes [0, 1] and [129, 2]. */
  lemma EncodeMixedExample()
    ensures Encode([1, 2, 2], 1, 3) == [0, 1, 129, 2]
  {
    var d: seq<byte> := [1, 2, 2];
    var px: seq<seq<byte>> := [[1], [2], [2]];
    ThreeGreys(d);
    assert Scan(px, 0, 1, true) == Packet(true, 0, 1);
    assert Scan(px, 1, 1, true) == Packet(false, 1, 2);
    SerializeChunks(d, 1, 3, px, 0);
    SerializeChunks(d, 1, 3, px, 1);
    assert PacketBytes(d, 1, 3, Packet(true, 0, 1)) == [0, 1];
    assert PacketBytes(d, 1, 3, Packet(false, 1, 2)) == [129, 2];
  }
}
