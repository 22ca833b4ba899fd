# TGA image codec — a Dafny model

This project models `TGAImage`, a small C++ class that holds an image in memory and reads and
writes it as a Truevision TGA file. The class keeps a byte buffer of `width * height * bytespp`
bytes. It covers:

- uncompressed and run-length encoded (RLE) grayscale, RGB and RGBA files;
- pixel access (`get`/`set`);
- vertical and horizontal flips;
- nearest-neighbour rescaling with an integer error counter.

The model is split into modules along the program's structure:

| module | file | models |
|---|---|---|
| `Wrappers` | `wrappers.dfy` | `Option`/`Result` for the error paths |
| `Arith` | `arith.dfy` | small multiplication and division facts the proofs share |
| `Bytes` | `bytes.dfy` | the `byte` type, an `int` newtype holding 0..255 |
| `TgaTypes` | `tgatypes.dfy` | `tgaimage.h`: the packed 18-byte `TGA_Header` with its signed `int8_t` and little-endian `short` fields, `TGAColor` and `Format` |
| `Pixels` | `pixels.dfy` | specification functions on pixel buffers: pixel addressing, the two flips, the rescaling map, single-pixel updates |
| `Rle` | `rle.dfy` | the RLE packet format: `Decode` (what `load_rle_data` accepts and produces), `Encode` (the packets `unload_rle_data` emits), and their round trip |
| `TgaFile` | `tgafile.dfy` | `DecodeFile`/`EncodeFile`: the whole file as `read_tga_file` reads it and `write_tga_file` writes it, including the error cases, orientation bits and trailer |
| `TgaImage` | `tgaimage.dfy` | class `Image` with the fields `data`, `width`, `height`, `bytespp`; its methods follow the C++ loops over an `array<byte>` and are proved against the functions above |

Streams are byte sequences:

- a file that is read is a `seq<byte>`, the input;
- a file that is written is the `seq<byte>` a method returns.

A read that runs past the end of the input fails, as `ifstream::good()` does.

## Model

| member | source | states |
|---|---|---|
| `TgaTypes.SignedOfByteOf` | tgaimage.h:12-14 | a signed `int8_t` header field survives being stored as a byte |
| `TgaTypes.ByteOfSignedOf` | tgaimage.h:12-14 | every stored byte is the image of exactly one signed `int8_t` value |
| `TgaTypes.ShortOfBytes` | tgaimage.h:15-21 | a `short` field survives its split into a low and a high byte |
| `TgaTypes.BytesOfShort` | tgaimage.h:15-21 | every pair of bytes is the little-endian encoding of the `short` read from it |
| `TgaTypes.EncodeHeader` | tgaimage.h:11-24 | the packed header is exactly 18 bytes, with fields in declaration order |
| `TgaTypes.ParseEncodeHeader` | tgaimage.h:11-24 | reading back a written header gives every field back |
| `TgaTypes.EncodeParseHeader` | tgaimage.h:11-24 | any 18 bytes are the encoding of the header read from them, so reading loses nothing |
| `TgaTypes.FormatOf` | tgaimage.h:74 | the accepted formats are exactly 1, 3 and 4 bytes per pixel |
| `TgaTypes.DefaultColor` | tgaimage.h:42 | the default colour has all raw bytes zero and `bytespp` 1 |
| `TgaTypes.FromRgba` | tgaimage.h:46 | the RGBA constructor sets the four channels, stores them in b, g, r, a order and has `bytespp` 4 |
| `TgaTypes.StoredBlueFirst` | tgaimage.h:31-35 | for every r, g, b, a the colour's raw bytes are b, g, r, a: byte 0 is blue, 1 green, 2 red and 3 alpha |
| `TgaTypes.FromBytes` | tgaimage.h:49 | the colour read from memory holds the first `bpp` bytes and zero after them |
| `TgaTypes.CopyColor` | tgaimage.h:48-59 | copying or assigning a colour carries its raw bytes and `bytespp` |
| `TgaTypes.FromBytesOfRaw` | tgaimage.h:49 | a colour read from a colour's own raw bytes equals it |
| `Pixels.GatherPixel` | tgaimage.cpp:354 | a buffer built pixel by pixel from source indices holds, at pixel k, source pixel `src[k]` |
| `Pixels.FlipVerticalPixel` | tgaimage.cpp:388-406 | pixel (x, y) of the vertically flipped image is pixel (x, h - 1 - y) of the original |
| `Pixels.FlipVerticalInvolution` | tgaimage.cpp:388-406 | flipping vertically twice restores the image |
| `Pixels.FlipHorizontalPixel` | tgaimage.cpp:371-386 | pixel (x, y) of the horizontally flipped image is pixel (w - 1 - x, y) of the original |
| `Pixels.FlipHorizontalInvolution` | tgaimage.cpp:371-386 | flipping horizontally twice restores the image |
| `Pixels.FlipsCommute` | tgaimage.cpp:124-131 | the two flips a read may apply give the same image in either order |
| `Pixels.RowsSwappedStep` | tgaimage.cpp:396-402 | one exchange of line j with line h - 1 - j extends the lines already exchanged by one |
| `Pixels.RowsFlippedNone` | tgaimage.cpp:394-395 | no exchange of lines leaves the image alone |
| `Pixels.RowsFlippedEnds` | tgaimage.cpp:394-403 | h / 2 exchanges of lines flip the image vertically |
| `Pixels.ColumnsSwapStep` | tgaimage.cpp:376-383 | exchanging pixels (i, j) and (w - 1 - i, j) extends the partial horizontal flip by one pixel pair |
| `Pixels.ColumnsFlippedEnds` | tgaimage.cpp:374-385 | no exchange leaves the image alone; w / 2 columns exchanged in every row flip it horizontally |
| `Pixels.SrcIndexBetween` | tgaimage.cpp:436-442 | the original column i picked for output column x is the unique one with `i * n < (x + 1) * n0 <= (i + 1) * n` |
| `Pixels.SrcIndexInRange` | tgaimage.cpp:423-452 | every output index maps to an original index in range |
| `Pixels.SrcIndexMonotone` | tgaimage.cpp:423-452 | later output pixels never come from earlier original pixels |
| `Pixels.SrcIndexByError` | tgaimage.cpp:436-442 | the error counter as the loop keeps it selects original index i for the next output index, and the counter after the step |
| `Pixels.ErrorCountEnd` | tgaimage.cpp:423-452 | when the pass over the n0 original indices ends, exactly n output indices have been emitted |
| `Pixels.ErrorCountBelow` | tgaimage.cpp:436-451 | while original indices remain, fewer than n output indices have been emitted |
| `Pixels.SrcIndexSame` | tgaimage.cpp:412-460 | scaling to the same size maps every index to itself |
| `Pixels.SrcIndexDouble` | tgaimage.cpp:412-460 | scaling to twice the size maps indices 2i and 2i + 1 to i |
| `Pixels.ScaledPixel` | tgaimage.cpp:412-460 | the scaled image has w * h pixels, and pixel (x, y) is original pixel (SrcIndex(x), SrcIndex(y)) |
| `Pixels.ScaledSame` | tgaimage.cpp:412-460 | scaling to the original size changes nothing |
| `Pixels.ScaledDouble` | tgaimage.cpp:412-460 | doubling both sides turns every pixel into a 2 x 2 block |
| `Pixels.RowPrefixNext` | tgaimage.cpp:438-441 | one more output pixel of a line appends the original pixel the error counter selects |
| `Pixels.ScaledLinesNext` | tgaimage.cpp:445-451 | one more output line appends the scaled original line the vertical counter selects |
| `Pixels.SetPixelAt` | tgaimage.cpp:361 | after storing a pixel, that pixel reads back the stored bytes and every other byte is unchanged |
| `Rle.PacketHeaderRoundTrip` | tgaimage.cpp:334 | the header byte written for a raw or a run packet of 1 to 128 pixels reads back as the same kind and length |
| `Rle.HeaderOfPacketLength` | tgaimage.cpp:167-184 | every header byte announces a packet of 1 to 128 pixels and is the byte the writer emits for that kind and length |
| `Rle.RepeatPixel` | tgaimage.cpp:192-195 | a run packet's pixels are all its one stored colour |
| `Rle.DecodeFirstPacket` | tgaimage.cpp:159-201 | a successful decode reads a whole first packet that holds no more pixels than are missing |
| `Rle.DecodeShape` | tgaimage.cpp:139-204 | a successful decode of count pixels yields exactly count * bpp bytes |
| `Rle.DecodeNeedsInput` | tgaimage.cpp:159-165 | decoding at least one pixel needs at least a header byte and one pixel of input |
| `Rle.DecodeRawStep` | tgaimage.cpp:167-182 | a raw packet of n pixels copies the next n * bpp input bytes verbatim |
| `Rle.DecodeRunStep` | tgaimage.cpp:183-200 | a run packet of n pixels repeats the next bpp input bytes n times |
| `Rle.DecodeRejects` | tgaimage.cpp:160-199 | a truncated packet, or one with more pixels than are missing, fails the decode |
| `Rle.RawPacketAt` | tgaimage.cpp:167-182 | decoding from a raw packet is its bytes followed by the decode of the rest |
| `Rle.RunPacketAt` | tgaimage.cpp:183-200 | decoding from a run packet is its repeated pixel followed by the decode of the rest |
| `Rle.PacketAtRejected` | tgaimage.cpp:171-199 | a packet that does not fit the input or the remaining pixels makes the decode fail |
| `Rle.ScanShape` | tgaimage.cpp:310-331 | the scan picks a packet of 1 to 128 pixels that fits: either all equal (a run) or without equal neighbours (raw) |
| `Rle.ChunksShape` | tgaimage.cpp:304-346 | every packet the outer loop cuts is well shaped |
| `Rle.UniformIsRepeat` | tgaimage.cpp:341 | the pixels of a run packet are its first pixel repeated, so writing one pixel loses nothing |
| `Rle.EncodeStep` | tgaimage.cpp:304-346 | one pass of the outer loop extends the packets written so far by the next one |
| `Rle.EncodedAll` | tgaimage.cpp:304-347 | when every pixel is covered, the bytes written are the encoding |
| `Rle.EncodeDecode` | tgaimage.cpp:299-348 | decoding what the encoder writes gives back the pixels, whatever follows the packets |
| `Rle.WrittenSlotsAsWritten` | tgaimage.cpp:175-181 | the decoder as written fills at most as many slots as the packet announces |
| `Rle.WrittenSlotsChecked` | tgaimage.cpp:175-181 | checking before each write fills only slots inside the image |
| `Rle.AsWrittenOverrun` | tgaimage.cpp:175-181 | a packet longer than the missing pixels makes the decoder as written fill slot `count`, one past the buffer |
| `Rle.FittingPacketSlots` | tgaimage.cpp:169-182 | a packet that fits fills the same n slots in both orders |
| `Rle.OverrunExample` | tgaimage.cpp:167-182 | worked example of `Rle.AsWrittenOverrun`: in a 1 x 1 image, the raw packet `[1, 7, 8]` writes slot 1 as written, while the decode refuses it |
| `Rle.EncodeRunExample` | tgaimage.cpp:304-346 | worked example of the encoding: five equal RGB pixels become one run packet `[132, 30, 20, 10]` |
| `Rle.EncodeRawExample` | tgaimage.cpp:304-346 | worked example of the encoding: three different grayscale pixels become one raw packet `[2, 5, 6, 7]` |
| `Rle.EncodeMixedExample` | tgaimage.cpp:304-346 | worked example of the encoding: pixels 1, 2, 2 become a raw packet of one pixel and a run of two: `[0, 1, 129, 2]` |
| `TgaFile.CDiv` | tgaimage.cpp:68 | the C++ division truncates toward zero |
| `TgaFile.AcceptedBitDepths` | tgaimage.cpp:68-75 | the bit depths accepted are exactly 8-15, 24-31 and 32-39 |
| `TgaFile.OrientPixel` | tgaimage.cpp:124-131 | after orientation, pixel (x, y) is the stored pixel mirrored by bits 4 and 5 of the descriptor |
| `TgaFile.DecodeFile` | tgaimage.cpp:44-137 | a short header, bad geometry and the body's errors are told apart; a success has the header's dimensions and w * h * bpp bytes |
| `TgaFile.DecodeBody` | tgaimage.cpp:91-111 | the body fails only as truncated raw data, bad RLE data or an unknown type; raw and RLE success take the stored or decoded pixels |
| `TgaFile.DecodedRawPixel` | tgaimage.cpp:91-131 | for uncompressed files, decoded pixel (x, y) is the stored pixel the orientation bits select |
| `TgaFile.UnknownTypeRejected` | tgaimage.cpp:106-110 | a type other than 2, 3, 10 or 11 is refused |
| `TgaFile.Wrap16` | tgaimage.cpp:235-236 | storing an `int` in a `short` header field keeps it when it fits and wraps it modulo 65536 |
| `TgaFile.Wrap8` | tgaimage.cpp:234 | storing `bytespp * 8` in the `int8_t` field keeps it when it fits and wraps it modulo 256 |
| `TgaFile.TrailerBytes` | tgaimage.cpp:216-219 | the trailer is eight zero bytes then "TRUEVISION-XFILE." and a zero byte |
| `TgaFile.EncodeFileLayout` | tgaimage.cpp:230-293 | the written header has only the type, size, depth and top-left descriptor set, and the file ends with the trailer |
| `TgaFile.FileRoundTrip` | tgaimage.cpp:206-296 | reading a written image gives it back, raw or RLE, for every accepted format |
| `TgaImage.Move` | tgaimage.cpp:400-402 | a block copy changes exactly the destination bytes |
| `TgaImage.Image.Empty` | tgaimage.cpp:8 | the default image has no buffer and zero dimensions |
| `TgaImage.Image.constructor` | tgaimage.cpp:10-14 | a new image has the given dimensions and a fresh buffer of w * h * bpp zero bytes |
| `TgaImage.Image.Copy` | tgaimage.cpp:16-23 | a copy has the same dimensions and the same bytes in a buffer of its own |
| `TgaImage.Image.Assign` | tgaimage.cpp:30-42 | assignment copies dimensions and bytes into a new buffer, and self-assignment changes nothing |
| `TgaImage.Image.PixelOffset` | tgaimage.cpp:354 | the bytes of an in-range pixel lie inside the buffer |
| `TgaImage.Image.Get` | tgaimage.cpp:350-355 | out of range or without a buffer, the default colour; otherwise the pixel's bytes with `bytespp` set |
| `TgaImage.Image.Set` | tgaimage.cpp:357-363 | succeeds exactly in range; then only that pixel changes, and `get` reads it back |
| `TgaImage.Image.Clear` | tgaimage.cpp:410 | every byte of the buffer becomes zero; an image without a buffer and with no pixels is left as it is |
| `TgaImage.Image.FlipVertically` | tgaimage.cpp:388-406 | fails exactly without a buffer; otherwise the buffer becomes its vertical flip |
| `TgaImage.Image.FlipHorizontally` | tgaimage.cpp:371-386 | fails exactly without a buffer; otherwise the buffer becomes its horizontal flip |
| `TgaImage.Image.LoadRleData` | tgaimage.cpp:139-204 | succeeds exactly when the RLE decode of the input succeeds; the buffer then holds the decoded pixels |
| `TgaImage.Image.UnloadRleData` | tgaimage.cpp:299-348 | the bytes written are the RLE encoding of the buffer |
| `TgaImage.Image.ReadTga` | tgaimage.cpp:44-137 | succeeds exactly when the file decodes, and then holds the decoded image in a fresh buffer |
| `TgaImage.Image.ReadPixels` | tgaimage.cpp:78-131 | for a header with valid geometry, succeeds exactly when the body decodes, and then holds the decoded, oriented pixels |
| `TgaImage.Image.Orientate` | tgaimage.cpp:124-131 | the buffer becomes its orientation by the descriptor's bits 4 and 5 |
| `TgaImage.Image.WriteTga` | tgaimage.cpp:206-296 | the bytes written are the file encoding of the image, raw or RLE |
| `TgaImage.Image.Scale` | tgaimage.cpp:412-460 | succeeds exactly for positive sizes and an existing buffer; the new buffer is the scaled image |
| `TgaImage.ExchangeColumns` | tgaimage.cpp:375-384 | one pass of the outer loop exchanges column i with column w - 1 - i in every row |
| `TgaImage.ExchangePixels` | tgaimage.cpp:378-382 | two pixels of equal width are exchanged and nothing else changes |
| `TgaImage.FlipLines` | tgaimage.cpp:392-403 | after the loop over the top half, line j and line h - 1 - j have been exchanged for every j below h / 2 |
| `TgaImage.SwapLines` | tgaimage.cpp:396-402 | line j and line k are exchanged through a line buffer and nothing else in the image changes |
| `TgaImage.EncodePixels` | tgaimage.cpp:304-346 | the packets written are the RLE encoding of the pixels |
| `TgaImage.ScanPacket` | tgaimage.cpp:305-331 | the packet length and kind chosen by the scan loop are those of the encoding's next packet |
| `TgaImage.SuccessorEqual` | tgaimage.cpp:311-316 | the comparison is true exactly when two neighbouring pixels are equal |
| `TgaImage.ReadRleData` | tgaimage.cpp:139-204 | succeeds exactly when the RLE decode succeeds; the buffer then holds the decoded pixels |
| `TgaImage.ReadPacket` | tgaimage.cpp:159-201 | one packet read either extends the decoded prefix consistently with `Decode` or fails exactly when the decode does |
| `TgaImage.ReadRawPacket` | tgaimage.cpp:167-182 | the same for a raw packet |
| `TgaImage.ReadRunPacket` | tgaimage.cpp:183-200 | the same for a run packet |
| `TgaImage.StoreNext` | tgaimage.cpp:175-176 | storing the next pixel read right after the bytes copied so far extends the copied region by that pixel and changes nothing else |
| `TgaImage.RawStepBounds` | tgaimage.cpp:169-181 | after i of n pixels the input position and buffer offset advance by i pixels, and an early stop means the input or the buffer is too short for n pixels |
| `TgaImage.CopyRawPixels` | tgaimage.cpp:169-182 | n pixels are copied verbatim from the input, or the read fails when the input or the buffer is too short, never writing outside the buffer |
| `TgaImage.RepeatPixelInto` | tgaimage.cpp:192-200 | the colour is stored n times, or the read fails when the buffer is too short, never writing outside the buffer |
| `TgaImage.LineInside` | tgaimage.cpp:449 | a scanline below the last one and the scanline after it both lie in the buffer |
| `TgaImage.CopyPixel` | tgaimage.cpp:438-442 | one copy extends the scaled line by the original pixel the error counter selects |
| `TgaImage.EmitPixels` | tgaimage.cpp:436-441 | while the horizontal counter reaches the old width, the next pixels of the scaled line are copies of original pixel (i, j), and the counter ends below the old width |
| `TgaImage.ScaleRow` | tgaimage.cpp:424-443 | the inner loop writes the whole scaled line of original row j |
| `TgaImage.EmitLines` | tgaimage.cpp:445-452 | the vertical counter emits the output lines that come from row j, copying a line when it is repeated |
| `TgaImage.ScaleLine` | tgaimage.cpp:423-452 | one pass of the outer loop extends the finished output lines by those coming from original row j and keeps the counters in step |
| `TgaImage.ScaleInto` | tgaimage.cpp:416-453 | the new buffer is the scaled image |

## Left out

- File opening, closing and stream failures on writing (`ofstream::good()`), and the messages written to `std::cerr`, are not modelled. Writing always succeeds and returns the bytes.
- `buffer()`, `get_width`, `get_height`, `get_bytespp` and the destructor are not modelled. They only expose or free the fields.
- The `TGAColor(int v, int bpp)` constructor and the `val` view of the union are not modelled. A colour is its four raw bytes and `bytespp`.
- `#pragma pack` is modelled only as the 18-byte header layout.
- The model uses unbounded integers. `int` overflow of `w * h * bpp` and of the `unsigned long` products is not modelled. Conversions into the `short` and `int8_t` header fields are modelled by `Wrap16` and `Wrap8`.
- Colour-mapped files, the image ID field and the extension area are not modelled. The reader refuses those types, and it does not skip the ID field.
- `TgaImage.Image.ReadTga` promises nothing about the fields after a failed read. The source leaves whatever it had assigned.
- `TgaImage.Image.LoadRleData` requires at least one pixel, as the `do … while` loop reads a packet before it tests the count. `read_tga_file` rejects empty images before calling it.
- `TgaImage.Image.Scale` promises nothing about the new buffer's content when the old width or height is 0. The source then leaves the freshly allocated buffer uninitialised, and the model skips the loops.
- `TgaImage.Image.FlipHorizontally` exchanges bytes directly rather than through `get` and `set`. It requires `bytespp <= 4`, since `set` copies from the four-byte `raw` array.
- `TgaImage.Image.Get` requires `bytespp <= 4` for pixels in range, since the colour holds at most four bytes.
- `TgaImage.Image.Set` requires `bytespp <= 4` for pixels in range, for the same reason.
- `TgaImage.Image.WriteTga` requires zero dimensions when there is no buffer. The source would otherwise read through a null pointer.
- `TgaImage.Image.Assign` requires a buffer in the assigned image unless it is the image itself. The source would otherwise copy from a null pointer.
- `TgaImage.Image.Clear` requires that an image without a buffer has no pixels. A failed read can leave a null buffer with non-zero dimensions (tgaimage.cpp:65-73), and clear() would then memset through a null pointer.
- `TgaImage.Image.Copy` requires the copied image to have a buffer. The source would otherwise copy from a null pointer.
- The colour buffer of `load_rle_data` is not modelled as a `TGAColor` object. The pixel is read as a slice of the input.
- The line buffer that `flip_vertically` allocates (and frees) is not modelled as an array. `TgaImage.SwapLines` holds the line it saves as a sequence, so the allocation is left out.

## Findings

| source | as written | input that shows it | evidently intended | confidence | as-written member | corrected member |
|---|---|---|---|---|---|---|
| tgaimage.cpp:175-181 | `load_rle_data` stores a pixel and only then tests `currentpixel > pixelcount`, so a packet longer than the missing pixels writes one pixel past the end of `m_data` before the read fails (the run branch at lines 193-199 does the same) | a 1 x 1 grayscale image whose RLE data is the raw packet `[1, 7, 8]` (header 1 announces two pixels): pixel 8 is stored at byte 1 of a 1-byte buffer | test that a pixel is still missing before storing it | not executed | `Rle.AsWrittenOverrun` | `TgaImage.CopyRawPixels` |
