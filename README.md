# impp decoders: a Dafny model

impp is a small header-only C++ image library. It has three readers, all over a byte buffer in memory:

- a TGA reader for colour-mapped (type 1), true-colour (type 2) and run-length-encoded true-colour (type 10) images;
- a BMP reader that validates the two headers of a Microsoft bitmap and stops there;
- an image buffer that the decoded pixels end up in.

This project models the decode side in Dafny, together with the pixel layer and the image buffer, and proves properties of the model.

| file | module | models |
|---|---|---|
| `bytes.dfy` | `Bytes` | bytes, `uint16_t`/`uint32_t`, little-endian fields, `int32_t`, wrapping `size_t` subtraction |
| `errors.dfy` | `Errors` | the two ways the library fails (a cursor underflow that throws, a TGA `return false`) and the BMP header faults, as `Result`/`Outcome` values |
| `decoder.dfy` | `ByteDecoder` | class `decoder`: a read offset over an immutable buffer |
| `pixel.dfy` | `Pixels` | the four packed pixel structs, comparisons, the cast matrix, the byte view, the hash, batch conversion |
| `tga_header.dfy` | `TgaHeader` | the 18-byte `tga_header`, `tga_type`, the geometry derived from the header, `detect_header` |
| `tga_spec.dfy` | `TgaSpec` | what `tga_load_memory` computes, as functions of the input bytes |
| `tga_load.dfy` | `TgaLoader` | the reader itself, with the cursor, the value-initialised output array and the per-type loops, each method proved equal to `TgaSpec` |
| `tga_memory.dfy` | `TgaMemory` | `tga::load_memory` |
| `tga_findings.dfy` | `TgaFindings` | two TGA reader defects as written, with counterexamples and agreement lemmas |
| `bmp.dfy` | `Bmp` | the BMP headers, the ordered validation chain, `load_bitmap_from_memory`, `bmp::load_memory` |
| `image.dfy` | `ImageBuffer` | class `image`: orientation-aware pixel access, rectangle fill, overwrite, the two mirrors |

Some choices shape the model:

- Multi-byte fields are read by reinterpreting memory. They are modelled as little-endian.
- A pixel is one datatype with a constructor per struct. Each constructor lists its channels in declaration order, which is also the byte order in memory.
- The TGA reader's output pixels form an `array`, filled through an index exactly as the C++ loops fill `temp_pixel`. Each loop is proved against a function of the input bytes.
- The image class keeps its pixel vector as a `seq` field. Every operation that changes it reassigns it. Each method states the new vector through a function (`Put`, `Paint`, `VFlip`, `HFlip`). Lemmas about those functions state what a caller sees through `get_pixel`.

Some behaviour that looks surprising is modelled as the code has it:

- `pixel_less` is true as soon as any channel is smaller. It is not lexicographic, and two pixels can each be "less" than the other.
- The BMP "bitfields" compression value is 1, not the Microsoft value 3.
- `pixelsize` tests `colormap_len`, not `colormap_type`, so a zero-length colour map counts as no colour map.
- A colour-mapped image is refused when `bits * pixelcount < datasize`. This compares a bit count with a byte count.
- A type 1 or type 10 image whose `bits` selects no branch of the inner `switch` keeps its all-zero pixels and succeeds.
- A BMP that passes validation still yields a 0x0 image with no pixels.

Two defects are corrected in the model rather than reproduced. They are listed under Findings.

## Model

| member | source | states |
|---|---|---|
| Bytes.LE16 | include/decoder.hpp:33-41 | a two-byte field read from memory has its low byte first and its high byte second |
| Bytes.LE32 | include/decoder.hpp:33-41 | a four-byte field is its low 16-bit half plus 65536 times its high half |
| Bytes.U16BytesOfLE16 | include/decoder.hpp:33-41 | the two bytes of a 16-bit field can be recovered from its value, so the reading is injective |
| Bytes.U32BytesOfLE32 | include/decoder.hpp:33-41 | the four bytes of a 32-bit field can be recovered from its value |
| Bytes.ToInt32 | include/bmp.hpp:19-20 | the `int32_t` reading of a 32-bit field is in range, is negative exactly when the top bit is set, and is congruent to the field modulo 2^32 |
| Bytes.SizeSub | include/bmp.hpp:84 | `size_t` subtraction is exact when there is no borrow and wraps by 2^64 when there is |
| ByteDecoder.Decoder.Create | include/decoder.hpp:17-22 | the cursor is over the given buffer and starts at offset 0, within the buffer |
| ByteDecoder.Decoder.GetReadable | include/decoder.hpp:43-46 | the readable byte count plus the offset is the buffer size |
| ByteDecoder.Decoder.GetReadOffset | include/decoder.hpp:48-51 | the offset never passes the end, and offset plus readable is the buffer size |
| ByteDecoder.Decoder.Read | include/decoder.hpp:25-41 | with fewer than `size` bytes left, a read fails with an underflow and the offset is unchanged; otherwise it yields exactly the next `size` bytes and advances by `size` |
| ByteDecoder.Decoder.ProceedReading | include/decoder.hpp:53-58 | a skip fails exactly when `size` exceeds the readable bytes, and then leaves the offset unchanged; otherwise it advances by exactly `size` |
| ByteDecoder.Decoder.Peek | include/decoder.hpp:60-64 | the view is exactly the bytes from the offset on; the bytes before the offset followed by the view are the whole buffer, and the offset does not move |
| ByteDecoder.Decoder.Reset | include/decoder.hpp:66-69 | the offset returns to 0 over the same buffer |
| ByteDecoder.ReadConsecutive | include/decoder.hpp:33-41 | reads of `n` and then `m` bytes both succeed exactly when `n + m` bytes remain, and then together yield the `n + m` bytes from the original offset |
| Pixels.Make | include/pixel.hpp:109-165 | the pixel of a layout with the given channels has that layout and those channels; alpha is kept only by a 32-bit layout |
| Pixels.Zero | include/image.hpp:152 | a value-initialised pixel has every channel 0 |
| Pixels.PixelEqualIsEquality | include/pixel.hpp:88-100 | `pixel_equal` holds exactly when two pixels of one layout are the same pixel, that is, when all present channels agree |
| Pixels.PixelLessIrreflexive | include/pixel.hpp:74-86 | no pixel is `pixel_less` than itself |
| Pixels.PixelLessNotAsymmetric | include/pixel.hpp:74-86 | two pixels exist of which each is `pixel_less` than the other, so the relation is not lexicographic and not an order |
| Pixels.PixelLessConnected | include/pixel.hpp:74-86 | of two distinct pixels of one layout, at least one is `pixel_less` than the other |
| Pixels.PixelGreaterIsDominance | include/pixel.hpp:102-105 | `pixel_greater` holds exactly when the pixels differ and every channel of the first is at least that of the second; then the second is `pixel_less` than the first |
| Pixels.Pixel32To32 | include/pixel.hpp:171-179 | between the two 32-bit layouts all four channels are copied |
| Pixels.Pixel24To24 | include/pixel.hpp:181-188 | between the two 24-bit layouts all three channels are copied |
| Pixels.Pixel24To32 | include/pixel.hpp:190-198 | widening copies r, g and b and sets alpha to 255 |
| Pixels.Pixel32To24 | include/pixel.hpp:200-207 | narrowing copies r, g and b and drops alpha |
| Pixels.PixelCastInto | include/pixel.hpp:211-221 | a cast between two different layouts gives the target layout and the same r, g and b; the alpha of a 32-bit target is the source's alpha, or 255 from a 24-bit source |
| Pixels.PixelCast | include/pixel.hpp:223-232 | as above, and a cast to the pixel's own layout returns the pixel unchanged |
| Pixels.CastThrough | include/pixel.hpp:171-232 | casting through an intermediate layout equals the direct cast, except that a 24-bit intermediate between two 32-bit layouts resets alpha to 255 |
| Pixels.CastRoundTrip | include/pixel.hpp:173-207 | 24 to 32 to 24, and any cast into a 32-bit layout and back, return the original pixel |
| Pixels.BgrCast | include/pixel.hpp:44-64 | `pixel_bgr_cast` maps each layout to the BGR layout of the same depth and fixes the BGR layouts |
| Pixels.BytesView | include/pixel.hpp:301-309 | a pixel's byte view has `sizeof(pixel)` bytes, its fields in declaration order |
| Pixels.BytesViewRoundTrip | include/pixel.hpp:301-309 | reinterpreting a pixel's byte view gives the pixel back, and the byte view of a reinterpreted buffer is the buffer |
| Pixels.PixelHash | include/pixel.hpp:312-318 | the hash is the `pixel32rgba` cast read as a little-endian word: `r + 256 g + 65536 b + 2^24 a`, with `a = 255` for 24-bit pixels |
| Pixels.HashEqualIff | include/pixel.hpp:312-318 | two pixels of one layout hash alike exactly when they are `pixel_equal` |
| Pixels.PixelConvert | include/pixel.hpp:283-292 | the new vector has the input's length, and element `i` is the cast of input `i` |
| Pixels.PixelConvertResize | include/pixel.hpp:272-281 | the destination ends with the input's length and element `i` is the cast of input `i`; it is replaced only when its length differs |
| Pixels.PixelConvertRange | include/pixel.hpp:294-299 | the first `pcount` destination slots receive the casts of the first `pcount` inputs; every other slot is untouched |
| TgaHeader.TgaType.Code | include/tga.hpp:41-46 | the image type codes are 0, 1, 2 and 10 |
| TgaHeader.ParseHeader | include/tga.hpp:49-65 | the packed header's fields sit at fixed offsets: `idlen` at 0, `colormap_len` at 5-6, `width` at 12-13, `height` at 14-15, `bits` at 16, little-endian |
| TgaHeader.HeaderRoundTrip | include/tga.hpp:49-65 | parsing the 18-byte memory image of a header gives the header back |
| TgaHeader.HeaderBytesOfParse | include/tga.hpp:49-65 | every 18 bytes are the memory image of the header they parse to |
| TgaHeader.DiskLayout | include/tga.hpp:162-178 | stored pixels of 3 bytes are `pixel24bgr` and of 4 bytes are `pixel32bgra`, both their own BGR cast |
| TgaHeader.DetectHeader | include/tga.hpp:278-291 | the written header has `bits` 24 or 32 and `imagedesc` 0 or 8 by pixel depth, no colour map, no id, the given image type, width and height truncated to 16 bits, and every other field 0 |
| TgaSpec.Render | include/tga.hpp:74-75 | one output pixel per source offset, all of the target layout |
| TgaSpec.RenderAt | include/tga.hpp:74-75 | output pixel `i` is the cast of the pixel stored at offset `i` |
| TgaSpec.Consecutive | include/tga.hpp:104-110 | `n` adjacent stored pixels lie within the `n * size` bytes from the start |
| TgaSpec.Repeat | include/tga.hpp:88-93 | a run packet yields `n` copies of one source offset |
| TgaSpec.IndexAt | include/tga.hpp:75 | a colour-map index is a `uint8_t`, or a little-endian `uint16_t` |
| TgaSpec.Paletted | include/tga.hpp:70-76 | a colour-mapped decode yields exactly one index per pixel, or fails with an underflow or a rejection |
| TgaSpec.PalettedBelow | include/tga.hpp:70-76 | every index of a successful decode names an entry of the colour map |
| TgaSpec.PalettedAt | include/tga.hpp:70-76 | on success, index `i` is the one stored at position `i`, and it is present and in range |
| TgaSpec.PalettedOkIff | include/tga.hpp:70-76 | colour-mapped decoding succeeds exactly when each of the `n` indices is present and names an entry |
| TgaSpec.EntryOffsets | include/tga.hpp:73-75 | entry `idx` of the colour map starts at byte `idx * size`, and every entry lies inside the colour map |
| TgaSpec.ColormapHoldsEntries | include/tga.hpp:125-133 | the colour map's byte size is its entry count times the stored pixel size |
| TgaSpec.PacketCount | include/tga.hpp:86 | a packet's control byte gives between 1 and 128 pixels |
| TgaSpec.ReadPacket | include/tga.hpp:85-100 | a decoded packet ends past its control byte and within the input, yields between one pixel and the pixels still missing, each stored within the input; a failure is an underflow or a rejection |
| TgaSpec.RunPacketRepeats | include/tga.hpp:88-94 | a run packet yields `count` copies of the pixel right after its control byte and ends one pixel later |
| TgaSpec.RawPacketAdjacent | include/tga.hpp:95-100 | a raw packet yields `count` adjacent pixels after its control byte and ends after the last of them |
| TgaSpec.ReadPacketLocal | include/tga.hpp:85-100 | a decoded packet depends only on the bytes up to its end |
| TgaSpec.ReadPacketShort | include/tga.hpp:85-100 | cutting the input inside a packet makes reading it an underflow |
| TgaSpec.Rle | include/tga.hpp:78-102 | a run-length decode of `n` pixels yields exactly `n` source offsets, all within the input, or fails with an underflow or a rejection |
| TgaSpec.RleLocal | include/tga.hpp:78-102 | a successful decode depends only on the bytes of its packets |
| TgaSpec.RleExtend | include/tga.hpp:78-102 | bytes appended after a well-formed stream change nothing |
| TgaSpec.RleTruncated | include/tga.hpp:78-102 | cutting a well-formed stream before the end of its last packet makes the decode an underflow, never a short or a different result |
| TgaSpec.MappedBody | include/tga.hpp:160-181 | a successful type 1 body has exactly `pixelcount` pixels; only 8- or 16-bit indices can fail, and any other `bits` yields `pixelcount` all-zero pixels |
| TgaSpec.MappedBodyOkIff | include/tga.hpp:160-181 | a type 1 body decodes exactly when, with 8- or 16-bit indices, each of the `pixelcount` indices is present and names an entry of the colour map |
| TgaSpec.RenderEntryAt | include/tga.hpp:74-75 | rendering entry offsets over a colour map reads entry `indices[i]` of it, within the colour map |
| TgaSpec.MappedBodyAt | include/tga.hpp:160-181 | pixel `i` of a decoded type 1 body is the colour-map entry named by the `i`-th index, read at `colormap + index * pixelsize` and converted |
| TgaSpec.MappedWithoutColormap | include/tga.hpp:127-181 | without a colour map (`colormap_type != 1`) a non-empty type 1 image with 8- or 16-bit indices is refused |
| TgaSpec.RgbBody | include/tga.hpp:184-197 | a type 2 body is refused exactly when fewer than `pixelcount * pixelsize` bytes remain, and otherwise has exactly `pixelcount` pixels |
| TgaSpec.RleBody | include/tga.hpp:200-209 | a successful type 10 body has exactly `pixelcount` pixels |
| TgaSpec.DecodeBody | include/tga.hpp:157-213 | whichever image type is decoded, success means exactly `pixelcount` pixels; an image type other than 1, 2 and 10 is rejected |
| TgaSpec.DecodeImage | include/tga.hpp:125-219 | on success the outputs are the header's width and height, `bpp == pixelsize` (3 or 4) and exactly `width * height` pixels; a truncated colour map, a colour map with `bits` other than 8 or 16, `bits * pixelcount < datasize` with a colour map, a `pixelsize` other than 3 or 4, and an unknown image type are each rejected |
| TgaSpec.TgaDecode | include/tga.hpp:113-123 | input shorter than the 18-byte header is an underflow; on success the outputs are those of the parsed header, as above |
| TgaSpec.TgaDecodeErrIff | include/tga.hpp:113-213 | decoding fails exactly when the header or id is missing (an underflow), a check before the pixels fails (a rejection, whichever check it is), or the body fails; when every check passes the result is the body's, with the header's width, height and `pixelsize` |
| TgaLoader.LoadEntry | include/tga.hpp:74-75 | a short read is an underflow; otherwise the cursor moves past the index, an index naming no entry is rejected, and a valid one yields the cast of that colour-map entry |
| TgaLoader.LoadPaletted | include/tga.hpp:70-76 | the loop fails with the error `Paletted` gives; otherwise the cursor is past all indices and every output pixel is the cast of the entry its index names |
| TgaLoader.ReadPixel | include/tga.hpp:98 | reading a stored pixel fails with an underflow when it is not all there; otherwise it yields its cast and advances by its size |
| TgaLoader.LoadRun | include/tga.hpp:88-94 | a run packet body writes `count` copies of the cast of the one stored pixel and leaves the output before it untouched |
| TgaLoader.LoadRaw | include/tga.hpp:95-100 | a raw packet body writes the casts of `count` adjacent stored pixels, in order, or fails with an underflow; the output before it is untouched |
| TgaLoader.LoadPacket | include/tga.hpp:85-100 | one packet fails exactly as `ReadPacket` says; otherwise the cursor is at the packet's end and its pixels are rendered at the current output position |
| TgaLoader.LoadRle | include/tga.hpp:78-102 | the packet loop fails with the error `Rle` gives; otherwise the output is the rendering of `Rle`'s source offsets |
| TgaLoader.LoadUncompressed | include/tga.hpp:104-110 | the cursor moves past `size` stored pixels, and the output is their casts, in order |
| TgaLoader.LoadMappedBody | include/tga.hpp:160-181 | the type 1 case computes `MappedBody` |
| TgaLoader.LoadRgbBody | include/tga.hpp:184-197 | the type 2 case computes `RgbBody` |
| TgaLoader.LoadRleBody | include/tga.hpp:200-209 | the type 10 case computes `RleBody` |
| TgaLoader.LoadBody | include/tga.hpp:154-213 | the pixel buffer and the dispatch on `image_type` compute `DecodeBody`; an unknown type is rejected |
| TgaLoader.LoadImage | include/tga.hpp:125-219 | the colour-map and pixel-size checks, the skip and the body compute `DecodeImage` |
| TgaLoader.TgaLoadMemory | include/tga.hpp:113-220 | the whole reader computes `TgaDecode` |
| TgaMemory.LoadMemory | include/tga.hpp:258-276 | `load_memory` yields the decoded image, or the null image when decoding fails; the result always has `width * height` pixels |
| TgaFindings.RleAsWritten | include/tga.hpp:78-102 | the packet loop as written emits at least `n` pixels, and can emit more |
| TgaFindings.RleOverrun | include/tga.hpp:83-100 | a 1x1 image whose only packet is a run of two yields two pixels as written; the corrected decoder rejects it |
| TgaFindings.RleAgrees | include/tga.hpp:78-102 | whenever the loop as written yields exactly `n` pixels, the corrected decoder yields the same ones |
| TgaFindings.PalettedAsWritten | include/tga.hpp:70-76 | the index loop as written yields `n` indices, none checked |
| TgaFindings.IndexPastColormap | include/tga.hpp:73-75 | index 5 into a one-entry colour map is accepted as written and read past the colour map; the corrected decoder rejects it |
| TgaFindings.PalettedAgrees | include/tga.hpp:70-76 | the corrected decoder succeeds exactly when every index as written names an entry, and then yields the same indices |
| Bmp.ParseFileHeader | include/bmp.hpp:10-15 | the 14-byte file header has `type` at bytes 0-1, `size` at 2-5, `reserved` at 6-9 and `offbits` at 10-13, little-endian |
| Bmp.ParseInfoHeader | include/bmp.hpp:17-43 | width and height are the two's-complement 32-bit values at bytes 4-7 and 8-11, negative exactly when their top byte has its top bit set; `planes` and `bitcount` are little-endian at bytes 12-13 and 14-15, `compression` at 16-19 |
| Bmp.SignatureIsBM | include/bmp.hpp:80-81 | the signature 19778 is exactly the bytes `B`, `M` |
| Bmp.Validate | include/bmp.hpp:80-110 | every refusal names a header field |
| Bmp.OffbitsCheck | include/bmp.hpp:84-85 | the wrapping test `offbits - 14 - 40 > readable` refuses exactly a pixel offset inside the headers or past the end of the input |
| Bmp.ValidateFirstFailure | include/bmp.hpp:80-110 | a header is refused with fault `e` exactly when check `e` fails and every earlier check passes |
| Bmp.ValidatePass | include/bmp.hpp:80-110 | a header passes exactly when no check fails |
| Bmp.OffbitsInsideHeaders | include/bmp.hpp:84-85 | a good signature with `offbits < 54` is refused for its offset |
| Bmp.BmpCheck | include/bmp.hpp:73-113 | input shorter than the two headers, 54 bytes, is exactly the underflow case |
| Bmp.PassedSize | include/bmp.hpp:86-87 | a header that passes declares exactly the input's length |
| Bmp.LoadBitmapFromMemory | include/bmp.hpp:73-113 | the two cursor reads and the checks compute `BmpCheck` |
| Bmp.LoadMemory | include/bmp.hpp:116-136 | `bmp::load_memory` always yields a 0x0 image with no pixels |
| ImageBuffer.EmptyGrid | include/image.hpp:58 | an image has no pixels exactly when it has no rows or no columns |
| ImageBuffer.StorageRow | include/image.hpp:115-117 | under `LEFT_TOP` logical row `y` is stored as row `height - 1 - y`, under `LEFT_BOTTOM` as row `y` |
| ImageBuffer.StorageRowInvolution | include/image.hpp:115-117 | mapping a row twice gives it back, so logical and storage rows correspond one to one |
| ImageBuffer.Index | include/image.hpp:119 | the storage index of an in-range pixel lies inside the vector |
| ImageBuffer.Put | include/image.hpp:107-121 | writing a pixel keeps the vector's length and layout |
| ImageBuffer.AtPut | include/image.hpp:107-138 | under the same orientation, reading back an in-range pixel just written gives the written colour |
| ImageBuffer.AtPutOther | include/image.hpp:107-121 | writing one pixel leaves every other logical pixel unchanged |
| ImageBuffer.Paint | include/image.hpp:140-166 | painting keeps the vector's length and keeps it all RGBA32 |
| ImageBuffer.PaintAt | include/image.hpp:140-166 | after painting, a logical pixel has the brush's colour where the area covers it and the brush has one, and its old value everywhere else |
| ImageBuffer.VFlip | include/image.hpp:168-175 | pixel `i` of the result is the pixel at the same column of the mirrored row |
| ImageBuffer.HFlip | include/image.hpp:177-183 | pixel `i` of the result is the pixel at the mirrored column of the same row |
| ImageBuffer.VFlipAt | include/image.hpp:168-175 | after a vertical mirror the logical picture is upside down, whatever the orientation |
| ImageBuffer.HFlipAt | include/image.hpp:177-183 | after a horizontal mirror the logical picture is mirrored left to right |
| ImageBuffer.VFlipTwice | include/image.hpp:168-175 | the vertical mirror is an involution |
| ImageBuffer.HFlipTwice | include/image.hpp:177-183 | the horizontal mirror is an involution |
| ImageBuffer.VFlipRow | include/image.hpp:173-174 | each row copy of the vertical mirror puts old row `height - 1 - r` at row `r` |
| ImageBuffer.HFlipRow | include/image.hpp:181-182 | each reversal of the horizontal mirror reverses one row |
| ImageBuffer.Image.Create | include/image.hpp:77-84 | `create(w, h)` has `w * h` all-zero pixels, the given width and height, and `LEFT_TOP` |
| ImageBuffer.Image.CreateFrom | include/image.hpp:86-93 | `create(w, h, bytes)` takes the pixels unchecked; the image is well formed exactly when there are `w * h` RGBA32 pixels |
| ImageBuffer.Image.Null | include/image.hpp:47 | `null()` is 0x0 with no pixels and is `empty()` |
| ImageBuffer.Image.Move | include/image.hpp:95-100 | the move constructor carries width, height and pixels; the orientation is not carried and is `LEFT_TOP` |
| ImageBuffer.Image.Empty | include/image.hpp:58 | `empty()` holds exactly when there are no pixels, which for a well-formed image means no rows or no columns |
| ImageBuffer.Image.SetOrientation | include/image.hpp:102-105 | only the orientation changes |
| ImageBuffer.Image.SetPixel | include/image.hpp:107-121 | out of range nothing changes; otherwise exactly the logical pixel `(x, y)` under the current orientation is overwritten |
| ImageBuffer.Image.GetPixel | include/image.hpp:124-138 | null exactly when `x >= width` or `y >= height`; otherwise the pixel at the orientation-dependent storage index |
| ImageBuffer.Image.FillRow | include/image.hpp:146-148 | the inner loop of `fill_rect` paints one row segment and nothing else |
| ImageBuffer.Image.FillRect | include/image.hpp:140-149 | exactly the pixels with `x <= px < min(x + w, width)` and `y <= py < min(y + h, height)` take the colour; all others keep theirs |
| ImageBuffer.Image.BlankRect | include/image.hpp:151-153 | `blank_rect` is `fill_rect` with the all-zero pixel |
| ImageBuffer.Image.OverwriteRow | include/image.hpp:161-164 | the inner loop of `overwrite` copies one row segment of the source and nothing else |
| ImageBuffer.Image.Overwrite | include/image.hpp:155-166 | under the source's orientation, exactly the pixels of the target rectangle, clipped to the destination, take the source's pixel at the same offset; all others keep theirs, and the orientation is restored |
| ImageBuffer.Image.VerticalMirror | include/image.hpp:168-175 | the new pixels are the vertical mirror of the old ones; geometry and orientation are unchanged |
| ImageBuffer.Image.HorizontalMirror | include/image.hpp:177-183 | the new pixels are the horizontal mirror of the old ones; geometry and orientation are unchanged |

## Left out

- `include/encoder.hpp` and `tga::save` (include/tga.hpp:293-334) are not part of this model. The writing side calls a colour-table builder that is not in this repository and an encoder call with no pixels, so it has no defined behaviour to model. `DetectHeader` is kept.
- The error hook of `include/error.hpp` is not modelled. Failures are `Result` values. Both `load_memory` functions are modelled as if the installed handler returns, so a failure ends as the null image. The default handler rethrows.
- The file loaders `tga::load`, `tga::detail::tga_load` and `bmp::load` are left out because they are stream I/O.
- `postprocess_pixel32to24` is left out because it blends in double precision.
- The `pixel_convert(std::vector<uint8_t>*, int)` overload is left out. It sizes its destination by the wrong type, and nothing calls it.
- The readers are templates over an `image<pixel>` that `include/image.hpp` does not define. That file defines a non-template image over `pixel32rgba`. The decoders therefore hand back a `Raster` (width, height, pixels), and the `Image` class stores RGBA32 pixels.
- TgaLoader.TgaLoadMemory: the output layout is restricted to `pixel24rgb` and `pixel32rgba`. For `pixel24bgr` and `pixel32bgra` the source does not compile, because a struct's `from` is disabled for its own type and every `switch` branch is instantiated.
- The optional `tga_header* pheader` output of `tga_load_memory` is not modelled. `ParseHeader` of the first 18 bytes is that header.
- Sizes and coordinates are unbounded naturals. The `size_t` wrap-around of `x + w` in `fill_rect` and `overwrite`, and of `width * height` in `create`, is not modelled. The wrap-around of the BMP `offbits` test is modelled.
- Bmp.LoadBitmapFromMemory: the input length must be below 2^64, the range of `size_t`.
- ByteDecoder.Decoder.Peek: the source returns a raw pointer with no bounds check. The model returns the suffix from the offset, so a read past the end through the view cannot be expressed.
- TgaLoader.LoadUncompressed: requires that the stored pixels are present, so the throwing path of its skip (include/decoder.hpp:55-56) is not modelled. Its only caller checks `datasize >= imgsize` first (include/tga.hpp:187-188), so that path is never taken.
- TgaSpec.MappedBody: a type 1 image whose `colormap_type` is not 1 is refused as soon as it has a pixel with 8- or 16-bit indices. The source reads its entries through the pointer peeked where a colour map would start, which is the index bytes themselves, and may return pixels. The model promises nothing like those pixels.
- TgaLoader.LoadRle: does not state where the cursor ends. `TgaSpec.RleEnd` gives that position, and no later step reads the cursor.
- ImageBuffer.Image.SetPixel and every other `Image` method require a well-formed image: `width * height` RGBA32 pixels. The source indexes out of bounds after `create(w, h, bytes)` with a vector of another length, and that is undefined behaviour.
- ImageBuffer.Image.Overwrite: requires the source image to be a different object. Overwriting an image with itself, where the source changes while it is read, is not modelled.
- ImageBuffer.Image.Move: the moved-from image is not emptied in the model.
- ImageBuffer.Image.VerticalMirror: `memcpy` and `std::reverse` are modelled as replacing one whole row of the pixel sequence at a time.

## Findings

| source | as written | input that shows it | evidently intended | confidence | as-written member | corrected member |
|---|---|---|---|---|---|---|
| include/tga.hpp:83-100 | The last run-length packet is written whole, even when it carries more pixels than are still missing. It writes past the `pixelcount`-pixel buffer. | A 1x1 type 10 image with 24-bit pixels whose only packet is `0x81` plus one pixel: two pixels go to a one-pixel buffer (`TgaFindings.RleOverrun`). | A packet longer than the pixels still missing is refused. Every success yields exactly `pixelcount` pixels, and it agrees with the code wherever the code stays in bounds (`TgaFindings.RleAgrees`). | not executed | TgaFindings.RleAsWritten | TgaSpec.Rle |
| include/tga.hpp:73-75 | A colour-map index is used without comparing it with `colormap_len`. An index naming no entry reads past the colour map. | One 8-bit index 5 into a one-entry colour map of 3-byte entries: the entry is read at byte 15 of a 3-byte colour map (`TgaFindings.IndexPastColormap`). | An index naming no entry is refused. Decoding succeeds exactly when every index names an entry, and then yields the same indices as the code (`TgaFindings.PalettedAgrees`). An image with `colormap_type != 1` has no entries, so the corrected decoder refuses every one of its indices (`TgaSpec.MappedWithoutColormap`), where the code reads entries from the bytes after the header and may stay in bounds. | not executed | TgaFindings.PalettedAsWritten | TgaSpec.Paletted |
