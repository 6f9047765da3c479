# TGA codec, modelled in Dafny

This project models the core of a small Truevision TGA image library. The
library ships in two forms:

- a C API in `tgafunc.c`: `tga_create`, `tga_load`, `tga_save`,
  `tga_get_pixel`, `tga_set_pixel`, `tga_image_flip_h` and
  `tga_image_flip_v`, over a heap-allocated `tga_image`;
- a C++ class `tga::Image` in `tgafunc_cpp.cpp`. It has a sized
  constructor, a file constructor, `load`, `save`, the two flips,
  `get_pixel`, `last_error` and the getters. It keeps its pixel bytes in a
  `std::vector` and records the last error in a field.

Both forms follow the same path:

1. Read the 18-byte header.
2. Check the header in a fixed order: a colour-map type above 1, then no
   data, then an unsupported image type, then a zero width or height, then
   an unknown pixel format.
3. Skip the image ID.
4. Read the colour map (or skip it).
5. Decode the pixels. Each stored unit is either copied as it is or looked
   up in the colour map. The data is raw, or run-length encoded in packets
   whose header byte has bit 7 set for a run and a count of `(b & 0x7F) + 1`.
6. Flip the buffer so that its origin is the top-left corner (descriptor
   bit 4 set means a horizontal flip; bit 5 clear means a vertical flip).

Saving writes an uncompressed true-colour or grayscale header, then the
pixel bytes as they are.

## Modules

| module | file | contents |
|---|---|---|
| `TgaFormat` | `tga_format.dfy` | Bytes, pixel formats and their codes, error codes, `BITS_TO_BYTES`, the image-type classifiers, the pixel-format resolver and the dimension check |
| `TgaStream` | `tga_stream.dfy` | Cursor reads of one byte, a little-endian 16-bit word and a block, on a byte sequence |
| `TgaHeader` | `tga_header.dfy` | The header record, its validation with error precedence, and its encoding |
| `TgaColorMap` | `tga_colormap.dfy` | The colour-map block, the wrapped 16-bit index, and the lookup (the corrected one, plus the guard as written) |
| `TgaDecodeSpec` | `tga_decode_spec.dfy` | The raw and RLE decoders as functions, an independent RLE expansion, and the lemmas that connect them |
| `TgaDecode` | `tga_decode.dfy` | The decoders as loops that fill an `array` in place, proved against `TgaDecodeSpec` |
| `TgaPixels` | `tga_pixels.dfy` | Coordinate clamping, the pixel offset (and its 32-bit form as written), the flips as functions, and the in-place flip loops |
| `Buffer` | `buffer.dfy` | Zero-filled and resized buffers, block copies and block swaps on arrays |
| `TgaCodec` | `tga_codec.dfy` | The whole decode (`DecodeImage`) and encode (`EncodeImage`) as functions; orientation; the round trip |
| `TgaC` | `tga_c.dfy` | The C `tga_image` as a class, and the C API |
| `TgaCpp` | `tga_cpp.dfy` | `tga::Image` as a class |
| `Arith`, `Wrappers` | `arith.dfy`, `wrappers.dfy` | Arithmetic helper lemmas; `Option` and `Result` |

A file is a byte sequence. "The file cannot be opened" is `None`. Each
read advances a cursor and fails once it would pass the end. A decode
failure is either `ReadFail` (short read) or `IndexFail` (colour-map
index out of range).

The loaders use the corrected colour-map guard (Findings, row 1). As
written, that guard never rejects an index, so `IndexFail` never arises
in the source. With the corrected guard, the two forms would report the
two failures differently:

- The C loader's failure path returns `TGA_ERROR_FILE_CANNOT_READ` for
  both.
- The C++ loader's failure paths assign `TGA_ERROR_COLOR_MAP_INDEX_FAILED`
  for the second.

`TgaCodec.Dialect` tells the two apart. `TgaCodec.DialectsAgree` proves
that this is the only difference between the two loaders.

## Model

| member | source | states |
|---|---|---|
| TgaFormat.CodeOf | tgafunc.h:38-62 | Every pixel format has an enumerator code in 0..4 |
| TgaFormat.FormatOfCode | tgafunc_cpp.cpp:83-97 | A code names a format exactly when it lies in 0..4, and then it names the format whose code it is |
| TgaFormat.FormatCodeRoundTrip | tgafunc.h:38-62 | Decoding a format's code gives back the format |
| TgaFormat.PixelSize | tgafunc.c:46-63 | Pixel sizes are 1..4 bytes; exactly BW16 and RGB555 take 2 |
| TgaFormat.PixelSizeOfCode | tgafunc_cpp.cpp:83-97 | `pixel_format_to_pixel_size` returns -1 exactly for an unknown code; otherwise it returns that format's size |
| TgaFormat.BitsToBytes | tgafunc.c:397 | `((n-1)/8+1)` with C's truncating division: 1 for 0 bits, else the ceiling of n/8; it always holds n bits |
| TgaFormat.CheckDimensions | tgafunc_cpp.cpp:78-81 | Dimensions are accepted exactly when both lie in 1..65535 |
| TgaFormat.ClassifiersPartition | tgafunc.c:280-303 | The supported image types are exactly the colour-mapped, true-colour and grayscale ones; the three classes are disjoint; every RLE type is supported |
| TgaFormat.ResolvePixelFormat | tgafunc.c:311-353 | Each format is chosen under exactly the stated (type class, depth, map entry size) conditions, in both directions |
| TgaFormat.ResolverIgnoresRle | tgafunc_cpp.cpp:101-142 | The RLE variant of a type resolves like its base type; an unsupported type resolves to nothing |
| TgaFormat.ResolvedSizesAgree | tgafunc.c:311-353 | For a resolved format, the stored unit (or the map entry, for colour-mapped types) has exactly the format's pixel size |
| TgaStream.ReadU8 | tgafunc.c:259-266 | A byte read succeeds exactly when a byte remains; it returns that byte and advances by one |
| TgaStream.ReadU16Le | tgafunc.c:271-278 | A word read succeeds exactly when two bytes remain; the low byte comes first; it advances by two |
| TgaStream.ReadBytes | tgafunc.c:542-545 | A block read succeeds exactly when the block fits (an empty block always does); it returns those bytes |
| TgaStream.ReadU16LeOfLe16 | tgafunc.c:271-278 | Reading back a word written low byte first gives the word |
| TgaHeader.ReadFields | tgafunc.c:356-373 | The header fields can be read exactly when at least 18 bytes are present |
| TgaHeader.ParseHeader | tgafunc.c:356-394 | Each error is returned exactly in its case, in order: short header, colour-map type above 1, no-data type, unsupported type, zero width or height, unknown format; success carries the header fields and the resolved format |
| TgaHeader.EncodeHeader | tgafunc.c:594-609 | The header is written as 18 bytes, in file field order, 16-bit fields little-endian; ReadFieldsOfEncoded reads it back |
| TgaHeader.ReadFieldsOfEncoded | tgafunc_cpp.cpp:335-348 | Parsing the fields of an encoded header gives the header back |
| TgaHeader.ParseEncodedHeader | tgafunc_cpp.cpp:335-374 | An encoded header that passes every check parses to itself and its resolved format |
| TgaHeader.SaveHeader | tgafunc.c:594-609 | The saved header has no colour map and no ID; it resolves back to the image's format; its origin is the top-left corner |
| TgaColorMap.MapIndex | tgafunc.c:400-403 | A map index is the first byte of the stored unit, so it is below 256 |
| TgaColorMap.WrappedOffset | tgafunc.c:408-409 | `index - first_index`, taken as a 16-bit value, is the offset that the first index plus the offset reaches modulo 2^16 |
| TgaColorMap.GuardAsWrittenNeverRejects | tgafunc.c:410-412 | The range guard as written never rejects any index |
| TgaColorMap.GuardAsWrittenReadsPastTable | tgafunc_cpp.cpp:155-157 | With the guard as written, index 1 in a one-entry map starting at 0 reads past the end of the table |
| TgaColorMap.WrappedOffsetOfEntry | tgafunc.c:408-409 | The k-th entry's index wraps back to offset k |
| TgaColorMap.OffsetInRangeIff | tgafunc.c:407-416 | The offset is below the entry count exactly when the index is one of the map's entry indices |
| TgaColorMap.Lookup | tgafunc.c:407-416 | A lookup succeeds exactly for the map's own indices and returns the entry at the wrapped offset |
| TgaColorMap.LookupFirstIndex | tgafunc_cpp.cpp:152-161 | The first index yields the first entry |
| TgaColorMap.LookupOnePastEnd | tgafunc_cpp.cpp:152-161 | The index one past the last entry is rejected |
| TgaColorMap.LoadColorMap | tgafunc.c:527-551 | Only a short read of the map block of a colour-mapped image fails, and then with FILE_CANNOT_READ; a read map carries the header's first index, entry count and entry size and the bytes read; otherwise the block is skipped when a map is present |
| TgaDecodeSpec.ResolveUnit | tgafunc.c:430-433 | Without a map the unit is copied; with a map the entry is looked up, or the step fails with an index failure |
| TgaDecodeSpec.ReadPixel | tgafunc.c:426-433 | Reading one pixel fails with a read failure exactly when the unit does not fit |
| TgaDecodeSpec.DecodePixels | tgafunc.c:422-440 | n pixels decode to n output pixels and consume n units |
| TgaDecodeSpec.RawDecode | tgafunc.c:419-449 | The cursor never moves back. Without a colour map the only failure is a short read, and success yields exactly the bytes between the two cursors |
| TgaDecodeSpec.BulkReadIsPerPixel | tgafunc.c:441-447 | The single bulk read of an uncolour-mapped raw image gives the same result as reading it pixel by pixel |
| TgaDecodeSpec.PacketCount | tgafunc.c:468-469 | A packet covers 1 to 128 pixels |
| TgaDecodeSpec.RleFromSize | tgafunc.c:462-503 | From any loop state whose run pixel has the decoded width, the loop-shaped RLE decode yields exactly n pixels and never moves the cursor back |
| TgaDecodeSpec.RleDecode | tgafunc.c:452-510 | A successful RLE decode of n pixels from a packet boundary yields n pixels of the decoded width, with the cursor no earlier than where it started |
| TgaDecodeSpec.ExpandRle | tgafunc.c:452-510 | Expanding the packets of n pixels gives n units, or a read failure |
| TgaDecodeSpec.RleMatchesExpansion | tgafunc_cpp.cpp:197-266 | The RLE decoder agrees with decoding the expanded units pixel by pixel, failure included |
| TgaDecodeSpec.RleIsRawOfExpanded | tgafunc.c:452-510 | RLE decoding is raw decoding of the expanded stream; a failed expansion fails the decode |
| TgaDecodeSpec.RleTrueColorIsExpansion | tgafunc.c:452-510 | Without a colour map, RLE decoding is exactly the expansion |
| TgaDecode.DecodeRawInto | tgafunc.c:419-449 | The loop fills the buffer with exactly the raw decode's pixels, or returns its error |
| TgaDecode.NextPacket | tgafunc.c:463-483 | Reading a packet header (and a run's value) continues the RLE decode with that packet pending, or returns its failure |
| TgaDecode.PacketPixel | tgafunc.c:485-499 | One pixel from the pending packet is the next output pixel of the RLE decode |
| TgaDecode.RleStep | tgafunc.c:463-503 | One loop iteration reads a packet header when none is pending, then stores the next pixel at the cursor; the stored pixel is the next output of the RLE decode from that state, or the step returns that decode's failure |
| TgaDecode.RleAdvance | tgafunc.c:463-503 | One iteration keeps the loop invariant: the image decode is the bytes stored so far followed by what the packet state still decodes |
| TgaDecode.DecodeRleInto | tgafunc_cpp.cpp:197-266 | The loop fills the buffer with exactly the RLE decode's pixels, or returns its error |
| TgaPixels.Clamp | tgafunc.c:242-251 | A clamped coordinate is in range, is unchanged when already in range, and is the nearest in-range value |
| TgaPixels.ClampCoordinate | tgafunc_cpp.cpp:510-519 | The clamping statements give the clamped coordinate |
| TgaPixels.PixelOffset | tgafunc_cpp.cpp:509-522 | The pixel at the clamped coordinates lies inside the buffer; in-range coordinates give `(y*w+x)*ps` |
| TgaPixels.PixelOffsetCoords | tgafunc.c:241-254 | An in-range offset is pixel-aligned and gives back x and y |
| TgaPixels.WrapInt32 | tgafunc.c:252 | Wrapping to a 32-bit int is congruent modulo 2^32 and is the identity in range |
| TgaPixels.PixelOffsetAsWritten | tgafunc.c:241-254 | The offset as written, in `int` arithmetic, lies in the `int` range and is congruent modulo 2^32 to the true offset of the clamped pixel |
| TgaPixels.PixelOffsetAsWrittenAgrees | tgafunc.c:241-254 | The `int` computation as written gives the true offset whenever the buffer has at most 2^31 bytes |
| TgaPixels.PixelOffsetAsWrittenOverflows | tgafunc_cpp.cpp:521 | For a 65535x65535 ARGB32 image, the written computation of the offset of (0, 65534) wraps to a negative value |
| TgaPixels.FlippedH | tgafunc.c:164-181 | The horizontally mirrored buffer has the buffer's length; FlippedHAt gives each of its bytes |
| TgaPixels.FlippedV | tgafunc.c:183-200 | The vertically mirrored buffer has the buffer's length; FlippedVAt gives each of its bytes |
| TgaPixels.FlippedHAt | tgafunc.c:164-181 | After the horizontal flip, byte b of (x, y) is byte b of (w-1-x, y) |
| TgaPixels.FlippedVAt | tgafunc.c:183-200 | After the vertical flip, byte b of (x, y) is byte b of (x, h-1-y) |
| TgaPixels.FlipHInvolution | tgafunc_cpp.cpp:468-486 | Flipping horizontally twice restores the buffer |
| TgaPixels.FlipVInvolution | tgafunc_cpp.cpp:488-505 | Flipping vertically twice restores the buffer |
| TgaPixels.FlipsCommute | tgafunc.c:576-583 | The two flips commute |
| Buffer.Resize | tgafunc_cpp.cpp:318 | `std::vector::resize` keeps the first n bytes and zero-fills the rest, in a new buffer of exactly n bytes |
| TgaPixels.FlipHInPlace | tgafunc.c:164-181 | The pixel-swapping loop leaves exactly the horizontally flipped buffer |
| TgaPixels.FlipVInPlace | tgafunc.c:183-200 | The pixel-swapping loop leaves exactly the vertically flipped buffer |
| TgaCodec.DecodeError | tgafunc_cpp.cpp:171-191 | With the corrected guard, only the C++ loader's failure paths report an index failure as COLOR_MAP_INDEX_FAILED; every other decode failure is FILE_CANNOT_READ |
| TgaCodec.Orient | tgafunc.c:575-583 | Orientation keeps the buffer's length; OrientAt gives each of its pixels |
| TgaCodec.OrientAt | tgafunc.c:575-583 | After orientation, pixel (x, y) is the stored pixel mirrored in x when bit 4 is set, and in y when bit 5 is clear |
| TgaCodec.OrientInvolution | tgafunc_cpp.cpp:433-441 | Orienting twice with the same descriptor restores the buffer |
| TgaCodec.LayoutOfHeader | tgafunc.c:527-549 | A loaded map exists exactly for colour-mapped types, and its entries have the format's pixel size |
| TgaCodec.DecodeData | tgafunc.c:562-568 | Successful decoding yields width × height × pixel-size bytes |
| TgaCodec.DecodeDataInto | tgafunc.c:561-568 | The RLE or raw loop, as the image type says, leaves in the buffer exactly the decoded data, or returns the decode error |
| TgaCodec.DecodeImage | tgafunc.c:512-587 | Any decoded picture is well formed |
| TgaCodec.DecodeBody | tgafunc_cpp.cpp:380-441 | A picture decoded after the header has the header's dimensions and the resolved format |
| TgaCodec.EncodeImage | tgafunc.c:591-621 | The saved bytes are the 18-byte header followed by the data; EncodedLayout gives each byte |
| TgaCodec.EncodedLayout | tgafunc.c:591-621 | The saved bytes are the header as the source lays it out (type, little-endian size, depth, descriptor 0x20 or 0x28), then the data |
| TgaCodec.RoundTrip | tgafunc_cpp.cpp:268-300 | Loading what was saved, with any trailing bytes, gives back the same picture in both forms |
| TgaCodec.SavedData | tgafunc.c:591-621 | The data block written after the saved header decodes, uncolour-mapped and raw, to the image's own bytes, ending right after them |
| TgaCodec.TruncatedFails | tgafunc.c:512-587 | Every strict prefix of a saved image fails to load with FILE_CANNOT_READ |
| TgaCodec.DataWithoutMap | tgafunc.c:419-449 | Without a colour map, decoding can fail only by a short read |
| TgaCodec.RleFailureWithoutMap | tgafunc.c:452-510 | Without a colour map, RLE decoding can fail only by a short read |
| TgaCodec.DialectsAgree | tgafunc_cpp.cpp:165-266 | With the corrected guard, the C and C++ loaders give the same result, except that C reports COLOR_MAP_INDEX_FAILED as FILE_CANNOT_READ; that error needs a colour-mapped type |
| TgaC.Image.Blank | tgafunc.c:65-80 | A new image has the requested size and format and zeroed data |
| TgaC.Create | tgafunc.c:39-84 | Out-of-range dimensions are rejected first, then an unknown format; otherwise the result is a zero-filled w×h image of that format |
| TgaC.Load | tgafunc.c:86-94 | No file means FILE_CANNOT_READ; otherwise the result is the image decoded from the file, or its decoding error |
| TgaC.Decode | tgafunc.c:561-583 | The buffer holds the decoded and oriented pixels, or the decode error is returned |
| TgaC.Save | tgafunc.c:96-117 | A missing image gives NO_DATA; otherwise the bytes written are the encoding of the image |
| TgaC.ColorAt | tgafunc.c:131-147 | A colour is read exactly for RGB24 and ARGB32 images |
| TgaC.WithColor | tgafunc.c:149-162 | Setting a pixel keeps the dimensions and format, and changes nothing in an inoperable format |
| TgaC.GetAfterSet | tgafunc.c:131-162 | Reading back a pixel just set gives the colour set, with alpha 255 for RGB24 |
| TgaC.SetLeavesOtherPixels | tgafunc.c:149-162 | Setting a pixel leaves every other pixel's colour unchanged |
| TgaC.GetPixel | tgafunc.c:131-147 | The colour read is that of the clamped pixel of the image |
| TgaC.SetPixel | tgafunc.c:149-162 | The image afterwards is the image with that pixel set |
| TgaC.FlipH | tgafunc.c:164-181 | The buffer afterwards is the horizontally flipped buffer |
| TgaC.FlipV | tgafunc.c:183-200 | The buffer afterwards is the vertically flipped buffer |
| TgaCpp.ToUint16 | tgafunc_cpp.cpp:306 | The `(uint16_t)` cast is congruent modulo 2^16 and the identity in range |
| TgaCpp.ConstructorAsWritten | tgafunc_cpp.cpp:305-321 | The constructor as written ends in one of two ways. Either an object exists, with a vector of at most `max_size()` bytes and NO_ERROR after valid dimensions. Or `data.resize` throws, which needs valid dimensions |
| TgaCpp.ConstructorAsWrittenThrows | tgafunc_cpp.cpp:312-318 | As written, valid dimensions with an unknown format ask `resize` for `2^64 - w*h` bytes, above `max_size()`, so the constructor throws and never reports UNSUPPORTED_PIXEL_FORMAT |
| TgaCpp.ConstructorAsWrittenKnownFormat | tgafunc_cpp.cpp:305-321 | As written, valid dimensions with a known format give NO_ERROR and `w*h*size` bytes, as the corrected constructor does |
| TgaCpp.ConstructorAsWrittenExample | tgafunc_cpp.cpp:305-321 | As written, `Image(1, 1, 5)` throws out of `data.resize` |
| TgaCpp.Image.constructor | tgafunc_cpp.cpp:305-321 | Invalid dimensions give INVALID_IMAGE_DIMENSIONS and no data, an unknown format gives UNSUPPORTED_PIXEL_FORMAT and no data, otherwise the data is zeroed at w×h×size; the info holds the cast arguments |
| TgaCpp.Image.FromFile | tgafunc_cpp.cpp:323 | Constructing from a file leaves the load's error, and on success the decoded picture |
| TgaCpp.Image.Load | tgafunc_cpp.cpp:325-444 | Load succeeds exactly when the file decodes, and then holds the decoded picture; otherwise err is the decoding error. A header failure changes nothing; after the header the info is updated, and once the map is read the data is replaced by a buffer of the new size |
| TgaCpp.Image.LoadBody | tgafunc_cpp.cpp:376-444 | After the header, the dimensions and format are recorded; success and the error follow the decode of the rest of the file |
| TgaCpp.Image.LoadPixels | tgafunc_cpp.cpp:416-431 | The data is resized to w×h×size and holds the decoded and oriented pixels, or the decode error is returned |
| TgaCpp.Image.Decode | tgafunc_cpp.cpp:420-441 | The buffer holds the decoded and oriented pixels, or the decode error is returned |
| TgaCpp.Image.Save | tgafunc_cpp.cpp:446-466 | Empty data gives NO_DATA; otherwise the bytes written are the encoding and err is NO_ERROR; the image is unchanged |
| TgaCpp.Image.FlipH | tgafunc_cpp.cpp:468-486 | Empty data is left alone; otherwise the data is horizontally flipped |
| TgaCpp.Image.FlipV | tgafunc_cpp.cpp:488-505 | Empty data is left alone; otherwise the data is vertically flipped |
| TgaCpp.Image.GetPixel | tgafunc_cpp.cpp:509-522 | The returned offset is the clamped pixel's offset, inside the data; in-range coordinates give `(y*w+x)*size` |
| TgaCpp.Image.GetPixelSize | tgafunc_cpp.cpp:536-538 | The pixel size of a known format, or 255 (the byte value of -1) for an unknown one |

## Left out

- File and stream handling (`fopen`, `ifstream`, `fclose`, `fread`/`read` of the OS) is modelled as a byte sequence. A file that cannot be opened is `None`, and a write never fails. So FILE_CANNOT_WRITE, `tga_save`'s refusal to overwrite an existing file, and the `remove` of a partly written file are not modelled.
- Seeks (`fseek`, `seekg`) past the end of the file are taken to succeed, as they do on regular files; every read after such a seek then fails. This gives the same error as the source.
- Out-of-memory returns (TGA_ERROR_OUT_OF_MEMORY) are not modelled: allocation always succeeds.
- `has_read_file_error` and stream error flags: a short read is the only read error.
- Host endianness: the C++ header reads copy two bytes into a `uint16_t` as they are. The model reads them little-endian, which is what a little-endian host does.
- The image ID contents, the origin fields (`image_x_origin`, `image_y_origin`) and any extension or developer area are read or skipped and then ignored. The model does the same and keeps no record of them.
- The meaning of the RGB555 bits: pixels are moved as 2-byte units and never interpreted.
- `tga_free` and the destructors: memory is managed by Dafny.
- The headers `tgafunc.h` and `tgafunc_cpp.h`, and the tests, are context only. `tgafunc.h` declares a different C API (data and info out-parameters), which tgafunc.c does not implement; the model follows tgafunc.c.
- TgaCpp.Image.Save: the boolean that `Image::save` returns (true even after a write error) is not modelled; the result carries the bytes or the error. It also requires `Valid()`. A failed colour-map read leaves the new dimensions beside the old vector. The source still accepts `save` in that state, and the model does not cover it.
- TgaCpp.Image.Load: after a failed decode, the contents of the partly filled buffer are not stated; only its length is. `Valid()` is not promised after a failure either, because a failed colour-map read leaves the new dimensions beside the old data. It follows TgaCodec.DecodeImage, so it uses the corrected colour-map lookup; the COLOR_MAP_INDEX_FAILED assignments it models are unreachable as written.
- TgaCpp.Image.FromFile: a file constructor leaves `img_info` default-initialised (indeterminate) until the header has been read. The model starts it at width 0, height 0 and format code 0.
- TgaCpp.Image.GetPixel: requires a valid image with non-empty data. On an empty vector the source returns an offset into no storage, which is undefined behaviour. The result is the byte offset into the data, not a pointer. It uses the corrected `size_t` offset, like TgaC.GetPixel. The same holds for TgaCpp.Image.FlipH and TgaCpp.Image.FlipV.
- TgaCodec.DecodeImage: uses the corrected colour-map lookup (Findings, row 1). So a pixel whose index lies outside the map fails the decode. As written, both loaders read past the table and succeed. The same holds for TgaCodec.DecodeData, TgaCodec.DecodeBody, TgaDecode.DecodeRawInto, TgaDecode.DecodeRleInto and the corrected colour-map steps they call.
- TgaC.Load: follows TgaCodec.DecodeImage, so it uses the corrected colour-map lookup, not the guard as written.
- TgaC.GetPixel: uses the corrected `size_t` offset (Findings, row 3), not the `int` computation as written. The two differ only on buffers larger than 2^31 bytes, where the source's offset wraps. The same holds for TgaC.SetPixel, TgaC.FlipH and TgaC.FlipV, which address pixels the same way.
- TgaCpp.Image.FlipH: requires `Valid()`, so the state a failed colour-map read leaves is not modelled. When the new size is smaller than the old vector, the source's flip is well defined there. The same holds for TgaCpp.Image.FlipV.
- TgaCpp.ConstructorAsWritten: `std::bad_alloc` from a count within `max_size()` is out-of-memory and not modelled. `max_size()` is taken as PTRDIFF_MAX, the value of the usual 64-bit standard libraries.
- TgaC.Decode: after a failed decode, the contents of the buffer are not stated; the C loader frees it.
- `get_raw_data`, `get_data`, `get_width`, `get_height`, `get_pixel_format` and `last_error` are plain field reads (`TgaCpp.Image.GetData`, `GetWidth`, `GetHeight`, `GetPixelFormat`, `LastError`). They carry no contract beyond their bodies and have no rows.

## Findings

| source | as written | input that shows it | evidently intended | confidence | as-written member | corrected member |
|---|---|---|---|---|---|---|
| tgafunc.c:410-412, tgafunc_cpp.cpp:155-157 | The colour-map guard `index < 0 && index >= entry_count`, on an unsigned index, is never true, so every index is accepted | A one-entry map at first index 0 and a pixel of index 1: the lookup reads the entry after the table | Reject the index when its offset is at least `entry_count` (`\|\|`, not `&&`) | not executed | TgaColorMap.GuardAsWrittenReadsPastTable | TgaColorMap.Lookup |
| tgafunc_cpp.cpp:312-320 | After an unknown format, the constructor sets UNSUPPORTED_PIXEL_FORMAT but does not return. It resizes with a pixel size of -1, which as a `size_t` count is `2^64 - w*h`. That is above `max_size()`, so `resize` throws `std::length_error` out of the constructor instead of the error being reported | `Image(1, 1, 5)`: `resize(2^64 - 1)` throws | Return right after setting UNSUPPORTED_PIXEL_FORMAT, with no data | not executed | TgaCpp.ConstructorAsWrittenExample | TgaCpp.Image.constructor |
| tgafunc.c:252, tgafunc_cpp.cpp:521 | The pixel offset `(y * width + x) * pixel_size` is computed in `int` and wraps once the buffer passes 2^31 bytes | A 65535×65535 ARGB32 image, pixel (0, 65534): the true offset 17179082760 wraps to -786424 | Compute the offset in `size_t` | not executed | TgaPixels.PixelOffsetAsWrittenOverflows | TgaPixels.PixelOffset |
