# Pebble Draw Command decoder, modelled in Dafny

`src/pdc2svg.py` decodes Pebble Draw Command files. A file starts with a
4-byte magic word: `PDCI` for a single image, `PDCS` for an animated
sequence. After the magic word come a little-endian int32 size word, which
is read and never used, and then the document:

- an **image** is a version byte, a reserved byte, a view box (int16 width
  and height) and one command list;
- a **sequence** is a version byte, a reserved byte, a view box, a uint16
  play count (0xFFFF means endless), a uint16 frame count, and that many
  frames;
- a **frame** is a uint16 duration followed by one command list;
- a **command list** is a uint16 count followed by that many draw commands;
- a **draw command** is a 9-byte header ('<BBBBBhH': type, flags, stroke
  color, stroke width and fill color as bytes, path/radius as int16, number
  of points as uint16) followed by that many points;
- a **point** is two int16 values. A precise path (type 3) stores them in
  units of 1/8 pixel; every other type stores whole pixels. Both add half a
  pixel.

The model has seven modules, one per file:

- `Struct` (`struct.dfy`) models the parts of Python's `struct` module that
  the decoder uses. It covers the codes 'B', 'H', 'h' and 'i' in
  little-endian formats, `unpack`, which fails unless the buffer has
  exactly the format's size, and `pack`. It also models `f.read(n)` on an
  in-memory stream: the read returns fewer than `n` bytes only at the end of
  the stream.
- `PdcRecords` (`records.dfy`) holds the records as datatypes, the format
  constants, and the two decoders that work on a buffer already read:
  `Point` and `ViewBox`. It also holds the two derived views that the
  source's printing code gives the raw fields: path/radius by command type,
  and the 0xFFFF play count.
- `PdcLayout` (`layout.dfy`) is the reference definition of the format by
  byte offset. It has one function per record, a `Parsed` result (the
  record and the cursor after it, or the error), and "Parts" lemmas that
  say which bytes each field comes from.
- `PdcDecode` (`decode.dfy`) has the decoders as the source runs them. They
  are methods that thread one cursor `pos` through the input, and the
  point, command and frame loops append to a list, as the `xrange` loops
  do. Each method is proved to compute exactly the `PdcLayout` function of
  its record.
- `PdcEncode` (`encode.dfy`) is the inverse: an encoder for every record,
  together with the round-trip lemmas. Decoding an encoding gives back the
  record, and the cursor moves past exactly its bytes.
- `PdcCanonical` (`canonical.dfy`) is the opposite direction. Whatever
  decodes successfully is a well-formed record, and the bytes it was
  decoded from are exactly its encoding.
- `PdcProperties` (`properties.dfy`) proves:
  - the number of bytes each record consumes;
  - when and where a short input fails;
  - the dispatch on the magic word;
  - that trailing bytes are ignored;
  - that the format is unambiguous;
  - a few concrete decodings.

The source reads from a file object. The model reads from `data: seq<Byte>`
with a cursor `pos`, and represents every failure as a value. When a read
comes up short, the source's `struct.unpack` raises `struct.error`; the
model returns `Truncated(at)`, where `at` is the cursor position of that
read. An unknown magic word makes the source log an error and return; the
model returns `BadMagic(magic)`.

Two points where the code is followed rather than a prose description of
the format:

- The command header is 9 bytes. The format string at
  `src/pdc2svg.py:43` has five bytes, an int16 and a uint16.
- Any type byte is accepted when decoding. Nothing in `__init__` checks
  the type, so there is no "unknown command type" outcome. Only type 3
  changes the point scaling. An unknown type surfaces only when a command
  is printed (see Left out).

## Model

| member | source | states |
|---|---|---|
| Struct.Read | src/pdc2svg.py:58 | `f.read(n)` at `pos` returns min(n, bytes left) bytes, and they are the bytes at the cursor |
| Struct.Unpack | src/pdc2svg.py:15 | `struct.unpack` succeeds exactly when the buffer has the format's size, and the values then fit the format's fields |
| Struct.UnpackPack | src/pdc2svg.py:43 | unpacking the packing of in-range values gives the same values back |
| Struct.PackUnpack | src/pdc2svg.py:43 | a buffer of the format's size unpacks, and packing the values again gives the buffer back |
| Struct.Int16 | src/pdc2svg.py:11 | '<h' gives a value in [-32768, 32768), and it is the two's-complement reading of lo + 256·hi |
| Struct.Uint16 | src/pdc2svg.py:86 | '<H' gives a value below 65536 |
| Struct.Int32 | src/pdc2svg.py:175 | '<i' gives a value in the signed 32-bit range |
| Struct.Int16OfLe16 | src/pdc2svg.py:11 | each int16 value is read back from its two little-endian bytes |
| Struct.Le16OfInt16 | src/pdc2svg.py:11 | every byte pair is the little-endian encoding of its int16 reading |
| Struct.Uint16OfLe16 | src/pdc2svg.py:86 | each uint16 value is read back from its two little-endian bytes |
| Struct.Le16OfUint16 | src/pdc2svg.py:86 | every byte pair is the little-endian encoding of its uint16 reading |
| Struct.Int32OfLe32 | src/pdc2svg.py:175 | each int32 value is read back from its four little-endian bytes |
| Struct.Le32OfInt32 | src/pdc2svg.py:175 | every four bytes are the little-endian encoding of their int32 reading |
| Struct.TwoByteFields | src/pdc2svg.py:43 | the 'h' and 'H' field codes agree with the explicit int16 and uint16 readings |
| Struct.FourByteField | src/pdc2svg.py:175 | the 'i' field code agrees with the explicit int32 reading |
| PdcRecords.FormatSizes | src/pdc2svg.py:43-44 | `calcsize` gives 4 for '<2h', 9 for '<BBBBBhH', 2 for '<H' and '<BB', and 4 for '<HH' and '<i' |
| PdcRecords.PointLayout | src/pdc2svg.py:11-15 | '<2h' is the int16 at bytes 0-1 and the int16 at bytes 2-3 |
| PdcRecords.CommandLayout | src/pdc2svg.py:55-58 | the header fields come from bytes 0 to 4 (one each), 5-6 (int16 path/radius) and 7-8 (uint16 number of points) |
| PdcRecords.VersionLayout | src/pdc2svg.py:128-129 | '<BB' is the version byte and then the reserved byte |
| PdcRecords.PlayLayout | src/pdc2svg.py:153-154 | '<HH' is the uint16 play count and then the uint16 frame count |
| PdcRecords.CountLayout | src/pdc2svg.py:90 | '<H' is the uint16 at bytes 0-1 |
| PdcRecords.SizeLayout | src/pdc2svg.py:177 | '<i' is the int32 at bytes 0-3 |
| PdcRecords.CoordinateInverse | src/pdc2svg.py:17-22 | the scaled coordinate determines the raw int16 it came from, for either scaling |
| PdcRecords.PointOf | src/pdc2svg.py:14-22 | a point decodes exactly when the buffer has 4 bytes; each coordinate is raw/8 + 1/2 for type 3 and raw + 1/2 for any other type |
| PdcRecords.ViewBoxOf | src/pdc2svg.py:35-36 | a view box decodes exactly when the buffer has 4 bytes, as the int16 width and the int16 height |
| PdcRecords.PathRadiusOf | src/pdc2svg.py:69-73 | types 1 and 3 read path/radius 0 as a closed path and 1 as an open path, and any other type reads it as a radius |
| PdcRecords.PlayCountOf | src/pdc2svg.py:163 | a play count of 0xFFFF, and only that value, means endless play; any other value is a count |
| PdcLayout.ParsePoint | src/pdc2svg.py:63 | a point at `pos` decodes exactly when 4 bytes remain, and it consumes 4; otherwise it fails as truncated at `pos` |
| PdcLayout.ParsePoints | src/pdc2svg.py:62-64 | n points give exactly n values and consume 4·n bytes; a failure is a truncation |
| PdcLayout.ParseCommand | src/pdc2svg.py:55-64 | a command holds exactly `numberofpoints` points and consumes 9 + 4·numberofpoints bytes |
| PdcLayout.CommandParts | src/pdc2svg.py:55-64 | the header fields come from bytes pos to pos+8 in order, and the points are the ones decoded at pos+9 with the command's own type |
| PdcLayout.ParseCommands | src/pdc2svg.py:94-96 | n commands give exactly n values, and the cursor stays within the input |
| PdcLayout.ParseList | src/pdc2svg.py:89-96 | a list has exactly `numberofcommands` commands |
| PdcLayout.ListParts | src/pdc2svg.py:89-96 | the count is the uint16 at pos, and the commands are the ones decoded from pos+2 on |
| PdcLayout.ParseFrame | src/pdc2svg.py:111-113 | a frame consumes at least its 2-byte duration and 2-byte count |
| PdcLayout.FrameParts | src/pdc2svg.py:111-113 | the duration is the uint16 at pos, and the list is the one decoded at pos+2 |
| PdcLayout.ParseFrames | src/pdc2svg.py:158-160 | n frames give exactly n values |
| PdcLayout.ParseImage | src/pdc2svg.py:127-132 | an image consumes at least its 8 fixed bytes; a failure is a truncation |
| PdcLayout.ImageParts | src/pdc2svg.py:127-132 | the version, the reserved byte, the view box at pos+2 and the list at pos+6 come in that order |
| PdcLayout.ParseSequence | src/pdc2svg.py:149-160 | a sequence has exactly `framecount` frames and consumes at least its 10 fixed bytes |
| PdcLayout.SequenceParts | src/pdc2svg.py:149-160 | the version, the reserved byte, the view box, the play count at pos+6, the frame count at pos+8 and the frames from pos+10 on come in that order |
| PdcLayout.ParseImageFile | src/pdc2svg.py:174-181 | after `PDCI` the result is an image document |
| PdcLayout.ImageFileParts | src/pdc2svg.py:175-181 | the size word is the int32 at pos, kept as read, and the image follows it at pos+4 |
| PdcLayout.ParseSequenceFile | src/pdc2svg.py:185-192 | after `PDCS` the result is a sequence document |
| PdcLayout.SequenceFileParts | src/pdc2svg.py:186-192 | the size word is the int32 at pos, kept as read, and the sequence follows it at pos+4 |
| PdcLayout.ParseDocument | src/pdc2svg.py:196-209 | a decoded document ends after the magic word and within the input |
| PdcDecode.ReadStruct | src/pdc2svg.py:58 | `unpack(f.read(size))` succeeds exactly when `size` bytes remain, yields the fields of those bytes and moves the cursor past them, and fails otherwise as truncated at the cursor |
| PdcDecode.DecodePoints | src/pdc2svg.py:60-64 | the point loop computes exactly `ParsePoints` |
| PdcDecode.DecodeCommand | src/pdc2svg.py:55-64 | `PebbleDrawCommand.__init__` computes exactly `ParseCommand` |
| PdcDecode.DecodeCommands | src/pdc2svg.py:92-96 | the command loop computes exactly `ParseCommands` |
| PdcDecode.DecodeList | src/pdc2svg.py:89-96 | `PDCList.__init__` computes exactly `ParseList` |
| PdcDecode.DecodeFrame | src/pdc2svg.py:111-113 | `PDCFrame.__init__` computes exactly `ParseFrame` |
| PdcDecode.DecodeImage | src/pdc2svg.py:127-132 | `PDCImage.__init__` computes exactly `ParseImage` |
| PdcDecode.DecodeFrames | src/pdc2svg.py:156-160 | the frame loop computes exactly `ParseFrames` |
| PdcDecode.DecodeSequence | src/pdc2svg.py:149-160 | `PDCSequence.__init__` computes exactly `ParseSequence` |
| PdcDecode.DecodeImageFile | src/pdc2svg.py:174-181 | `pdci2svg` computes exactly `ParseImageFile` |
| PdcDecode.DecodeSequenceFile | src/pdc2svg.py:185-192 | `pdcs2svg` computes exactly `ParseSequenceFile` |
| PdcDecode.Decode | src/pdc2svg.py:196-209 | `pdc2svg` computes exactly `ParseDocument` |
| PdcEncode.EncodeCommand | src/pdc2svg.py:43 | an encoded command is 9 + 4·numberofpoints bytes long |
| PdcEncode.DecodePointOfEncoding | src/pdc2svg.py:14-22 | a point decodes from its encoding under the same type |
| PdcEncode.DecodePointsOfEncoding | src/pdc2svg.py:62-64 | points decode from their encoding, in order, and consume 4 bytes each |
| PdcEncode.DecodeCommandOfEncoding | src/pdc2svg.py:55-64 | a command decodes from its encoding and consumes exactly its bytes |
| PdcEncode.DecodeCommandsOfEncoding | src/pdc2svg.py:94-96 | commands decode from their encoding, in order |
| PdcEncode.DecodeListOfEncoding | src/pdc2svg.py:89-96 | a command list decodes from its encoding |
| PdcEncode.DecodeFrameOfEncoding | src/pdc2svg.py:111-113 | a frame decodes from its encoding |
| PdcEncode.DecodeFramesOfEncoding | src/pdc2svg.py:158-160 | frames decode from their encoding, in order |
| PdcEncode.DecodeViewBoxOfEncoding | src/pdc2svg.py:35-36 | a view box decodes from its encoding |
| PdcEncode.DecodeImageOfEncoding | src/pdc2svg.py:127-132 | an image decodes from its encoding |
| PdcEncode.DecodeSequenceOfEncoding | src/pdc2svg.py:149-160 | a sequence decodes from its encoding |
| PdcEncode.DecodeImageFileOfEncoding | src/pdc2svg.py:175-181 | a size word and an image decode from their encoding |
| PdcEncode.DecodeSequenceFileOfEncoding | src/pdc2svg.py:186-192 | a size word and a sequence decode from their encoding |
| PdcEncode.DecodeImageDocumentOfEncoding | src/pdc2svg.py:203-204 | `PDCI`, a size word and an image decode to that image document |
| PdcEncode.DecodeSequenceDocumentOfEncoding | src/pdc2svg.py:205-206 | `PDCS`, a size word and a sequence decode to that sequence document |
| PdcEncode.DecodeDocumentOfEncoding | src/pdc2svg.py:196-209 | every well-formed document decodes from its encoding, which is consumed exactly |
| PdcCanonical.PointOfDecoding | src/pdc2svg.py:14-22 | a decoded point fits its type, and its 4 bytes are its encoding |
| PdcCanonical.PointsOfDecoding | src/pdc2svg.py:62-64 | decoded points sit encoded, in order, in the bytes consumed |
| PdcCanonical.CommandOfDecoding | src/pdc2svg.py:55-64 | a decoded command is well formed, and the bytes it consumed are its encoding |
| PdcCanonical.CommandsOfDecoding | src/pdc2svg.py:94-96 | decoded commands sit encoded, in order, in the bytes consumed |
| PdcCanonical.ListOfDecoding | src/pdc2svg.py:89-96 | a decoded list is well formed, and the bytes it consumed are its encoding |
| PdcCanonical.FrameOfDecoding | src/pdc2svg.py:111-113 | a decoded frame is well formed, and the bytes it consumed are its encoding |
| PdcCanonical.FramesOfDecoding | src/pdc2svg.py:158-160 | decoded frames sit encoded, in order, in the bytes consumed |
| PdcCanonical.ViewBoxOfDecoding | src/pdc2svg.py:35-36 | the 4 bytes a view box is decoded from are its encoding |
| PdcCanonical.ImageOfDecoding | src/pdc2svg.py:127-132 | a decoded image is well formed, and the bytes it consumed are its encoding |
| PdcCanonical.SequenceOfDecoding | src/pdc2svg.py:149-160 | a decoded sequence is well formed, and the bytes it consumed are its encoding |
| PdcCanonical.ImageFileOfDecoding | src/pdc2svg.py:175-181 | the bytes consumed after `PDCI` are the size word and the image's encoding |
| PdcCanonical.SequenceFileOfDecoding | src/pdc2svg.py:186-192 | the bytes consumed after `PDCS` are the size word and the sequence's encoding |
| PdcCanonical.DocumentOfDecoding | src/pdc2svg.py:196-209 | a decoded document is well formed, and the bytes consumed from the start are exactly its encoding |
| PdcProperties.PointsSucceed | src/pdc2svg.py:62-64 | n points decode exactly when 4·n bytes remain; otherwise they fail at the first point that does not fit |
| PdcProperties.PointsFromBytes | src/pdc2svg.py:62-64 | point k comes from bytes pos+4k to pos+4k+3, scaled by the command's type |
| PdcProperties.CommandClosedForm | src/pdc2svg.py:55-64 | a command decodes exactly when its 9-byte header and the announced points fit; every point uses the command's own type; a failure is at the header or at the first point that does not fit |
| PdcProperties.CommandsConsumed | src/pdc2svg.py:94-96 | a run of commands consumes the sum of 9 + 4·numberofpoints over its commands |
| PdcProperties.ListConsumed | src/pdc2svg.py:89-96 | a command list consumes 2 bytes plus the sizes of its commands, with no over-read or under-read |
| PdcProperties.CommandsInOrder | src/pdc2svg.py:94-96 | command k is the one decoded right after the first k commands, so stream order is paint order |
| PdcProperties.FramesConsumed | src/pdc2svg.py:158-160 | a run of frames consumes the sum of 4 plus the sizes of the frame's commands |
| PdcProperties.DocumentConsumed | src/pdc2svg.py:196-209 | an image file consumes 16 bytes plus its commands, and a sequence file 18 bytes plus its frames |
| PdcProperties.CommandsStopAtEnd | src/pdc2svg.py:94-96 | a failed run of commands stops at a read that starts inside the input and within 9 bytes of its end |
| PdcProperties.ListStopsAtEnd | src/pdc2svg.py:89-96 | a failed command list stops at a read that starts within 9 bytes of the end of the input |
| PdcProperties.FramesStopAtEnd | src/pdc2svg.py:158-160 | a failed run of frames stops at a read that starts within 9 bytes of the end of the input |
| PdcProperties.DocumentStopsAtEnd | src/pdc2svg.py:196-209 | a truncated document fails at a read that starts within 9 bytes of the end of the input, never earlier |
| PdcProperties.DispatchOnMagic | src/pdc2svg.py:196-209 | the result is an image document only after `PDCI` and a sequence document only after `PDCS`; BadMagic occurs exactly when 4 bytes are present and name neither, and nothing after them is read |
| PdcProperties.TrailingBytesIgnored | src/pdc2svg.py:196-209 | a document decodes from just the bytes it consumed, which are its encoding, and bytes appended after them change nothing |
| PdcProperties.EncodingInjective | src/pdc2svg.py:196-209 | two well-formed documents with the same bytes are the same document |
| PdcProperties.PointExamples | src/pdc2svg.py:14-22 | raw (80, 160) gives (10.5, 20.5) in a precise path and (80.5, 160.5) in a path; raw (-8, 0) gives (-0.5, 0.5) in a precise path; 3 bytes give no point |
| PdcProperties.DocumentExamples | src/pdc2svg.py:196-209 | a 16-byte empty `PDCI` image decodes fully; the same image announcing one command fails at byte 16; the magic `PDCX` is rejected |

## Left out

- `main`, argparse, opening the files and the `svg_file` parameter (src/pdc2svg.py:212-224) are command-line glue. The model takes the whole input as a byte sequence.
- The logging configuration and the `logger.info` / `logger.error` calls (src/pdc2svg.py:6-7, 179, 182, 190, 193, 201, 208) are diagnostics. The bad-magic case returns `BadMagic` instead of logging.
- `pdc2svg`, `pdci2svg` and `pdcs2svg` return nothing in the source; the decoded objects are only logged. The model returns the decoded document, or the error.
- The source raises `struct.error` on a short read. The model returns `Truncated(at)` with the offset of the read; the offset is a model addition.
- The `__str__` / `__repr__` formatting (src/pdc2svg.py:24-28, 38-39, 66-82, 98-104, 115-120, 134-141, 162-171) is not modelled. Only its two interpretations of fields are kept: `PathRadiusOf` and `PlayCountOf`.
- `PDCFrame.__str__` calls `self.repr()`, which does not exist (src/pdc2svg.py:116). Printing a frame would raise AttributeError. Printing is not modelled.
- The `pdctype` and `pdcdynamic` name tables (src/pdc2svg.py:49-53) are not modelled. `__repr__` raises KeyError for a type byte above 3, and for a path type whose path/radius is neither 0 nor 1. The model's `PathRadiusOf` returns `UnnamedPathFlag` for the second case.
- Coordinates are exact reals, not Python floats. Dividing an int16 by 8.0 and adding 0.5 is exact in double precision, so nothing is lost.
- The size word after the magic word is kept as read and never compared with the file length; the source does not use it either.
- SVG output is not implemented anywhere in the source, so there is nothing to model.
- `Struct` models only the field codes the decoder uses ('B', 'H', 'h', 'i'), the little-endian '<' prefix, and a magic word compared as 4 raw bytes ('<4s').
- The stream is an in-memory sequence, and a read comes up short only at its end. A real file object behaves this way; a pipe, which may return fewer bytes in the middle of a stream, is not modelled.
- The decoded records are immutable datatypes. Each `__init__` assigns its fields once, from the stream, and nothing changes them afterwards.
