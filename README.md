# BinaryReaderExtensions, modelled in Dafny

OpenZH.Data decodes the SAGE engine's asset files (maps, audio containers,
cursor animations and string tables) with a `BinaryReader` and a small set of
extension methods on it. The methods live in
`src/OpenZH.Data/Utilities/Extensions/BinaryReaderExtensions.cs`:

- a big-endian 32-bit read and a 24-bit little-endian read;
- four kinds of string read: null-terminated, UInt16-length-prefixed ASCII,
  UInt16-length-prefixed UTF-16LE, and fixed-length with NUL padding stripped;
- a struct read;
- two grid reads: 16-bit values, and single bits packed least significant bit
  first with every row starting on a fresh byte;
- three enum reads that reject values the enum does not define.

This project models the reader as a class, `BinaryReader.Reader`.
- It holds the stream's bytes and a cursor, `pos`.
- Each of the .NET reads the extensions build on is a method that advances
  `pos`: `ReadByte`, `ReadBytes`, `ReadUInt16`, `ReadUInt32`, `ReadInt32`,
  `ReadChar` and `ReadChars`.

Each extension method is a method of module `BinaryReaderExtensions`.
- It keeps the source's loops and its accumulator.
- Its postcondition ties its result and the new cursor to a function of the
  bytes it consumed.
- Lemmas prove what the file formats rely on about those functions:
  round trips against an encoder, where each cell of a grid comes from,
  value formulas, and error cases.

The modules are:
- `ByteOrder`: little-endian and big-endian values of byte sequences, their
  encoders and round trips, the 32-bit two's-complement view, and bit tests.
  The host is taken to be little-endian.
- `BinaryReader`: the reader class and its primitive reads.
- `TextEncoding`:
  - the ASCII decoder, which maps bytes above 0x7F to `?`;
  - the UTF-16LE decoder, as .NET's `Encoding.ASCII` and `Encoding.Unicode` do;
  - `TrimEnd`.
- `BinaryReaderExtensions`: the extension methods and their lemmas.
- `Scenarios`: concrete reads on small buffers.

A character is a UTF-16 code unit (0 to 0xFFFF), the unit of .NET's `char`.

## Model

| member | source | states |
|---|---|---|
| `BinaryReader.Reader.ReadByte` | src/OpenZH.Data/Utilities/Extensions/BinaryReaderExtensions.cs:97 | returns the byte under the cursor and advances by one |
| `BinaryReader.Reader.ReadBytes` | src/OpenZH.Data/Utilities/Extensions/BinaryReaderExtensions.cs:56 | returns the next `count` bytes and advances by `count` |
| `BinaryReader.Reader.ReadUInt16` | src/OpenZH.Data/Utilities/Extensions/BinaryReaderExtensions.cs:79 | returns the little-endian value of the next two bytes and advances by two |
| `BinaryReader.Reader.ReadUInt32` | src/OpenZH.Data/Utilities/Extensions/BinaryReaderExtensions.cs:109 | returns the little-endian value of the next four bytes, below 2^32, and advances by four |
| `BinaryReader.Reader.ReadInt32` | src/OpenZH.Data/Utilities/Extensions/BinaryReaderExtensions.cs:117 | returns the two's-complement reading of the next four bytes and advances by four |
| `BinaryReader.Reader.ReadChar` | src/OpenZH.Data/Utilities/Extensions/BinaryReaderExtensions.cs:33 | returns the next character and advances by one; at the end of the stream it fails with EndOfStream and leaves the cursor where it is |
| `BinaryReader.Reader.ReadChars` | src/OpenZH.Data/Utilities/Extensions/BinaryReaderExtensions.cs:67 | returns the next `count` characters and advances by `count` |
| `BinaryReader.UInt16At` | src/OpenZH.Data/Utilities/Extensions/BinaryReaderExtensions.cs:43 | a 16-bit field is its low byte plus 256 times its high byte |
| `BinaryReader.UInt32At` | src/OpenZH.Data/Utilities/Extensions/BinaryReaderExtensions.cs:109 | a 32-bit field is below 2^32 |
| `ByteOrder.LittleEndian` | src/OpenZH.Data/Utilities/Extensions/BinaryReaderExtensions.cs:15 | the value of bytes read least significant first (what `BitConverter.ToUInt32` and the little-endian reads compute) is below 256^n for n bytes |
| `ByteOrder.BigEndian` | src/OpenZH.Data/Utilities/Extensions/BinaryReaderExtensions.cs:10-16 | the value of bytes read most significant first is below 256^n for n bytes |
| `ByteOrder.Pow256Values` | src/OpenZH.Data/Utilities/Extensions/BinaryReaderExtensions.cs:23 | 256^1 to 256^4 are the byte weights 0x100, 0x1_0000, 0x100_0000 and 2^32 |
| `ByteOrder.Reverse` | src/OpenZH.Data/Utilities/Extensions/BinaryReaderExtensions.cs:14 | reversal keeps the length and moves byte i to position n-1-i |
| `ByteOrder.LittleEndianAppend` | src/OpenZH.Data/Utilities/Extensions/BinaryReaderExtensions.cs:15 | appending a byte to a little-endian field adds it at weight 256^n |
| `ByteOrder.LittleEndianOfReverse` | src/OpenZH.Data/Utilities/Extensions/BinaryReaderExtensions.cs:13-15 | reversing the bytes and reading them little-endian is reading them big-endian |
| `ByteOrder.LittleEndianRoundTrip` | src/OpenZH.Data/Utilities/Extensions/BinaryReaderExtensions.cs:15 | any value below 256^n, encoded in n little-endian bytes, reads back as itself |
| `ByteOrder.EncodeLittleEndianOfDecode` | src/OpenZH.Data/Utilities/Extensions/BinaryReaderExtensions.cs:15 | re-encoding the value read from n bytes gives back those n bytes |
| `ByteOrder.BigEndianRoundTrip` | src/OpenZH.Data/Utilities/Extensions/BinaryReaderExtensions.cs:10-16 | any value below 256^n, encoded in n big-endian bytes, reads back as itself |
| `ByteOrder.EncodeBigEndianOfDecode` | src/OpenZH.Data/Utilities/Extensions/BinaryReaderExtensions.cs:10-16 | re-encoding the big-endian value of n bytes gives back those n bytes |
| `ByteOrder.BitsValue` | src/OpenZH.Data/Utilities/Extensions/BinaryReaderExtensions.cs:23 | the 8-bit pattern of a byte has the byte's value |
| `ByteOrder.BitAt` | src/OpenZH.Data/Utilities/Extensions/BinaryReaderExtensions.cs:99 | the mask test `(b & (1 << k)) > 0` holds exactly when binary digit k of the byte's value, least significant first, is 1 |
| `ByteOrder.ToInt32` | src/OpenZH.Data/Utilities/Extensions/BinaryReaderExtensions.cs:117 | the signed reading of a 32-bit pattern lies in [-2^31, 2^31) and agrees with the pattern modulo 2^32 |
| `ByteOrder.Int32RoundTrip` | src/OpenZH.Data/Utilities/Extensions/BinaryReaderExtensions.cs:117 | every 32-bit signed value, turned into its bit pattern and read back signed, is itself |
| `ByteOrder.OrOfShiftedBytes` | src/OpenZH.Data/Utilities/Extensions/BinaryReaderExtensions.cs:20-25 | three bytes ORed in at bit offsets 0, 8 and 16 make b0 + b1·256 + b2·65536 |
| `ByteOrder.Lane` | src/OpenZH.Data/Utilities/Extensions/BinaryReaderExtensions.cs:23 | the term ORed in for byte i is the byte widened to 32 bits and shifted left by 8i |
| `ByteOrder.OrPrefix` | src/OpenZH.Data/Utilities/Extensions/BinaryReaderExtensions.cs:20-24 | definition: the accumulator after the first i iterations, each ORing its byte into lane i |
| `ByteOrder.OrPrefixValue` | src/OpenZH.Data/Utilities/Extensions/BinaryReaderExtensions.cs:20-25 | the accumulator after all three iterations holds the little-endian value of the three bytes |
| `BinaryReaderExtensions.ReadBigEndianUInt32` | src/OpenZH.Data/Utilities/Extensions/BinaryReaderExtensions.cs:10-16 | consumes four bytes and returns their big-endian value, below 2^32 |
| `BinaryReaderExtensions.BigEndianUInt32Value` | src/OpenZH.Data/Utilities/Extensions/BinaryReaderExtensions.cs:10-16 | the first byte read weighs 2^24 and the last weighs 1 |
| `BinaryReaderExtensions.ReadUInt24` | src/OpenZH.Data/Utilities/Extensions/BinaryReaderExtensions.cs:18-26 | consumes three bytes and returns their little-endian value, below 2^24 |
| `ByteOrder.UInt24Value` | src/OpenZH.Data/Utilities/Extensions/BinaryReaderExtensions.cs:18-26 | the result is byte0 + byte1·256 + byte2·65536 |
| `BinaryReaderExtensions.FirstZero` | src/OpenZH.Data/Utilities/Extensions/BinaryReaderExtensions.cs:33 | finds the first zero byte when there is one, and finds none exactly when no byte is zero |
| `BinaryReaderExtensions.NullTerminated` | src/OpenZH.Data/Utilities/Extensions/BinaryReaderExtensions.cs:28-39 | the text is the NUL-free prefix that ends at the first zero byte; EndOfStream exactly when there is no zero byte |
| `BinaryReaderExtensions.ReadNullTerminatedString` | src/OpenZH.Data/Utilities/Extensions/BinaryReaderExtensions.cs:28-39 | returns the text before the first NUL and moves past the NUL; with no NUL it fails with EndOfStream and leaves the cursor at the end of the stream |
| `BinaryReaderExtensions.TerminatorFound` | src/OpenZH.Data/Utilities/Extensions/BinaryReaderExtensions.cs:33-36 | NUL-free characters followed by a NUL are what the null-terminated decode yields |
| `BinaryReaderExtensions.TerminatorMissing` | src/OpenZH.Data/Utilities/Extensions/BinaryReaderExtensions.cs:33 | a tail with no NUL fails the null-terminated decode |
| `BinaryReaderExtensions.NullTerminatedRoundTrip` | src/OpenZH.Data/Utilities/Extensions/BinaryReaderExtensions.cs:28-39 | a NUL-free string written with a terminator and followed by anything reads back as itself |
| `TextEncoding.AsciiDecode` | src/OpenZH.Data/Utilities/Extensions/BinaryReaderExtensions.cs:44 | one character per byte; bytes below 0x80 keep their value, all others become `?`, so the result is ASCII |
| `TextEncoding.AsciiRoundTrip` | src/OpenZH.Data/Utilities/Extensions/BinaryReaderExtensions.cs:44 | ASCII text encoded to bytes decodes back to itself |
| `TextEncoding.AsciiBytesRoundTrip` | src/OpenZH.Data/Utilities/Extensions/BinaryReaderExtensions.cs:44 | bytes below 0x80 decode and re-encode to themselves |
| `TextEncoding.Utf16LeDecode` | src/OpenZH.Data/Utilities/Extensions/BinaryReaderExtensions.cs:50 | an even number of bytes gives half as many code units |
| `TextEncoding.Utf16LeDecodeAt` | src/OpenZH.Data/Utilities/Extensions/BinaryReaderExtensions.cs:50 | code unit i is the little-endian value of bytes 2i and 2i+1 |
| `TextEncoding.Utf16RoundTrip` | src/OpenZH.Data/Utilities/Extensions/BinaryReaderExtensions.cs:50 | code units encoded as UTF-16LE decode back to themselves |
| `TextEncoding.Utf16BytesRoundTrip` | src/OpenZH.Data/Utilities/Extensions/BinaryReaderExtensions.cs:50 | an even number of bytes decoded and re-encoded is itself |
| `TextEncoding.TrimEnd` | src/OpenZH.Data/Utilities/Extensions/BinaryReaderExtensions.cs:68 | returns a prefix that does not end in the trimmed character, and everything dropped is that character |
| `TextEncoding.TrimEndOfPadding` | src/OpenZH.Data/Utilities/Extensions/BinaryReaderExtensions.cs:68 | a string not ending in c, padded with any number of c, trims back to itself |
| `TextEncoding.TrimEndIdempotent` | src/OpenZH.Data/Utilities/Extensions/BinaryReaderExtensions.cs:68 | trimming twice is trimming once |
| `BinaryReaderExtensions.ReadUInt16PrefixedAsciiString` | src/OpenZH.Data/Utilities/Extensions/BinaryReaderExtensions.cs:41-45 | consumes the 2-byte length n and then n bytes, and returns their ASCII decoding, n characters long |
| `BinaryReaderExtensions.ReadUInt16PrefixedUnicodeString` | src/OpenZH.Data/Utilities/Extensions/BinaryReaderExtensions.cs:47-51 | consumes the 2-byte length n and then 2n bytes, and returns their UTF-16LE decoding, n code units long |
| `BinaryReaderExtensions.LengthPrefix` | src/OpenZH.Data/Utilities/Extensions/BinaryReaderExtensions.cs:43 | two bytes whose UInt16 value is the length |
| `BinaryReaderExtensions.PrefixedAsciiRoundTrip` | src/OpenZH.Data/Utilities/Extensions/BinaryReaderExtensions.cs:41-45 | ASCII text shorter than 65536, written with its length prefix, reads back from the following bytes |
| `BinaryReaderExtensions.PrefixedUnicodeRoundTrip` | src/OpenZH.Data/Utilities/Extensions/BinaryReaderExtensions.cs:47-51 | code units fewer than 65536, written with their count and as UTF-16LE in two bytes each, read back from the following bytes |
| `BinaryReaderExtensions.ReadFixedLengthString` | src/OpenZH.Data/Utilities/Extensions/BinaryReaderExtensions.cs:65-69 | consumes exactly `count` characters and returns them with the trailing NULs dropped |
| `BinaryReaderExtensions.FixedLengthRoundTrip` | src/OpenZH.Data/Utilities/Extensions/BinaryReaderExtensions.cs:65-69 | a field holding a string that does not end in NUL, padded with any number of NULs, reads back as that string |
| `BinaryReaderExtensions.CellIndexBound` | src/OpenZH.Data/Utilities/Extensions/BinaryReaderExtensions.cs:75-81 | cell (x, y) of a width by height grid has row-major index below width·height |
| `BinaryReaderExtensions.RowMajorCell` | src/OpenZH.Data/Utilities/Extensions/BinaryReaderExtensions.cs:75-81 | index k below width·height is the row-major index of cell (k mod width, k div width), which lies inside the grid |
| `BinaryReaderExtensions.ReadUInt16Array2D` | src/OpenZH.Data/Utilities/Extensions/BinaryReaderExtensions.cs:71-84 | returns a new width by height array, consumes 2·width·height bytes, and puts stream value y·width + x into cell [x, y] |
| `BinaryReaderExtensions.ReadUInt16Row` | src/OpenZH.Data/Utilities/Extensions/BinaryReaderExtensions.cs:77-80 | fills row y from the next 2·width bytes and leaves every other row as it was |
| `BinaryReaderExtensions.GridWordAt` | src/OpenZH.Data/Utilities/Extensions/BinaryReaderExtensions.cs:79 | cell (x, y) is the 16-bit value at offset 2(y·width + x) from the grid's start |
| `BinaryReaderExtensions.RowBytes` | src/OpenZH.Data/Utilities/Extensions/BinaryReaderExtensions.cs:95-98 | a row of a bit grid takes the fewest bytes that hold `width` bits |
| `BinaryReaderExtensions.BitCellBound` | src/OpenZH.Data/Utilities/Extensions/BinaryReaderExtensions.cs:93-99 | the byte that holds cell (x, y) lies inside the grid |
| `BinaryReaderExtensions.ReadSingleBitBooleanArray2D` | src/OpenZH.Data/Utilities/Extensions/BinaryReaderExtensions.cs:86-104 | returns a new width by height array and consumes height·ceil(width/8) bytes; cell [x, y] is bit x mod 8, least significant first, of byte x div 8 of row y |
| `BinaryReaderExtensions.ReadBitRow` | src/OpenZH.Data/Utilities/Extensions/BinaryReaderExtensions.cs:92-101 | fills row y from the next ceil(width/8) bytes, starting a fresh byte at column 0, and leaves every other row as it was |
| `BinaryReaderExtensions.GridBitAt` | src/OpenZH.Data/Utilities/Extensions/BinaryReaderExtensions.cs:95-99 | a new byte is read exactly when x mod 8 is 0, and the byte in hand is the one that holds column x |
| `BinaryReaderExtensions.CastValueAsEnum` | src/OpenZH.Data/Utilities/Extensions/BinaryReaderExtensions.cs:130-139 | succeeds with the value itself exactly when the enum defines it; otherwise the error names the enum and the value |
| `BinaryReaderExtensions.ReadUInt32AsEnum` | src/OpenZH.Data/Utilities/Extensions/BinaryReaderExtensions.cs:106-112 | consumes four bytes and validates their unsigned value against the enum |
| `BinaryReaderExtensions.ReadInt32AsEnum` | src/OpenZH.Data/Utilities/Extensions/BinaryReaderExtensions.cs:114-120 | consumes four bytes and validates their signed value against the enum |
| `BinaryReaderExtensions.ReadByteAsEnum` | src/OpenZH.Data/Utilities/Extensions/BinaryReaderExtensions.cs:122-128 | consumes one byte and validates its value against the enum |
| `BinaryReaderExtensions.UInt32EnumRoundTrip` | src/OpenZH.Data/Utilities/Extensions/BinaryReaderExtensions.cs:106-112 | a defined unsigned member, written as four little-endian bytes, is read back as itself |
| `BinaryReaderExtensions.Int32EnumRoundTrip` | src/OpenZH.Data/Utilities/Extensions/BinaryReaderExtensions.cs:114-120 | a defined signed member, written as its 32-bit pattern, is read back as itself |
| `BinaryReaderExtensions.SizeOf` | src/OpenZH.Data/Utilities/Extensions/BinaryReaderExtensions.cs:56 | the byte count `Marshal.SizeOf` gives: the sum of the field widths, so every field fits inside it |
| `BinaryReaderExtensions.DecodeFields` | src/OpenZH.Data/Utilities/Extensions/BinaryReaderExtensions.cs:58-60 | one value per field, each below 256 to the power of its width |
| `BinaryReaderExtensions.EncodeFields` | src/OpenZH.Data/Utilities/Extensions/BinaryReaderExtensions.cs:58-60 | the struct's bytes are as many as its size |
| `BinaryReaderExtensions.StructRoundTrip` | src/OpenZH.Data/Utilities/Extensions/BinaryReaderExtensions.cs:53-63 | fields that fit their widths, written out and read as the struct, come back unchanged |
| `BinaryReaderExtensions.StructBytesRoundTrip` | src/OpenZH.Data/Utilities/Extensions/BinaryReaderExtensions.cs:53-63 | a struct's bytes, read as fields and written back, are unchanged |
| `BinaryReaderExtensions.ReadStruct` | src/OpenZH.Data/Utilities/Extensions/BinaryReaderExtensions.cs:53-63 | consumes exactly the struct's size in bytes and returns their field-by-field decoding |
| `Scenarios.UInt24Scenario` | src/OpenZH.Data/Utilities/Extensions/BinaryReaderExtensions.cs:18-26 | bytes 01 02 03 read as 0x030201 |
| `Scenarios.BigEndianScenario` | src/OpenZH.Data/Utilities/Extensions/BinaryReaderExtensions.cs:10-16 | bytes 01 02 03 04 read as 0x01020304 |
| `Scenarios.NullTerminatedScenario` | src/OpenZH.Data/Utilities/Extensions/BinaryReaderExtensions.cs:28-39 | "abc" NUL "d" gives "abc" and consumes 4 bytes |
| `Scenarios.MissingTerminatorScenario` | src/OpenZH.Data/Utilities/Extensions/BinaryReaderExtensions.cs:33 | "ab" with no NUL fails with EndOfStream after consuming both bytes |
| `Scenarios.PrefixedAsciiScenario` | src/OpenZH.Data/Utilities/Extensions/BinaryReaderExtensions.cs:41-45 | 03 00 "foo" gives "foo" and consumes 5 bytes |
| `Scenarios.PrefixedUnicodeScenario` | src/OpenZH.Data/Utilities/Extensions/BinaryReaderExtensions.cs:47-51 | 02 00 "h" 00 "i" 00 gives "hi" and consumes 6 bytes |
| `Scenarios.FixedLengthScenario` | src/OpenZH.Data/Utilities/Extensions/BinaryReaderExtensions.cs:65-69 | a 5-byte field "ab" NUL NUL NUL gives "ab" |
| `Scenarios.UInt16GridScenario` | src/OpenZH.Data/Utilities/Extensions/BinaryReaderExtensions.cs:71-84 | values 1, 2, 3, 4 fill [0,0], [1,0], [0,1], [1,1] |
| `Scenarios.BitGridScenario` | src/OpenZH.Data/Utilities/Extensions/BinaryReaderExtensions.cs:86-104 | a row 9 columns wide over 01 01 has columns 0 and 8 set and no others |
| `Scenarios.EnumScenario` | src/OpenZH.Data/Utilities/Extensions/BinaryReaderExtensions.cs:122-139 | for an enum {0, 1}, byte 1 is accepted and byte 2 is rejected with an error naming the enum and 2 |

## Left out

- Truncated input:
  - .NET's `ReadByte`, `ReadUInt16`, `ReadUInt32` and `ReadInt32` throw `EndOfStreamException` when too few bytes remain.
  - `ReadBytes` and `ReadChars` return a shorter array, and `BitConverter.ToUInt32` then throws on fewer than four bytes.
  - The model requires enough bytes instead, so those paths are not modelled. The exception is `ReadChar` and the null-terminated read, whose end-of-stream path is modelled.
- BinaryReader.Reader.ReadBytes: requires `count` bytes to remain. A short read is not modelled.
- BinaryReader.Reader.ReadChars: requires `count` bytes to remain. A short read is not modelled.
- BinaryReaderExtensions.ReadBigEndianUInt32: requires four bytes to remain. The exception `BitConverter.ToUInt32` throws on a short array is not modelled.
- BinaryReaderExtensions.ReadUInt16PrefixedAsciiString: requires the declared length to remain. .NET would decode the shorter array it gets.
- BinaryReaderExtensions.ReadUInt16PrefixedUnicodeString: requires the declared length to remain. .NET would decode the shorter array it gets.
- BinaryReaderExtensions.ReadFixedLengthString: requires `count` bytes to remain. .NET would trim the shorter array it gets.
- BinaryReaderExtensions.ReadUInt16Array2D: requires the whole grid to remain. On a short stream .NET throws part-way, with some cells filled.
- BinaryReaderExtensions.ReadSingleBitBooleanArray2D: requires the whole grid to remain. On a short stream .NET throws part-way, with some cells filled.
- BinaryReaderExtensions.ReadFixedLengthString: `count` is a `nat`. The negative count that makes `ReadChars` throw `ArgumentOutOfRangeException` is not modelled.
- Character decoding:
  - `ReadChar` and `ReadChars` decode UTF-8 in .NET; here they read one byte per character, with the byte's value.
  - Multi-byte sequences, invalid-sequence replacement and surrogate pairs are not modelled.
  - The model agrees with .NET's UTF-8 `ReadChar`/`ReadChars` only when every byte read as a character is below 0x80.
- TextEncoding.Utf16LeDecode: lone surrogates are passed through as code units. .NET would replace them with U+FFFD.
- Struct reads:
  - `Marshal.SizeOf` and `Marshal.PtrToStructure` over a pinned buffer are modelled as a sequential, packed layout of unsigned little-endian integer fields.
  - Alignment padding, signed, floating-point and nested fields are not modelled.
- Enum reads:
  - An enum is modelled as its name and the set of values it defines; `Enum.IsDefined` is set membership.
  - The check that the value's type matches the enum's underlying type (.NET throws `ArgumentException` otherwise) is not modelled.
  - Of the `InvalidDataException` message, only the enum name and the value are kept.
- Grid sizes:
  - `width` and `height` are `uint` in the source, and the loop counters are `int`.
  - Sizes beyond `int` and allocation failure of `new T[width, height]` are not modelled; the sizes here are unbounded naturals.
- Byte order: `BitConverter.IsLittleEndian` is taken to be true. The branch for big-endian hosts is not modelled.
- ReadUInt16Array2D and ReadSingleBitBooleanArray2D:
  - Each inner loop is a separate method (`ReadUInt16Row`, `ReadBitRow`), so that each loop is proved on its own.
  - The order of reads and stores is the source's, and `temp` is reset at the start of every row as in the source.
- Truncation is not atomic:
  - The reads consume their bytes one primitive read at a time, so a read that fails part-way leaves the cursor at or near the end of the stream, after whatever the failing read consumed. .NET's `ReadUInt16`, `ReadUInt32` and `ReadInt32` consume the one to three bytes left before they throw `EndOfStreamException`.
  - Only the null-terminated read models this: `Scenarios.MissingTerminatorScenario` shows it failing with the cursor at the end of the stream. Every other read requires enough bytes, so its part-way failure is not modelled.
