/**
 * The extension methods that the asset-format parsers call on a
 * BinaryReader (src/OpenZH.Data/Utilities/Extensions/BinaryReaderExtensions.cs).
 * Each is a method on the reader's cursor, proved against a function of the
 * bytes it consumes; the functions carry the properties the formats rely on.
 * The host is taken to be little-endian.
 */
module BinaryReaderExtensions {
  import opened ByteOrder
  import opened BinaryReader
  import opened TextEncoding

  // ---------------------------------------------------------------------
  // Integers

  /**
   * Reads four bytes, reverses them (the little-endian host branch) and
   * converts them little-endian: the big-endian value of the four bytes.
   */
  method ReadBigEndianUInt32(reader: Reader) returns (v: nat)
    requires reader.Valid() && reader.pos + 4 <= |reader.data|
    modifies reader
    ensures reader.Valid() && reader.pos == old(reader.pos) + 4
    ensures v == BigEndian(reader.data[old(reader.pos)..reader.pos])
    ensures v < UInt32Limit
  {
    var bytes := reader.ReadBytes(4);
    LittleEndianOfReverse(bytes);
    Pow256Values();
    bytes := Reverse(bytes);
    v := LittleEndian(bytes);
  }

  /** The big-endian value of four bytes, first byte most significant. */
  lemma BigEndianUInt32Value(b0: Byte, b1: Byte, b2: Byte, b3: Byte)
    ensures BigEndian([b0, b1, b2, b3])
            == b0 * 0x100_0000 + b1 * 0x1_0000 + b2 * 0x100 + b3
  {
    assert [b0][..0] == [];
    assert BigEndian([b0]) == b0;
    assert [b0, b1][..1] == [b0];
    assert BigEndian([b0, b1]) == 256 * b0 + b1;
    assert [b0, b1, b2][..2] == [b0, b1];
    assert BigEndian([b0, b1, b2]) == 256 * (256 * b0 + b1) + b2;
    assert [b0, b1, b2, b3][..3] == [b0, b1, b2];
  }

  /**
   * ORs three bytes into an accumulator at bit offsets 0, 8 and 16: the
   * little-endian value of the three bytes, below 2^24.
   */
  method ReadUInt24(reader: Reader) returns (v: nat)
    requires reader.Valid() && reader.pos + 3 <= |reader.data|
    modifies reader
    ensures reader.Valid() && reader.pos == old(reader.pos) + 3
    ensures v == LittleEndian(reader.data[old(reader.pos)..reader.pos])
    ensures v < 0x100_0000
  {
    ghost var start := reader.pos;
    ghost var bytes := reader.data[start..start + 3];
    var result: bv32 := 0;
    for i := 0 to 3
      invariant reader.Valid() && reader.pos == start + i
      invariant result == OrPrefix(bytes, i)
    {
      var b := reader.ReadByte();
      assert b == bytes[i];
      OrPrefixStep(bytes, i);
      result := result | Lane(b, i);
    }
    OrPrefixValue(bytes);
    Pow256Values();
    v := result as int;
  }

  // ---------------------------------------------------------------------
  // Strings

  /** The offset in `bs` of its first zero byte, if it has one. */
  function FirstZero(bs: seq<Byte>): (r: Option<nat>)
    ensures r.Some? ==> r.value < |bs| && bs[r.value] == 0
    ensures r.Some? ==> forall i :: 0 <= i < r.value ==> bs[i] != 0
    ensures r.None? <==> 0 !in bs
  {
    if bs == [] then None
    else if bs[0] == 0 then Some(0)
    else match FirstZero(bs[1..]) {
      case None => None
      case Some(k) => Some(k + 1)
    }
  }

  /**
   * The string a null-terminated read yields at the start of `bs`: the
   * characters before the first zero byte, or EndOfStream when there is none.
   */
  function NullTerminated(bs: seq<Byte>): (r: Result<seq<CodeUnit>>)
    ensures r.Success? ==> Nul !in r.value && |r.value| < |bs| && bs[|r.value|] == 0
    ensures r.Success? ==> r.value == bs[..|r.value|]
    ensures r.Failure? <==> 0 !in bs
    ensures r.Failure? ==> r.error == EndOfStream
  {
    match FirstZero(bs) {
      case None => Failure(EndOfStream)
      case Some(n) => Success(bs[..n])
    }
  }

  /**
   * Reads characters until a NUL and returns those before it. When the
   * stream ends first, ReadChar's EndOfStream propagates and the cursor is
   * left at the end of the stream.
   */
  method ReadNullTerminatedString(reader: Reader) returns (r: Result<seq<CodeUnit>>)
    requires reader.Valid()
    modifies reader
    ensures reader.Valid()
    ensures r == NullTerminated(reader.data[old(reader.pos)..])
    ensures reader.pos == if r.Success? then old(reader.pos) + |r.value| + 1 else |reader.data|
  {
    ghost var start := reader.pos;
    var sb: seq<CodeUnit> := [];
    while true
      invariant start <= reader.pos <= |reader.data|
      invariant sb == reader.data[start..reader.pos]
      invariant forall i :: start <= i < reader.pos ==> reader.data[i] != 0
      decreases |reader.data| - reader.pos
    {
      var c := reader.ReadChar();
      if c.Failure? {
        assert reader.pos == |reader.data|;
        TerminatorMissing(reader.data, start);
        return c.PropagateFailure();
      }
      ghost var at := reader.pos - 1;
      assert c.value == reader.data[at];
      if c.value == Nul {
        TerminatorFound(reader.data, start, at);
        return Success(sb);
      }
      assert reader.data[start..reader.pos] == reader.data[start..at] + [reader.data[at]];
      sb := sb + [c.value];
    }
  }

  lemma TerminatorFound(data: seq<Byte>, start: nat, end: nat)
    requires start <= end < |data| && data[end] == 0
    requires forall i :: start <= i < end ==> data[i] != 0
    ensures NullTerminated(data[start..]) == Success(data[start..end])
  {
    var bs := data[start..];
    assert bs[..end - start] == data[start..end];
    assert FirstZero(bs) == Some(end - start);
  }

  lemma TerminatorMissing(data: seq<Byte>, start: nat)
    requires start <= |data|
    requires forall i :: start <= i < |data| ==> data[i] != 0
    ensures NullTerminated(data[start..]) == Failure(EndOfStream)
  {
    assert 0 !in data[start..];
  }

  /** A string without NUL, written with its terminator and followed by anything, reads back. */
  lemma NullTerminatedRoundTrip(s: seq<Byte>, rest: seq<Byte>)
    requires 0 !in s
    ensures NullTerminated(s + [0] + rest) == Success(s)
  {
    var bs := s + [0] + rest;
    TerminatorFound(bs, 0, |s|);
    assert bs[0..] == bs && bs[0..|s|] == s;
  }

  /** A UInt16 length followed by that many bytes, decoded as ASCII. */
  method ReadUInt16PrefixedAsciiString(reader: Reader) returns (s: seq<CodeUnit>)
    requires reader.Valid() && reader.pos + 2 <= |reader.data|
    requires reader.pos + 2 + UInt16At(reader.data, reader.pos) <= |reader.data|
    modifies reader
    ensures reader.Valid()
    ensures var n := UInt16At(reader.data, old(reader.pos));
      reader.pos == old(reader.pos) + 2 + n && |s| == n
      && s == AsciiDecode(reader.data[old(reader.pos) + 2..reader.pos])
  {
    var length := reader.ReadUInt16();
    var bytes := reader.ReadBytes(length);
    s := AsciiDecode(bytes);
  }

  /** A UInt16 count followed by twice that many bytes, decoded as UTF-16LE. */
  method ReadUInt16PrefixedUnicodeString(reader: Reader) returns (s: seq<CodeUnit>)
    requires reader.Valid() && reader.pos + 2 <= |reader.data|
    requires reader.pos + 2 + 2 * UInt16At(reader.data, reader.pos) <= |reader.data|
    modifies reader
    ensures reader.Valid()
    ensures var n := UInt16At(reader.data, old(reader.pos));
      reader.pos == old(reader.pos) + 2 + 2 * n && |s| == n
      && s == Utf16LeDecode(reader.data[old(reader.pos) + 2..reader.pos])
  {
    var length := reader.ReadUInt16();
    var bytes := reader.ReadBytes(length as int * 2);
    s := Utf16LeDecode(bytes);
  }

  /** The length prefix the two prefixed-string reads expect. */
  function LengthPrefix(n: nat): (bs: seq<Byte>)
    requires n < 0x1_0000
    ensures |bs| == 2 && UInt16At(bs, 0) == n
  {
    Pow256Values();
    LittleEndianRoundTrip(n, 2);
    assert EncodeLittleEndian(n, 2)[0..2] == EncodeLittleEndian(n, 2);
    EncodeLittleEndian(n, 2)
  }

  /** An ASCII string written with its length prefix reads back whole. */
  lemma PrefixedAsciiRoundTrip(s: seq<CodeUnit>, rest: seq<Byte>)
    requires IsAscii(s) && |s| < 0x1_0000
    ensures var bs := LengthPrefix(|s|) + AsciiEncode(s) + rest;
      UInt16At(bs, 0) == |s| && AsciiDecode(bs[2..2 + |s|]) == s
  {
    PrefixedLayout(LengthPrefix(|s|), AsciiEncode(s), rest);
    AsciiRoundTrip(s);
  }

  /** A string written as its count and UTF-16LE code units reads back whole. */
  lemma PrefixedUnicodeRoundTrip(s: seq<CodeUnit>, rest: seq<Byte>)
    requires |s| < 0x1_0000
    ensures var body := Utf16LeEncode(s); var bs := LengthPrefix(|s|) + body + rest;
      |body| == 2 * |s| && UInt16At(bs, 0) == |s| && Utf16LeDecode(bs[2..2 + |body|]) == s
  {
    PrefixedLayout(LengthPrefix(|s|), Utf16LeEncode(s), rest);
    Utf16RoundTrip(s);
  }

  /** Where the prefix and the body sit in a prefixed field followed by other bytes. */
  lemma PrefixedLayout(prefix: seq<Byte>, body: seq<Byte>, rest: seq<Byte>)
    requires |prefix| == 2
    ensures var bs := prefix + body + rest;
      UInt16At(bs, 0) == UInt16At(prefix, 0) && bs[2..2 + |body|] == body
  {
  }

  /** Reads `count` characters and drops the run of trailing NULs. */
  method ReadFixedLengthString(reader: Reader, count: nat) returns (s: seq<CodeUnit>)
    requires reader.Valid() && reader.pos + count <= |reader.data|
    modifies reader
    ensures reader.Valid() && reader.pos == old(reader.pos) + count
    ensures s == TrimEnd(reader.data[old(reader.pos)..reader.pos], Nul)
  {
    var chars := reader.ReadChars(count);
    s := TrimEnd(chars, Nul);
  }

  /**
   * A field holding a string that does not end in NUL, padded with any
   * number of NULs, reads back as that string.
   */
  lemma FixedLengthRoundTrip(bs: seq<Byte>, padding: nat)
    requires bs == [] || bs[|bs| - 1] != 0
    ensures TrimEnd(bs + seq(padding, _ => 0), Nul) == bs
  {
    TrimEndOfPadding(bs, Nul, padding);
  }

  // ---------------------------------------------------------------------
  // Grids

  /** Cell (x, y) of a width-by-height grid is entry `y * width + x` in row-major order. */
  lemma CellIndexBound(x: nat, y: nat, width: nat, height: nat)
    requires x < width && y < height
    ensures y * width + x < width * height
  {
    MulLeft(y + 1, height, width);
  }

  lemma MulLeft(a: nat, b: nat, c: nat)
    requires a <= b
    ensures a * c <= b * c
  {
  }

  /** Row-major order reaches every entry of the grid once: entry k is cell (k % width, k / width). */
  lemma RowMajorCell(k: nat, width: nat, height: nat)
    requires k < width * height
    ensures width > 0 && k % width < width && k / width < height
    ensures (k / width) * width + k % width == k
  {
    if k / width >= height {
      MulLeft(height, k / width, width);
    }
  }

  /** The value the 16-bit grid read stores in column x, row y: entry `y * width + x` of the stream. */
  function GridWord(data: seq<Byte>, start: nat, width: nat, height: nat, x: nat, y: nat): UInt16
    requires x < width && y < height && start + 2 * (width * height) <= |data|
  {
    CellIndexBound(x, y, width, height);
    UInt16At(data, start + 2 * (y * width + x))
  }

  /**
   * Reads width * height 16-bit values, y in the outer loop and x in the
   * inner one, into result[x, y].
   */
  method ReadUInt16Array2D(reader: Reader, width: nat, height: nat) returns (result: array2<UInt16>)
    requires reader.Valid() && reader.pos + 2 * (width * height) <= |reader.data|
    modifies reader
    ensures fresh(result) && result.Length0 == width && result.Length1 == height
    ensures reader.Valid() && reader.pos == old(reader.pos) + 2 * (width * height)
    ensures forall x, y :: 0 <= x < width && 0 <= y < height ==>
      result[x, y] == GridWord(reader.data, old(reader.pos), width, height, x, y)
  {
    ghost var start := reader.pos;
    result := new UInt16[width, height];
    for y := 0 to height
      invariant reader.Valid() && reader.pos == start + 2 * (y * width)
      invariant forall i, j :: 0 <= i < width && 0 <= j < y ==>
        result[i, j] == GridWord(reader.data, start, width, height, i, j)
    {
      ReadUInt16Row(reader, result, start, y);
      NextRow(start, y, width, 2);
    }
    assert height * width == width * height;
  }

  /** The inner loop of ReadUInt16Array2D: fills row y of `result`, leaving the other rows alone. */
  method ReadUInt16Row(reader: Reader, result: array2<UInt16>, ghost start: nat, y: nat)
    requires reader.Valid() && y < result.Length1
    requires start + 2 * (result.Length0 * result.Length1) <= |reader.data|
    requires reader.pos == start + 2 * (y * result.Length0)
    modifies reader, result
    ensures reader.Valid() && reader.pos == old(reader.pos) + 2 * result.Length0
    ensures forall i, j :: 0 <= i < result.Length0 && 0 <= j < result.Length1 ==>
      result[i, j] == if j == y then GridWord(reader.data, start, result.Length0, result.Length1, i, y)
                      else old(result[i, j])
  {
    var width, height := result.Length0, result.Length1;
    ghost var rowStart := reader.pos;
    for x := 0 to width
      invariant reader.Valid() && reader.pos == rowStart + 2 * x
      invariant forall i, j :: 0 <= i < width && 0 <= j < height ==>
        result[i, j] == if j == y && i < x then GridWord(reader.data, start, width, height, i, y)
                        else old(result[i, j])
    {
      GridWordAt(reader.data, start, width, height, x, y);
      result[x, y] := reader.ReadUInt16();
    }
  }

  /** Where GridWord finds cell (x, y): row y starts `2 * (y * width)` bytes in. */
  lemma GridWordAt(data: seq<Byte>, start: nat, width: nat, height: nat, x: nat, y: nat)
    requires x < width && y < height && start + 2 * (width * height) <= |data|
    ensures start + 2 * (y * width) + 2 * x + 2 <= |data|
    ensures GridWord(data, start, width, height, x, y) == UInt16At(data, start + 2 * (y * width) + 2 * x)
  {
    CellIndexBound(x, y, width, height);
  }

  /** The next row starts one row's worth of bytes after this one. */
  lemma NextRow(start: nat, y: nat, width: nat, unit: nat)
    ensures start + unit * (y * width) + unit * width == start + unit * ((y + 1) * width)
  {
  }

  /** The number of bytes one row of a bit grid occupies: width / 8 rounded up. */
  function RowBytes(width: nat): (n: nat)
    ensures n * 8 >= width && (n == 0 || (n - 1) * 8 < width)
  {
    (width + 7) / 8
  }

  /** Column x of a row lies in byte x / 8 of the row. */
  lemma BitCellBound(x: nat, y: nat, width: nat, height: nat)
    requires x < width && y < height
    ensures x / 8 < RowBytes(width)
    ensures y * RowBytes(width) + x / 8 < height * RowBytes(width)
  {
    MulLeft(y + 1, height, RowBytes(width));
  }

  /**
   * The value the bit grid read stores in column x, row y: bit x % 8, least
   * significant first, of byte x / 8 of row y, rows RowBytes(width) apart.
   */
  predicate GridBit(data: seq<Byte>, start: nat, width: nat, height: nat, x: nat, y: nat)
    requires x < width && y < height && start + height * RowBytes(width) <= |data|
  {
    BitCellBound(x, y, width, height);
    BitAt(data[start + y * RowBytes(width) + x / 8], x % 8)
  }

  /**
   * Reads each row as RowBytes(width) bytes: a new byte when x % 8 == 0,
   * starting afresh on every row, and stores bit x % 8 of it in result[x, y].
   */
  method ReadSingleBitBooleanArray2D(reader: Reader, width: nat, height: nat) returns (result: array2<bool>)
    requires reader.Valid() && reader.pos + height * RowBytes(width) <= |reader.data|
    modifies reader
    ensures fresh(result) && result.Length0 == width && result.Length1 == height
    ensures reader.Valid() && reader.pos == old(reader.pos) + height * RowBytes(width)
    ensures forall x, y :: 0 <= x < width && 0 <= y < height ==>
      result[x, y] == GridBit(reader.data, old(reader.pos), width, height, x, y)
  {
    ghost var start := reader.pos;
    ghost var rowBytes := RowBytes(width);
    result := new bool[width, height];
    for y := 0 to height
      invariant reader.Valid() && reader.pos == start + y * rowBytes
      invariant forall i, j :: 0 <= i < width && 0 <= j < y ==>
        result[i, j] == GridBit(reader.data, start, width, height, i, j)
    {
      ReadBitRow(reader, result, start, y);
      NextRow(start, y, rowBytes, 1);
    }
  }

  /**
   * The inner loop of ReadSingleBitBooleanArray2D: fills row y of `result`
   * from a fresh byte every eight columns, leaving the other rows alone.
   */
  method ReadBitRow(reader: Reader, result: array2<bool>, ghost start: nat, y: nat)
    requires reader.Valid() && y < result.Length1
    requires start + result.Length1 * RowBytes(result.Length0) <= |reader.data|
    requires reader.pos == start + y * RowBytes(result.Length0)
    modifies reader, result
    ensures reader.Valid() && reader.pos == old(reader.pos) + RowBytes(result.Length0)
    ensures forall i, j :: 0 <= i < result.Length0 && 0 <= j < result.Length1 ==>
      result[i, j] == if j == y then GridBit(reader.data, start, result.Length0, result.Length1, i, y)
                      else old(result[i, j])
  {
    var width, height := result.Length0, result.Length1;
    ghost var rowStart := reader.pos;
    var temp: Byte := 0;
    for x := 0 to width
      invariant reader.Valid() && reader.pos == rowStart + RowBytes(x)
      invariant x > 0 ==> temp == reader.data[rowStart + (x - 1) / 8]
      invariant forall i, j :: 0 <= i < width && 0 <= j < height ==>
        result[i, j] == if j == y && i < x then GridBit(reader.data, start, width, height, i, y)
                        else old(result[i, j])
    {
      GridBitAt(reader.data, start, width, height, x, y);
      if x % 8 == 0 {
        temp := reader.ReadByte();
      }
      result[x, y] := BitAt(temp, x % 8);
    }
  }

  /**
   * Where GridBit finds cell (x, y), and how far into its row the read has
   * got: RowBytes(x) bytes before column x, one more read when x % 8 == 0.
   */
  lemma GridBitAt(data: seq<Byte>, start: nat, width: nat, height: nat, x: nat, y: nat)
    requires x < width && y < height && start + height * RowBytes(width) <= |data|
    ensures var rowStart := start + y * RowBytes(width);
      rowStart + x / 8 < |data|
      && GridBit(data, start, width, height, x, y) == BitAt(data[rowStart + x / 8], x % 8)
    ensures x % 8 == 0 ==> x / 8 == RowBytes(x) && RowBytes(x + 1) == RowBytes(x) + 1
    ensures x % 8 != 0 ==> x / 8 == (x - 1) / 8 && RowBytes(x + 1) == RowBytes(x)
  {
    BitCellBound(x, y, width, height);
  }

  // ---------------------------------------------------------------------
  // Enums

  /** An enum type: its name and the values it defines (what Enum.IsDefined consults). */
  datatype EnumType = EnumType(name: string, defined: set<int>)

  /**
   * The raw value as the enum when the enum defines it; otherwise the
   * InvalidDataException naming the enum type and the value.
   */
  function CastValueAsEnum(e: EnumType, value: int): (r: Result<int>)
    ensures r.Success? <==> value in e.defined
    ensures r.Success? ==> r.value == value
    ensures r.Failure? ==> r.error == UnexpectedEnumValue(e.name, value)
  {
    if value !in e.defined then Failure(UnexpectedEnumValue(e.name, value)) else Success(value)
  }

  method ReadUInt32AsEnum(reader: Reader, e: EnumType) returns (r: Result<int>)
    requires reader.Valid() && reader.pos + 4 <= |reader.data|
    modifies reader
    ensures reader.Valid() && reader.pos == old(reader.pos) + 4
    ensures r == CastValueAsEnum(e, UInt32At(reader.data, old(reader.pos)))
  {
    var value := reader.ReadUInt32();
    r := CastValueAsEnum(e, value);
  }

  method ReadInt32AsEnum(reader: Reader, e: EnumType) returns (r: Result<int>)
    requires reader.Valid() && reader.pos + 4 <= |reader.data|
    modifies reader
    ensures reader.Valid() && reader.pos == old(reader.pos) + 4
    ensures r == CastValueAsEnum(e, ToInt32(UInt32At(reader.data, old(reader.pos))))
  {
    var value := reader.ReadInt32();
    r := CastValueAsEnum(e, value);
  }

  method ReadByteAsEnum(reader: Reader, e: EnumType) returns (r: Result<int>)
    requires reader.Valid() && reader.pos + 1 <= |reader.data|
    modifies reader
    ensures reader.Valid() && reader.pos == old(reader.pos) + 1
    ensures r == CastValueAsEnum(e, reader.data[old(reader.pos)])
  {
    var value := reader.ReadByte();
    r := CastValueAsEnum(e, value);
  }

  /** A defined unsigned value written as four little-endian bytes is read back as itself. */
  lemma UInt32EnumRoundTrip(e: EnumType, value: nat, rest: seq<Byte>)
    requires value in e.defined && value < UInt32Limit
    ensures CastValueAsEnum(e, UInt32At(EncodeLittleEndian(value, 4) + rest, 0)) == Success(value)
  {
    var bs := EncodeLittleEndian(value, 4) + rest;
    assert bs[0..4] == EncodeLittleEndian(value, 4);
    Pow256Values();
    LittleEndianRoundTrip(value, 4);
  }

  /** A defined signed value written as its 32-bit two's-complement pattern is read back as itself. */
  lemma Int32EnumRoundTrip(e: EnumType, value: int, rest: seq<Byte>)
    requires value in e.defined && -0x8000_0000 <= value < 0x8000_0000
    ensures CastValueAsEnum(e, ToInt32(UInt32At(EncodeLittleEndian(FromInt32(value), 4) + rest, 0)))
            == Success(value)
  {
    var bs := EncodeLittleEndian(FromInt32(value), 4) + rest;
    assert bs[0..4] == EncodeLittleEndian(FromInt32(value), 4);
    Pow256Values();
    LittleEndianRoundTrip(FromInt32(value), 4);
    Int32RoundTrip(value);
  }

  // ---------------------------------------------------------------------
  // Structs

  /**
   * The layout of a sequential, packed struct of unsigned integer fields:
   * the width of each field in bytes, in declaration order.
   */
  type StructLayout = seq<nat>

  /** Marshal.SizeOf for such a struct: the sum of its field widths, so every field fits in it. */
  function SizeOf(layout: StructLayout): (n: nat)
    ensures forall i :: 0 <= i < |layout| ==> layout[i] <= n
  {
    if layout == [] then 0 else layout[0] + SizeOf(layout[1..])
  }

  /** Marshal.PtrToStructure for such a struct: each field little-endian from its own bytes. */
  function DecodeFields(layout: StructLayout, bs: seq<Byte>): (fields: seq<nat>)
    requires |bs| == SizeOf(layout)
    ensures |fields| == |layout|
    ensures forall i :: 0 <= i < |layout| ==> fields[i] < Pow256(layout[i])
  {
    if layout == [] then []
    else
      [LittleEndian(bs[..layout[0]])] + DecodeFields(layout[1..], bs[layout[0]..])
  }

  /** Field values that fit their widths, written out as the struct's bytes. */
  function EncodeFields(layout: StructLayout, fields: seq<nat>): (bs: seq<Byte>)
    requires |fields| == |layout|
    ensures |bs| == SizeOf(layout)
  {
    if layout == [] then []
    else EncodeLittleEndian(fields[0], layout[0]) + EncodeFields(layout[1..], fields[1..])
  }

  predicate FieldsFit(layout: StructLayout, fields: seq<nat>)
    requires |fields| == |layout|
  {
    forall i :: 0 <= i < |layout| ==> fields[i] < Pow256(layout[i])
  }

  /** Writing fields that fit and reading the struct back gives the same fields. */
  lemma {:induction false} StructRoundTrip(layout: StructLayout, fields: seq<nat>)
    requires |fields| == |layout| && FieldsFit(layout, fields)
    ensures DecodeFields(layout, EncodeFields(layout, fields)) == fields
  {
    if layout != [] {
      var head := EncodeLittleEndian(fields[0], layout[0]);
      var bs := EncodeFields(layout, fields);
      assert bs[..layout[0]] == head;
      assert bs[layout[0]..] == EncodeFields(layout[1..], fields[1..]);
      LittleEndianRoundTrip(fields[0], layout[0]);
      assert FieldsFit(layout[1..], fields[1..]) by {
        forall i | 0 <= i < |layout| - 1
          ensures fields[1..][i] < Pow256(layout[1..][i])
        {
          assert fields[i + 1] < Pow256(layout[i + 1]);
        }
      }
      StructRoundTrip(layout[1..], fields[1..]);
    }
  }

  /** Reading a struct and writing its fields back gives the same bytes. */
  lemma {:induction false} StructBytesRoundTrip(layout: StructLayout, bs: seq<Byte>)
    requires |bs| == SizeOf(layout)
    ensures EncodeFields(layout, DecodeFields(layout, bs)) == bs
  {
    if layout != [] {
      var head, tail := bs[..layout[0]], bs[layout[0]..];
      var fields := DecodeFields(layout, bs);
      assert fields == [LittleEndian(head)] + DecodeFields(layout[1..], tail);
      EncodeLittleEndianOfDecode(head);
      StructBytesRoundTrip(layout[1..], tail);
      assert EncodeFields(layout, fields)
          == EncodeLittleEndian(fields[0], layout[0]) + EncodeFields(layout[1..], fields[1..]);
      assert bs == head + tail;
    }
  }

  /** Reads exactly SizeOf(layout) bytes and reinterprets them as the struct's fields. */
  method ReadStruct(reader: Reader, layout: StructLayout) returns (fields: seq<nat>)
    requires reader.Valid() && reader.pos + SizeOf(layout) <= |reader.data|
    modifies reader
    ensures reader.Valid() && reader.pos == old(reader.pos) + SizeOf(layout)
    ensures fields == DecodeFields(layout, reader.data[old(reader.pos)..reader.pos])
  {
    var bytes := reader.ReadBytes(SizeOf(layout));
    fields := DecodeFields(layout, bytes);
  }
}
