/**
 * Concrete reads over small buffers: the documented decoding of each
 * extension method on fixed inputs, each starting from a fresh reader.
 */
module Scenarios {
  import opened ByteOrder
  import opened BinaryReader
  import opened TextEncoding
  import opened BinaryReaderExtensions

  /** Bytes 01 02 03 read as a 24-bit integer give 0x030201. */
  method UInt24Scenario() returns (v: nat)
    ensures v == 0x03_02_01
  {
    var reader := new Reader([1, 2, 3]);
    v := ReadUInt24(reader);
    assert reader.data[0..3] == [1, 2, 3];
    UInt24Value(1, 2, 3);
  }

  /** Bytes 01 02 03 04 read big-endian give 0x01020304. */
  method BigEndianScenario() returns (v: nat)
    ensures v == 0x01_02_03_04
  {
    var reader := new Reader([1, 2, 3, 4]);
    v := ReadBigEndianUInt32(reader);
    assert reader.data[0..4] == [1, 2, 3, 4];
    BigEndianUInt32Value(1, 2, 3, 4);
  }

  /** "abc" NUL "d" gives "abc" and moves the cursor past the NUL, four bytes. */
  method NullTerminatedScenario() returns (r: Result<seq<CodeUnit>>, consumed: nat)
    ensures r == Success([0x61, 0x62, 0x63]) && consumed == 4
  {
    var text: seq<Byte> := [0x61, 0x62, 0x63];
    var reader := new Reader(text + [0] + [0x64]);
    r := ReadNullTerminatedString(reader);
    assert reader.data[0..] == text + [0] + [0x64];
    NullTerminatedRoundTrip(text, [0x64]);
    consumed := reader.pos;
  }

  /**
   * "ab" with no NUL after it fails with EndOfStream, and the characters
   * already read stay consumed: the cursor ends at the end of the data.
   */
  method MissingTerminatorScenario() returns (r: Result<seq<CodeUnit>>, consumed: nat)
    ensures r == Failure(EndOfStream) && consumed == 2
  {
    var reader := new Reader([0x61, 0x62]);
    r := ReadNullTerminatedString(reader);
    assert reader.data[0..] == [0x61, 0x62];
    consumed := reader.pos;
  }

  /** Length 3 then "foo" gives "foo" and consumes five bytes. */
  method PrefixedAsciiScenario() returns (s: seq<CodeUnit>, consumed: nat)
    ensures s == [0x66, 0x6F, 0x6F] && consumed == 5
  {
    var reader := new Reader([3, 0, 0x66, 0x6F, 0x6F]);
    s := ReadUInt16PrefixedAsciiString(reader);
    assert reader.data[2..5] == [0x66, 0x6F, 0x6F];
    consumed := reader.pos;
  }

  /** Length 2 then "hi" as UTF-16LE gives "hi" and consumes six bytes. */
  method PrefixedUnicodeScenario() returns (s: seq<CodeUnit>, consumed: nat)
    ensures s == [0x68, 0x69] && consumed == 6
  {
    var reader := new Reader([2, 0, 0x68, 0, 0x69, 0]);
    s := ReadUInt16PrefixedUnicodeString(reader);
    ghost var body := reader.data[2..6];
    assert body == [0x68, 0, 0x69, 0];
    Utf16LeDecodeAt(body, 0);
    Utf16LeDecodeAt(body, 1);
    consumed := reader.pos;
  }

  /** A five-byte field "ab" NUL NUL NUL gives "ab". */
  method FixedLengthScenario() returns (s: seq<CodeUnit>)
    ensures s == [0x61, 0x62]
  {
    var reader := new Reader([0x61, 0x62, 0, 0, 0]);
    s := ReadFixedLengthString(reader, 5);
    assert reader.data[0..5] == [0x61, 0x62] + seq(3, _ => 0);
    FixedLengthRoundTrip([0x61, 0x62], 3);
  }

  /** The 2 x 2 grid of 16-bit values 1, 2, 3, 4 fills x first, then y. */
  method UInt16GridScenario() returns (g00: UInt16, g10: UInt16, g01: UInt16, g11: UInt16)
    ensures g00 == 1 && g10 == 2 && g01 == 3 && g11 == 4
  {
    var reader := new Reader([1, 0, 2, 0, 3, 0, 4, 0]);
    var grid := ReadUInt16Array2D(reader, 2, 2);
    g00, g10, g01, g11 := grid[0, 0], grid[1, 0], grid[0, 1], grid[1, 1];
  }

  /**
   * A one-row bit grid nine columns wide over 01 01: column 0 and column 8
   * (the low bit of the second byte) are set, columns 1 to 7 are not.
   */
  method BitGridScenario() returns (row: seq<bool>)
    ensures row == [true, false, false, false, false, false, false, false, true]
  {
    var reader := new Reader([1, 1]);
    var grid := ReadSingleBitBooleanArray2D(reader, 9, 1);
    row := seq(9, x requires 0 <= x < 9 reads grid => grid[x, 0]);
  }

  /** For an enum with members 0 and 1, the byte 1 is accepted and the byte 2 is reported. */
  method EnumScenario() returns (accepted: Result<int>, rejected: Result<int>)
    ensures accepted == Success(1)
    ensures rejected == Failure(UnexpectedEnumValue("Choice", 2))
  {
    var e := EnumType("Choice", {0, 1});
    var reader := new Reader([1, 2]);
    accepted := ReadByteAsEnum(reader, e);
    rejected := ReadByteAsEnum(reader, e);
  }
}
