/**
 * The part of .NET's BinaryReader that the extension methods build on: a
 * cursor over an in-memory byte stream and its little-endian primitive
 * reads. Characters are UTF-16 code units; ReadChar and ReadChars take one
 * byte per character, the character with that byte's value, so a sequence
 * of bytes read as characters is the same sequence of values.
 */
module BinaryReader {
  import opened ByteOrder

  /** A .NET char: one UTF-16 code unit. */
  type CodeUnit = UInt16

  const Nul: CodeUnit := 0

  /** Why a read failed (the exception the .NET code throws). */
  datatype DecodeError =
    | EndOfStream
    | UnexpectedEnumValue(enumName: string, value: int)

  datatype Option<T> = None | Some(value: T)

  datatype Result<T> = Success(value: T) | Failure(error: DecodeError) {
    predicate IsFailure() {
      Failure?
    }

    function PropagateFailure<U>(): Result<U>
      requires Failure?
    {
      Failure(error)
    }

    function Extract(): T
      requires Success?
    {
      value
    }
  }

  /** The unsigned 16-bit little-endian value stored at `data[at..at + 2]`. */
  function UInt16At(data: seq<Byte>, at: nat): (v: UInt16)
    requires at + 2 <= |data|
    ensures v == data[at] as int + 256 * data[at + 1] as int
  {
    var bs := data[at..at + 2];
    assert bs[1..][1..] == [];
    assert LittleEndian(bs[1..]) == bs[1];
    LittleEndian(bs)
  }

  /** The unsigned 32-bit little-endian value stored at `data[at..at + 4]`. */
  function UInt32At(data: seq<Byte>, at: nat): (v: nat)
    requires at + 4 <= |data|
    ensures v < UInt32Limit
  {
    Pow256Values();
    LittleEndian(data[at..at + 4])
  }

  /** A BinaryReader over the bytes `data`, positioned at `pos`. */
  class Reader {
    const data: seq<Byte>
    var pos: nat

    ghost predicate Valid()
      reads this
    {
      pos <= |data|
    }

    constructor (bytes: seq<Byte>)
      ensures Valid() && data == bytes && pos == 0
    {
      data := bytes;
      pos := 0;
    }

    method ReadByte() returns (b: Byte)
      requires Valid() && pos + 1 <= |data|
      modifies this
      ensures Valid() && pos == old(pos) + 1
      ensures b == data[old(pos)]
    {
      b := data[pos];
      pos := pos + 1;
    }

    method ReadBytes(count: nat) returns (bs: seq<Byte>)
      requires Valid() && pos + count <= |data|
      modifies this
      ensures Valid() && pos == old(pos) + count
      ensures bs == data[old(pos)..pos]
    {
      bs := data[pos..pos + count];
      pos := pos + count;
    }

    method ReadUInt16() returns (v: UInt16)
      requires Valid() && pos + 2 <= |data|
      modifies this
      ensures Valid() && pos == old(pos) + 2
      ensures v == UInt16At(data, old(pos))
    {
      v := UInt16At(data, pos);
      pos := pos + 2;
    }

    method ReadUInt32() returns (v: nat)
      requires Valid() && pos + 4 <= |data|
      modifies this
      ensures Valid() && pos == old(pos) + 4
      ensures v == UInt32At(data, old(pos))
    {
      v := UInt32At(data, pos);
      pos := pos + 4;
    }

    method ReadInt32() returns (v: int)
      requires Valid() && pos + 4 <= |data|
      modifies this
      ensures Valid() && pos == old(pos) + 4
      ensures v == ToInt32(UInt32At(data, old(pos)))
    {
      v := ToInt32(UInt32At(data, pos));
      pos := pos + 4;
    }

    /** One character, or EndOfStream (cursor unmoved) when no byte is left. */
    method ReadChar() returns (r: Result<CodeUnit>)
      requires Valid()
      modifies this
      ensures Valid()
      ensures old(pos) < |data| ==> r == Success(data[old(pos)] as CodeUnit) && pos == old(pos) + 1
      ensures old(pos) == |data| ==> r == Failure(EndOfStream) && pos == old(pos)
    {
      if pos == |data| {
        return Failure(EndOfStream);
      }
      r := Success(data[pos] as CodeUnit);
      pos := pos + 1;
    }

    method ReadChars(count: nat) returns (cs: seq<CodeUnit>)
      requires Valid() && pos + count <= |data|
      modifies this
      ensures Valid() && pos == old(pos) + count
      ensures cs == data[old(pos)..pos]
    {
      cs := data[pos..pos + count];
      pos := pos + count;
    }
  }
}
