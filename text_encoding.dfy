/**
 * The text conversions the string reads apply after taking bytes from the
 * stream: .NET's ASCII decoder, its UTF-16LE ("Unicode") decoder, and
 * string.TrimEnd for one character.
 */
module TextEncoding {
  import opened ByteOrder
  import opened BinaryReader

  /** The character ASCII decoding substitutes for a byte above 0x7F. */
  const Question: CodeUnit := 0x3F

  predicate IsAscii(s: seq<CodeUnit>) {
    forall i :: 0 <= i < |s| ==> s[i] < 0x80
  }

  /** Encoding.ASCII.GetString: one character per byte, '?' for bytes above 0x7F. */
  function AsciiDecode(bs: seq<Byte>): (r: seq<CodeUnit>)
    ensures |r| == |bs| && IsAscii(r)
    ensures forall i :: 0 <= i < |bs| && bs[i] < 0x80 ==> r[i] == bs[i]
    ensures forall i :: 0 <= i < |bs| && bs[i] >= 0x80 ==> r[i] == Question
  {
    if bs == [] then []
    else [if bs[0] < 0x80 then bs[0] as CodeUnit else Question] + AsciiDecode(bs[1..])
  }

  /** Encoding.ASCII.GetBytes for a string that is all ASCII. */
  function AsciiEncode(s: seq<CodeUnit>): (r: seq<Byte>)
    requires IsAscii(s)
    ensures |r| == |s|
  {
    if s == [] then [] else [s[0] as Byte] + AsciiEncode(s[1..])
  }

  /** Every ASCII string survives encoding and decoding. */
  lemma {:induction false} AsciiRoundTrip(s: seq<CodeUnit>)
    requires IsAscii(s)
    ensures AsciiDecode(AsciiEncode(s)) == s
  {
    if s != [] {
      AsciiRoundTrip(s[1..]);
      assert AsciiEncode(s)[1..] == AsciiEncode(s[1..]);
    }
  }

  /** Bytes that are all below 0x80 survive decoding and encoding. */
  lemma {:induction false} AsciiBytesRoundTrip(bs: seq<Byte>)
    requires forall i :: 0 <= i < |bs| ==> bs[i] < 0x80
    ensures AsciiEncode(AsciiDecode(bs)) == bs
  {
    if bs != [] {
      AsciiBytesRoundTrip(bs[1..]);
      assert AsciiDecode(bs)[1..] == AsciiDecode(bs[1..]);
    }
  }

  /**
   * Encoding.Unicode.GetString: each pair of bytes is one UTF-16 code unit,
   * low byte first.
   */
  function Utf16LeDecode(bs: seq<Byte>): (r: seq<CodeUnit>)
    requires |bs| % 2 == 0
    ensures |r| == |bs| / 2
  {
    if bs == [] then [] else [UInt16At(bs, 0)] + Utf16LeDecode(bs[2..])
  }

  /** Code unit `i` of the decoded string is the little-endian pair at byte offset `2 * i`. */
  lemma {:induction false} Utf16LeDecodeAt(bs: seq<Byte>, i: nat)
    requires |bs| % 2 == 0 && i < |bs| / 2
    ensures Utf16LeDecode(bs)[i] == UInt16At(bs, 2 * i)
  {
    if i > 0 {
      Utf16LeDecodeAt(bs[2..], i - 1);
      assert bs[2..][2 * (i - 1)..2 * (i - 1) + 2] == bs[2 * i..2 * i + 2];
    }
  }

  /** Encoding.Unicode.GetBytes: each code unit as two bytes, low byte first. */
  function Utf16LeEncode(s: seq<CodeUnit>): (r: seq<Byte>)
    ensures |r| == 2 * |s|
  {
    if s == [] then [] else [s[0] % 256, s[0] / 256] + Utf16LeEncode(s[1..])
  }

  lemma {:induction false} Utf16RoundTrip(s: seq<CodeUnit>)
    ensures Utf16LeDecode(Utf16LeEncode(s)) == s
  {
    if s != [] {
      var e := Utf16LeEncode(s);
      assert e[2..] == Utf16LeEncode(s[1..]);
      Utf16RoundTrip(s[1..]);
    }
  }

  lemma {:induction false} Utf16BytesRoundTrip(bs: seq<Byte>)
    requires |bs| % 2 == 0
    ensures Utf16LeEncode(Utf16LeDecode(bs)) == bs
  {
    if bs != [] {
      Utf16BytesRoundTrip(bs[2..]);
      ReencodeFirstUnit(bs);
      assert bs == bs[..2] + bs[2..];
    }
  }

  /** Re-encoding the first decoded code unit gives back the first two bytes. */
  lemma ReencodeFirstUnit(bs: seq<Byte>)
    requires |bs| % 2 == 0 && bs != []
    ensures Utf16LeEncode(Utf16LeDecode(bs))
            == bs[..2] + Utf16LeEncode(Utf16LeDecode(bs[2..]))
  {
    var d := Utf16LeDecode(bs);
    assert d[1..] == Utf16LeDecode(bs[2..]);
    DivModByte(d[0], bs[0], bs[1]);
  }

  /**
   * string.TrimEnd(c): the string without its run of trailing `c`. What is
   * left is a prefix of `s` that does not end in `c`, and everything removed
   * is `c`; characters equal to `c` before the last other one are kept.
   */
  function TrimEnd(s: seq<CodeUnit>, c: CodeUnit): (r: seq<CodeUnit>)
    ensures r <= s
    ensures r == [] || r[|r| - 1] != c
    ensures forall i :: |r| <= i < |s| ==> s[i] == c
  {
    if s == [] || s[|s| - 1] != c then s else TrimEnd(s[..|s| - 1], c)
  }

  /** Padding a string that does not end in `c` with any number of `c` and trimming gives it back. */
  lemma {:induction false} TrimEndOfPadding(s: seq<CodeUnit>, c: CodeUnit, n: nat)
    requires s == [] || s[|s| - 1] != c
    ensures TrimEnd(s + seq(n, _ => c), c) == s
  {
    if n > 0 {
      var padded := s + seq(n, _ => c);
      assert padded[..|padded| - 1] == s + seq(n - 1, _ => c);
      TrimEndOfPadding(s, c, n - 1);
    }
  }

  /** Trimming twice trims nothing more. */
  lemma TrimEndIdempotent(s: seq<CodeUnit>, c: CodeUnit)
    ensures TrimEnd(TrimEnd(s, c), c) == TrimEnd(s, c)
  {
  }
}
