/**
 * Byte-order arithmetic used by the binary reader: the value of a run of
 * bytes read least-significant first (little-endian, the host order the
 * reader assumes) or most-significant first (big-endian, network byte
 * order), the matching encoders, 32-bit two's complement, and the test of
 * one bit of a byte.
 */
module ByteOrder {

  /** One byte of the stream, as its unsigned value. */
  type Byte = x: int | 0 <= x < 0x100

  /** An unsigned 16-bit value; also one UTF-16 code unit (a .NET char). */
  type UInt16 = x: int | 0 <= x < 0x1_0000

  const UInt32Limit: nat := 0x1_0000_0000

  function Pow256(n: nat): (r: nat)
    ensures r >= 1
  {
    if n == 0 then 1 else 256 * Pow256(n - 1)
  }

  lemma Pow256Values()
    ensures Pow256(1) == 0x100 && Pow256(2) == 0x1_0000
    ensures Pow256(3) == 0x100_0000 && Pow256(4) == UInt32Limit
  {
    assert Pow256(1) == 0x100;
    assert Pow256(2) == 0x1_0000;
    assert Pow256(3) == 0x100_0000;
  }

  /** The unsigned value of `bs`, first byte least significant: below 256^|bs|. */
  function LittleEndian(bs: seq<Byte>): (r: nat)
    ensures r < Pow256(|bs|)
  {
    if bs == [] then 0 else bs[0] + 256 * LittleEndian(bs[1..])
  }

  /** The unsigned value of `bs`, first byte most significant: below 256^|bs|. */
  function BigEndian(bs: seq<Byte>): (r: nat)
    ensures r < Pow256(|bs|)
  {
    if bs == [] then 0 else 256 * BigEndian(bs[..|bs| - 1]) + bs[|bs| - 1]
  }

  /** The bytes of `bs` in the opposite order (what Array.Reverse leaves). */
  function Reverse(bs: seq<Byte>): (r: seq<Byte>)
    ensures |r| == |bs|
    ensures forall i :: 0 <= i < |bs| ==> r[i] == bs[|bs| - 1 - i]
  {
    if bs == [] then [] else [bs[|bs| - 1]] + Reverse(bs[..|bs| - 1])
  }

  /** The `n`-byte little-endian encoding of `x` (the write side of LittleEndian). */
  function EncodeLittleEndian(x: nat, n: nat): (r: seq<Byte>)
    ensures |r| == n
  {
    if n == 0 then [] else [x % 256] + EncodeLittleEndian(x / 256, n - 1)
  }

  /** The `n`-byte big-endian encoding of `x` (the write side of BigEndian). */
  function EncodeBigEndian(x: nat, n: nat): (r: seq<Byte>)
    ensures |r| == n
  {
    if n == 0 then [] else EncodeBigEndian(x / 256, n - 1) + [x % 256]
  }

  /** The 8-bit pattern of byte `b`, for the bitwise operations. */
  function Bits(b: Byte): bv8
  {
    if b == 0 then 0 else Bits(b - 1) + 1
  }

  lemma {:induction false} BitsValue(b: Byte)
    ensures Bits(b) as int == b
  {
    if b > 0 {
      BitsValue(b - 1);
      Successor(Bits(b - 1));
    }
  }

  lemma Successor(w: bv8)
    requires w as int < 255
    ensures (w + 1) as int == w as int + 1
  {
  }

  lemma BigEndianSnoc(bs: seq<Byte>, b: Byte)
    ensures BigEndian(bs + [b]) == 256 * BigEndian(bs) + b
  {
    assert (bs + [b])[..|bs|] == bs;
  }

  lemma QuotientBound(x: nat, p: nat)
    requires x < 256 * p
    ensures x / 256 < p
  {
  }

  lemma DivModByte(v: int, a: int, q: int)
    requires 0 <= a < 256 && v == a + 256 * q
    ensures v % 256 == a && v / 256 == q
  {
  }

  lemma ShiftWeight(a: int, rest: int, v: int, p: int)
    ensures a + 256 * (rest + v * p) == (a + 256 * rest) + v * (256 * p)
  {
  }


  /** Appending a byte adds it at the next weight: the reader's accumulation step. */
  lemma {:induction false} LittleEndianAppend(bs: seq<Byte>, b: Byte)
    ensures LittleEndian(bs + [b]) == LittleEndian(bs) + b * Pow256(|bs|)
  {
    if bs == [] {
      assert [b][1..] == [];
    } else {
      assert (bs + [b])[1..] == bs[1..] + [b];
      LittleEndianAppend(bs[1..], b);
      assert LittleEndian(bs + [b]) == bs[0] + 256 * LittleEndian(bs[1..] + [b]);
      ShiftWeight(bs[0], LittleEndian(bs[1..]), b, Pow256(|bs| - 1));
    }
  }

  /**
   * Reading the reversed bytes little-endian is reading the original bytes
   * big-endian: why reversing and then converting on a little-endian host
   * yields the big-endian value.
   */
  lemma {:induction false} LittleEndianOfReverse(bs: seq<Byte>)
    ensures LittleEndian(Reverse(bs)) == BigEndian(bs)
  {
    if bs != [] {
      var init := bs[..|bs| - 1];
      assert Reverse(bs)[1..] == Reverse(init);
      LittleEndianOfReverse(init);
    }
  }

  /** Decoding the little-endian encoding of any x < 256^n gives x back. */
  lemma {:induction false} LittleEndianRoundTrip(x: nat, n: nat)
    requires x < Pow256(n)
    ensures LittleEndian(EncodeLittleEndian(x, n)) == x
  {
    if n > 0 {
      var e := EncodeLittleEndian(x, n);
      assert e[1..] == EncodeLittleEndian(x / 256, n - 1);
      QuotientBound(x, Pow256(n - 1));
      LittleEndianRoundTrip(x / 256, n - 1);
    }
  }

  /** Encoding a decoded little-endian value gives the same bytes back. */
  lemma {:induction false} EncodeLittleEndianOfDecode(bs: seq<Byte>)
    ensures EncodeLittleEndian(LittleEndian(bs), |bs|) == bs
  {
    if bs != [] {
      DivModByte(LittleEndian(bs), bs[0], LittleEndian(bs[1..]));
      EncodeLittleEndianOfDecode(bs[1..]);
    }
  }

  /** Decoding the big-endian encoding of any x < 256^n gives x back. */
  lemma {:induction false} BigEndianRoundTrip(x: nat, n: nat)
    requires x < Pow256(n)
    ensures BigEndian(EncodeBigEndian(x, n)) == x
  {
    if n > 0 {
      QuotientBound(x, Pow256(n - 1));
      BigEndianRoundTrip(x / 256, n - 1);
      BigEndianSnoc(EncodeBigEndian(x / 256, n - 1), x % 256);
    }
  }

  /** Encoding a decoded big-endian value gives the same bytes back. */
  lemma {:induction false} EncodeBigEndianOfDecode(bs: seq<Byte>)
    ensures EncodeBigEndian(BigEndian(bs), |bs|) == bs
  {
    if bs != [] {
      var init := bs[..|bs| - 1];
      DivModByte(BigEndian(bs), bs[|bs| - 1], BigEndian(init));
      EncodeBigEndianOfDecode(init);
    }
  }

  /** A 32-bit unsigned pattern read as a signed two's-complement Int32. */
  function ToInt32(u: nat): (r: int)
    requires u < UInt32Limit
    ensures -0x8000_0000 <= r < 0x8000_0000
    ensures r % UInt32Limit == u
  {
    if u < 0x8000_0000 then u else u - UInt32Limit
  }

  /** The 32-bit pattern of a signed Int32 (the write side of ToInt32). */
  function FromInt32(v: int): (u: nat)
    requires -0x8000_0000 <= v < 0x8000_0000
    ensures u < UInt32Limit
  {
    if v >= 0 then v else v + UInt32Limit
  }

  lemma Int32RoundTrip(v: int)
    requires -0x8000_0000 <= v < 0x8000_0000
    ensures ToInt32(FromInt32(v)) == v
  {
  }

  /**
   * Bit `k` of `b` is set, tested with the mask `(b & (1 << k)) > 0`: binary
   * digit k of the byte's value, least significant first.
   */
  predicate BitAt(b: Byte, k: nat)
    requires k < 8
    ensures BitAt(b, k) == ((b / Pow2(k)) % 2 == 1)
  {
    var w := Bits(b);
    MaskIsShift(w, k);
    ShiftIsDiv(w, k);
    LowBit(w >> k);
    BitsValue(b);
    w & ((1 as bv8) << k) != 0
  }

  function Pow2(k: nat): (r: nat)
    ensures r >= 1
  {
    if k == 0 then 1 else 2 * Pow2(k - 1)
  }

  lemma MaskIsShift(w: bv8, k: nat)
    requires k < 8
    ensures (w & ((1 as bv8) << k) != 0) == ((w >> k) & 1 == 1)
  {
  }

  lemma LowBit(w: bv8)
    ensures (w & 1 == 1) == (w as int % 2 == 1)
  {
  }

  lemma HalfStep(w: bv8)
    ensures (w >> 1) as int == w as int / 2
  {
  }

  lemma ShiftTwice(w: bv8, k: nat)
    requires 1 <= k < 8
    ensures (w >> (k - 1)) >> 1 == w >> k
  {
  }

  lemma {:induction false} ShiftIsDiv(w: bv8, k: nat)
    requires k < 8
    ensures (w >> k) as int == w as int / Pow2(k)
  {
    if k > 0 {
      ShiftIsDiv(w, k - 1);
      Pow2Small(k - 1);
      HalfStep(w >> (k - 1));
      ShiftTwice(w, k);
      DivTwice(w as int, Pow2(k - 1));
    }
  }

  lemma {:induction false} Pow2Small(k: nat)
    requires k < 7
    ensures var p := Pow2(k); p == 1 || p == 2 || p == 4 || p == 8 || p == 16 || p == 32 || p == 64
  {
    if k > 0 {
      Pow2Small(k - 1);
    }
  }

  lemma DivTwice(x: nat, p: nat)
    requires p == 1 || p == 2 || p == 4 || p == 8 || p == 16 || p == 32 || p == 64
    ensures x / (2 * p) == (x / p) / 2
  {
    if p == 1 {
    } else if p == 2 {
    } else if p == 4 {
    } else if p == 8 {
    } else if p == 16 {
    } else if p == 32 {
    } else {
    }
  }

  /**
   * ORing three bytes into a 32-bit word at bit offsets 0, 8 and 16 gives
   * their little-endian value: the OR never meets a set bit, so it adds.
   */
  lemma OrOfShiftedBytes(b0: Byte, b1: Byte, b2: Byte)
    ensures ((Bits(b0) as bv32) | ((Bits(b1) as bv32) << 8) | ((Bits(b2) as bv32) << 16)) as int
            == b0 + b1 * 0x100 + b2 * 0x1_0000
  {
    var w0, w1, w2 := Bits(b0) as bv32, Bits(b1) as bv32, Bits(b2) as bv32;
    Widen(Bits(b0));
    Widen(Bits(b1));
    Widen(Bits(b2));
    BitsValue(b0);
    BitsValue(b1);
    BitsValue(b2);
    OrIsAdd(w0, w1, w2);
    LowHalf(w0, w1);
    AddValue8(w0, w1);
    AddValue16(w0 + w1 * 0x100, w2);
  }

  /** The little-endian value of three bytes, first byte least significant. */
  lemma UInt24Value(b0: Byte, b1: Byte, b2: Byte)
    ensures LittleEndian([b0, b1, b2]) == b0 + b1 * 0x100 + b2 * 0x1_0000
  {
    assert [b2][1..] == [];
    assert LittleEndian([b2]) == b2;
    assert [b1, b2][1..] == [b2];
    assert LittleEndian([b1, b2]) == b1 + b2 * 0x100;
    assert [b0, b1, b2][1..] == [b1, b2];
  }

  lemma Widen(w: bv8)
    ensures (w as bv32) as int == w as int
  {
  }

  lemma OrIsAdd(w0: bv32, w1: bv32, w2: bv32)
    requires w0 < 0x100 && w1 < 0x100 && w2 < 0x100
    ensures (w0 | (w1 << 8) | (w2 << 16)) == (w0 + w1 * 0x100) + w2 * 0x1_0000
  {
  }

  lemma LowHalf(w0: bv32, w1: bv32)
    requires w0 < 0x100 && w1 < 0x100
    ensures w0 + w1 * 0x100 < 0x1_0000
  {
  }

  lemma AddValue8(x: bv32, y: bv32)
    requires x < 0x100 && y < 0x100
    ensures (x + y * 0x100) as int == x as int + y as int * 0x100
  {
  }

  lemma AddValue16(x: bv32, y: bv32)
    requires x < 0x1_0000 && y < 0x100
    ensures (x + y * 0x1_0000) as int == x as int + y as int * 0x1_0000
  {
  }

  /**
   * The lane that byte `b` occupies when ORed into a 32-bit accumulator as
   * the `i`-th byte of a little-endian value: the byte shifted left by
   * `i * 8` bits, written with one literal shift per lane.
   */
  function Lane(b: Byte, i: nat): (r: bv32)
    requires i < 3
    ensures r == (Bits(b) as bv32) << (i * 8)
  {
    var w := Bits(b) as bv32;
    if i == 0 then
      assert w << 0 == w;
      w
    else if i == 1 then w << 8 else w << 16
  }

  /** The accumulator after ORing the first `i` bytes of `bs` into their lanes. */
  function OrPrefix(bs: seq<Byte>, i: nat): bv32
    requires i <= 3 && i <= |bs|
  {
    if i == 0 then 0 else OrPrefix(bs, i - 1) | Lane(bs[i - 1], i - 1)
  }

  lemma OrPrefixStep(bs: seq<Byte>, i: nat)
    requires i < 3 && i < |bs|
    ensures OrPrefix(bs, i + 1) == OrPrefix(bs, i) | Lane(bs[i], i)
  {
  }

  /** ORing all three bytes into their lanes gives their little-endian value. */
  lemma OrPrefixValue(bs: seq<Byte>)
    requires |bs| == 3
    ensures OrPrefix(bs, 3) as int == LittleEndian(bs)
  {
    var w := OrPrefix(bs, 3);
    assert w == ((0 | Lane(bs[0], 0)) | Lane(bs[1], 1)) | Lane(bs[2], 2) by {
      OrPrefixStep(bs, 0);
      OrPrefixStep(bs, 1);
      OrPrefixStep(bs, 2);
    }
    LanesOr(bs[0], bs[1], bs[2]);
    OrOfShiftedBytes(bs[0], bs[1], bs[2]);
    UInt24Value(bs[0], bs[1], bs[2]);
    assert bs == [bs[0], bs[1], bs[2]];
  }

  lemma LanesOr(b0: Byte, b1: Byte, b2: Byte)
    ensures ((0 | Lane(b0, 0)) | Lane(b1, 1)) | Lane(b2, 2)
            == (Bits(b0) as bv32) | ((Bits(b1) as bv32) << 8) | ((Bits(b2) as bv32) << 16)
  {
  }
}
