/** Bytes, their bits, and the LSB-first unpacking that sampler and replay share. */
module Bytes {
  type byte = bv8

  /** The firmware's `1u << j` on a byte. */
  function Mask(j: nat): byte
    requires j < 8
  {
    if j == 0 then 0x01 else if j == 1 then 0x02 else if j == 2 then 0x04 else if j == 3 then 0x08
    else if j == 4 then 0x10 else if j == 5 then 0x20 else if j == 6 then 0x40 else 0x80
  }

  /** Bit 0 is the lowest. */
  lemma MaskIsShift(j: nat)
    requires j < 8
    ensures Mask(j) == (0x01 as byte) << j
  {
  }

  predicate Bit(b: byte, j: nat)
    requires j < 8
  {
    b & Mask(j) != 0
  }

  /** The n low bits of a byte, least significant first. */
  function LowBits(b: byte, n: nat): (r: seq<bool>)
    requires n <= 8
    ensures |r| == n
  {
    seq(n, j requires 0 <= j < n => Bit(b, j))
  }

  /** All the bits of a byte string, least significant bit of each byte first. */
  function Unpack(bs: seq<byte>): (r: seq<bool>)
    ensures |r| == 8 * |bs|
  {
    seq(8 * |bs|, i requires 0 <= i < 8 * |bs| => Bit(bs[i / 8], i % 8))
  }

  lemma UnpackAppend(a: seq<byte>, b: seq<byte>)
    ensures Unpack(a + b) == Unpack(a) + Unpack(b)
  {
    var n := 8 * |a|;
    forall i | 0 <= i < 8 * |a + b|
      ensures Unpack(a + b)[i] == (Unpack(a) + Unpack(b))[i]
    {
      if i >= n {
        assert (i - n) / 8 == i / 8 - |a| && (i - n) % 8 == i % 8;
      }
    }
  }

  lemma UnpackOne(b: byte)
    ensures Unpack([b]) == LowBits(b, 8)
  {
  }

  lemma UnpackSlice(bs: seq<byte>, lo: nat, hi: nat)
    requires lo <= hi <= |bs|
    ensures Unpack(bs[lo..hi]) == Unpack(bs)[8 * lo..8 * hi]
  {
    assert bs == bs[..lo] + (bs[lo..hi] + bs[hi..]);
    UnpackAppend(bs[..lo], bs[lo..hi] + bs[hi..]);
    UnpackAppend(bs[lo..hi], bs[hi..]);
  }

  /** Setting bit n of a byte whose bits from n up are clear appends one bit. */
  lemma OrAppendsBit(b: byte, n: nat, level: bool)
    requires n < 8
    requires forall j :: n <= j < 8 ==> !Bit(b, j)
    ensures var c := if level then b | Mask(n) else b;
      && LowBits(c, n + 1) == LowBits(b, n) + [level]
      && forall j :: n < j < 8 ==> !Bit(c, j)
  {
    var c := if level then b | Mask(n) else b;
    forall j: nat | j < 8 && j != n
      ensures Bit(c, j) == Bit(b, j)
    {
      OrOtherBit(b, n, j);
    }
    OrSameBit(b, n);
    assert !Bit(b, n);
  }

  lemma OrOtherBit(b: byte, n: nat, j: nat)
    requires n < 8 && j < 8 && j != n
    ensures Bit(b | Mask(n), j) == Bit(b, j)
  {
  }

  lemma OrSameBit(b: byte, n: nat)
    requires n < 8
    ensures Bit(b | Mask(n), n)
  {
  }
}
