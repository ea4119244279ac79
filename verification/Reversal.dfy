/** Reversing the bits of a byte by table. */
module Reversal {
  import opened Words

  // ---- The table, in rows of eight and blocks of eight rows ----

  const REVERSED_0: seq<seq<Byte>> := [
    [0x00, 0x80, 0x40, 0xc0, 0x20, 0xa0, 0x60, 0xe0],
    [0x10, 0x90, 0x50, 0xd0, 0x30, 0xb0, 0x70, 0xf0],
    [0x08, 0x88, 0x48, 0xc8, 0x28, 0xa8, 0x68, 0xe8],
    [0x18, 0x98, 0x58, 0xd8, 0x38, 0xb8, 0x78, 0xf8],
    [0x04, 0x84, 0x44, 0xc4, 0x24, 0xa4, 0x64, 0xe4],
    [0x14, 0x94, 0x54, 0xd4, 0x34, 0xb4, 0x74, 0xf4],
    [0x0c, 0x8c, 0x4c, 0xcc, 0x2c, 0xac, 0x6c, 0xec],
    [0x1c, 0x9c, 0x5c, 0xdc, 0x3c, 0xbc, 0x7c, 0xfc]
  ]

  const REVERSED_1: seq<seq<Byte>> := [
    [0x02, 0x82, 0x42, 0xc2, 0x22, 0xa2, 0x62, 0xe2],
    [0x12, 0x92, 0x52, 0xd2, 0x32, 0xb2, 0x72, 0xf2],
    [0x0a, 0x8a, 0x4a, 0xca, 0x2a, 0xaa, 0x6a, 0xea],
    [0x1a, 0x9a, 0x5a, 0xda, 0x3a, 0xba, 0x7a, 0xfa],
    [0x06, 0x86, 0x46, 0xc6, 0x26, 0xa6, 0x66, 0xe6],
    [0x16, 0x96, 0x56, 0xd6, 0x36, 0xb6, 0x76, 0xf6],
    [0x0e, 0x8e, 0x4e, 0xce, 0x2e, 0xae, 0x6e, 0xee],
    [0x1e, 0x9e, 0x5e, 0xde, 0x3e, 0xbe, 0x7e, 0xfe]
  ]

  const REVERSED_2: seq<seq<Byte>> := [
    [0x01, 0x81, 0x41, 0xc1, 0x21, 0xa1, 0x61, 0xe1],
    [0x11, 0x91, 0x51, 0xd1, 0x31, 0xb1, 0x71, 0xf1],
    [0x09, 0x89, 0x49, 0xc9, 0x29, 0xa9, 0x69, 0xe9],
    [0x19, 0x99, 0x59, 0xd9, 0x39, 0xb9, 0x79, 0xf9],
    [0x05, 0x85, 0x45, 0xc5, 0x25, 0xa5, 0x65, 0xe5],
    [0x15, 0x95, 0x55, 0xd5, 0x35, 0xb5, 0x75, 0xf5],
    [0x0d, 0x8d, 0x4d, 0xcd, 0x2d, 0xad, 0x6d, 0xed],
    [0x1d, 0x9d, 0x5d, 0xdd, 0x3d, 0xbd, 0x7d, 0xfd]
  ]

  const REVERSED_3: seq<seq<Byte>> := [
    [0x03, 0x83, 0x43, 0xc3, 0x23, 0xa3, 0x63, 0xe3],
    [0x13, 0x93, 0x53, 0xd3, 0x33, 0xb3, 0x73, 0xf3],
    [0x0b, 0x8b, 0x4b, 0xcb, 0x2b, 0xab, 0x6b, 0xeb],
    [0x1b, 0x9b, 0x5b, 0xdb, 0x3b, 0xbb, 0x7b, 0xfb],
    [0x07, 0x87, 0x47, 0xc7, 0x27, 0xa7, 0x67, 0xe7],
    [0x17, 0x97, 0x57, 0xd7, 0x37, 0xb7, 0x77, 0xf7],
    [0x0f, 0x8f, 0x4f, 0xcf, 0x2f, 0xaf, 0x6f, 0xef],
    [0x1f, 0x9f, 0x5f, 0xdf, 0x3f, 0xbf, 0x7f, 0xff]
  ]

  function ReverseByte(b: Byte): Byte {
    var block :=
      if b < 64 then REVERSED_0 else if b < 128 then REVERSED_1 else if b < 192 then REVERSED_2 else REVERSED_3;
    block[b / 8 % 8][b % 8]
  }

  // ---- Its regularity ----

  /** Eight entries that differ in their three high bits, counted in reverse. */
  function RowFrom(f: nat): seq<nat> {
    [f, f + 128, f + 64, f + 192, f + 32, f + 160, f + 96, f + 224]
  }

  /** Three bits in the opposite order. */
  function Reverse3(d: nat): nat {
    d % 2 * 4 + d / 2 % 2 * 2 + d / 4
  }

  lemma Block0(k: nat)
    requires k < 8
    ensures |REVERSED_0| == 8 && REVERSED_0[k] == RowFrom(4 * Reverse3(k) + 0)
  {
  }

  lemma Block1(k: nat)
    requires k < 8
    ensures |REVERSED_1| == 8 && REVERSED_1[k] == RowFrom(4 * Reverse3(k) + 2)
  {
  }

  lemma Block2(k: nat)
    requires k < 8
    ensures |REVERSED_2| == 8 && REVERSED_2[k] == RowFrom(4 * Reverse3(k) + 1)
  {
  }

  lemma Block3(k: nat)
    requires k < 8
    ensures |REVERSED_3| == 8 && REVERSED_3[k] == RowFrom(4 * Reverse3(k) + 3)
  {
  }

  lemma RowEntry(f: nat, j: nat)
    requires j < 8
    ensures RowFrom(f)[j] == f + 32 * Reverse3(j)
  {
  }

  lemma Split(b: nat, lo: nat, mid: nat, hi: nat)
    requires b == lo + 8 * mid + 64 * hi && lo < 8 && mid < 8
    ensures b % 8 == lo && b / 8 % 8 == mid
  {
    assert b / 8 == mid + 8 * hi;
  }

  /** An entry, from the three, three and two bits of its index. */
  lemma TableEntry(b: Byte, lo: nat, mid: nat, hi: nat)
    requires b == lo + 8 * mid + 64 * hi && lo < 8 && mid < 8
    ensures ReverseByte(b) == hi % 2 * 2 + hi / 2 + 4 * Reverse3(mid) + 32 * Reverse3(lo)
  {
    hide REVERSED_0, REVERSED_1, REVERSED_2, REVERSED_3, RowFrom, Reverse3;
    Split(b, lo, mid, hi);
    RowEntry(4 * Reverse3(mid) + hi % 2 * 2 + hi / 2, lo);
    if hi == 0 { Block0(mid); } else if hi == 1 { Block1(mid); } else if hi == 2 { Block2(mid); } else { Block3(mid); }
  }

  // ---- Its meaning ----

  lemma Reverse3Bits(d: nat, i: nat)
    requires d < 8 && i < 3
    ensures Reverse3(d) < 8 && Bit(Reverse3(d), i) == Bit(d, 2 - i)
  {
    hide Bit;
    SmallBits(d);
    SmallBits(Reverse3(d));
  }

  lemma SmallBits(d: nat)
    ensures Bit(d, 0) == (d % 2 == 1) && Bit(d, 1) == (d / 2 % 2 == 1) && Bit(d, 2) == (d / 4 % 2 == 1)
  {
    assert d / 2 / 2 == d / 4;
  }

  lemma Reverse2Bits(d: nat, i: nat)
    requires d < 4 && i < 2
    ensures d % 2 * 2 + d / 2 < 4 && Bit(d % 2 * 2 + d / 2, i) == Bit(d, 1 - i)
  {
    SmallBits(d);
    SmallBits(d % 2 * 2 + d / 2);
  }

  /** Every entry of the table is its index with the bits in the opposite order. */
  lemma ReverseBits(b: Byte, i: nat)
    requires i < 8
    ensures Bit(ReverseByte(b), i) == Bit(b, 7 - i)
  {
    hide Bit, ReverseByte, Reverse3;
    assert Pow2(2) == 4 && Pow2(3) == 8;
    var lo, rest := b % 8, b / 8;
    var mid, hi := rest % 8, rest / 8;
    TableEntry(b, lo, mid, hi);
    BitOfParts(rest, lo, 3, 7 - i);
    if i < 5 {
      BitOfParts(hi, mid, 3, 4 - i);
    }
    var r2, r3, r5 := hi % 2 * 2 + hi / 2, Reverse3(mid), Reverse3(mid) + 8 * Reverse3(lo);
    Reverse2Bits(hi, if i < 2 then i else 0);
    Reverse3Bits(mid, if 2 <= i < 5 then i - 2 else 0);
    Reverse3Bits(lo, if i >= 5 then i - 5 else 0);
    BitOfParts(r5, r2, 2, i);
    if i >= 2 {
      BitOfParts(Reverse3(lo), r3, 3, i - 2);
    }
  }

  /** Bytes with the same eight bits are the same. */
  lemma {:induction false} SameBits(a: nat, b: nat, n: nat)
    requires a < Pow2(n) && b < Pow2(n) && forall k :: 0 <= k < n ==> Bit(a, k) == Bit(b, k)
    ensures a == b
  {
    if n > 0 {
      assert Bit(a, 0) == Bit(b, 0);
      forall k | 0 <= k < n - 1 ensures Bit(a / 2, k) == Bit(b / 2, k) {
        assert Bit(a, k + 1) == Bit(b, k + 1);
      }
      SameBits(a / 2, b / 2, n - 1);
    }
  }

  /** Looking a byte up twice gives it back. */
  lemma ReverseTwice(b: Byte)
    ensures ReverseByte(ReverseByte(b)) == b
  {
    hide Bit, ReverseByte;
    assert Pow2(8) == 256;
    var r := ReverseByte(b);
    forall k | 0 <= k < 8 ensures Bit(ReverseByte(r), k) == Bit(b, k) {
      ReverseBits(r, k);
      ReverseBits(b, 7 - k);
    }
    SameBits(ReverseByte(r), b, 8);
  }
}
