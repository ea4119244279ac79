/** What the one-operand instructions do, bit by bit. */
module AluBits {
  import opened Words
  import opened Isa

  /** Bit i of the result of a one-operand instruction other than neg: complement,
      exchange of bytes, sign extension of the low byte, and three shifts. */
  function Alu1Bit(zop: Reg, r: Word, i: nat): bool {
    match zop
    case 0 => !Bit(r, i)
    case 2 => Bit(r, if i < 8 then i + 8 else i - 8)
    case 3 => Bit(r, if i < 8 then i else 7)
    case 4 => i < 15 && Bit(r, i + 1)
    case 5 => i > 0 && Bit(r, i - 1)
    case _ => Bit(r, if i < 15 then i + 1 else 15)
  }

  lemma Powers()
    ensures Pow2(7) == 128 && Pow2(8) == 256 && Pow2(15) == 0x8000 && Pow2(16) == 0x10000
  {
    assert Pow2(4) == 16 && Pow2(12) == 4096;
  }

  lemma SwapBits(r: Word, i: nat)
    requires i < 16
    ensures Bit(r % 256 * 256 + r / 256, i) == Alu1Bit(2, r, i)
  {
    hide Bit, Pow2;
    Powers();
    BitOfParts(r % 256, r / 256, 8, i);
    BitOfParts(r / 256, r % 256, 8, if i < 8 then i + 8 else i - 8);
  }

  lemma SignBit(low: nat)
    requires low < 256
    ensures Bit(low, 7) == (low >= 128)
  {
    hide Pow2;
    Powers();
    BitOfParts(low / 128, low % 128, 7, 7);
  }

  lemma ExtendBits(r: Word, i: nat)
    requires i < 16
    ensures Bit(Alu1(3, r), i) == Alu1Bit(3, r, i)
  {
    hide Bit, Pow2;
    Powers();
    var low, ones := r % 256, if r % 256 >= 128 then 255 else 0;
    SignBit(low);
    BitOfParts(r / 256, low, 8, if i < 8 then i else 7);
    BitOfParts(ones, low, 8, i);
    if i >= 8 {
      BitOfZero(i - 8);
      BitOfComplement(0, 8, i - 8);
    }
  }

  lemma ShiftRightBits(r: Word, i: nat)
    requires i < 16
    ensures Bit(r / 2, i) == (i < 15 && Bit(r, i + 1))
  {
    hide Pow2;
    Powers();
    BitOfSum(r / 2, r % 2 == 1, i + 1);
    BitOfParts(0, r / 2, 15, i);
    BitOfZero(0);
  }

  lemma ShiftLeftBits(r: Word, i: nat)
    requires i < 16
    ensures Bit(Alu1(5, r), i) == (i > 0 && Bit(r, i - 1))
  {
    hide Pow2, Bit;
    Powers();
    var top: int, low: int := r / 0x8000, r % 0x8000;
    assert Add(r, r) == 2 * low;
    BitOfSum(low, false, i);
    if i > 0 {
      BitOfParts(top, low, 15, i - 1);
    }
  }

  lemma KeepSignBits(r: Word, i: nat)
    requires i < 16
    ensures Bit(Alu1(6, r), i) == Alu1Bit(6, r, i)
  {
    hide Pow2, Bit;
    Powers();
    var top: int := r / 0x8000;
    BitOfParts(top, r / 2, 15, i);
    BitOfParts(top, r % 0x8000, 15, 15);
    ShiftRightBits(r, i);
  }

  /** The one-operand instructions bit by bit; negation gives what adds up to 0. */
  lemma Alu1Bits(zop: Reg, r: Word, i: nat)
    requires zop < 7 && i < 16
    ensures zop == 1 ==> Add(r, Alu1(zop, r)) == 0
    ensures zop != 1 ==> Bit(Alu1(zop, r), i) == Alu1Bit(zop, r, i)
  {
    hide Pow2, Bit;
    Powers();
    match zop
    case 0 => BitOfComplement(r, 16, i);
    case 1 =>
    case 2 => SwapBits(r, i);
    case 3 => ExtendBits(r, i);
    case 4 => ShiftRightBits(r, i);
    case 5 => ShiftLeftBits(r, i);
    case 6 => KeepSignBits(r, i);
  }
}
