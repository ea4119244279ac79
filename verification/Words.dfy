/** The 16-bit words of the WUT-4 and the operations its ALU performs on them.

    Words are integers below 2^16.  A shift by a constant is a division or a
    multiplication, a mask of low bits is a remainder, and every sum wraps
    explicitly.  */
module Words {

  const WORD_SIZE := 0x10000

  type Word = x: int | 0 <= x < WORD_SIZE
  type Byte = x: int | 0 <= x < 256
  type Reg = x: int | 0 <= x < 8

  function Add(a: int, b: int): Word {
    (a + b) % WORD_SIZE
  }

  function Sub(a: int, b: int): Word {
    (a - b) % WORD_SIZE
  }

  /** Bit i of a word, 0 being the least significant. */
  function Bit(w: nat, i: nat): bool {
    if i == 0 then w % 2 == 1 else Bit(w / 2, i - 1)
  }

  datatype BitOp = AndNot | Or | Xor

  function OneBit(op: BitOp, a: bool, b: bool): bool {
    match op
    case AndNot => a && !b
    case Or => a || b
    case Xor => a != b
  }

  /** The low n bits of a op b, computed one bit at a time. */
  function Bitwise(op: BitOp, a: nat, b: nat, n: nat): (r: nat) {
    if n == 0 then 0
    else
      2 * Bitwise(op, a / 2, b / 2, n - 1) +
      (if OneBit(op, a % 2 == 1, b % 2 == 1) then 1 else 0)
  }

  function Pow2(n: nat): (r: nat)
    ensures r >= 1
  {
    if n == 0 then 1 else 2 * Pow2(n - 1)
  }

  lemma BitOfSum(high: nat, low: bool, i: nat)
    ensures Bit(2 * high + (if low then 1 else 0), i) == if i == 0 then low else Bit(high, i - 1)
  {
    assert (2 * high + (if low then 1 else 0)) / 2 == high;
  }

  /** The bits of a number made of a high and a low part. */
  lemma {:induction false} BitOfParts(high: nat, low: nat, k: nat, i: nat)
    requires low < Pow2(k)
    ensures Bit(high * Pow2(k) + low, i) == if i < k then Bit(low, i) else Bit(high, i - k)
    decreases k
  {
    if k > 0 {
      var w, bit := high * Pow2(k) + low, low % 2 == 1;
      var upper := high * Pow2(k - 1) + low / 2;
      HalfOfParts(high, low, Pow2(k - 1));
      BitOfSum(upper, bit, i);
      BitOfSum(low / 2, bit, i);
      BitOfParts(high, low / 2, k - 1, if i == 0 then 0 else i - 1);
    }
  }

  lemma HalfOfParts(high: nat, low: nat, p: nat)
    ensures high * (2 * p) + low == 2 * (high * p + low / 2) + low % 2
  {
  }

  lemma {:induction false} BitOfZero(i: nat)
    ensures !Bit(0, i)
  {
    if i > 0 {
      BitOfZero(i - 1);
    }
  }

  /** All ones, and the complement taken from them. */
  lemma {:induction false} BitOfComplement(w: nat, n: nat, i: nat)
    requires w < Pow2(n) && i < n
    ensures Bit(Pow2(n) - 1 - w, i) == !Bit(w, i)
  {
    var low := w % 2 == 1;
    BitOfSum(Pow2(n - 1) - 1 - w / 2, !low, i);
    if i > 0 {
      BitOfComplement(w / 2, n - 1, i - 1);
    }
  }

  /** Bitwise computes exactly the requested boolean in each of its n bits. */
  lemma {:induction false} BitwiseBit(op: BitOp, a: nat, b: nat, n: nat, i: nat)
    ensures Bitwise(op, a, b, n) < Pow2(n)
    ensures i < n ==> Bit(Bitwise(op, a, b, n), i) == OneBit(op, Bit(a, i), Bit(b, i))
  {
    if n > 0 {
      BitwiseBit(op, a / 2, b / 2, n - 1, if i == 0 then 0 else i - 1);
      var high, low := Bitwise(op, a / 2, b / 2, n - 1), OneBit(op, a % 2 == 1, b % 2 == 1);
      BitOfSum(high, low, i);
    }
  }

  function Bitwise16(op: BitOp, a: Word, b: Word): Word {
    BitwiseBit(op, a, b, 16, 0);
    assert Pow2(4) == 16 && Pow2(8) == 256 && Pow2(12) == 4096 && Pow2(16) == 0x10000;
    Bitwise(op, a, b, 16)
  }
}
