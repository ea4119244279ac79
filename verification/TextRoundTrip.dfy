/** Disassembling an assembled line gives the line back, in the disassembler's preferred
    spelling. */
module TextRoundTrip {
  import opened Words
  import opened Wrappers
  import Isa
  import opened Assembler
  import opened Disassembler
  import opened RoundTrip

  // ---- The preferred spelling ----

  /** How the disassembler spells a line that assembles to one word: immediates come out
      unsigned, a positive self-adi is an lli and any other lli or lsi an adi, neg r0 is a
      nop, y05 is called y06 and y06 loses its operands. */
  function Preferred(l: Line): Line {
    match l
    case Blank => l
    case Line(m, args) =>
      if |args| == 3 && args[0].R? && args[1].R? && args[2].I? then PreferredRri(m, args[0].r, args[1].r, args[2].v)
      else if |args| == 2 && args[0].R? && args[1].I? then PreferredRi(m, args[0].r, args[1].v)
      else if |args| == 2 && m == Y05 then Line(Y06, args)
      else if |args| == 2 && m == Y06 then Line(Y06, [])
      else if m == NEG && args == [R(0)] then Line(NOP, [])
      else l
  }

  function PreferredRri(m: Mnemonic, ra: Reg, rb: Reg, v: int): Line {
    if m == ADI && ra == rb && ra != 0 && v % 128 < 64 then Line(LLI, [R(ra), I(v % 128)])
    else Line(m, [R(ra), R(rb), I(v % 128)])
  }

  function PreferredRi(m: Mnemonic, r: Reg, v: int): Line {
    if m == LUI then Line(LUI, [R(r), I(v % 1024)])
    else if m == LLI && r != 0 then Line(LLI, [R(r), I(v)])
    else Line(ADI, [R(r), R(0), I(v)])
  }

  // ---- Fields of assembled words ----

  lemma RriAll(op: nat, imm: nat, rb: Reg, ra: Reg)
    requires op < 6 && imm < 128
    ensures var w := Rri(op, imm, rb, ra);
      && Isa.BaseOp(w) == op && Isa.Imm7(w) == imm && Isa.FieldB(w) == rb && Isa.FieldA(w) == ra
      && Row(w) == op && !IsJlr(w) && w != 0xFFC8
  {
    hide Isa.FieldA, Isa.FieldB, Isa.FieldC, Isa.FieldX, Isa.Top4;
    Isa.DigitsUnique(Rri(op, imm, rb, ra), ra, rb, imm % 8, imm / 8 % 8, 2 * op + imm / 8 / 8);
  }

  lemma UpperAll(imm: nat, ra: Reg)
    requires imm < 1024
    ensures var w := Upper(imm, ra);
      Isa.BaseOp(w) == 6 && Isa.Imm10(w) == imm && Isa.FieldA(w) == ra && Row(w) == 6 && !IsJlr(w) && w != 0xFFC8
  {
    hide Isa.FieldA, Isa.FieldB, Isa.FieldC, Isa.FieldX, Isa.Top4;
    Isa.DigitsUnique(Upper(imm, ra), ra, imm % 8, imm / 8 % 8, imm / 8 / 8 % 8, 12 + imm / 8 / 8 / 8);
  }

  lemma RrrAll(xop: Reg, rc: Reg, rb: Reg, ra: Reg)
    ensures var w := Rrr(xop, rc, rb, ra);
      && Isa.FieldX(w) == xop && Isa.FieldC(w) == rc && Isa.FieldB(w) == rb && Isa.FieldA(w) == ra
      && !IsJlr(w) && !IsSelfAdi(w) && Isa.Top4(w) == 15
      && (w == 0xFFC8 <==> xop == 7 && rc == 7 && rb == 1 && ra == 0)
      && Row(w) == if xop < 7 then 8 + xop else if rc < 7 then 15 + rc else if rb < 7 then 22 + rb else 29 + ra
  {
    hide Isa.FieldA, Isa.FieldB, Isa.FieldC, Isa.FieldX, Isa.Top4;
    Isa.DigitsUnique(Rrr(xop, rc, rb, ra), ra, rb, rc, xop, 15);
  }

  // ---- Names are unique ----

  lemma RriAgree(m: Mnemonic, n: Mnemonic)
    requires RriOp(m).Some? && RriOp(m) == RriOp(n)
    ensures m == n
  {
  }

  lemma XopAgree(m: Mnemonic, n: Mnemonic)
    requires XopOf(m).Some? && XopOf(m) == XopOf(n)
    ensures m == n
  {
  }

  lemma YopAgree(m: Mnemonic, n: Mnemonic)
    requires YopOf(m).Some? && YopOf(m) == YopOf(n)
    ensures m == n
  {
  }

  lemma ZopAgree(m: Mnemonic, n: Mnemonic)
    requires ZopOf(m).Some? && ZopOf(m) == ZopOf(n)
    ensures m == n
  {
  }

  lemma VopAgree(m: Mnemonic, n: Mnemonic)
    requires VopOf(m).Some? && VopOf(m) == VopOf(n)
    ensures m == n
  {
  }

  // ---- Lines that assemble to one word ----

  lemma RriText(prev: Word, m: Mnemonic, ra: Reg, rb: Reg, v: int, at: nat)
    requires RuleRRI(m, ra, rb, v, at).Some? && |RuleRRI(m, ra, rb, v, at).value| == 1
    requires !IsLui(prev)
    ensures Rewritten(prev, RuleRRI(m, ra, rb, v, at).value[0], at) == PreferredRri(m, ra, rb, v)
  {
    hide KEY_TABLE, Rri, Isa.FieldA, Isa.FieldB, Isa.BaseOp, Isa.Imm7, IsJlr, Row;
    if m == BEQ {
      var imm := (v - at - 1) % 128;
      RriAll(4, imm, rb, ra);
      BaseNames(4);
      BackToTarget(v, at);
    } else {
      var op := RriOp(m).value;
      RriAll(op, v % 128, rb, ra);
      BaseNames(op);
      RriAgree(m, KEY_TABLE[op].name);
    }
  }

  lemma BackToTarget(v: int, at: int)
    ensures ((v - at - 1) % 128 + at + 1) % 128 == v % 128
  {
    var q := (v - at - 1) / 128;
    assert (v - at - 1) % 128 + at + 1 == v - 128 * q;
  }

  lemma RiText(prev: Word, m: Mnemonic, r: Reg, v: int, at: nat)
    requires RuleRI(m, r, v).Some? && |RuleRI(m, r, v).value| == 1 && !IsLui(prev)
    ensures Rewritten(prev, RuleRI(m, r, v).value[0], at) == PreferredRi(m, r, v)
  {
    hide KEY_TABLE, Rri, Upper, Isa.FieldA, Isa.FieldB, Isa.BaseOp, Isa.Imm7, Isa.Imm10, IsJlr, Row;
    if m == LUI {
      UpperAll(v % 1024, r);
      BaseNames(6);
    } else {
      RriAll(5, v, if m == LLI then r else 0, r);
      BaseNames(5);
      RriAgree(ADI, KEY_TABLE[5].name);
    }
  }

  lemma RrrText(prev: Word, m: Mnemonic, ra: Reg, rb: Reg, rc: Reg, at: nat)
    requires XopOf(m).Some?
    ensures Rewritten(prev, Rrr(XopOf(m).value, rc, rb, ra), at) == Line(m, [R(ra), R(rb), R(rc)])
  {
    hide KEY_TABLE, Rrr, Isa.FieldA, Isa.FieldB, Isa.FieldC, IsJlr, IsSelfAdi, Row;
    var x := XopOf(m).value;
    RrrAll(x, rc, rb, ra);
    XopNames(8 + x);
    XopAgree(m, KEY_TABLE[8 + x].name);
  }

  lemma RrText(prev: Word, m: Mnemonic, ra: Reg, rb: Reg, at: nat)
    requires YopOf(m).Some?
    ensures Rewritten(prev, Rr(YopOf(m).value, rb, ra), at) == Preferred(Line(m, [R(ra), R(rb)]))
  {
    hide KEY_TABLE, Rrr, Isa.FieldA, Isa.FieldB, Isa.FieldC, IsJlr, IsSelfAdi, Row, YopOf;
    var y := YopOf(m).value;
    YopValue(m);
    RrrAll(7, y, rb, ra);
    YopNames(15 + y);
    YopAgree(if m == Y05 then Y06 else m, KEY_TABLE[15 + y].name);
  }

  lemma YopValue(m: Mnemonic)
    requires YopOf(m).Some?
    ensures YopOf(m).value < 7 && YopOf(Y06) == Some(6)
    ensures (YopOf(m).value == 5 <==> m == Y05) && (YopOf(m).value == 6 <==> m == Y06)
    ensures m != NEG
  {
  }

  lemma R1Text(prev: Word, m: Mnemonic, ra: Reg, at: nat)
    requires ZopOf(m).Some?
    ensures Rewritten(prev, R1(ZopOf(m).value, ra), at) == Preferred(Line(m, [R(ra)]))
  {
    hide KEY_TABLE, Rrr, Isa.FieldA, Isa.FieldB, Isa.FieldC, IsJlr, IsSelfAdi, Row;
    var z := ZopOf(m).value;
    RrrAll(7, 7, z, ra);
    ZopNames(22 + z);
    ZopAgree(m, KEY_TABLE[22 + z].name);
  }

  lemma R0Text(prev: Word, m: Mnemonic, at: nat)
    requires VopOf(m).Some?
    ensures Rewritten(prev, R0(VopOf(m).value), at) == Line(m, [])
  {
    hide KEY_TABLE, Rrr, Isa.FieldA, Isa.FieldB, Isa.FieldC, IsJlr, IsSelfAdi, Row;
    var v := VopOf(m).value;
    RrrAll(7, 7, 7, v);
    VopNames(29 + v);
    VopAgree(m, KEY_TABLE[29 + v].name);
  }

  lemma JlrText(prev: Word, imm: nat, rb: Reg, f: Reg, at: nat)
    requires imm < 64 && !IsLui(prev)
    ensures f == 0 && rb == 0 && imm % 2 == 0 ==> Rewritten(prev, Jlr(imm, rb, f), at) == Line(SYS, [I(imm)])
    ensures f == 1 && rb != 0 && imm == 0 ==> Rewritten(prev, Jlr(imm, rb, f), at) == Line(JSR, [R(rb)])
    ensures f == 2 && rb != 0 && imm == 0 ==> Rewritten(prev, Jlr(imm, rb, f), at) == Line(JMP, [R(rb)])
  {
    hide Decoded, Jlr, Isa.FieldA, Isa.FieldB, Isa.Imm7, IsJlr;
    JlrFields(imm, rb, f);
    NotSelfAdi(Jlr(imm, rb, f));
  }

  /** jlr words that no line spells: the illegal ones are printed as die, and jumps with an
      offset of their own as jlr, which does not assemble. */
  lemma UnspelledText(prev: Word, imm: nat, rb: Reg, f: Reg, at: nat)
    requires imm < 64 && !Fuses(prev, Jlr(imm, rb, f))
    ensures f > 2 || (f == 0 && (rb != 0 || imm % 2 == 1)) ==>
      Rewritten(prev, Jlr(imm, rb, f), at) == Line(DIE, [])
    ensures (f == 1 || f == 2) && (imm != 0 || rb == 0) ==>
      Rewritten(prev, Jlr(imm, rb, f), at) == Line(JLR, [R(f), R(rb), I(imm)])
  {
    hide KEY_TABLE, Jlr, Fuses, Isa.FieldA, Isa.FieldB, Isa.BaseOp, Isa.Imm7, IsJlr, Row;
    var w := Jlr(imm, rb, f);
    JlrFields(imm, rb, f);
    NotSelfAdi(w);
    JlrRow(w);
    BaseNames(7);
  }

  lemma JlrRow(w: Word)
    requires IsJlr(w)
    ensures Row(w) == 7 && Isa.BaseOp(w) == 7
  {
  }

  lemma NotSelfAdi(w: Word)
    ensures IsJlr(w) ==> !IsSelfAdi(w)
  {
  }

  lemma NopText(prev: Word, at: nat)
    ensures Rewritten(prev, R1(1, 0), at) == Line(NOP, [])
  {
    R1Text(prev, NEG, 0, at);
  }

  /** A line that assembles to one word, standing after anything but a lui, is printed as
      it was written, in the preferred spelling. */
  lemma LineText(prev: Word, l: Line, at: nat)
    requires AssembleLine(l, at).Some? && |AssembleLine(l, at).value| == 1 && !IsLui(prev)
    ensures Rewritten(prev, AssembleLine(l, at).value[0], at) == Preferred(l)
  {
    hide Rewritten, RuleRRI, RuleRI, PreferredRri, PreferredRi, XopOf, YopOf, ZopOf, VopOf, IsLui;
    hide Jlr, Rrr, Rri, Upper;
    var m, args := l.name, l.args;
    if |args| == 0 {
      assert args == [];
      if VopOf(m).Some? { R0Text(prev, m, at); } else { NopText(prev, at); NoVop(); }
    } else if |args| == 1 && args[0].I? {
      assert args == [I(args[0].v)];
      JlrText(prev, args[0].v, 0, 0, at);
    } else if |args| == 1 {
      assert args == [R(args[0].r)];
      if ZopOf(m).Some? { R1Text(prev, m, args[0].r, at); }
      else { NoZop(); JlrText(prev, 0, args[0].r, if m == JSR then 1 else 2, at); }
    } else if |args| == 2 && args[1].I? {
      RiText(prev, m, args[0].r, args[1].v, at);
    } else if |args| == 2 {
      assert args == [R(args[0].r), R(args[1].r)];
      RrText(prev, m, args[0].r, args[1].r, at);
    } else if args[2].R? {
      assert args == [R(args[0].r), R(args[1].r), R(args[2].r)];
      RrrText(prev, m, args[0].r, args[1].r, args[2].r, at);
    } else {
      RriText(prev, m, args[0].r, args[1].r, args[2].v, at);
    }
  }

  lemma NoVop()
    ensures VopOf(NOP).None?
  {
  }

  lemma NoZop()
    ensures ZopOf(JSR).None? && ZopOf(JMP).None?
  {
  }

  // ---- Pairs ----

  /** An ldi, or a jsr or jmp to a target, is printed as one line in the place of its
      second word, wherever it stands. */
  lemma PairText(m: Mnemonic, r: Reg, v: int, at: nat)
    requires m in {LDI, JSR, JMP} && r != 0 && RuleRI(m, r, v).Some?
    ensures var ws := RuleRI(m, r, v).value;
      && |ws| == 2 && Fuses(ws[0], ws[1])
      && Rewritten(ws[0], ws[1], at) == Line(m, [R(r), I(v)])
  {
    hide Decoded, Rri, Upper, Jlr, Isa.FieldA, Isa.FieldB, Isa.BaseOp, Isa.Imm7, Isa.Imm10, IsJlr, Row;
    UpperAll(v / 64, r);
    if m == LDI {
      RriAll(5, v % 64, r, r);
    } else {
      var f := if m == JSR then 1 else 2;
      JlrFields(v % 64, r, f);
      NotSelfAdi(Jlr(v % 64, r, f));
    }
    assert v / 64 * 64 + v % 64 == v;
  }
}
