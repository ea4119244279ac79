/** The machine decodes what the assembler encodes. */
module Encoding {
  import opened Words
  import opened Wrappers
  import opened Isa
  import A = Assembler

  // ---- Formats ----

  /** The all-zero word is not the load that its fields spell. */
  lemma RriDecodes(op: nat, imm: nat, rb: Reg, ra: Reg)
    requires op < 6 && imm < 128
    ensures Decode(A.Rri(op, imm, rb, ra)) ==
      if op == 0 && imm == 0 && rb == 0 && ra == 0 then Zero
      else if op < 4 then Mem([Ldw, Ldb, Stw, Stb][op], ra, rb, SignExtend7(imm))
      else if op == 4 then Beq(ra, rb, SignExtend7(imm))
      else Adi(ra, rb, SignExtend7(imm))
  {
    hide FieldA, FieldB, FieldC, FieldX, Top4;
    DigitsUnique(A.Rri(op, imm, rb, ra), ra, rb, imm % 8, imm / 8 % 8, 2 * op + imm / 8 / 8);
  }

  lemma UpperDecodes(imm: nat, ra: Reg)
    requires imm < 1024
    ensures Decode(A.Upper(imm, ra)) == Lui(ra, imm * 64)
  {
    hide FieldA, FieldB, FieldC, FieldX, Top4;
    DigitsUnique(A.Upper(imm, ra), ra, imm % 8, imm / 8 % 8, imm / 8 / 8 % 8, 12 + imm / 8 / 8 / 8);
  }

  lemma JlrDecodes(imm: nat, rb: Reg, flavour: Reg)
    requires imm < 64
    ensures Decode(A.Jlr(imm, rb, flavour)) == Jlr(flavour, rb, imm)
  {
    hide FieldA, FieldB, FieldC, FieldX, Top4;
    DigitsUnique(A.Jlr(imm, rb, flavour), flavour, rb, imm % 8, imm / 8, 14);
  }

  lemma RrrDecodes(xop: Reg, rc: Reg, rb: Reg, ra: Reg)
    requires xop < 7
    ensures Decode(A.Rrr(xop, rc, rb, ra)) == Xop(xop, ra, rb, rc)
  {
    hide FieldA, FieldB, FieldC, FieldX, Top4;
    DigitsUnique(A.Rrr(xop, rc, rb, ra), ra, rb, rc, xop, 15);
  }

  lemma RrDecodes(yop: Reg, rb: Reg, ra: Reg)
    requires yop < 7
    ensures Decode(A.Rr(yop, rb, ra)) == Yop(yop, ra, rb)
  {
    hide FieldA, FieldB, FieldC, FieldX, Top4;
    DigitsUnique(A.Rr(yop, rb, ra), ra, rb, yop, 7, 15);
  }

  lemma R1Decodes(zop: Reg, ra: Reg)
    requires zop < 7
    ensures Decode(A.R1(zop, ra)) == Zop(zop, ra)
  {
    hide FieldA, FieldB, FieldC, FieldX, Top4;
    DigitsUnique(A.R1(zop, ra), ra, zop, 7, 7, 15);
  }

  lemma R0Decodes(vop: Reg)
    ensures Decode(A.R0(vop)) == Vop(vop)
  {
    hide FieldA, FieldB, FieldC, FieldX, Top4;
    DigitsUnique(A.R0(vop), vop, 7, 7, 7, 15);
  }

  // ---- Lines ----

  /** The line stands at the program counter, assembled there and mapped, and no exception
      is pending. */
  ghost predicate Runs(s: State, l: A.Line) {
    s.ex == 0 && FetchAt(s).Fetch? && A.AssembleLine(l, s.pc) == Some([FetchAt(s).w])
  }

  lemma RunsStep(s: State, l: A.Line, i: Instr)
    requires Runs(s, l) && Decode(FetchAt(s).w) == i
    ensures Step(s) == Exec(Advance(s), i)
  {
    hide Exec, Decode, FetchAt, A.AssembleLine;
  }

  /** A seven-bit immediate as the assembler accepts it, read with its sign. */
  function Signed(v: int): int
    requires -64 <= v < 128
  {
    if v < 64 then v else v - 128
  }

  lemma ImmediateRead(v: int)
    requires -64 <= v < 128
    ensures SignExtend7(v % 128) == Signed(v) % 0x10000
  {
  }
}
