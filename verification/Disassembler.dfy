/** The WUT-4 disassembler: a table-driven pass and a peephole pass. */
module Disassembler {
  import opened Words
  import opened Wrappers
  import Isa
  import opened Assembler

  datatype Shape = RRI | RJX | RRR | RRX | RXX | XXX

  /** A row of the key table: recognise an opcode by its top nbits bits. */
  datatype KeyEntry = Key(name: Mnemonic, nbits: nat, opcode: Word, shape: Shape)

  /** The rows for opcodes 0xFF40 and 0xFF80 misname and misshape y05 and y06. */
  const KEY_TABLE: seq<KeyEntry> := [
    Key(LDW, 3, 0x0000, RRI), Key(LDB, 3, 0x2000, RRI), Key(STW, 3, 0x4000, RRI),
    Key(STB, 3, 0x6000, RRI), Key(BEQ, 3, 0x8000, RRI), Key(ADI, 3, 0xA000, RRI),
    Key(LUI, 3, 0xC000, RJX), Key(JLR, 4, 0xE000, RRI),

    Key(ADD, 7, 0xF000, RRR), Key(ADC, 7, 0xF200, RRR), Key(SUB, 7, 0xF400, RRR),
    Key(SBB, 7, 0xF600, RRR), Key(BIC, 7, 0xF800, RRR), Key(BIS, 7, 0xFA00, RRR),
    Key(XOR, 7, 0xFC00, RRR),

    Key(LSP, 10, 0xFE00, RRX), Key(LIO, 10, 0xFE40, RRX), Key(SSP, 10, 0xFE80, RRX),
    Key(SIO, 10, 0xFEC0, RRX), Key(Y04, 10, 0xFF00, RRX), Key(Y06, 10, 0xFF40, RRX),
    Key(Y06, 10, 0xFF80, XXX),

    Key(NOT, 13, 0xFFC0, RXX), Key(NEG, 13, 0xFFC8, RXX), Key(SXT, 13, 0xFFD0, RXX),
    Key(SWB, 13, 0xFFD8, RXX), Key(LSR, 13, 0xFFE0, RXX), Key(LSL, 13, 0xFFE8, RXX),
    Key(ASR, 13, 0xFFF0, RXX),

    Key(RTI, 16, 0xFFF8, XXX), Key(RTL, 16, 0xFFF9, XXX), Key(DI, 16, 0xFFFA, XXX),
    Key(EI, 16, 0xFFFB, XXX), Key(HLT, 16, 0xFFFC, XXX), Key(BRK, 16, 0xFFFD, XXX),
    Key(V06, 16, 0xFFFE, XXX), Key(DIE, 16, 0xFFFF, XXX)
  ]

  /** The top nbits bits of an opcode, for the widths the table uses. */
  function TopBits(w: Word, nbits: nat): nat {
    match nbits
    case 3 => Isa.BaseOp(w)
    case 4 => Isa.Top4(w)
    case 7 => w / 8 / 8 / 8
    case 10 => w / 8 / 8
    case 13 => w / 8
    case _ => w
  }

  predicate Matches(ke: KeyEntry, w: Word) {
    TopBits(w, ke.nbits) == TopBits(ke.opcode, ke.nbits)
  }

  /** The row that claims an opcode, by the position of its first zero bit group. */
  function Row(w: Word): (k: nat)
    ensures k < 37
  {
    if Isa.BaseOp(w) < 7 then Isa.BaseOp(w)
    else if Isa.Top4(w) == 14 then 7
    else if Isa.FieldX(w) < 7 then 8 + Isa.FieldX(w)
    else if Isa.FieldC(w) < 7 then 15 + Isa.FieldC(w)
    else if Isa.FieldB(w) < 7 then 22 + Isa.FieldB(w)
    else 29 + Isa.FieldA(w)
  }

  /** The number of the lowest opcode in row k. */
  function FirstOpcode(k: nat): nat {
    if k < 8 then k * 8192
    else if k < 15 then 0xF000 + (k - 8) * 512
    else if k < 22 then 0xFE00 + (k - 15) * 64
    else if k < 29 then 0xFFC0 + (k - 22) * 8
    else 0xFFF8 + (k - 29)
  }

  function Width(k: nat): nat {
    if k < 7 then 3 else if k == 7 then 4 else if k < 15 then 7
    else if k < 22 then 10 else if k < 29 then 13 else 16
  }

  /** The table is laid out in the order of the opcodes. */
  lemma TableLayout(k: nat)
    requires k < 37
    ensures |KEY_TABLE| == 37
    ensures KEY_TABLE[k].nbits == Width(k) && KEY_TABLE[k].opcode == FirstOpcode(k)
  {
  }

  /** The top bits that row k looks for. */
  function RowBits(k: nat): nat {
    if k < 7 then k
    else if k == 7 then 14
    else if k < 15 then 120 + (k - 8)
    else if k < 22 then 1016 + (k - 15)
    else if k < 29 then 8184 + (k - 22)
    else 0xFFF8 + (k - 29)
  }

  lemma RowLooksFor(k: nat)
    requires k < 37
    ensures FirstOpcode(k) < WORD_SIZE && TopBits(FirstOpcode(k), Width(k)) == RowBits(k)
  {
  }

  lemma RowFound(w: Word, k: nat)
    requires k < 37
    ensures TopBits(w, Width(k)) == RowBits(k) <==> k == Row(w)
  {
    var x := w / 8 / 8 / 8;
    assert x == 8 * Isa.Top4(w) + Isa.FieldX(w);
    var c := w / 8 / 8;
    assert c == 8 * x + Isa.FieldC(w);
    var b := w / 8;
    assert b == 8 * c + Isa.FieldB(w);
    assert w == 8 * b + Isa.FieldA(w);
  }

  /** Every opcode is claimed by exactly one row. */
  lemma RowMatches(w: Word, k: nat)
    requires k < 37
    ensures |KEY_TABLE| == 37
    ensures Matches(KEY_TABLE[k], w) <==> k == Row(w)
  {
    hide KEY_TABLE;
    TableLayout(k);
    RowLooksFor(k);
    RowFound(w, k);
  }

  /** Comparing the top n bits is comparing under a mask of n high-order ones. */
  lemma TopBitsShift(w: Word, n: nat)
    requires n in {3, 4, 7, 10, 13, 16}
    ensures TopBits(w, n) == w / Pow2(16 - n)
  {
    assert Pow2(0) == 1 && Pow2(3) == 8 && Pow2(6) == 64 && Pow2(9) == 512;
    assert Pow2(12) == 4096 && Pow2(13) == 8192;
  }

  // ---- Pass 1 ----

  /** The text for word w at address `at` under row ke.  Branches show the low
      seven bits of their target. */
  function Render(ke: KeyEntry, w: Word, at: nat): Line {
    var ra, rb, rc := R(Isa.FieldA(w)), R(Isa.FieldB(w)), R(Isa.FieldC(w));
    match ke.shape
    case RRI =>
      Line(ke.name, [ra, rb, I(if Isa.BaseOp(w) == 4 then (Isa.Imm7(w) + at + 1) % 128 else Isa.Imm7(w))])
    case RJX => Line(ke.name, [ra, I(Isa.Imm10(w))])
    case RRR => Line(ke.name, [ra, rb, rc])
    case RRX => Line(ke.name, [ra, rb])
    case RXX => Line(ke.name, [ra])
    case XXX => Line(ke.name, [])
  }

  function Decoded(w: Word, at: nat): Line {
    Render(KEY_TABLE[Row(w)], w, at)
  }

  /** Search the table from the top; the search never fails. */
  method Decode(w: Word, at: nat) returns (l: Line)
    ensures l == Decoded(w, at)
  {
    hide Row, Matches;
    assert |KEY_TABLE| == 37;
    for k := 0 to |KEY_TABLE|
      invariant forall j :: 0 <= j < k ==> !Matches(KEY_TABLE[j], w)
    {
      if Matches(KEY_TABLE[k], w) {
        RowMatches(w, k);
        return Render(KEY_TABLE[k], w, at);
      }
    }
    RowMatches(w, Row(w));
    assert false;
  }

  // ---- Pass 2 ----

  predicate IsLui(w: Word) { Isa.BaseOp(w) == 6 }

  /** adi rX, rX with X not zero */
  predicate IsSelfAdi(w: Word) {
    Isa.BaseOp(w) == 5 && Isa.FieldB(w) == Isa.FieldA(w) && Isa.FieldA(w) != 0
  }

  predicate IsJlr(w: Word) { Isa.Top4(w) == 14 }

  /** The pair of words becomes a single line, hiding the first of them. */
  predicate Fuses(prev: Word, w: Word) {
    && IsLui(prev)
    && ((IsSelfAdi(w) && Isa.Imm7(w) < 64) ||
        (IsJlr(w) && 1 <= Isa.FieldA(w) <= 2 && Isa.FieldB(w) == Isa.FieldA(prev)))
  }

  /** The 16-bit operand a fused pair spells. */
  function FusedImmediate(prev: Word, w: Word): nat {
    Isa.Imm10(prev) * 64 + Isa.Imm7(w)
  }

  function JumpText(m: Mnemonic, prev: Word, w: Word, at: nat): Line {
    var rb, imm := Isa.FieldB(w), Isa.Imm7(w);
    if Fuses(prev, w) then Line(m, [R(rb), I(FusedImmediate(prev, w))])
    else if imm == 0 && rb != 0 then Line(m, [R(rb)])
    else Decoded(w, at)
  }

  /** What the peephole makes of the text of w, given the word before it. */
  function Rewritten(prev: Word, w: Word, at: nat): Line {
    var ra, rb, imm := Isa.FieldA(w), Isa.FieldB(w), Isa.Imm7(w);
    if IsSelfAdi(w) then
      if imm >= 64 then Line(ADI, [R(ra), R(rb), I(imm)])
      else if IsLui(prev) then Line(LDI, [R(ra), I(FusedImmediate(prev, w))])
      else Line(LLI, [R(ra), I(imm)])
    else if IsJlr(w) then
      match ra
      case 0 => if rb != 0 || imm % 2 != 0 then Line(DIE, []) else Line(SYS, [I(imm)])
      case 1 => JumpText(JSR, prev, w, at)
      case 2 => JumpText(JMP, prev, w, at)
      case _ => Line(DIE, [])
    else if w == 0xFFC8 then Line(NOP, [])
    else Decoded(w, at)
  }

  /** The peephole at one position: rewrite its line, perhaps hide the line before. */
  method Condense(at: nat, prev: Word, w: Word, lines: seq<Line>) returns (r: seq<Line>)
    requires at < |lines| && lines[at] == Decoded(w, at) && (at == 0 ==> prev == 0)
    ensures r == (if Fuses(prev, w) then lines[at - 1 := Blank] else lines)[at := Rewritten(prev, w, at)]
    ensures Fuses(prev, w) ==> at > 0
  {
    hide Decoded;
    r := lines;
    var luiSeen := IsLui(prev);
    var ra, rb, imm := Isa.FieldA(w), Isa.FieldB(w), Isa.Imm7(w);
    if Isa.BaseOp(w) == 5 && rb == ra && ra != 0 {
      if imm < 64 {
        if luiSeen {
          r := r[at - 1 := Blank];
          r := r[at := Line(LDI, [R(ra), I(Isa.Imm10(prev) * 64 + imm)])];
        } else {
          r := r[at := Line(LLI, [R(ra), I(imm)])];
        }
      } else {
        r := r[at := Line(ADI, [R(ra), R(rb), I(imm)])];
      }
    } else if Isa.Top4(w) == 14 {
      match ra
      case 0 =>
        if rb != 0 || imm % 2 != 0 {
          r := r[at := Line(DIE, [])];
        } else {
          r := r[at := Line(SYS, [I(imm)])];
        }
      case 1 =>
        if luiSeen && rb == Isa.FieldA(prev) {
          r := r[at - 1 := Blank];
          r := r[at := Line(JSR, [R(rb), I(Isa.Imm10(prev) * 64 + imm)])];
        } else if imm == 0 && rb != 0 {
          r := r[at := Line(JSR, [R(rb)])];
        }
      case 2 =>
        if luiSeen && rb == Isa.FieldA(prev) {
          r := r[at - 1 := Blank];
          r := r[at := Line(JMP, [R(rb), I(Isa.Imm10(prev) * 64 + imm)])];
        } else if imm == 0 && rb != 0 {
          r := r[at := Line(JMP, [R(rb)])];
        }
      case _ =>
        r := r[at := Line(DIE, [])];
    } else if w == 0xFFC8 {
      r := r[at := Line(NOP, [])];
    }
  }

  // ---- The whole listing ----

  const MAX_CODE := 0x10000

  /** The code is what comes before the first zero word, 64k words at most. */
  function CodeLength(ws: seq<Word>): (n: nat)
    ensures n <= |ws| && n <= MAX_CODE
    ensures forall i :: 0 <= i < n ==> ws[i] != 0
    ensures n < |ws| && n < MAX_CODE ==> ws[n] == 0
  {
    CodeLengthFrom(ws, 0)
  }

  function CodeLengthFrom(ws: seq<Word>, i: nat): (n: nat)
    requires i <= |ws| && i <= MAX_CODE && forall j :: 0 <= j < i ==> ws[j] != 0
    ensures i <= n <= |ws| && n <= MAX_CODE
    ensures forall j :: 0 <= j < n ==> ws[j] != 0
    ensures n < |ws| && n < MAX_CODE ==> ws[n] == 0
    decreases |ws| - i
  {
    if i == |ws| || i == MAX_CODE || ws[i] == 0 then i else CodeLengthFrom(ws, i + 1)
  }

  function Before(code: seq<Word>, at: nat): Word
    requires at < |code|
  {
    if at == 0 then 0 else code[at - 1]
  }

  /** The line finally printed for position `at` of the code. */
  function FinalLine(code: seq<Word>, at: nat): Line
    requires at < |code|
  {
    if at + 1 < |code| && Fuses(code[at], code[at + 1]) then Blank
    else Rewritten(Before(code, at), code[at], at)
  }

  /** The line at position k once the peephole has gone over the first `at` positions. */
  function LineSoFar(code: seq<Word>, at: nat, k: nat): Line
    requires at <= |code| && k < |code|
  {
    if k >= at then Decoded(code[k], k)
    else if k + 1 < at && Fuses(code[k], code[k + 1]) then Blank
    else Rewritten(Before(code, k), code[k], k)
  }

  lemma LineFinished(code: seq<Word>, k: nat)
    requires k < |code|
    ensures LineSoFar(code, |code|, k) == FinalLine(code, k)
  {
  }

  /** Going over one more position is what the peephole does there. */
  lemma LineStep(code: seq<Word>, at: nat, lines: seq<Line>, next: seq<Line>)
    requires at < |code| == |lines|
    requires forall k :: 0 <= k < |code| ==> lines[k] == LineSoFar(code, at, k)
    requires Fuses(Before(code, at), code[at]) ==> at > 0
    requires next == (if Fuses(Before(code, at), code[at]) then lines[at - 1 := Blank] else lines)
                     [at := Rewritten(Before(code, at), code[at], at)]
    ensures |next| == |code| && forall k :: 0 <= k < |code| ==> next[k] == LineSoFar(code, at + 1, k)
  {
    hide Fuses, Rewritten, Decoded;
  }

  method Disassemble(ws: seq<Word>) returns (lines: seq<Line>)
    ensures |lines| == CodeLength(ws)
    ensures forall at :: 0 <= at < |lines| ==> lines[at] == FinalLine(ws[..|lines|], at)
  {
    hide Fuses, Rewritten, Decoded;
    lines := [];
    var at := 0;
    while at < |ws| && at < MAX_CODE && ws[at] != 0
      invariant at <= |ws| && at <= MAX_CODE && |lines| == at
      invariant forall k :: 0 <= k < at ==> ws[k] != 0
      invariant forall k :: 0 <= k < at ==> lines[k] == Decoded(ws[k], k)
    {
      var l := Decode(ws[at], at);
      lines := lines + [l];
      at := at + 1;
    }
    ghost var n := CodeLength(ws);
    assert at == n;
    ghost var code := ws[..n];
    var prev: Word := 0;
    at := 0;
    while at < |lines|
      invariant at <= |lines| == n
      invariant prev == if at == 0 then 0 else code[at - 1]
      invariant forall k :: 0 <= k < n ==> lines[k] == LineSoFar(code, at, k)
    {
      ghost var before := lines;
      lines := Condense(at, prev, ws[at], lines);
      LineStep(code, at, before, lines);
      prev := ws[at];
      at := at + 1;
    }
    assert code == ws[..|lines|];
    forall k | 0 <= k < n ensures lines[k] == FinalLine(code, k) {
      LineFinished(code, k);
    }
  }
}
