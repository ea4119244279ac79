/** The WUT-4 assembler's rules, from a line of assembly text to instruction words.

    A line of text is a mnemonic and its operands; how numbers are written is not
    modelled. */
module Assembler {
  import opened Words
  import opened Wrappers

  datatype Mnemonic =
    | LDW | LDB | STW | STB | BEQ | ADI | LUI | JLR
    | ADD | ADC | SUB | SBB | BIC | BIS | XOR
    | LSP | LIO | SSP | SIO | Y04 | Y05 | Y06
    | NOT | NEG | SXT | SWB | LSR | LSL | ASR
    | RTI | RTL | DI | EI | HLT | BRK | V06 | DIE
    | LLI | LDI | LSI | NOP | SYS | JSR | JMP | IOR | IOW | SRR | SRW

  datatype Operand = R(r: Reg) | I(v: int)

  datatype Line = Blank | Line(name: Mnemonic, args: seq<Operand>)

  type Code = Option<seq<Word>>

  // ---- Instruction formats ----

  function Rri(op: nat, imm: nat, rb: Reg, ra: Reg): Word
    requires op < 8 && imm < 128
  {
    op * 8192 + imm * 64 + rb * 8 + ra
  }

  function Upper(imm: nat, ra: Reg): Word
    requires imm < 1024
  {
    6 * 8192 + imm * 8 + ra
  }

  /** jlr, which no rule spells directly; the rA field selects its flavour. */
  function Jlr(imm: nat, rb: Reg, flavour: Reg): Word
    requires imm < 64
  {
    14 * 4096 + imm * 64 + rb * 8 + flavour
  }

  function Rrr(xop: Reg, rc: Reg, rb: Reg, ra: Reg): Word {
    15 * 4096 + xop * 512 + rc * 64 + rb * 8 + ra
  }

  function Rr(yop: Reg, rb: Reg, ra: Reg): Word {
    Rrr(7, yop, rb, ra)
  }

  function R1(zop: Reg, ra: Reg): Word {
    Rrr(7, 7, zop, ra)
  }

  function R0(vop: Reg): Word {
    Rrr(7, 7, 7, vop)
  }

  // ---- Opcode numbers of the regular mnemonics ----

  function RriOp(m: Mnemonic): Option<nat> {
    match m
    case LDW => Some(0) case LDB => Some(1) case STW => Some(2) case STB => Some(3)
    case ADI => Some(5)
    case _ => None
  }

  function XopOf(m: Mnemonic): Option<nat> {
    match m
    case ADD => Some(0) case ADC => Some(1) case SUB => Some(2) case SBB => Some(3)
    case BIC => Some(4) case BIS => Some(5) case XOR => Some(6)
    case _ => None
  }

  function YopOf(m: Mnemonic): Option<nat> {
    match m
    case LSP => Some(0) case LIO => Some(1) case SSP => Some(2) case SIO => Some(3)
    case Y04 => Some(4) case Y05 => Some(5) case Y06 => Some(6)
    case _ => None
  }

  function ZopOf(m: Mnemonic): Option<nat> {
    match m
    case NOT => Some(0) case NEG => Some(1) case SXT => Some(2) case SWB => Some(3)
    case LSR => Some(4) case LSL => Some(5) case ASR => Some(6)
    case _ => None
  }

  function VopOf(m: Mnemonic): Option<nat> {
    match m
    case RTI => Some(0) case RTL => Some(1) case DI => Some(2) case EI => Some(3)
    case HLT => Some(4) case BRK => Some(5) case V06 => Some(6) case DIE => Some(7)
    case _ => None
  }

  // ---- Rules, by operand shape ----

  /** A mnemonic alone. */
  function Rule0(m: Mnemonic): Code {
    if VopOf(m).Some? then Some([R0(VopOf(m).value)])
    else if m == NOP then Some([R1(1, 0)])
    else None
  }

  /** Mnemonic and immediate: sys, whose argument is even and below 64. */
  function RuleI(m: Mnemonic, v: int): Code {
    if m == SYS && 0 <= v < 64 && v % 2 == 0 then Some([Jlr(v, 0, 0)]) else None
  }

  /** Mnemonic and register; computed jumps do not take r0. */
  function RuleR(m: Mnemonic, r: Reg): Code {
    if ZopOf(m).Some? then Some([R1(ZopOf(m).value, r)])
    else if m == JSR && r != 0 then Some([Jlr(0, r, 1)])
    else if m == JMP && r != 0 then Some([Jlr(0, r, 2)])
    else None
  }

  /** Mnemonic, register, immediate. */
  function RuleRI(m: Mnemonic, r: Reg, v: int): Code {
    match m
    case LUI => if -512 <= v < 1024 then Some([Upper(v % 1024, r)]) else None
    case LLI => if 0 <= v < 64 then Some([Rri(5, v, r, r)]) else None
    case LSI => if 0 <= v < 64 then Some([Rri(5, v, 0, r)]) else None
    case LDI =>
      if 0 <= v < WORD_SIZE then Some([Upper(v / 64, r), Rri(5, v % 64, r, r)]) else None
    case JSR =>
      if r != 0 && 0 <= v < WORD_SIZE then Some([Upper(v / 64, r), Jlr(v % 64, r, 1)]) else None
    case JMP =>
      if r != 0 && 0 <= v < WORD_SIZE then Some([Upper(v / 64, r), Jlr(v % 64, r, 2)]) else None
    case _ => None
  }

  function RuleRR(m: Mnemonic, ra: Reg, rb: Reg): Code {
    if YopOf(m).Some? then Some([Rr(YopOf(m).value, rb, ra)]) else None
  }

  function RuleRRR(m: Mnemonic, ra: Reg, rb: Reg, rc: Reg): Code {
    if XopOf(m).Some? then Some([Rrr(XopOf(m).value, rc, rb, ra)]) else None
  }

  /** Mnemonic, two registers, immediate.  A branch names its target address. */
  function RuleRRI(m: Mnemonic, ra: Reg, rb: Reg, v: int, at: nat): Code {
    if RriOp(m).Some? then
      if -64 <= v < 128 then Some([Rri(RriOp(m).value, v % 128, rb, ra)]) else None
    else if m == BEQ then
      if -0x8000 <= v < 0x10000 then Some([Rri(4, (v - at - 1) % 128, rb, ra)]) else None
    else match m
      case IOR => if 0 <= v < 64 then Some([Rri(5, v, rb, rb), Rr(1, rb, ra)]) else None
      case IOW => if 0 <= v < 64 then Some([Rri(5, v, rb, rb), Rr(3, rb, ra)]) else None
      case SRR => if 0 <= v < 64 then Some([Rri(5, v, rb, rb), Rr(0, rb, ra)]) else None
      case SRW => if 0 <= v < 64 then Some([Rri(5, v, rb, rb), Rr(2, rb, ra)]) else None
      case _ => None
  }

  /** The words for one line placed at address `at`; None if no rule accepts it. */
  function AssembleLine(l: Line, at: nat): Code {
    match l
    case Blank => Some([])
    case Line(m, args) =>
      var n := |args|;
      if n == 0 then Rule0(m)
      else if n == 1 && args[0].I? then RuleI(m, args[0].v)
      else if n == 1 then RuleR(m, args[0].r)
      else if n == 2 && args[0].R? && args[1].I? then RuleRI(m, args[0].r, args[1].v)
      else if n == 2 && args[0].R? && args[1].R? then RuleRR(m, args[0].r, args[1].r)
      else if n == 3 && args[0].R? && args[1].R? && args[2].R? then
        RuleRRR(m, args[0].r, args[1].r, args[2].r)
      else if n == 3 && args[0].R? && args[1].R? && args[2].I? then
        RuleRRI(m, args[0].r, args[1].r, args[2].v, at)
      else None
  }

  // Each operand shape has its own rules.

  lemma Shape0(m: Mnemonic, at: nat)
    ensures AssembleLine(Line(m, []), at) == Rule0(m)
  {
  }

  lemma ShapeI(m: Mnemonic, v: int, at: nat)
    ensures AssembleLine(Line(m, [I(v)]), at) == RuleI(m, v)
  {
  }

  lemma ShapeR(m: Mnemonic, r: Reg, at: nat)
    ensures AssembleLine(Line(m, [R(r)]), at) == RuleR(m, r)
  {
  }

  lemma ShapeRI(m: Mnemonic, r: Reg, v: int, at: nat)
    ensures AssembleLine(Line(m, [R(r), I(v)]), at) == RuleRI(m, r, v)
  {
  }

  lemma ShapeRR(m: Mnemonic, r: Reg, s: Reg, at: nat)
    ensures AssembleLine(Line(m, [R(r), R(s)]), at) == RuleRR(m, r, s)
  {
  }

  lemma ShapeRRR(m: Mnemonic, r: Reg, s: Reg, t: Reg, at: nat)
    ensures AssembleLine(Line(m, [R(r), R(s), R(t)]), at) == RuleRRR(m, r, s, t)
  {
  }

  lemma ShapeRRI(m: Mnemonic, r: Reg, s: Reg, v: int, at: nat)
    ensures AssembleLine(Line(m, [R(r), R(s), I(v)]), at) == RuleRRI(m, r, s, v, at)
  {
  }

  /** Assemble lines one after another, the first at address `at`. */
  function Assemble(lines: seq<Line>, at: nat): Code
    decreases |lines|
  {
    if lines == [] then Some([])
    else
      match AssembleLine(lines[0], at)
      case None => None
      case Some(ws) =>
        match Assemble(lines[1..], at + |ws|)
        case None => None
        case Some(rest) => Some(ws + rest)
  }

  // ---- Negative six-bit immediates ----

  /** The words of an alias with a six-bit immediate, when that is encoded as imm. */
  function SixBitAlias(m: Mnemonic, args: seq<Operand>, imm: nat): Code
    requires imm < 128
  {
    if |args| == 2 && args[0].R? && args[1].I? then
      match m
      case LLI => Some([Rri(5, imm, args[0].r, args[0].r)])
      case LSI => Some([Rri(5, imm, 0, args[0].r)])
      case _ => None
    else if |args| == 3 && args[0].R? && args[1].R? && args[2].I? then
      var ra, rb := args[0].r, args[1].r;
      match m
      case IOR => Some([Rri(5, imm, rb, rb), Rr(1, rb, ra)])
      case IOW => Some([Rri(5, imm, rb, rb), Rr(3, rb, ra)])
      case SRR => Some([Rri(5, imm, rb, rb), Rr(0, rb, ra)])
      case SRW => Some([Rri(5, imm, rb, rb), Rr(2, rb, ra)])
      case _ => None
    else None
  }

  /** The last operand is a negative six-bit immediate. */
  predicate EndsNegative(args: seq<Operand>) {
    args != [] && args[|args| - 1].I? && -32 <= args[|args| - 1].v < 0
  }

  /** What a line may assemble to.  The rules say nothing of how a negative six-bit
      immediate fills its seven bits, so here it may fill them in any way. */
  ghost predicate Emits(l: Line, at: nat, ws: seq<Word>) {
    || AssembleLine(l, at) == Some(ws)
    || (l.Line? && EndsNegative(l.args) &&
        exists imm: nat :: imm < 128 && SixBitAlias(l.name, l.args, imm) == Some(ws))
  }

  ghost predicate EmitsAll(lines: seq<Line>, at: nat, ws: seq<Word>)
    decreases |lines|
  {
    if lines == [] then ws == []
    else exists n :: 0 <= n <= |ws| && Emits(lines[0], at, ws[..n]) && EmitsAll(lines[1..], at + n, ws[n..])
  }

  lemma {:induction false} AssembledIsEmitted(lines: seq<Line>, at: nat)
    ensures Assemble(lines, at).Some? ==> EmitsAll(lines, at, Assemble(lines, at).value)
    decreases |lines|
  {
    hide AssembleLine, SixBitAlias;
    if lines != [] && Assemble(lines, at).Some? {
      var ws, first := Assemble(lines, at).value, AssembleLine(lines[0], at).value;
      AssembledIsEmitted(lines[1..], at + |first|);
      assert ws[..|first|] == first && ws[|first|..] == Assemble(lines[1..], at + |first|).value;
    }
  }

  // ---- Programs ----

  /** The code bank: addresses from 0 up to, not including, its end address. */
  const BANK_SIZE := 0xFFFF

  /** A whole program, which must fit in the code bank. */
  function AssembleProgram(lines: seq<Line>): (c: Code)
    ensures c.Some? ==> |c.value| <= BANK_SIZE
  {
    match Assemble(lines, 0)
    case None => None
    case Some(ws) => if |ws| <= BANK_SIZE then Some(ws) else None
  }
}
