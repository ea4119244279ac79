/** The WUT-4 instruction set, one instruction at a time.

    This is the meaning that the five-stage emulator is proved to implement:
    `Step` executes one whole machine cycle in a single transition, with no
    pipeline registers.  */
module Isa {
  import opened Words

  const PHYS_MEM_SIZE := 6 * 64 * 1024
  const SPR_SIZE := 64
  const CYC_SIZE := 0x1_0000_0000_0000_0000

  // Special registers.
  const PC := 0
  const LINK := 1
  const IRR := 2
  const ICR := 3
  const IMR := 4
  const CCLS := 6
  const CCMS := 7
  const MMU_CTL1 := 8

  // Exceptions.
  const EX_ILLEGAL: Word := 16
  const EX_MEMORY: Word := 18

  datatype Mode = Kern | User

  function ModeNumber(m: Mode): Word {
    if m == Kern then 0 else 1
  }

  type GenFile = g: seq<Word> | |g| == 8 witness seq(8, i => 0)
  type SprFile = g: seq<Word> | |g| == SPR_SIZE witness seq(SPR_SIZE, i => 0)
  type Memory = g: seq<Word> | |g| == PHYS_MEM_SIZE witness seq(PHYS_MEM_SIZE, i => 0)

  /** Everything that survives from one cycle to the next. */
  datatype State = State(
    cyc: nat,
    kgen: GenFile, kspr: SprFile,
    ugen: GenFile, uspr: SprFile,
    mem: Memory,
    pc: Word, run: bool, en: bool, mode: Mode, ex: Word, hc: Word)
  {
    function Gen(): GenFile {
      if mode == Kern then kgen else ugen
    }

    function Spr(): SprFile {
      if mode == Kern then kspr else uspr
    }

    /** Write a general register; r0 swallows what is written to it. */
    function SetGen(r: Reg, v: Word): State {
      if r == 0 then this
      else if mode == Kern then this.(kgen := kgen[r := v])
      else this.(ugen := ugen[r := v])
    }

    function SetLink(v: Word): State {
      if mode == Kern then this.(kspr := kspr[LINK := v])
      else this.(uspr := uspr[LINK := v])
    }

    function Raise(e: Word): Outcome {
      Next(this.(ex := e))
    }
  }

  /** Ways in which the emulator itself dies, as opposed to the program it runs. */
  datatype Death =
    | DoubleFaultInFetch   // an exception was pending with exceptions disabled
    | BeyondMemory         // the word just past the end of physical memory
    | MissingSpr           // a kernel read of special register 24 or 26..30
    | BadMode              // return to a mode that is neither kernel nor user
    | DumpBeyondMemory     // the dump that brk prints runs off the end of memory

  /** Whether the emulator itself is still up. */
  datatype Health = Healthy | Died(why: Death)

  datatype Outcome = Next(state: State) | Dead(why: Death)

  /** Change one word of memory. */
  function Poke(m: Memory, a: nat, v: Word): (r: Memory)
    requires a < PHYS_MEM_SIZE
    ensures r[a] == v && forall b :: 0 <= b < PHYS_MEM_SIZE && b != a ==> r[b] == m[b]
  {
    m[a := v]
  }

  // ---- Address translation ----

  datatype Translation = Fault | At(addr: nat)

  /** Physical addresses are word indexes; data addresses are byte addresses, so
      they lose their low bit.  The address one past the end is let through. */
  function Translate(mmu: SprFile, isData: bool, v: Word): (t: Translation)
    ensures t.At? ==> t.addr <= PHYS_MEM_SIZE
  {
    var full := (mmu[(if isData then 48 else 32) + v / 4096] % 4096) * 4096 + v % 4096;
    var addr := if isData then full / 2 else full;
    if addr > PHYS_MEM_SIZE then Fault else At(addr)
  }

  // ---- Instructions ----

  datatype MemOp = Ldw | Ldb | Stw | Stb

  datatype Instr =
    | Zero
    | Mem(op: MemOp, ra: Reg, rb: Reg, imm: Word)
    | Beq(ra: Reg, rb: Reg, imm: Word)
    | Adi(ra: Reg, rb: Reg, imm: Word)
    | Lui(ra: Reg, imm: Word)
    | Jlr(ra: Reg, rb: Reg, imm: Word)
    | Xop(xop: Reg, ra: Reg, rb: Reg, rc: Reg)
    | Yop(yop: Reg, ra: Reg, rb: Reg)
    | Zop(zop: Reg, ra: Reg)
    | Vop(vop: Reg)

  // The octal digits of an instruction word, and what the longer fields are in
  // terms of them.  `FieldBits` relates them to bit ranges.

  function FieldA(w: Word): Reg { w % 8 }
  function FieldB(w: Word): Reg { w / 8 % 8 }
  function FieldC(w: Word): Reg { w / 8 / 8 % 8 }
  function FieldX(w: Word): Reg { w / 8 / 8 / 8 % 8 }
  function Top4(w: Word): nat { w / 8 / 8 / 8 / 8 }
  function BaseOp(w: Word): Reg { Top4(w) / 2 }
  function Imm7(w: Word): nat { FieldC(w) + 8 * FieldX(w) + 64 * (Top4(w) % 2) }
  function Imm10(w: Word): nat { FieldB(w) + 8 * Imm7(w) }

  /** Bits hi..lo of w, as the source extracts them. */
  function BitRange(w: Word, hi: nat, lo: nat): nat
    requires lo <= hi < 16
  {
    w / Pow2(lo) % Pow2(hi - lo + 1)
  }

  /** A word is its octal digits. */
  lemma DigitsOf(w: Word)
    ensures w == FieldA(w) + 8 * FieldB(w) + 64 * FieldC(w) + 512 * FieldX(w) + 4096 * Top4(w)
    ensures Top4(w) < 16
  {
    assert w == 8 * (w / 8) + w % 8;
    assert w / 8 == 8 * (w / 8 / 8) + w / 8 % 8;
  }

  /** A word determines its digits. */
  lemma DigitsUnique(w: Word, a: Reg, b: Reg, c: Reg, x: Reg, t: nat)
    requires t < 16 && w == a + 8 * b + 64 * c + 512 * x + 4096 * t
    ensures FieldA(w) == a && FieldB(w) == b && FieldC(w) == c && FieldX(w) == x && Top4(w) == t
  {
    assert w / 8 == b + 8 * c + 64 * x + 512 * t;
    assert w / 8 / 8 == c + 8 * x + 64 * t;
    assert w / 8 / 8 / 8 == x + 8 * t;
  }

  lemma FieldBits(w: Word)
    ensures FieldA(w) == BitRange(w, 2, 0) && FieldB(w) == BitRange(w, 5, 3)
    ensures FieldC(w) == BitRange(w, 8, 6) && FieldX(w) == BitRange(w, 11, 9)
    ensures Top4(w) == BitRange(w, 15, 12)
  {
    hide FieldA, FieldB, FieldC, FieldX, Top4;
    DigitsOf(w);
    assert Pow2(0) == 1 && Pow2(3) == 8 && Pow2(4) == 16 && Pow2(6) == 64;
    assert Pow2(9) == 512 && Pow2(12) == 4096;
    assert w / 8 == FieldB(w) + 8 * (FieldC(w) + 8 * FieldX(w) + 64 * Top4(w));
    assert w / 64 == FieldC(w) + 8 * (FieldX(w) + 8 * Top4(w));
    assert w / 512 == FieldX(w) + 8 * Top4(w);
    assert w / 4096 == Top4(w);
  }

  lemma Cut(w: nat, a: Reg, b: Reg, imm: nat, op: nat)
    requires w == a + 8 * b + 64 * imm + 8192 * op && imm < 128
    ensures w / 8192 == op && w / 64 % 128 == imm && w / 8 % 1024 == b + 8 * imm
  {
    assert w / 64 == imm + 128 * op;
    assert w / 8 == b + 8 * imm + 1024 * op;
  }

  lemma ImmediateBits(w: Word)
    ensures BaseOp(w) == BitRange(w, 15, 13)
    ensures Imm7(w) == BitRange(w, 12, 6) && Imm10(w) == BitRange(w, 12, 3)
  {
    hide FieldA, FieldB, FieldC, FieldX, Top4;
    DigitsOf(w);
    Cut(w, FieldA(w), FieldB(w), Imm7(w), Top4(w) / 2);
    assert Pow2(3) == 8 && Pow2(6) == 64 && Pow2(7) == 128 && Pow2(10) == 1024 && Pow2(13) == 8192;
  }

  function SignExtend7(i: nat): Word
    requires i < 128
  {
    if i < 64 then i else i + 0xFF80
  }

  function MemOpOf(op: Reg): MemOp
    requires op < 4
  {
    if op == 0 then Ldw else if op == 1 then Ldb else if op == 2 then Stw else Stb
  }

  /** Opcodes spread to the right: the more leading ones, the longer the opcode.
      The all-zero word is set apart, so that empty memory does not execute. */
  function Decode(w: Word): Instr {
    var op, a, b := BaseOp(w), FieldA(w), FieldB(w);
    if w == 0 then Zero
    else if op < 4 then Mem(MemOpOf(op), a, b, SignExtend7(Imm7(w)))
    else if op == 4 then Beq(a, b, SignExtend7(Imm7(w)))
    else if op == 5 then Adi(a, b, SignExtend7(Imm7(w)))
    else if op == 6 then Lui(a, Imm10(w) * 64)
    else if Top4(w) == 14 then Jlr(a, b, Imm7(w))
    else if FieldX(w) < 7 then Xop(FieldX(w), a, b, FieldC(w))
    else if FieldC(w) < 7 then Yop(FieldC(w), a, b)
    else if b < 7 then Zop(b, a)
    else Vop(a)
  }

  /** Three-operand arithmetic.  The carry out is lost before it could be seen,
      so the arithmetic operations always clear the hidden carry. */
  function Alu3(xop: Reg, rs2: Word, rs1: Word, hc: Word): Word {
    match xop
    case 0 => Add(rs2, rs1)
    case 1 => Add(rs2, rs1 + hc)
    case 2 => Sub(rs2, rs1)
    case 3 => Sub(rs2, rs1 + hc)
    case 4 => Bitwise16(AndNot, rs2, rs1)
    case 5 => Bitwise16(Or, rs2, rs1)
    case _ => Bitwise16(Xor, rs2, rs1)
  }

  function Alu1(zop: Reg, r: Word): Word {
    match zop
    case 0 => 0xFFFF - r
    case 1 => Sub(0, r)
    case 2 => r % 256 * 256 + r / 256
    case 3 => if r % 256 >= 128 then 0xFF00 + r % 256 else r % 256
    case 4 => r / 2
    case 5 => Add(r, r)
    case _ => r / 2 + (if r >= 0x8000 then 0x8000 else 0)
  }

  function Alu1Carry(zop: Reg, r: Word): Word {
    match zop
    case 4 => r % 2
    case 5 => r / 0x8000
    case 6 => r % 2
    case _ => 0
  }

  // ---- Memory ----

  /** What reading memory or a special register comes to. */
  datatype Reading = Value(v: Word) | Trap(ex: Word) | Fatal(why: Death)

  /** Put what was read into register ra, or raise the exception instead. */
  function Receive(s: State, ra: Reg, r: Reading): Outcome {
    match r
    case Value(v) => Next(s.SetGen(ra, v))
    case Trap(e) => s.Raise(e)
    case Fatal(why) => Dead(why)
  }

  /** The word of physical memory that holds the data byte at ea. */
  function DataWord(s: State, wide: bool, ea: Word): Reading {
    match Translate(s.Spr(), true, ea)
    case Fault => Trap(EX_MEMORY)
    case At(a) =>
      if wide && ea % 2 == 1 then Trap(EX_MEMORY)
      else if a == PHYS_MEM_SIZE then Fatal(BeyondMemory)
      else Value(s.mem[a])
  }

  function ReadData(s: State, wide: bool, ea: Word): Reading {
    match DataWord(s, wide, ea)
    case Value(v) =>
      Value(if wide then v else if ea % 2 == 1 then v / 256 else v % 256)
    case other => other
  }

  function WriteData(s: State, wide: bool, ea: Word, v: Word): Outcome {
    match DataWord(s, wide, ea)
    case Value(was) =>
      var a := Translate(s.Spr(), true, ea).addr;
      Next(s.(mem := Poke(s.mem, a,
        if wide then v
        else if ea % 2 == 1 then was % 256 + v % 256 * 256
        else was / 256 * 256 + v % 256)))
    case Trap(e) => s.Raise(e)
    case Fatal(why) => Dead(why)
  }

  // ---- Special registers ----

  /** The second word of the cycle counter. */
  function HighCycles(cyc: nat): Word { cyc / 0x10000 % 0x10000 }

  function ReadSpecial(s: State, r: nat): Reading
    requires r < SPR_SIZE
  {
    if r == PC then Value(s.pc)
    else if r == LINK then Value(s.Spr()[LINK])
    else if r == CCLS then Value(s.cyc % 0x10000)
    else if r == CCMS then Value(HighCycles(s.cyc))
    else if s.mode == User then Trap(EX_ILLEGAL)
    else if r <= 5 || r == MMU_CTL1 then Value(s.kspr[r])
    else if r < 16 then Value(0)
    else if r < 24 then Value(s.ugen[r - 16])
    else if r == 25 then Value(s.uspr[LINK])
    else if r < 31 then Fatal(MissingSpr)
    else if r == 31 then Trap(EX_ILLEGAL)
    else Value(if AccessesUserMmu(s) then s.uspr[r] else s.kspr[r])
  }

  function WriteSpecial(s: State, r: nat, v: Word): Outcome
    requires r < SPR_SIZE
  {
    if s.mode == User then
      if r == LINK then Next(s.SetLink(v)) else s.Raise(EX_ILLEGAL)
    else if 2 <= r <= 5 || r == MMU_CTL1 then Next(s.(kspr := s.kspr[r := v]))
    else if 16 <= r < 24 then Next(s.(ugen := s.ugen[r - 16 := v]))
    else if r == 25 then Next(s.(uspr := s.uspr[LINK := v]))
    else if 32 <= r then
      if AccessesUserMmu(s) then Next(s.(uspr := s.uspr[r := v]))
      else Next(s.(kspr := s.kspr[r := v]))
    else s.Raise(EX_ILLEGAL)
  }

  /** Bit 0x10 of the MMU control register points kernel MMU accesses at the user's. */
  predicate AccessesUserMmu(s: State) {
    s.kspr[MMU_CTL1] / 16 % 2 == 1
  }

  // ---- Execution ----

  function Jump(s: State, ra: Reg, rb: Reg, imm: Word): Outcome {
    var target := Add(s.Gen()[rb], imm);
    if ra == 0 then
      if rb == 0 && imm % 2 == 0 && 32 <= imm <= 62 then s.Raise(imm)
      else s.Raise(EX_ILLEGAL)
    else if ra == 1 then Next(s.SetLink(s.pc).(pc := target))
    else if ra == 2 then Next(s.(pc := target))
    else s.Raise(EX_ILLEGAL)
  }

  function Special(s: State, yop: Reg, ra: Reg, rb: Reg): Outcome {
    var r := s.Gen()[rb] % SPR_SIZE;
    match yop
    case 0 => Receive(s, ra, ReadSpecial(s, r))
    case 1 => Next(s.SetGen(ra, 0))
    case 2 => WriteSpecial(s, r, s.Gen()[ra])
    case 3 => Next(s)
    case _ => s.Raise(EX_ILLEGAL)
  }

  function ReturnFromTrap(s: State): Outcome {
    var m := s.kspr[IMR] % 256;
    if m > 1 then Dead(BadMode)
    else Next(s.(en := true, pc := s.kspr[IRR], kspr := s.kspr[IRR := 0],
                 mode := if m == 0 then Kern else User))
  }

  /** brk prints the words around the program counter and those at data address 0.  It
      goes on to index memory where the former cannot be fetched, or where the latter
      start just past the end. */
  predicate DumpFails(s: State) {
    !FetchAt(s).Fetch? || Translate(s.Spr(), true, 0) == At(PHYS_MEM_SIZE)
  }

  function Control(s: State, vop: Reg): Outcome {
    if vop == 1 then Next(s.(pc := s.Spr()[LINK]))
    else if s.mode == User then s.Raise(EX_ILLEGAL)
    else match vop
      case 0 => ReturnFromTrap(s)
      case 2 => Next(s.(en := false))
      case 3 => Next(s.(en := true))
      case 4 => Next(s.(run := false))
      case 5 => if DumpFails(s) then Dead(DumpBeyondMemory) else Next(s)
      case _ => s.Raise(EX_ILLEGAL)
  }

  predicate IsLoad(op: MemOp) { op == Ldw || op == Ldb }

  predicate IsWide(op: MemOp) { op == Ldw || op == Stw }

  /** Execute an instruction already fetched, with the program counter already advanced. */
  function Exec(s: State, i: Instr): Outcome {
    match i
    case Zero => s.Raise(EX_ILLEGAL)
    case Mem(op, ra, rb, imm) =>
      var ea := Add(s.Gen()[rb], imm);
      if IsLoad(op) then Receive(s, ra, ReadData(s, IsWide(op), ea))
      else WriteData(s, IsWide(op), ea, s.Gen()[ra])
    case Beq(ra, rb, imm) =>
      Next(if s.Gen()[rb] == s.Gen()[ra] then s.(pc := Add(s.pc, imm)) else s)
    case Adi(ra, rb, imm) => Next(s.SetGen(ra, Add(s.Gen()[rb], imm)))
    case Lui(ra, imm) => Next(s.SetGen(ra, imm))
    case Jlr(ra, rb, imm) => Jump(s, ra, rb, imm)
    case Xop(xop, ra, rb, rc) =>
      Next(s.SetGen(ra, Alu3(xop, s.Gen()[rc], s.Gen()[rb], s.hc)).(hc := 0))
    case Yop(yop, ra, rb) => Special(s, yop, ra, rb)
    case Zop(zop, ra) =>
      Next(s.SetGen(ra, Alu1(zop, s.Gen()[ra])).(hc := Alu1Carry(zop, s.Gen()[ra])))
    case Vop(vop) => Control(s, vop)
  }

  /** Entering the kernel when the previous cycle left an exception pending. */
  function Enter(s: State): State {
    if s.ex == 0 then s
    else s.(kspr := s.kspr[IRR := s.pc][ICR := s.ex][IMR := ModeNumber(s.mode)],
            mode := Kern, pc := s.ex, en := false, ex := 0)
  }

  function Advance(s: State): State {
    s.(pc := Add(s.pc, 1))
  }

  datatype Fetched = NoFetch(out: Outcome) | Fetch(w: Word)

  function FetchAt(s: State): Fetched {
    match Translate(s.Spr(), false, s.pc)
    case Fault => NoFetch(s.Raise(EX_MEMORY))
    case At(a) => if a == PHYS_MEM_SIZE then NoFetch(Dead(BeyondMemory)) else Fetch(s.mem[a])
  }

  /** One machine cycle: enter the kernel if need be, fetch, execute. */
  function Step(s: State): Outcome {
    if s.ex != 0 && !s.en then Dead(DoubleFaultInFetch)
    else
      var e := Enter(s);
      match FetchAt(e)
      case NoFetch(out) => out
      case Fetch(w) => Exec(Advance(e), Decode(w))
  }

  // ---- Runs ----

  predicate DoubleFault(s: State) {
    s.ex != 0 && !s.en
  }

  /** The simulation loop goes on only with the run flag set and no double fault. */
  predicate Live(s: State) {
    s.run && !DoubleFault(s)
  }

  /** One turn of the simulation loop: a cycle, then, unless it broke out of the
      loop, the cycle counter. */
  function Turn(s: State): Outcome {
    match Step(s)
    case Dead(why) => Dead(why)
    case Next(t) => Next(if DoubleFault(t) then t else t.(cyc := (t.cyc + 1) % CYC_SIZE))
  }

  /** The outcome of at most n turns of the simulation loop. */
  function Run(s: State, n: nat): Outcome {
    if n == 0 then Next(s)
    else match Run(s, n - 1)
      case Dead(why) => Dead(why)
      case Next(t) => if Live(t) then Turn(t) else Next(t)
  }

  /** What the emulator starts with, whatever has been loaded into memory. */
  ghost predicate PoweredUp(s: State) {
    && s.kgen == seq(8, i => 0) && s.ugen == seq(8, i => 0)
    && s.kspr == seq(SPR_SIZE, i => 0) && s.uspr == seq(SPR_SIZE, i => 0)
    && s.ex == 0 && s.hc == 0 && s.mode == Kern
  }

  /** The machine after reset; general registers, memory and the other special
      registers keep what they held. */
  function Reset(s: State): State {
    s.(cyc := 0, pc := 0, run := true, mode := Kern, ex := 0, en := false,
       kspr := s.kspr[IMR := ModeNumber(User)])
  }

  /** The state in which the simulation loop is first tested. */
  function Boot(s: State): State {
    Reset(s).(cyc := 1)
  }
}
