/** What each assembled instruction does when the machine runs it, by the laws its results
    obey. */
module Instructions {
  import opened Words
  import opened Wrappers
  import opened Isa
  import A = Assembler
  import opened Encoding
  import opened AluBits
  import opened ByteMemory

  function Next1(pc: Word): Word { (pc + 1) % 0x10000 }

  /** From s to t the machine has moved on by one instruction and put v in register ra of
      the mode it is in, unless that is r0; the hidden carry may have changed, and
      nothing else has. */
  ghost predicate Sets(s: State, t: State, ra: Reg, v: Word) {
    && t == s.(kgen := t.kgen, ugen := t.ugen, pc := Next1(s.pc), hc := t.hc)
    && (if s.mode == Kern then t.ugen == s.ugen else t.kgen == s.kgen)
    && forall r: Reg :: t.Gen()[r] == if r == ra && ra != 0 then v else s.Gen()[r]
  }

  lemma SetsRegister(s: State, ra: Reg, v: Word, hc: Word)
    ensures Sets(s, Advance(s).SetGen(ra, v).(hc := hc), ra, v)
  {
  }

  /** The outcome is a state in which ra has been given v and the carry is hc. */
  ghost predicate Yields(s: State, out: Outcome, ra: Reg, v: Word, hc: Word) {
    out.Next? && Sets(s, out.state, ra, v) && out.state.hc == hc
  }

  // ---- Three operands ----

  /** v is what m makes of a and b with the carry h. */
  ghost predicate Computes3(m: A.Mnemonic, v: Word, a: Word, b: Word, h: Word) {
    match m
    case ADD => (v - b) % 0x10000 == a
    case ADC => (v - b - h) % 0x10000 == a
    case SUB => (v + b) % 0x10000 == a
    case SBB => (v + b + h) % 0x10000 == a
    case BIC => forall i :: 0 <= i < 16 ==> Bit(v, i) == (Bit(a, i) && !Bit(b, i))
    case BIS => forall i :: 0 <= i < 16 ==> Bit(v, i) == (Bit(a, i) || Bit(b, i))
    case XOR => forall i :: 0 <= i < 16 ==> Bit(v, i) == (Bit(a, i) != Bit(b, i))
    case _ => false
  }

  lemma Undoes(x: Word, y: int)
    ensures (Add(x, y) - y) % 0x10000 == x && (Sub(x, y) + y) % 0x10000 == x
  {
    var p, q := (x + y) / 0x10000, (x - y) / 0x10000;
    assert Add(x, y) - y == x - 0x10000 * p;
    assert Sub(x, y) + y == x - 0x10000 * q;
  }

  lemma BitwiseComputes(op: BitOp, a: Word, b: Word)
    ensures forall i :: 0 <= i < 16 ==> Bit(Bitwise16(op, a, b), i) == OneBit(op, Bit(a, i), Bit(b, i))
  {
    hide Bit, Bitwise;
    forall i | 0 <= i < 16 ensures Bit(Bitwise16(op, a, b), i) == OneBit(op, Bit(a, i), Bit(b, i)) {
      BitwiseBit(op, a, b, 16, i);
    }
  }

  lemma Alu3Computes(m: A.Mnemonic, a: Word, b: Word, h: Word)
    requires A.XopOf(m).Some?
    ensures Computes3(m, Alu3(A.XopOf(m).value, a, b, h), a, b, h)
  {
    hide Bit, Bitwise16;
    match m
    case BIC => BitwiseComputes(AndNot, a, b);
    case BIS => BitwiseComputes(Or, a, b);
    case XOR => BitwiseComputes(Xor, a, b);
    case _ => ArithmeticComputes(m, a, b, h);
  }

  lemma ArithmeticComputes(m: A.Mnemonic, a: Word, b: Word, h: Word)
    requires m in {A.ADD, A.ADC, A.SUB, A.SBB}
    ensures Computes3(m, Alu3(A.XopOf(m).value, a, b, h), a, b, h)
  {
    hide Bit, Bitwise16;
    hide Add, Sub;
    var c: int := h;
    match m
    case ADD => Undoes(a, b);
    case ADC => Undoes(a, b + c);
    case SUB => Undoes(a, b);
    case SBB => Undoes(a, b + c);
  }

  /** Three-operand arithmetic takes rB from rC, or combines them, bit by bit or with the
      carry; the carry out is lost. */
  lemma ThreeOperand(s: State, m: A.Mnemonic, ra: Reg, rb: Reg, rc: Reg) returns (v: Word)
    requires A.XopOf(m).Some? && Runs(s, A.Line(m, [A.R(ra), A.R(rb), A.R(rc)]))
    ensures Computes3(m, v, s.Gen()[rc], s.Gen()[rb], s.hc) && Yields(s, Step(s), ra, v, 0)
  {
    hide Decode, FetchAt, Step, A.AssembleLine, A.Rrr, Alu3, A.XopOf, Computes3, Sets;
    var x := A.XopOf(m).value;
    XopSmall(m);
    A.ShapeRRR(m, ra, rb, rc, s.pc);
    RrrDecodes(x, rc, rb, ra);
    RunsStep(s, A.Line(m, [A.R(ra), A.R(rb), A.R(rc)]), Xop(x, ra, rb, rc));
    v := Alu3(x, s.Gen()[rc], s.Gen()[rb], s.hc);
    Alu3Computes(m, s.Gen()[rc], s.Gen()[rb], s.hc);
    SetsRegister(s, ra, v, 0);
  }

  lemma XopSmall(m: A.Mnemonic)
    requires A.XopOf(m).Some?
    ensures A.XopOf(m).value < 7
  {
  }

  // ---- One operand ----

  /** v is what m makes of x, and h the carry out. */
  ghost predicate Computes1(m: A.Mnemonic, v: Word, x: Word, h: Word) {
    match m
    case NOT => h == 0 && forall i :: 0 <= i < 16 ==> Bit(v, i) == !Bit(x, i)
    case NEG => h == 0 && (v + x) % 0x10000 == 0
    case SXT => h == 0 && forall i :: 0 <= i < 16 ==> Bit(v, i) == Bit(x, if i < 8 then i + 8 else i - 8)
    case SWB => h == 0 && forall i :: 0 <= i < 16 ==> Bit(v, i) == Bit(x, if i < 8 then i else 7)
    case LSR => 2 * v + h == x && h <= 1
    case LSL => v + 0x10000 * h == 2 * x && v % 2 == 0
    case ASR => 2 * SignedWord(v) + h == SignedWord(x) && h <= 1
    case _ => false
  }

  function SignedWord(x: Word): int { if x < 0x8000 then x else x - 0x10000 }

  lemma Alu1Computes(m: A.Mnemonic, x: Word)
    requires A.ZopOf(m).Some?
    ensures Computes1(m, Alu1(A.ZopOf(m).value, x), x, Alu1Carry(A.ZopOf(m).value, x))
  {
    hide Bit;
    forall i, z: Reg | 0 <= i < 16 && z < 7 && z != 1 ensures Bit(Alu1(z, x), i) == Alu1Bit(z, x, i) {
      Alu1Bits(z, x, i);
    }
    Shifts(x);
  }

  lemma Shifts(x: Word)
    ensures 2 * (x / 2) + x % 2 == x && Add(x, x) + 0x10000 * (x / 0x8000) == 2 * x && Add(x, x) % 2 == 0
    ensures Sub(0, x) + x == (if x == 0 then 0 else 0x10000)
  {
  }

  /** One-operand arithmetic, bit by bit or by what undoes it; only shifts leave a carry. */
  lemma OneOperand(s: State, m: A.Mnemonic, ra: Reg) returns (v: Word, h: Word)
    requires A.ZopOf(m).Some? && Runs(s, A.Line(m, [A.R(ra)]))
    ensures Computes1(m, v, s.Gen()[ra], h) && Yields(s, Step(s), ra, v, h)
  {
    hide Decode, FetchAt, Step, A.AssembleLine, A.R1, Alu1, Alu1Carry, Computes1, Sets;
    var z := A.ZopOf(m).value;
    A.ShapeR(m, ra, s.pc);
    R1Decodes(z, ra);
    RunsStep(s, A.Line(m, [A.R(ra)]), Zop(z, ra));
    v, h := Alu1(z, s.Gen()[ra]), Alu1Carry(z, s.Gen()[ra]);
    Alu1Computes(m, s.Gen()[ra]);
    SetsRegister(s, ra, v, h);
  }

  // ---- Immediates ----

  /** adi adds its immediate, read with its sign. */
  lemma AddImmediate(s: State, ra: Reg, rb: Reg, v: int)
    requires Runs(s, A.Line(A.ADI, [A.R(ra), A.R(rb), A.I(v)]))
    ensures -64 <= v < 128
    ensures Yields(s, Step(s), ra, (s.Gen()[rb] + Signed(v)) % 0x10000, s.hc)
  {
    hide FetchAt, Step, A.AssembleLine, A.Rri, Yields, SignExtend7, Signed;
    A.ShapeRRI(A.ADI, ra, rb, v, s.pc);
    AddWord(s, v % 128, rb, ra);
    ImmediateRead(v);
    SumRead(s.Gen()[rb], Signed(v));
  }

  lemma AddWord(s: State, imm: nat, rb: Reg, ra: Reg)
    requires imm < 128 && s.ex == 0 && FetchAt(s) == Fetch(A.Rri(5, imm, rb, ra))
    ensures Yields(s, Step(s), ra, Add(s.Gen()[rb], SignExtend7(imm)), s.hc)
  {
    hide Decode, FetchAt, A.Rri, Sets, SignExtend7;
    RriDecodes(5, imm, rb, ra);
    SetsRegister(s, ra, Add(s.Gen()[rb], SignExtend7(imm)), s.hc);
  }

  lemma SumRead(a: int, v: int)
    ensures Add(a, v % 0x10000) == (a + v) % 0x10000
  {
    var q := v / 0x10000;
    assert a + v == a + v % 0x10000 + 0x10000 * q;
  }

  /** lui, lli, lsi and nop. */
  lemma LoadUpper(s: State, ra: Reg, v: int)
    requires Runs(s, A.Line(A.LUI, [A.R(ra), A.I(v)]))
    ensures -512 <= v < 1024 && Yields(s, Step(s), ra, v % 1024 * 64, s.hc)
  {
    hide Decode, FetchAt, Step, A.AssembleLine, A.Upper, Sets;
    A.ShapeRI(A.LUI, ra, v, s.pc);
    UpperDecodes(v % 1024, ra);
    RunsStep(s, A.Line(A.LUI, [A.R(ra), A.I(v)]), Lui(ra, v % 1024 * 64));
    SetsRegister(s, ra, v % 1024 * 64, s.hc);
  }

  lemma LoadShort(s: State, m: A.Mnemonic, ra: Reg, v: int)
    requires m == A.LLI || m == A.LSI
    requires Runs(s, A.Line(m, [A.R(ra), A.I(v)]))
    ensures 0 <= v < 64
    ensures Yields(s, Step(s), ra, (s.Gen()[if m == A.LLI then ra else 0] + v) % 0x10000, s.hc)
  {
    hide FetchAt, Step, A.AssembleLine, A.Rri, Yields, A.RuleRI, SignExtend7;
    A.ShapeRI(m, ra, v, s.pc);
    ShortRule(m, ra, v);
    SmallPositive(v);
    AddWord(s, v, if m == A.LLI then ra else 0, ra);
  }

  lemma ShortRule(m: A.Mnemonic, ra: Reg, v: int)
    requires (m == A.LLI || m == A.LSI) && A.RuleRI(m, ra, v).Some?
    ensures 0 <= v < 64 && A.RuleRI(m, ra, v) == Some([A.Rri(5, v, if m == A.LLI then ra else 0, ra)])
  {
    hide A.Rri;
  }

  lemma SmallPositive(v: nat)
    requires v < 64
    ensures SignExtend7(v) == v
  {
  }

  /** nop is neg r0: it moves on, and clears the hidden carry. */
  lemma DoNothing(s: State)
    requires Runs(s, A.Line(A.NOP, []))
    ensures Step(s) == Next(s.(pc := Next1(s.pc), hc := 0))
  {
    hide Decode, FetchAt, Step, A.AssembleLine, A.R1;
    A.Shape0(A.NOP, s.pc);
    R1Decodes(1, 0);
    RunsStep(s, A.Line(A.NOP, []), Zop(1, 0));
  }

  // ---- Memory ----

  /** The machine has moved on and raised e, and nothing else has changed. */
  predicate Raises(s: State, out: Outcome, e: Word) {
    out == Next(s.(pc := Next1(s.pc), ex := e))
  }

  /** Which access, at which byte of physical memory. */
  function Address(s: State, rb: Reg, v: int): Word
    requires -64 <= v < 128
  {
    (s.Gen()[rb] + Signed(v)) % 0x10000
  }

  lemma MemoryLine(s: State, m: A.Mnemonic, op: nat, ra: Reg, rb: Reg, v: int)
    requires op < 4 && A.RriOp(m) == Some(op) && Runs(s, A.Line(m, [A.R(ra), A.R(rb), A.I(v)]))
    ensures -64 <= v < 128
    ensures if op == 0 && ra == 0 && rb == 0 && v == 0 then Raises(s, Step(s), EX_ILLEGAL)
            else Step(s) == Exec(Advance(s), Mem([Ldw, Ldb, Stw, Stb][op], ra, rb, SignExtend7(v % 128)))
    ensures Address(s, rb, v) == Add(s.Gen()[rb], SignExtend7(v % 128))
  {
    hide Decode, FetchAt, Step, A.AssembleLine, A.Rri, SignExtend7, Signed;
    var l := A.Line(m, [A.R(ra), A.R(rb), A.I(v)]);
    A.ShapeRRI(m, ra, rb, v, s.pc);
    RriDecodes(op, v % 128, rb, ra);
    RunsStep(s, l, Decode(A.Rri(op, v % 128, rb, ra)));
    ImmediateRead(v);
    SumRead(s.Gen()[rb], Signed(v));
  }

  lemma ByteBound(mem: Memory, b: nat)
    requires b < BYTE_MEM_SIZE
    ensures ByteAt(mem, b) < 256
  {
  }

  /** The word or byte at byte b of memory, low byte first. */
  function Contents(mem: Memory, wide: bool, b: nat): Word
    requires b < BYTE_MEM_SIZE && (wide ==> b + 1 < BYTE_MEM_SIZE)
  {
    ByteBound(mem, b);
    if wide then ByteBound(mem, b + 1); ByteAt(mem, b) + 256 * ByteAt(mem, b + 1) else ByteAt(mem, b)
  }

  /** The outcome of a load of ra from ea: a fault, the end of the emulator, or the bytes. */
  ghost predicate LoadsFrom(s: State, out: Outcome, wide: bool, ra: Reg, ea: Word) {
    var b := PhysByte(s.Spr(), ea);
    if (wide && ea % 2 == 1) || b / 2 > PHYS_MEM_SIZE then Raises(s, out, EX_MEMORY)
    else if b >= BYTE_MEM_SIZE then out == Dead(BeyondMemory)
    else (wide ==> b + 1 < BYTE_MEM_SIZE) && Yields(s, out, ra, Contents(s.mem, wide, b), s.hc)
  }

  /** Loads read the little-endian bytes at the sum of a register and a signed offset; the
      load of r0 from address 0 through r0 is the illegal zero word. */
  lemma Load(s: State, wide: bool, ra: Reg, rb: Reg, v: int)
    requires Runs(s, A.Line(if wide then A.LDW else A.LDB, [A.R(ra), A.R(rb), A.I(v)]))
    ensures -64 <= v < 128
    ensures if wide && ra == 0 && rb == 0 && v == 0 then Raises(s, Step(s), EX_ILLEGAL)
            else LoadsFrom(s, Step(s), wide, ra, Address(s, rb, v))
  {
    hide FetchAt, Step, A.AssembleLine, SignExtend7, Address, ReadData, PhysByte, ByteAt, Sets;
    var op := if wide then 0 else 1;
    MemoryLine(s, if wide then A.LDW else A.LDB, op, ra, rb, v);
    var ea := Address(s, rb, v);
    var b := PhysByte(s.Spr(), ea);
    ReadBytes(Advance(s), wide, ea);
    if b < BYTE_MEM_SIZE && !(wide && ea % 2 == 1) {
      EvenInside(s.Spr(), ea);
      SetsRegister(s, ra, Contents(s.mem, wide, b), s.hc);
    }
  }

  lemma EvenInside(mmu: SprFile, ea: Word)
    ensures ea % 2 == 0 && PhysByte(mmu, ea) < BYTE_MEM_SIZE ==> PhysByte(mmu, ea) + 1 < BYTE_MEM_SIZE
  {
    hide PhysByte, Translate;
    TranslateByte(mmu, ea);
  }

  /** The outcome of a store of v to ea. */
  ghost predicate StoresTo(s: State, out: Outcome, wide: bool, ea: Word, v: Word) {
    var b := PhysByte(s.Spr(), ea);
    if (wide && ea % 2 == 1) || b / 2 > PHYS_MEM_SIZE then Raises(s, out, EX_MEMORY)
    else if b >= BYTE_MEM_SIZE then out == Dead(BeyondMemory)
    else
      && out.Next? && out.state == s.(pc := Next1(s.pc), mem := out.state.mem)
      && Overlaid(s.mem, out.state.mem, Stored(wide, b, v))
  }

  /** Stores change exactly the addressed bytes. */
  lemma Store(s: State, wide: bool, ra: Reg, rb: Reg, v: int)
    requires Runs(s, A.Line(if wide then A.STW else A.STB, [A.R(ra), A.R(rb), A.I(v)]))
    ensures -64 <= v < 128 && StoresTo(s, Step(s), wide, Address(s, rb, v), s.Gen()[ra])
  {
    hide FetchAt, Step, A.AssembleLine, SignExtend7, Address, WriteData, PhysByte, ByteAt, Overlaid;
    var op := if wide then 2 else 3;
    MemoryLine(s, if wide then A.STW else A.STB, op, ra, rb, v);
    var ea := Address(s, rb, v);
    StoreOutcome(Advance(s), wide, ea, s.Gen()[ra]);
    if WriteData(Advance(s), wide, ea, s.Gen()[ra]).Next? {
      WriteBytes(Advance(s), wide, ea, s.Gen()[ra]);
    }
  }

  lemma StoreOutcome(s: State, wide: bool, ea: Word, v: Word)
    ensures var b, out := PhysByte(s.Spr(), ea), WriteData(s, wide, ea, v);
      if (wide && ea % 2 == 1) || b / 2 > PHYS_MEM_SIZE then out == Next(s.(ex := EX_MEMORY))
      else if b >= BYTE_MEM_SIZE then out == Dead(BeyondMemory)
      else out.Next? && out.state == s.(mem := out.state.mem)
  {
    hide PhysByte, Translate, Poke;
    TranslateByte(s.Spr(), ea);
  }

  // ---- Jumps ----

  /** jsr and jmp through a register; only jsr sets the link. */
  lemma JumpThrough(s: State, m: A.Mnemonic, r: Reg)
    requires m == A.JSR || m == A.JMP
    requires Runs(s, A.Line(m, [A.R(r)]))
    ensures r != 0 && Step(s).Next?
    ensures var t := Step(s).state;
      && t == s.(pc := s.Gen()[r], kspr := t.kspr, uspr := t.uspr)
      && t.Spr() == (if m == A.JSR then s.Spr()[LINK := Next1(s.pc)] else s.Spr())
      && (if s.mode == Kern then t.uspr == s.uspr else t.kspr == s.kspr)
  {
    hide Decode, FetchAt, Step, A.AssembleLine, A.Jlr;
    A.ShapeR(m, r, s.pc);
    var f := if m == A.JSR then 1 else 2;
    JlrDecodes(0, r, f);
    RunsStep(s, A.Line(m, [A.R(r)]), Jlr(f, r, 0));
  }

  /** A system call raises its own number, and those below 32 are illegal. */
  lemma SystemCall(s: State, v: int)
    requires Runs(s, A.Line(A.SYS, [A.I(v)]))
    ensures 0 <= v < 64 && v % 2 == 0 && Raises(s, Step(s), if v < 32 then EX_ILLEGAL else v)
  {
    hide Decode, FetchAt, Step, A.AssembleLine, A.Jlr;
    A.ShapeI(A.SYS, v, s.pc);
    JlrDecodes(v, 0, 0);
    RunsStep(s, A.Line(A.SYS, [A.I(v)]), Jlr(0, 0, v));
  }

  /** jlr words that no line spells are illegal: a fourth flavour, or a system call with a
      register or an odd number. */
  lemma UnspelledJump(s: State, imm: nat, rb: Reg, f: Reg)
    requires imm < 64 && s.ex == 0 && FetchAt(s) == Fetch(A.Jlr(imm, rb, f))
    requires f > 2 || (f == 0 && (rb != 0 || imm % 2 == 1))
    ensures Raises(s, Step(s), EX_ILLEGAL)
  {
    hide Decode, FetchAt, A.Jlr;
    JlrDecodes(imm, rb, f);
  }

  lemma ZeroWord(s: State)
    requires s.ex == 0 && FetchAt(s) == Fetch(0)
    ensures Raises(s, Step(s), EX_ILLEGAL)
  {
    hide FetchAt;
  }

  // ---- Control ----

  /** What a zero-operand instruction other than rti and brk does in kernel mode; rtl does
      the same in user mode, and all others are illegal there. */
  lemma NoOperand(s: State, m: A.Mnemonic)
    requires A.VopOf(m).Some? && Runs(s, A.Line(m, []))
    ensures m == A.RTL ==> Step(s) == Next(s.(pc := s.Spr()[LINK]))
    ensures m != A.RTL && (s.mode == User || m == A.V06 || m == A.DIE) ==> Raises(s, Step(s), EX_ILLEGAL)
    ensures s.mode == Kern && m == A.DI ==> Step(s) == Next(s.(pc := Next1(s.pc), en := false))
    ensures s.mode == Kern && m == A.EI ==> Step(s) == Next(s.(pc := Next1(s.pc), en := true))
    ensures s.mode == Kern && m == A.HLT ==> Step(s) == Next(s.(pc := Next1(s.pc), run := false))
    ensures s.mode == Kern && m == A.BRK ==>
      Step(s) ==
        if FetchAt(s.(pc := Next1(s.pc))).Fetch? && s.kspr[48] % 4096 != 192 then Next(s.(pc := Next1(s.pc)))
        else Dead(DumpBeyondMemory)
  {
    hide Decode, FetchAt, Step, A.AssembleLine, A.R0, DumpFails;
    A.Shape0(m, s.pc);
    var v := A.VopOf(m).value;
    R0Decodes(v);
    RunsStep(s, A.Line(m, []), Vop(v));
    DumpPages(Advance(s));
  }

  lemma DumpPages(s: State)
    ensures s.mode == Kern ==> (DumpFails(s) <==> !(FetchAt(s).Fetch? && s.kspr[48] % 4096 != 192))
  {
    hide FetchAt;
  }

  // ---- I/O and undefined two-operand instructions ----

  /** lio reads 0, sio does nothing, and y04 to y06 are illegal. */
  lemma NoDevices(s: State, m: A.Mnemonic, ra: Reg, rb: Reg)
    requires Runs(s, A.Line(m, [A.R(ra), A.R(rb)]))
    ensures A.YopOf(m).Some?
    ensures m == A.LIO ==> Yields(s, Step(s), ra, 0, s.hc)
    ensures m == A.SIO ==> Step(s) == Next(s.(pc := Next1(s.pc)))
    ensures m in {A.Y04, A.Y05, A.Y06} ==> Raises(s, Step(s), EX_ILLEGAL)
  {
    hide Decode, FetchAt, Step, A.AssembleLine, A.Rr, Yields, Special;
    A.ShapeRR(m, ra, rb, s.pc);
    var y := A.YopOf(m).value;
    RrDecodes(y, rb, ra);
    RunsStep(s, A.Line(m, [A.R(ra), A.R(rb)]), Yop(y, ra, rb));
    NoDevice(s, y, ra, rb);
  }

  lemma NoDevice(s: State, y: Reg, ra: Reg, rb: Reg)
    requires s.ex == 0
    ensures y == 1 ==> Yields(s, Special(Advance(s), y, ra, rb), ra, 0, s.hc)
    ensures y == 3 ==> Special(Advance(s), y, ra, rb) == Next(s.(pc := Next1(s.pc)))
    ensures y >= 4 ==> Raises(s, Special(Advance(s), y, ra, rb), EX_ILLEGAL)
  {
    hide ReadSpecial, WriteSpecial, Sets;
    SetsRegister(s, ra, 0, s.hc);
  }
}
