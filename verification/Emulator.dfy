/** The emulator: a shared machine state worked on by five stages in turn.

    Every stage reads and writes the fields below, including pipeline registers
    whose contents are left over from earlier cycles.  `Cycle` is proved to
    perform exactly one `Isa.Step` on the architectural state whatever those
    registers hold on entry.  */
module Emulator {
  import opened Words
  import opened Isa

  /** What the execute stage makes of the architectural state. */
  function AfterExecute(s: State, i: Instr): Outcome {
    match i
    case Mem(_, _, _, _) => Next(s)
    case Adi(_, _, _) => Next(s)
    case Lui(_, _) => Next(s)
    case Xop(_, _, _, _) => Next(s.(hc := 0))
    case Yop(yop, _, _) => if yop >= 4 then s.Raise(EX_ILLEGAL) else Next(s)
    case Zop(zop, ra) => Next(s.(hc := Alu1Carry(zop, s.Gen()[ra])))
    case _ => Exec(s, i)
  }

  /** Instructions whose result or address passes through the alu register. */
  predicate UsesAlu(i: Instr) {
    !(i.Zero? || i.Beq? || i.Jlr? || i.Vop?)
  }

  function AluValue(s: State, i: Instr): Word {
    match i
    case Mem(_, _, rb, imm) => Add(s.Gen()[rb], imm)
    case Adi(_, rb, imm) => Add(s.Gen()[rb], imm)
    case Lui(_, imm) => imm
    case Xop(xop, _, rb, rc) => Alu3(xop, s.Gen()[rc], s.Gen()[rb], s.hc)
    case Yop(_, _, rb) => s.Gen()[rb]
    case Zop(zop, ra) => Alu1(zop, s.Gen()[ra])
    case _ => 0
  }

  predicate IsStore(i: Instr) {
    (i.Mem? && !IsLoad(i.op)) || (i.Yop? && (i.yop == 2 || i.yop == 3))
  }

  /** What the memory stage reads; the alu value where it reads nothing. */
  function MemoryRead(s: State, i: Instr, alu: Word): Reading {
    match i
    case Mem(op, _, _, _) => if IsLoad(op) then ReadData(s, IsWide(op), alu) else Value(alu)
    case Yop(yop, _, _) =>
      if yop == 0 then ReadSpecial(s, alu % SPR_SIZE) else Value(if yop == 1 then 0 else alu)
    case _ => Value(alu)
  }

  /** What the memory stage makes of the architectural state. */
  function AfterMemory(s: State, i: Instr, alu: Word, sd: Word): Outcome {
    match MemoryRead(s, i, alu)
    case Trap(e) => s.Raise(e)
    case Fatal(why) => Dead(why)
    case Value(_) =>
      if i.Mem? && !IsLoad(i.op) then WriteData(s, IsWide(i.op), alu, sd)
      else if i.Yop? && i.yop == 2 then WriteSpecial(s, alu % SPR_SIZE, sd)
      else Next(s)
  }

  /** The register that the writeback stage updates, r0 standing for none. */
  function Target(i: Instr): Reg {
    match i
    case Mem(op, ra, _, _) => if IsLoad(op) then ra else 0
    case Adi(ra, _, _) => ra
    case Lui(ra, _) => ra
    case Xop(_, ra, _, _) => ra
    case Yop(yop, ra, _) => if yop < 2 then ra else 0
    case Zop(_, ra) => ra
    case _ => 0
  }

  /** Execute, memory and writeback in sequence. */
  function Staged(s: State, i: Instr): Outcome {
    match AfterExecute(s, i)
    case Dead(why) => Dead(why)
    case Next(t) =>
      if t.ex != 0 then Next(t)
      else
        var alu := AluValue(s, i);
        match AfterMemory(t, i, alu, if IsStore(i) then s.Gen()[i.ra] else 0)
        case Dead(why) => Dead(why)
        case Next(u) =>
          if u.ex != 0 then Next(u)
          else
            match MemoryRead(t, i, alu)
            case Value(v) => Next(u.SetGen(Target(i), v))
            case _ => Next(u)
  }

  lemma StagedIsExec(s: State, i: Instr)
    requires s.ex == 0
    ensures Staged(s, i) == Exec(s, i)
  {
    match i
    case Mem(op, _, _, _) =>
    case Yop(yop, _, _) =>
    case _ =>
  }

  function SxtImm(ir: Word): Word {
    var op := BaseOp(ir);
    var neg := Top4(ir) % 2 != 0;
    if op < 6 then
      if neg then Imm7(ir) + 0xFF80 else Imm7(ir)
    else if op == 6 then Imm10(ir) * 64
    else if !neg then Imm7(ir)
    else 0
  }

  /** Recognize the extended opcode groups by their leading ones, longest first. */
  method Recognize(w: Word) returns (isXop: bool, isYop: bool, isZop: bool, isVop: bool)
    ensures isXop == Decode(w).Xop? && isYop == Decode(w).Yop?
    ensures isZop == Decode(w).Zop? && isVop == Decode(w).Vop?
  {
    isVop := w / 8 == 0x1FFF;
    isZop := !isVop && w / 8 / 8 == 0x03FF;
    isYop := !isVop && !isZop && w / 8 / 8 / 8 == 0x007F;
    isXop := !isVop && !isZop && !isYop && Top4(w) == 0x000F;
  }

  function MemOpNumber(op: MemOp): nat {
    match op
    case Ldw => 0
    case Ldb => 1
    case Stw => 2
    case Stb => 3
  }

  /** The outputs of the decoder. */
  datatype Signals = Signals(
    op: nat, imm: Word, xop: nat, yop: nat, zop: nat, vop: nat,
    isXop: bool, isYop: bool, isZop: bool, isVop: bool, isBase: bool,
    ra: Reg, rb: Reg, rc: Reg)

  /** The decoder outputs d describe instruction i, decoded from the word ir. */
  ghost predicate Describes(d: Signals, i: Instr, ir: Word) {
    && d.isXop == i.Xop? && d.isYop == i.Yop? && d.isZop == i.Zop? && d.isVop == i.Vop?
    && d.isBase == !(d.isXop || d.isYop || d.isZop || d.isVop)
    && (ir == 0 <==> i.Zero?)
    && match i
       case Zero => d.op == 0
       case Mem(o, a, b, im) => d.op == MemOpNumber(o) && d.ra == a && d.rb == b && d.imm == im
       case Beq(a, b, im) => d.op == 4 && d.ra == a && d.rb == b && d.imm == im
       case Adi(a, b, im) => d.op == 5 && d.ra == a && d.rb == b && d.imm == im
       case Lui(a, im) => d.op == 6 && d.ra == a && d.imm == im
       case Jlr(a, b, im) => d.op == 7 && Top4(ir) == 14 && d.ra == a && d.rb == b && d.imm == im
       case Xop(x, a, b, c) => d.op == 7 && d.xop == x < 7 && d.ra == a && d.rb == b && d.rc == c
       case Yop(y, a, b) => d.op == 7 && d.yop == y < 7 && d.ra == a && d.rb == b
       case Zop(z, a) => d.op == 7 && d.zop == z < 7 && d.ra == a
       case Vop(v) => d.op == 7 && d.vop == v
  }

  /** Where the execute stage leaves the machine: the architectural effect, and
      the alu and sd registers for the instructions that use them later. */
  ghost predicate Executed(before: State, i: Instr, after: State, badMode: bool, health: Health, alu: Word, sd: Word) {
    match AfterExecute(before, i)
    case Dead(why) =>
      if why == BadMode then health == Healthy && badMode && after.ex == 0 && i.Vop? else health == Died(why)
    case Next(t) =>
      && health == Healthy && !badMode && after == t
      && (t.ex == 0 && UsesAlu(i) ==> alu == AluValue(before, i))
      && (t.ex == 0 && IsStore(i) ==> sd == before.Gen()[i.ra])
  }

  /** The one-operand ALU: result and hidden carry. */
  method OneOperand(zop: nat, rs1: Word) returns (alu: Word, hc: Word)
    requires zop < 7
    ensures alu == Alu1(zop, rs1) && hc == Alu1Carry(zop, rs1)
  {
    alu, hc := 0, 0;
    match zop
    case 0 => alu := 0xFFFF - rs1;
    case 1 => alu := Add(1, 0xFFFF - rs1);
    case 2 => alu := rs1 / 256 + rs1 % 256 * 256;
    case 3 => if rs1 % 256 >= 128 { alu := rs1 % 256 + 0xFF00; } else { alu := rs1 % 256; }
    case 4 => hc := rs1 % 2; alu := rs1 / 2;
    case 5 =>
      if rs1 < 0x8000 { hc := 0; } else { hc := 1; }
      alu := rs1 * 2 % WORD_SIZE;
    case 6 =>
      hc := rs1 % 2;
      alu := rs1 / 2;
      if rs1 >= 0x8000 { alu := alu + 0x8000; }
    case _ => assert false;
  }

  /** Bits 16 to 31 of the cycle counter, masked and then shifted. */
  function MaskedCycles(cyc: nat): (w: Word)
    ensures w == HighCycles(cyc)
  {
    cyc % 0x1_0000_0000 / 0x10000
  }

  class Machine {
    // What outlives an instruction.
    var s: State

    // Registers used within an instruction, left over between instructions.
    var alu: Word
    var sd: Word
    var wb: Word
    var ir: Word
    var d: Signals

    // A mode byte that is neither kernel nor user was loaded in this cycle.
    var badMode: bool

    // Whether the emulator itself has failed, and how.
    var health: Health

    ghost predicate Ready()
      reads this
    {
      health == Healthy && !badMode
    }

    constructor (physmem: Memory)
      ensures Ready() && PoweredUp(s) && s.mem == physmem
    {
      s := State(0, seq(8, i => 0), seq(SPR_SIZE, i => 0), seq(8, i => 0), seq(SPR_SIZE, i => 0),
                 physmem, 0, false, false, Kern, 0, 0);
      alu, sd, wb, ir := 0, 0, 0, 0;
      d := Signals(0, 0, 0, 0, 0, 0, false, false, false, false, false, 0, 0, 0);
      badMode := false;
      health := Healthy;
    }

    method ResetMachine()
      modifies `s
      ensures s == Reset(old(s))
    {
      s := s.(cyc := 0);
      s := s.(pc := 0);
      s := s.(run := true);
      s := s.(mode := Kern);
      s := s.(ex := 0);
      s := s.(en := false);
      s := s.(kspr := s.kspr[IMR := ModeNumber(User)]);
    }

    /** Virtual to physical; a result equal to the memory size is let through. */
    method TranslateAddress(isData: bool, virtAddr: Word) returns (e: Word, addr: nat)
      ensures match Translate(s.Spr(), isData, virtAddr)
              case Fault => e == EX_MEMORY && addr > PHYS_MEM_SIZE
              case At(a) => e == 0 && addr == a
    {
      var sprOffset := 32;
      if isData { sprOffset := sprOffset + 16; }
      sprOffset := sprOffset + virtAddr / 4096;
      var upper := s.Spr()[sprOffset] % 4096;
      addr := upper * 4096 + virtAddr % 4096;
      if isData { addr := addr / 2; }
      e := if addr > PHYS_MEM_SIZE then EX_MEMORY else 0;
    }

    /** Fetch stage: take a pending exception, then load the instruction register. */
    method FetchStage()
      requires Ready() && !DoubleFault(s)
      modifies `s, `ir, `health
      ensures match FetchAt(Enter(old(s)))
              case NoFetch(Dead(why)) => health == Died(why)
              case NoFetch(Next(t)) => Ready() && s == t && s.ex != 0
              case Fetch(w) => Ready() && ir == w && s.ex == 0 && s == Advance(Enter(old(s)))
    {
      if s.ex != 0 {
        s := s.(kspr := s.kspr[IRR := s.pc]);
        s := s.(kspr := s.kspr[ICR := s.ex]);
        s := s.(kspr := s.kspr[IMR := ModeNumber(s.mode)]);
        s := s.(mode := Kern);
        s := s.(pc := s.ex);
        s := s.(en := false);
        s := s.(ex := 0);
      }
      var e, addr := TranslateAddress(false, s.pc);
      if e != 0 {
        s := s.(ex := e);
        return;
      }
      if addr == PHYS_MEM_SIZE {
        health := Died(BeyondMemory);
        return;
      }
      ir := s.mem[addr];
      s := s.(pc := Add(s.pc, 1));
    }

    method DecodeStage() returns (ghost i: Instr)
      modifies `d
      ensures s.ex == 0 ==> i == Decode(ir) && Describes(d, i, ir)
    {
      i := Decode(ir);
      if s.ex != 0 { return; }
      var isXop, isYop, isZop, isVop := Recognize(ir);
      d := Signals(BaseOp(ir), SxtImm(ir), FieldX(ir), FieldC(ir), FieldB(ir), FieldA(ir),
                   isXop, isYop, isZop, isVop, !isVop && !isZop && !isYop && !isXop,
                   FieldA(ir), FieldB(ir), FieldC(ir));
    }

    // ---- Execute stage ----

    method ExecuteBase(ghost i: Instr)
      requires Ready() && s.ex == 0 && Describes(d, i, ir) && d.isBase
      modifies `s, `alu, `sd
      ensures Executed(old(s), i, s, badMode, health, alu, sd)
    {
      var gen := s.Gen();
      match d.op
      case 0 =>
        if ir == 0 { s := s.(ex := EX_ILLEGAL); return; }
        alu := Add(gen[d.rb], d.imm);
      case 1 =>
        alu := Add(gen[d.rb], d.imm);
      case 2 =>
        alu := Add(gen[d.rb], d.imm);
        sd := gen[d.ra];
      case 3 =>
        alu := Add(gen[d.rb], d.imm);
        sd := gen[d.ra];
      case 4 =>
        if gen[d.rb] == gen[d.ra] { s := s.(pc := Add(s.pc, d.imm)); }
      case 5 =>
        alu := Add(gen[d.rb], d.imm);
      case 6 =>
        alu := d.imm;
      case _ =>
        JumpAndLink(i);
    }

    /** jlr: the rA field chooses between sys, jump-and-link and jump. */
    method JumpAndLink(ghost i: Instr)
      requires Ready() && s.ex == 0 && Describes(d, i, ir) && d.isBase && d.op == 7
      modifies `s
      ensures Executed(old(s), i, s, badMode, health, alu, sd)
    {
      if Top4(ir) != 0xE {
        assert false;
      }
      match d.ra
      case 0 =>
        if d.rb != 0 || d.imm % 2 == 1 || d.imm < 32 || d.imm > 62 {
          s := s.(ex := EX_ILLEGAL);
          return;
        }
        s := s.(ex := d.imm);
      case 1 =>
        s := s.SetLink(s.pc);
        s := s.(pc := Add(s.Gen()[d.rb], d.imm));
      case 2 =>
        s := s.(pc := Add(s.Gen()[d.rb], d.imm));
      case _ =>
        s := s.(ex := EX_ILLEGAL);
    }

    method ExecuteAlu3(ghost i: Instr)
      requires Ready() && s.ex == 0 && Describes(d, i, ir) && d.isXop
      modifies `alu, `s
      ensures Executed(old(s), i, s, badMode, health, alu, sd)
    {
      var rs2, rs1 := s.Gen()[d.rc], s.Gen()[d.rb];
      match d.xop
      case 0 => alu := Add(rs2, rs1); s := s.(hc := 0);
      case 1 => alu := Add(rs2, rs1 + s.hc); s := s.(hc := 0);
      case 2 => alu := Sub(rs2, rs1); s := s.(hc := 0);
      case 3 => alu := Sub(rs2, rs1 + s.hc); s := s.(hc := 0);
      case 4 => alu := Bitwise16(AndNot, rs2, rs1); s := s.(hc := 0);
      case 5 => alu := Bitwise16(Or, rs2, rs1); s := s.(hc := 0);
      case 6 => alu := Bitwise16(Xor, rs2, rs1); s := s.(hc := 0);
      case _ => assert false;
    }

    method ExecuteYop(ghost i: Instr)
      requires Ready() && s.ex == 0 && Describes(d, i, ir) && d.isYop
      modifies `alu, `sd, `s
      ensures Executed(old(s), i, s, badMode, health, alu, sd)
    {
      var gen := s.Gen();
      match d.yop
      case 0 => alu := gen[d.rb];
      case 1 => alu := gen[d.rb];
      case 2 => alu := gen[d.rb]; sd := gen[d.ra];
      case 3 => alu := gen[d.rb]; sd := gen[d.ra];
      case 7 => assert false;
      case _ => s := s.(ex := EX_ILLEGAL);
    }

    method ExecuteAlu1(ghost i: Instr)
      requires Ready() && s.ex == 0 && Describes(d, i, ir) && d.isZop
      modifies `alu, `s
      ensures Executed(old(s), i, s, badMode, health, alu, sd)
    {
      hide Alu1, Alu1Carry;
      var result, hc := OneOperand(d.zop, s.Gen()[d.ra]);
      alu := result;
      s := s.(hc := hc);
    }

    /** Read n words of memory from addr up, for printing. */
    method DumpRow(addr: nat, n: nat)
      requires health == Healthy
      modifies `health
      ensures health == if n == 0 || addr + n <= PHYS_MEM_SIZE then Healthy else Died(DumpBeyondMemory)
    {
      var k := 0;
      while k < n
        invariant k <= n && health == Healthy && (k == 0 || addr + k <= PHYS_MEM_SIZE)
      {
        if addr + k >= PHYS_MEM_SIZE {
          health := Died(DumpBeyondMemory);
          return;
        }
        k := k + 1;
      }
    }

    /** What brk prints: the instruction at the program counter, the row of eight words
        around it, and the row at data address 0. */
    method Dump()
      requires health == Healthy
      modifies `health
      ensures health == if DumpFails(s) then Died(DumpBeyondMemory) else Healthy
    {
      var e, codeAddr := TranslateAddress(false, s.pc);
      if e == 0 {
        DumpRow(codeAddr, 1);
        if health != Healthy { return; }
      }
      DumpRow(codeAddr / 8 * 8, 8);
      if health != Healthy { return; }
      var dataAddr;
      e, dataAddr := TranslateAddress(true, 0);
      if e == 0 {
        DataRowStart();
        DumpRow(dataAddr, 8);
      }
    }

    /** Data address 0 is at the start of a row. */
    lemma DataRowStart()
      ensures var t := Translate(s.Spr(), true, 0); t.At? ==> t.addr % 8 == 0
    {
      var page: int := s.Spr()[48] % 4096;
      assert page * 4096 / 2 == 8 * (page * 256);
    }

    method ExecuteVop(ghost i: Instr)
      requires Ready() && s.ex == 0 && Describes(d, i, ir) && d.isVop
      modifies `s, `badMode, `health
      ensures Executed(old(s), i, s, badMode, health, alu, sd)
    {
      if d.vop == 1 {
        s := s.(pc := s.Spr()[LINK]);
      } else if s.mode == User || d.vop == 6 {
        s := s.(ex := EX_ILLEGAL);
      } else {
        match d.vop
        case 0 =>
          s := s.(ex := 0);
          s := s.(en := true);
          s := s.(pc := s.kspr[IRR]);
          s := s.(kspr := s.kspr[IRR := 0]);
          var m := s.kspr[IMR] % 256;
          badMode := m > 1;
          s := s.(mode := if m == 0 then Kern else User);
        case 2 => s := s.(en := false);
        case 3 => s := s.(en := true);
        case 4 => s := s.(run := false);
        case 5 => Dump();
        case _ => s := s.(ex := EX_ILLEGAL);
      }
    }

    method ExecuteStage(ghost i: Instr)
      requires Ready() && (s.ex == 0 ==> Describes(d, i, ir))
      modifies `s, `alu, `sd, `badMode, `health
      ensures old(s).ex != 0 ==> Ready() && s == old(s)
      ensures old(s).ex == 0 ==> Executed(old(s), i, s, badMode, health, alu, sd)
    {
      if s.ex != 0 { return; }
      if d.isBase {
        ExecuteBase(i);
      } else if d.isXop {
        ExecuteAlu3(i);
      } else if d.isYop {
        ExecuteYop(i);
      } else if d.isZop {
        ExecuteAlu1(i);
      } else {
        ExecuteVop(i);
      }
    }

    // ---- Memory stage ----

    /** ldw, ldb, stw and stb, at the byte address in alu. */
    method AccessData(ghost i: Instr)
      requires health == Healthy && s.ex == 0 && Describes(d, i, ir) && d.op < 4 && !i.Zero?
      modifies `wb, `s, `health
      ensures match AfterMemory(old(s), i, alu, sd)
              case Dead(why) => health == Died(why)
              case Next(t) => health == Healthy && s == t
      ensures IsLoad(i.op) && health == Healthy && s.ex == 0 ==>
        MemoryRead(old(s), i, alu) == Value(wb)
    {
      var isOdd := alu % 2 != 0;
      var e, addr := TranslateAddress(true, alu);
      if e != 0 {
        s := s.(ex := e);
        return;
      }
      if isOdd && (d.op == 0 || d.op == 2) {
        s := s.(ex := EX_MEMORY);
        return;
      }
      if addr == PHYS_MEM_SIZE {
        health := Died(BeyondMemory);
        return;
      }
      var memWord := s.mem[addr];
      match d.op
      case 0 =>
        wb := memWord;
      case 1 =>
        if isOdd { wb := memWord / 256; } else { wb := memWord % 256; }
      case 2 =>
        s := s.(mem := Poke(s.mem, addr, sd));
      case _ =>
        if isOdd {
          memWord := memWord % 256 + sd % 256 * 256;
        } else {
          memWord := memWord / 256 * 256 + sd % 256;
        }
        s := s.(mem := Poke(s.mem, addr, memWord));
    }

    method LoadSpecial()
      requires health == Healthy && s.ex == 0
      modifies `wb, `s, `health
      ensures match ReadSpecial(old(s), alu % SPR_SIZE)
              case Value(v) => wb == v && health == Healthy && s == old(s)
              case Trap(e) => health == Healthy && s == old(s).(ex := e)
              case Fatal(why) => health == Died(why)
    {
      hide HighCycles, MaskedCycles;
      var r := alu % SPR_SIZE;
      if r == PC {
        wb := s.pc;
      } else if r == LINK {
        wb := s.Spr()[LINK];
      } else if r == IRR || r == ICR || r == IMR || r == 5 {
        if s.mode == Kern { wb := s.kspr[r]; } else { s := s.(ex := EX_ILLEGAL); }
      } else if r == CCLS {
        wb := s.cyc % 0x10000;
      } else if r == CCMS {
        wb := MaskedCycles(s.cyc);
      } else if s.mode == User {
        s := s.(ex := EX_ILLEGAL);
      } else if r == MMU_CTL1 {
        wb := s.kspr[MMU_CTL1];
      } else if r > 8 && r < 16 {
        wb := 0;
      } else if r >= 16 && r < 24 {
        wb := s.ugen[r - 16];
      } else if r >= 24 && r < 31 {
        if r == 25 { wb := s.uspr[LINK]; } else { health := Died(MissingSpr); }
      } else if r >= 32 {
        if s.kspr[MMU_CTL1] / 16 % 2 != 0 { wb := s.uspr[r]; } else { wb := s.kspr[r]; }
      } else {
        s := s.(ex := EX_ILLEGAL);
      }
    }

    method StoreSpecial(val: Word)
      requires health == Healthy && s.ex == 0
      modifies `s
      ensures Next(s) == WriteSpecial(old(s), alu % SPR_SIZE, val)
    {
      var r := alu % SPR_SIZE;
      if s.mode == User {
        if r == LINK {
          s := s.(uspr := s.uspr[LINK := val]);
        } else {
          s := s.(ex := EX_ILLEGAL);
        }
      } else if r == IRR || r == ICR || r == IMR || r == 5 || r == MMU_CTL1 {
        s := s.(kspr := s.kspr[r := val]);
      } else if r >= 16 && r < 24 {
        s := s.(ugen := s.ugen[r - 16 := val]);
      } else if r == 25 {
        s := s.(uspr := s.uspr[LINK := val]);
      } else if r >= 32 {
        if s.kspr[MMU_CTL1] / 16 % 2 != 0 {
          s := s.(uspr := s.uspr[r := val]);
        } else {
          s := s.(kspr := s.kspr[r := val]);
        }
      } else {
        s := s.(ex := EX_ILLEGAL);
      }
    }

    method MemoryStage(ghost i: Instr)
      requires health == Healthy
      requires s.ex == 0 ==> Describes(d, i, ir) && !i.Zero? && (badMode ==> i.Vop?)
      modifies `wb, `s, `health
      ensures old(s).ex != 0 || badMode ==> health == Healthy && s == old(s)
      ensures old(s).ex == 0 ==>
        match AfterMemory(old(s), i, alu, sd)
        case Dead(why) => health == Died(why)
        case Next(t) => health == Healthy && s == t
      ensures old(s).ex == 0 && health == Healthy && s.ex == 0 && Target(i) != 0 ==>
        MemoryRead(old(s), i, alu) == Value(wb)
    {
      if s.ex != 0 { return; }
      wb := alu;
      if d.op < 4 {
        AccessData(i);
      } else if d.isYop {
        match d.yop
        case 0 => LoadSpecial();
        case 1 => wb := 0;
        case 2 => StoreSpecial(sd);
        case _ =>
      }
    }

    // ---- Writeback stage ----

    method WritebackStage(ghost i: Instr)
      requires health == Healthy && (s.ex == 0 ==> Describes(d, i, ir) && !i.Zero?)
      modifies `health, `s
      ensures s.ex == old(s).ex
      ensures s.ex == 0 && badMode ==> health == Died(BadMode)
      ensures s.ex == 0 && !badMode ==> health == Healthy && s == old(s).SetGen(Target(i), wb)
      ensures s.ex != 0 ==> health == Healthy && s == old(s)
    {
      if s.ex != 0 { return; }
      if badMode {
        health := Died(BadMode);
        return;
      }
      if d.op == 0 || d.op == 1 || d.op == 5 || d.op == 6 || d.isXop || (d.isYop && d.yop < 2) || d.isZop {
        if d.ra != 0 {
          s := s.SetGen(d.ra, wb);
        }
      }
    }

    // ---- The whole cycle and the simulation loop ----

    /** The five stages perform one step of the instruction set, for every value
        the pipeline registers and decoder outputs may be left with. */
    method Cycle()
      requires Ready() && !DoubleFault(s)
      modifies this
      ensures match Step(old(s))
              case Dead(why) => health == Died(why)
              case Next(t) => Ready() && s == t
    {
      hide Decode;
      FetchStage();
      if health != Healthy { return; }
      ghost var before := s;
      var i := DecodeStage();
      ExecuteStage(i);
      if health != Healthy {
        StagedIsExec(before, i);
        return;
      }
      MemoryStage(i);
      if health == Healthy {
        WritebackStage(i);
      }
      if before.ex == 0 {
        StagedIsExec(before, i);
      }
    }

    /** Run the simulation loop for at most maxTurns turns. */
    method Simulate(maxTurns: nat)
      requires Ready() && s.ex == 0
      modifies this
      ensures match Run(old(s).(cyc := (old(s).cyc + 1) % CYC_SIZE), maxTurns)
              case Dead(why) => health == Died(why)
              case Next(t) => Ready() && s == t
    {
      hide Step;
      s := s.(cyc := (s.cyc + 1) % CYC_SIZE);
      ghost var start := s;
      var n := 0;
      while n < maxTurns && s.run
        invariant n <= maxTurns && Ready() && !DoubleFault(s)
        invariant Run(start, n) == Next(s)
      {
        Cycle();
        n := n + 1;
        if health != Healthy || (s.ex != 0 && !s.en) {
          RunSettled(start, n, maxTurns);
          return;
        }
        s := s.(cyc := (s.cyc + 1) % CYC_SIZE);
      }
      RunSettled(start, n, maxTurns);
    }
  }

  /** A run that has stopped stays where it stopped. */
  lemma {:induction false} RunSettled(s: State, n: nat, m: nat)
    requires n <= m
    requires n == m || Run(s, n).Dead? || !Live(Run(s, n).state)
    ensures Run(s, m) == Run(s, n)
  {
    if n < m {
      RunSettled(s, n, m - 1);
    }
  }
}
