/** Taking an exception and returning from it. */
module Traps {
  import opened Words
  import opened Isa
  import A = Assembler
  import opened Encoding
  import opened Instructions
  import MachineRuns

  /** The instruction that the next cycle executes, if it gets that far. */
  function Executing(s: State): (r: Fetched) {
    FetchAt(Enter(s))
  }

  predicate Executes(s: State, i: Instr) {
    Executing(s).Fetch? && Decode(Executing(s).w) == i
  }

  const RTI := Vop(0)

  /** A store to the special register r, made by executing i in state s. */
  predicate StoresSpr(s: State, i: Instr, r: nat) {
    i.Yop? && i.yop == 2 && s.Gen()[i.rb] % SPR_SIZE == r
  }

  /** The next cycle runs a kernel instruction that raises nothing, does not
      return, and leaves the interrupt return and mode registers alone. */
  predicate KeepsFrame(s: State) {
    var e := Enter(s);
    && FetchAt(e).Fetch?
    && var i := Decode(FetchAt(e).w);
       && i != RTI
       && !StoresSpr(e, i, IRR) && !StoresSpr(e, i, IMR)
       && Exec(Advance(e), i).Next?
       && Exec(Advance(e), i).state.ex == 0
  }

  /** Executing i stores to a general register, the link or the MMU of the user. */
  predicate HitsUser(e: State, i: Instr) {
    && i.Yop? && i.yop == 2
    && var r := e.Gen()[i.rb] % SPR_SIZE;
       16 <= r < 24 || r == 25 || (32 <= r && AccessesUserMmu(e))
  }

  /** The next cycle stores to no register of the user's. */
  predicate SparesUser(s: State) {
    var e := Enter(s);
    FetchAt(e).Fetch? ==> !HitsUser(e, Decode(FetchAt(e).w))
  }

  /** The kernel holds what is needed to go back to pc in mode m. */
  predicate Frame(s: State, pc: Word, m: Mode) {
    var e := Enter(s);
    && e.mode == Kern && e.ex == 0 && !DoubleFault(s)
    && e.kspr[IRR] == pc && e.kspr[IMR] == ModeNumber(m)
  }

  /** The frame and, unless i hits it, the user's part survive the outcome. */
  predicate Survives(e: State, i: Instr, out: Outcome) {
    out.Next? && out.state.ex == 0 ==>
      var t := out.state;
      && t.mode == Kern && t.kspr[IRR] == e.kspr[IRR] && t.kspr[IMR] == e.kspr[IMR]
      && (!HitsUser(e, i) ==> t.ugen == e.ugen && t.uspr == e.uspr)
  }

  lemma MemKeepsFrame(e: State, op: MemOp, ra: Reg, rb: Reg, imm: Word)
    requires e.mode == Kern
    ensures Survives(e, Mem(op, ra, rb, imm), Exec(e, Mem(op, ra, rb, imm)))
  {
    hide Translate, Poke;
  }

  lemma SpecialKeepsFrame(e: State, yop: Reg, ra: Reg, rb: Reg)
    requires e.mode == Kern
    requires !StoresSpr(e, Yop(yop, ra, rb), IRR) && !StoresSpr(e, Yop(yop, ra, rb), IMR)
    ensures Survives(e, Yop(yop, ra, rb), Special(e, yop, ra, rb))
  {
  }

  lemma ExecKeepsFrame(e: State, i: Instr)
    requires e.mode == Kern && e.ex == 0 && i != RTI
    requires !StoresSpr(e, i, IRR) && !StoresSpr(e, i, IMR)
    ensures Survives(e, i, Exec(e, i))
  {
    hide ReadData, WriteData, Special, Alu3, Alu1, Alu1Carry;
    match i
    case Mem(op, ra, rb, imm) => MemKeepsFrame(e, op, ra, rb, imm);
    case Yop(yop, ra, rb) => SpecialKeepsFrame(e, yop, ra, rb);
    case _ =>
  }

  lemma TurnKeepsFrame(s: State, pc: Word, m: Mode)
    requires Frame(s, pc, m) && KeepsFrame(s)
    ensures Turn(s).Next? && Frame(Turn(s).state, pc, m)
    ensures SparesUser(s) ==> Turn(s).state.ugen == s.ugen && Turn(s).state.uspr == s.uspr
  {
    hide Exec, Decode;
    var e := Enter(s);
    ExecKeepsFrame(Advance(e), Decode(FetchAt(e).w));
  }

  lemma {:induction false} RunKeepsFrame(s: State, n: nat)
    requires s.ex != 0 && s.en
    requires forall k | 0 <= k < n :: Run(s, k).Next? ==> KeepsFrame(Run(s, k).state)
    ensures Run(s, n).Next? && Frame(Run(s, n).state, s.pc, s.mode)
    ensures (forall k | 0 <= k < n :: Run(s, k).Next? ==> SparesUser(Run(s, k).state)) ==>
      Run(s, n).state.ugen == s.ugen && Run(s, n).state.uspr == s.uspr
  {
    hide Step, KeepsFrame, SparesUser;
    if n > 0 {
      RunKeepsFrame(s, n - 1);
      var t := Run(s, n - 1).state;
      if Live(t) {
        TurnKeepsFrame(t, s.pc, s.mode);
      }
    }
  }

  /** A return clears the return register and changes nothing else. */
  lemma RtiReturns(s: State, pc: Word, m: Mode)
    requires Frame(s, pc, m) && Executes(s, RTI)
    ensures Step(s).Next?
    ensures var e, t := Enter(s), Step(s).state;
      && t.pc == pc && t.mode == m && t.en && t.ex == 0 && t.ugen == s.ugen && t.uspr == s.uspr
      && t.kgen == s.kgen && t.mem == s.mem && t.hc == s.hc && t.run == s.run
      && t.kspr[IRR] == 0 && forall r :: 0 <= r < SPR_SIZE && r != IRR ==> t.kspr[r] == e.kspr[r]
  {
    hide Decode, FetchAt;
  }

  /** An exception taken in any mode, any number of kernel cycles that keep the
      frame, and an rti: the interrupted program resumes at its program counter,
      in its mode, with exceptions enabled and, if the kernel stored to none of
      the user's registers, with those registers intact. */
  lemma TrapRoundTrip(s: State, n: nat)
    requires s.ex != 0 && s.en
    requires forall k | 0 <= k < n :: Run(s, k).Next? ==> KeepsFrame(Run(s, k).state)
    requires Run(s, n).Next? && Executes(Run(s, n).state, RTI)
    ensures Step(Run(s, n).state).Next?
    ensures var t := Step(Run(s, n).state).state;
      && t.pc == s.pc && t.mode == s.mode && t.en && t.ex == 0
      && ((forall k | 0 <= k < n :: Run(s, k).Next? ==> SparesUser(Run(s, k).state)) ==>
           t.ugen == s.ugen && t.uspr == s.uspr)
  {
    hide Step, Frame, Executes, KeepsFrame, SparesUser;
    RunKeepsFrame(s, n);
    RtiReturns(Run(s, n).state, s.pc, s.mode);
  }

  // ---- Entering the kernel ----

  /** The state in which the handler's first instruction is executed. */
  function AtHandler(s: State): State {
    s.(mode := Kern, en := false, ex := 0, pc := Next1(s.ex),
       kspr := s.kspr[IRR := s.pc][ICR := s.ex][IMR := if s.mode == Kern then 0 else 1])
  }

  /** An exception pending with exceptions enabled is taken at the kernel address of its own
      number, through the kernel's code pages, with the cause, the address and the mode
      recorded and exceptions off. */
  lemma TrapEntry(s: State, a: nat)
    requires s.ex != 0 && s.en
    requires a == s.kspr[32 + s.ex / 4096] % 4096 * 4096 + s.ex % 4096 && a < PHYS_MEM_SIZE
    ensures Step(s) == Exec(AtHandler(s), Decode(s.mem[a]))
  {
    hide Exec, Decode;
  }

  /** A system call: the handler at the kernel address of its number runs its first
      instruction, here one that only moves on, knowing who called. */
  lemma SystemCallEnters(s: State, v: int, a: nat, ra: Reg, rb: Reg)
    requires s.en && 32 <= v && Runs(s, A.Line(A.SYS, [A.I(v)]))
    requires a == s.kspr[32] % 4096 * 4096 + v && a < PHYS_MEM_SIZE && s.mem[a] == A.Rr(3, rb, ra)
    ensures Step(s).Next? && Step(Step(s).state).Next?
    ensures var t := Step(Step(s).state).state;
      && t.pc == v + 1 && t.mode == Kern && !t.en && t.ex == 0
      && t.kspr[ICR] == v && t.kspr[IRR] == Next1(s.pc) && t.kspr[IMR] == (if s.mode == Kern then 0 else 1)
      && t.kgen == s.kgen && t.ugen == s.ugen && t.uspr == s.uspr && t.mem == s.mem
  {
    hide Decode, Step, Runs, A.Rr;
    SystemCall(s, v);
    var t := Step(s).state;
    TrapEntry(t, a);
    RrDecodes(3, rb, ra);
  }

  // ---- Enabling and disabling ----

  /** After di the next exception is a double fault, which ends the run; after ei it is
      pending, to be taken. */
  lemma EnablesDecide(s: State, on: bool)
    requires s.mode == Kern && Runs(s, A.Line(if on then A.EI else A.DI, []))
    requires Step(s).Next? ==> Step(Step(s).state).Next? && Step(Step(s).state).state.ex != 0
    ensures Step(s).Next?
    ensures var t := Step(Step(s).state).state;
      (DoubleFault(t) <==> !on) && (on ==> t.en) && (!on ==> !Live(t))
  {
    hide Step, FetchAt, A.AssembleLine;
    NoOperand(s, if on then A.EI else A.DI);
    ExceptionKeepsEnable(Step(s).state);
  }

  lemma ExceptionKeepsEnable(s: State)
    requires s.ex == 0 && Step(s).Next? && Step(s).state.ex != 0
    ensures Step(s).state.en == s.en
  {
    hide Step, FetchAt;
    MachineRuns.PreciseException(s);
  }

  /** hlt ends the run. */
  lemma HaltEnds(s: State, n: nat)
    requires s.mode == Kern && s.run && !DoubleFault(s) && n > 0 && Runs(s, A.Line(A.HLT, []))
    ensures Run(s, n) == Next(s.(pc := Next1(s.pc), run := false, cyc := (s.cyc + 1) % CYC_SIZE))
    decreases n
  {
    hide Step, Runs;
    NoOperand(s, A.HLT);
    if n > 1 {
      HaltEnds(s, n - 1);
    } else {
      assert Run(s, 0) == Next(s);
    }
  }

  /** With exceptions off after a reset, a first instruction that raises one, such as the
      zero word of empty memory, ends the run. */
  lemma EmptyMemoryStops(s: State)
    requires PoweredUp(s) && s.mem[0] == 0
    ensures Run(Boot(s), 1).Next? && DoubleFault(Run(Boot(s), 1).state) && !Live(Run(Boot(s), 1).state)
  {
    hide Step;
    var b := Boot(s);
    assert FetchAt(b) == Fetch(0);
    ZeroWord(b);
    assert Run(b, 0) == Next(b);
  }
}
