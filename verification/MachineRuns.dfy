/** What every cycle, and hence every run, of the WUT-4 keeps. */
module MachineRuns {
  import opened Words
  import opened Isa
  import opened Emulator

  /** The exceptions this machine can raise: illegal instruction, memory fault,
      and the sixteen system calls. */
  predicate IsException(e: Word) {
    e == EX_ILLEGAL || e == EX_MEMORY || (32 <= e <= 62 && e % 2 == 0)
  }

  predicate Inv(s: State) {
    && (s.mode == User ==> s.en)
    && (s.ex == 0 || IsException(s.ex))
    && s.hc <= 1
    && s.kgen[0] == 0
  }

  // ---- Precise exceptions ----

  /** An outcome that raises an exception does nothing else. */
  predicate Precise(s: State, out: Outcome) {
    out.Next? && out.state.ex != 0 ==> out.state == s.(ex := out.state.ex) && IsException(out.state.ex)
  }

  lemma MemPrecise(s: State, op: MemOp, ra: Reg, rb: Reg, imm: Word)
    requires s.ex == 0
    ensures Precise(s, Exec(s, Mem(op, ra, rb, imm)))
  {
    hide Translate, Poke;
  }

  lemma SpecialPrecise(s: State, yop: Reg, ra: Reg, rb: Reg)
    requires s.ex == 0
    ensures Precise(s, Special(s, yop, ra, rb))
  {
  }

  lemma ExecPrecise(s: State, i: Instr)
    requires s.ex == 0
    ensures Precise(s, Exec(s, i))
  {
    hide ReadData, WriteData, Special, Alu3, Alu1, Alu1Carry;
    match i
    case Mem(op, ra, rb, imm) => MemPrecise(s, op, ra, rb, imm);
    case Yop(yop, ra, rb) => SpecialPrecise(s, yop, ra, rb);
    case _ =>
  }

  /** A cycle that ends with an exception pending has changed nothing since trap
      entry except, unless the fetch itself faulted, the program counter. */
  lemma PreciseException(s: State)
    requires Step(s).Next? && Step(s).state.ex != 0
    ensures var e, t := Enter(s), Step(s).state;
      && IsException(t.ex)
      && t == (if FetchAt(e).Fetch? then Advance(e) else e).(ex := t.ex)
  {
    hide Exec, Decode;
    var e := Enter(s);
    match FetchAt(e)
    case NoFetch(_) =>
    case Fetch(w) => ExecPrecise(Advance(e), Decode(w));
  }

  // ---- The invariant of every run from reset ----

  predicate KeepsInv(out: Outcome) {
    out.Next? ==> Inv(out.state)
  }

  lemma MemInv(s: State, op: MemOp, ra: Reg, rb: Reg, imm: Word)
    requires Inv(s) && s.ex == 0
    ensures KeepsInv(Exec(s, Mem(op, ra, rb, imm)))
  {
    hide Translate, Poke, IsException;
    assert IsException(EX_MEMORY) by { MemoryFaultIsException(); }
  }

  lemma MemoryFaultIsException()
    ensures IsException(EX_MEMORY) && IsException(EX_ILLEGAL)
  {
  }

  lemma SpecialInv(s: State, yop: Reg, ra: Reg, rb: Reg)
    requires Inv(s) && s.ex == 0
    ensures KeepsInv(Special(s, yop, ra, rb))
  {
    hide IsException;
    MemoryFaultIsException();
  }

  lemma ExecInv(s: State, i: Instr)
    requires Inv(s) && s.ex == 0
    ensures KeepsInv(Exec(s, i))
  {
    hide ReadData, WriteData, Special, Alu3, Alu1;
    match i
    case Mem(op, ra, rb, imm) => MemInv(s, op, ra, rb, imm);
    case Yop(yop, ra, rb) => SpecialInv(s, yop, ra, rb);
    case _ =>
  }

  lemma StepInv(s: State)
    requires Inv(s) && Step(s).Next?
    ensures Inv(Step(s).state)
  {
    hide Exec, Decode;
    var e := Enter(s);
    match FetchAt(e)
    case NoFetch(_) =>
    case Fetch(w) => ExecInv(Advance(e), Decode(w));
  }

  /** From power-up and reset, for any memory contents and any number of turns:
      user mode always has exceptions enabled, only real exceptions are ever
      pending, the hidden carry is a bit, kernel r0 is zero, a double fault
      strikes only in kernel mode, and the fetch stage never finds one. */
  lemma {:induction false} RunInv(s: State, n: nat)
    requires PoweredUp(s)
    ensures match Run(Boot(s), n)
            case Next(t) => Inv(t) && (DoubleFault(t) ==> t.mode == Kern)
            case Dead(why) => why != DoubleFaultInFetch
  {
    hide Step;
    if n > 0 {
      RunInv(s, n - 1);
      match Run(Boot(s), n - 1)
      case Dead(_) =>
      case Next(t) =>
        if Live(t) {
          StepDeath(t);
          if Step(t).Next? {
            StepInv(t);
          }
        }
    }
  }

  /** The emulator from its start: power up with the memory as loaded, reset, simulate.
      However long it is left to run, it is where the run of single steps from the boot
      state gets to, and what every such run keeps holds of it. */
  method PowerUp(physmem: Memory, maxTurns: nat) returns (m: Machine, ghost start: State)
    ensures PoweredUp(start) && start.mem == physmem
    ensures match Run(Boot(start), maxTurns)
            case Dead(why) => m.health == Died(why) && why != DoubleFaultInFetch
            case Next(t) =>
              && m.Ready() && m.s == t && Inv(m.s)
              && (DoubleFault(m.s) ==> m.s.mode == Kern)
  {
    hide Run, Inv, PoweredUp;
    m := new Machine(physmem);
    start := m.s;
    m.ResetMachine();
    m.Simulate(maxTurns);
    RunInv(start, maxTurns);
  }

  // ---- Exactly when the emulator itself dies ----

  /** The word just past physical memory is about to be touched as data. */
  predicate TouchesEnd(s: State, op: MemOp, ea: Word) {
    Translate(s.Spr(), true, ea) == At(PHYS_MEM_SIZE) && !(IsWide(op) && ea % 2 == 1)
  }

  /** The one way, if any, in which executing i kills the emulator, told from the
      registers it names. */
  function FatalExec(s: State, i: Instr): Health {
    match i
    case Mem(op, ra, rb, imm) =>
      if TouchesEnd(s, op, Add(s.Gen()[rb], imm)) then Died(BeyondMemory) else Healthy
    case Yop(yop, ra, rb) =>
      var r := s.Gen()[rb] % SPR_SIZE;
      if yop == 0 && s.mode == Kern && 24 <= r <= 30 && r != 25 then Died(MissingSpr) else Healthy
    case Vop(vop) =>
      if vop == 0 && s.mode == Kern && s.kspr[IMR] % 256 > 1 then Died(BadMode)
      else if vop == 5 && s.mode == Kern && DumpFails(s) then Died(DumpBeyondMemory)
      else Healthy
    case _ => Healthy
  }

  lemma ExecDeath(s: State, i: Instr)
    ensures match FatalExec(s, i)
            case Healthy => Exec(s, i).Next?
            case Died(why) => Exec(s, i) == Dead(why)
  {
    hide Translate, Alu3, Alu1, Alu1Carry;
    match i
    case Yop(yop, ra, rb) =>
    case _ =>
  }

  /** The condition, visible before the cycle, under which the cycle kills the emulator. */
  function FatalStep(s: State): Health {
    var e := Enter(s);
    if DoubleFault(s) then Died(DoubleFaultInFetch)
    else if Translate(e.Spr(), false, e.pc) == At(PHYS_MEM_SIZE) then Died(BeyondMemory)
    else
      match FetchAt(e)
      case NoFetch(_) => Healthy
      case Fetch(w) => FatalExec(Advance(e), Decode(w))
  }

  lemma StepDeath(s: State)
    ensures match FatalStep(s)
            case Healthy => Step(s).Next?
            case Died(why) => Step(s) == Dead(why)
  {
    hide Exec, Decode, FatalExec;
    var e := Enter(s);
    match FetchAt(e)
    case NoFetch(_) =>
    case Fetch(w) => ExecDeath(Advance(e), Decode(w));
  }

  // ---- The user's r0 ----

  /** A kernel store to special register 16, which is the user's r0. */
  predicate StoresUserZero(s: State, i: Instr) {
    s.mode == Kern && i.Yop? && i.yop == 2 && s.Gen()[i.rb] % SPR_SIZE == 16
  }

  /** The user's r0 after executing i. */
  function UserZeroAfter(s: State, i: Instr): Word {
    if StoresUserZero(s, i) then s.Gen()[i.ra] else s.ugen[0]
  }

  lemma SpecialUserZero(s: State, yop: Reg, ra: Reg, rb: Reg)
    ensures Special(s, yop, ra, rb).Next? ==>
      Special(s, yop, ra, rb).state.ugen[0] == UserZeroAfter(s, Yop(yop, ra, rb))
  {
  }

  lemma MemUserZero(s: State, op: MemOp, ra: Reg, rb: Reg, imm: Word)
    ensures var out := Exec(s, Mem(op, ra, rb, imm)); out.Next? ==> out.state.ugen[0] == s.ugen[0]
  {
    hide Translate, Poke;
  }

  lemma ExecUserZero(s: State, i: Instr)
    requires Exec(s, i).Next?
    ensures Exec(s, i).state.ugen[0] == UserZeroAfter(s, i)
  {
    hide ReadData, WriteData, Special, Alu3, Alu1, Alu1Carry;
    match i
    case Mem(op, ra, rb, imm) => MemUserZero(s, op, ra, rb, imm);
    case Yop(yop, ra, rb) => SpecialUserZero(s, yop, ra, rb);
    case _ =>
  }

  /** The instruction that a cycle executes, if it gets that far, and what it makes of the
      user's r0. */
  function NextUserZero(s: State): Word {
    var e := Enter(s);
    match FetchAt(e)
    case NoFetch(_) => s.ugen[0]
    case Fetch(w) => UserZeroAfter(Advance(e), Decode(w))
  }

  lemma TurnUserZero(s: State)
    requires Turn(s).Next?
    ensures Turn(s).state.ugen[0] == NextUserZero(s)
  {
    hide Exec, Decode, UserZeroAfter;
    var e := Enter(s);
    if FetchAt(e).Fetch? {
      ExecUserZero(Advance(e), Decode(FetchAt(e).w));
    }
  }

  /** What the kernel last stored in the user's r0 in the first n turns from s, or what it
      held at the start. */
  function LastUserZero(s: State, n: nat): Word {
    if n == 0 then s.ugen[0]
    else match Run(s, n - 1)
      case Dead(_) => LastUserZero(s, n - 1)
      case Next(t) =>
        if Live(t) && Stores(t) then NextUserZero(t) else LastUserZero(s, n - 1)
  }

  /** The next cycle stores to the user's r0. */
  predicate Stores(s: State) {
    var e := Enter(s);
    FetchAt(e).Fetch? && StoresUserZero(Advance(e), Decode(FetchAt(e).w))
  }

  lemma NotStored(s: State)
    requires !Stores(s)
    ensures NextUserZero(s) == s.ugen[0]
  {
    hide Decode, StoresUserZero;
  }

  /** Over any run the user's r0 is what the kernel last stored in special register 16: so
      from power-up it is 0 if and only if that was 0 or there was no such store, and the
      user can do nothing about it. */
  lemma {:induction false} UserZero(s: State, n: nat)
    requires Run(s, n).Next?
    ensures Run(s, n).state.ugen[0] == LastUserZero(s, n)
  {
    hide Turn, NextUserZero, Stores;
    if n > 0 {
      UserZero(s, n - 1);
      var t := Run(s, n - 1).state;
      if Live(t) {
        TurnUserZero(t);
        if !Stores(t) {
          NotStored(t);
        }
      }
    }
  }

  predicate ZeroAt(s: State, n: nat) {
    Run(s, n).Next? ==> Run(s, n).state.ugen[0] == 0
  }

  /** If turn n is made and stores to the user's r0, then 0. */
  predicate SparesAt(s: State, n: nat) {
    Run(s, n + 1).Next? && Live(Run(s, n).state) && Stores(Run(s, n).state) ==> NextUserZero(Run(s, n).state) == 0
  }

  lemma ZeroNext(s: State, n: nat)
    requires ZeroAt(s, n)
    ensures ZeroAt(s, n + 1) <==> SparesAt(s, n)
  {
    hide Turn, NextUserZero, Stores;
    if Run(s, n + 1).Next? && Live(Run(s, n).state) {
      var t := Run(s, n).state;
      TurnUserZero(t);
      if !Stores(t) {
        NotStored(t);
      }
    }
  }

  /** From power-up, whatever runs: the user's r0 is 0 after every turn if and only if every
      turn that stores to it stores 0. */
  lemma {:induction false} UserZeroKept(s: State, n: nat)
    requires PoweredUp(s)
    ensures (forall k :: 0 <= k <= n ==> ZeroAt(Boot(s), k)) <==> (forall k :: 0 <= k < n ==> SparesAt(Boot(s), k))
  {
    hide ZeroAt, SparesAt;
    if n == 0 {
      ZeroAtBoot(s);
    } else {
      UserZeroKept(s, n - 1);
      if ZeroAt(Boot(s), n - 1) {
        ZeroNext(Boot(s), n - 1);
      }
    }
  }

  lemma ZeroAtBoot(s: State)
    requires PoweredUp(s)
    ensures ZeroAt(Boot(s), 0)
  {
  }
}
