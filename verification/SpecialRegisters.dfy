/** Special registers: what is stored is read back, the counters count, and the page
    registers translate. */
module SpecialRegisters {
  import opened Words
  import opened Wrappers
  import opened Isa
  import A = Assembler
  import opened Encoding
  import opened Instructions

  // ---- Which registers ----

  /** The special registers a mode may store to. */
  predicate Writable(m: Mode, r: nat) {
    if m == User then r == 1
    else 2 <= r <= 5 || r == 8 || 16 <= r <= 23 || r == 25 || 32 <= r <= 63
  }

  /** The special registers a mode may read; reading some of the others kills the emulator. */
  predicate Readable(m: Mode, r: nat) {
    r == 0 || r == 1 || r == 6 || r == 7 || (m == Kern && r <= 63 && r != 31 && (r < 24 || r == 25 || r > 30))
  }

  lemma ReadableExactly(s: State, r: nat)
    requires r < SPR_SIZE
    ensures ReadSpecial(s, r).Value? <==> Readable(s.mode, r)
    ensures ReadSpecial(s, r).Trap? <==> !Readable(s.mode, r) && (s.mode == User || r == 31)
    ensures ReadSpecial(s, r).Trap? ==> ReadSpecial(s, r) == Trap(16)
    ensures s.mode == Kern && 9 <= r <= 15 ==> ReadSpecial(s, r) == Value(0)
  {
  }

  // ---- Storing and reading ----

  /** A store to a register the mode may store to is read back; every other register reads
      as before, except that the MMU control register may point the page registers at the
      other mode's.  Any other store is illegal. */
  lemma StoreThenRead(s: State, r: nat, v: Word, q: nat)
    requires r < SPR_SIZE && q < SPR_SIZE && s.ex == 0
    ensures WriteSpecial(s, r, v).Next?
    ensures var t := WriteSpecial(s, r, v).state;
      if Writable(s.mode, r) then
        && t == s.(kspr := t.kspr, uspr := t.uspr, ugen := t.ugen) && t.Gen() == s.Gen()
        && ReadSpecial(t, r) == Value(v)
        && (q != r && !(r == 8 && q >= 32) ==> ReadSpecial(t, q) == ReadSpecial(s, q))
      else t == s.(ex := EX_ILLEGAL)
  {
  }

  /** The kernel's special registers 16 to 23 are the user's general registers, and 25 the
      user's link. */
  lemma UserRegisters(s: State, k: Reg, v: Word)
    requires s.mode == Kern
    ensures ReadSpecial(s, 16 + k) == Value(s.(mode := User).Gen()[k])
    ensures ReadSpecial(s, 25) == ReadSpecial(s.(mode := User), 1)
    ensures WriteSpecial(s, 16 + k, v).state.(mode := User).Gen() == s.(mode := User).Gen()[k := v]
    ensures WriteSpecial(s, 25, v).state.(mode := User).Spr() == s.(mode := User).Spr()[1 := v]
  {
  }

  /** ssp and then lsp of the same special register carry a value from one general register
      to another. */
  lemma SspThenLsp(s: State, ra: Reg, rb: Reg, rc: Reg, rd: Reg)
    requires Runs(s, A.Line(A.SSP, [A.R(ra), A.R(rb)])) && Writable(s.mode, s.Gen()[rb] % SPR_SIZE)
    requires Step(s).Next? ==> Runs(Step(s).state, A.Line(A.LSP, [A.R(rc), A.R(rd)]))
    requires s.Gen()[rd] % SPR_SIZE == s.Gen()[rb] % SPR_SIZE
    ensures Step(s).Next?
    ensures Yields(Step(s).state, Step(Step(s).state), rc, s.Gen()[ra], s.hc)
  {
    hide Step, Runs, ReadSpecial, WriteSpecial, Yields;
    var r := s.Gen()[rb] % SPR_SIZE;
    SspLine(s, ra, rb);
    NoExceptionPending(s, A.Line(A.SSP, [A.R(ra), A.R(rb)]));
    StoreThenRead(Advance(s), r, s.Gen()[ra], r);
    var t := Step(s).state;
    LspLine(t, rc, rd);
    NextRead(t, r);
    LspGives(t, rc, ReadSpecial(Advance(t), r).v);
  }

  lemma NoExceptionPending(s: State, l: A.Line)
    requires Runs(s, l)
    ensures s.ex == 0
  {
  }

  lemma SspLine(s: State, ra: Reg, rb: Reg)
    requires Runs(s, A.Line(A.SSP, [A.R(ra), A.R(rb)]))
    ensures Step(s) == WriteSpecial(Advance(s), s.Gen()[rb] % SPR_SIZE, s.Gen()[ra])
  {
    hide Decode, FetchAt, Step, A.AssembleLine, A.Rr, WriteSpecial, ReadSpecial;
    A.ShapeRR(A.SSP, ra, rb, s.pc);
    RrDecodes(2, rb, ra);
    RunsStep(s, A.Line(A.SSP, [A.R(ra), A.R(rb)]), Yop(2, ra, rb));
  }

  lemma LspLine(s: State, ra: Reg, rb: Reg)
    requires Runs(s, A.Line(A.LSP, [A.R(ra), A.R(rb)]))
    ensures Step(s) == Receive(Advance(s), ra, ReadSpecial(Advance(s), s.Gen()[rb] % SPR_SIZE))
  {
    hide Decode, FetchAt, Step, A.AssembleLine, A.Rr, WriteSpecial, ReadSpecial;
    A.ShapeRR(A.LSP, ra, rb, s.pc);
    RrDecodes(0, rb, ra);
    RunsStep(s, A.Line(A.LSP, [A.R(ra), A.R(rb)]), Yop(0, ra, rb));
  }

  lemma LspGives(s: State, ra: Reg, v: Word)
    ensures Yields(s, Receive(Advance(s), ra, Value(v)), ra, v, s.hc)
  {
    hide Sets;
    SetsRegister(s, ra, v, s.hc);
  }

  /** Only the program counter reads differently once it has moved on. */
  lemma NextRead(s: State, r: nat)
    requires 0 < r < SPR_SIZE
    ensures ReadSpecial(Advance(s), r) == ReadSpecial(s, r)
  {
  }

  /** lsp of the program counter, the link and the two words of the cycle counter, in either
      mode. */
  lemma ReadsCounters(s: State, ra: Reg, rb: Reg)
    requires Runs(s, A.Line(A.LSP, [A.R(ra), A.R(rb)]))
    ensures var r := s.Gen()[rb] % 64;
      && (r == 0 ==> Yields(s, Step(s), ra, Next1(s.pc), s.hc))
      && (r == 1 ==> Yields(s, Step(s), ra, s.Spr()[1], s.hc))
      && (r == 6 ==> Yields(s, Step(s), ra, s.cyc % 0x10000, s.hc))
      && (r == 7 ==> Yields(s, Step(s), ra, s.cyc / 0x10000 % 0x10000, s.hc))
  {
    hide Step, Runs, Yields, Receive;
    LspLine(s, ra, rb);
    LspGives(s, ra, Next1(s.pc));
    LspGives(s, ra, s.Spr()[1]);
    LspGives(s, ra, s.cyc % 0x10000);
    LspGives(s, ra, s.cyc / 0x10000 % 0x10000);
  }

  // ---- The cycle counter ----

  lemma MemKeepsCycles(s: State, op: MemOp, ra: Reg, rb: Reg, imm: Word)
    ensures var out := Exec(s, Mem(op, ra, rb, imm)); out.Next? ==> out.state.cyc == s.cyc
  {
    hide Translate, Poke;
  }

  lemma SpecialKeepsCycles(s: State, yop: Reg, ra: Reg, rb: Reg)
    ensures Special(s, yop, ra, rb).Next? ==> Special(s, yop, ra, rb).state.cyc == s.cyc
  {
    hide ReadSpecial;
  }

  lemma ExecKeepsCycles(s: State, i: Instr)
    requires Exec(s, i).Next?
    ensures Exec(s, i).state.cyc == s.cyc
  {
    hide ReadData, WriteData, Special, Alu3, Alu1, Alu1Carry, DumpFails;
    match i
    case Mem(op, ra, rb, imm) => MemKeepsCycles(s, op, ra, rb, imm);
    case Yop(yop, ra, rb) => SpecialKeepsCycles(s, yop, ra, rb);
    case _ =>
  }

  lemma StepKeepsCycles(s: State)
    requires Step(s).Next?
    ensures Step(s).state.cyc == s.cyc
  {
    hide Exec, Decode;
    var e := Enter(s);
    if FetchAt(e).Fetch? {
      ExecKeepsCycles(Advance(e), Decode(FetchAt(e).w));
    }
  }

  /** Each turn counts one, except one that ends in a double fault. */
  lemma TurnCounts(s: State)
    requires Turn(s).Next?
    ensures Turn(s).state.cyc == if DoubleFault(Turn(s).state) then s.cyc else (s.cyc + 1) % CYC_SIZE
  {
    hide Step;
    StepKeepsCycles(s);
  }

  /** From power-up the counter, read in turn n + 1 of a run, has counted that turn and all
      before it. */
  lemma {:induction false} CountsTurns(s: State, n: nat)
    requires PoweredUp(s) && Run(Boot(s), n).Next? && Live(Run(Boot(s), n).state)
    ensures Run(Boot(s), n).state.cyc == (n + 1) % CYC_SIZE
  {
    hide Step, Reset, PoweredUp;
    if n > 0 {
      var t := Run(Boot(s), n - 1).state;
      if Live(t) {
        CountsTurns(s, n - 1);
        StepKeepsCycles(t);
        assert ((n % CYC_SIZE) + 1) % CYC_SIZE == (n + 1) % CYC_SIZE by { OneMore(n); }
      }
    }
  }

  lemma OneMore(n: nat)
    ensures ((n % CYC_SIZE) + 1) % CYC_SIZE == (n + 1) % CYC_SIZE
  {
    var q := n / CYC_SIZE;
    assert n + 1 == n % CYC_SIZE + 1 + CYC_SIZE * q;
  }

  // ---- Code addresses ----

  /** The word fetched is the one at the offset of the program counter in the page that the
      mode's own code page register names; pages beyond memory fault, and the word just
      past the end kills the emulator. */
  lemma FetchesCode(s: State)
    ensures var a := s.Spr()[32 + s.pc / 4096] % 4096 * 4096 + s.pc % 4096;
      FetchAt(s) == if a < PHYS_MEM_SIZE then Fetch(s.mem[a])
                    else if a == PHYS_MEM_SIZE then NoFetch(Dead(BeyondMemory))
                    else NoFetch(Next(s.(ex := EX_MEMORY)))
  {
  }

  /** A kernel store to a page register remaps that page, of the user if the control
      register says so, and of the kernel otherwise, and no other. */
  lemma MapsPage(s: State, r: nat, v: Word, isData: bool, a: Word, m: Mode)
    requires s.mode == Kern && 32 <= r < SPR_SIZE
    ensures WriteSpecial(s, r, v).Next?
    ensures var t := WriteSpecial(s, r, v).state.(mode := m);
      var hit := r == (if isData then 48 else 32) + a / 4096 && (m == User <==> s.kspr[8] / 16 % 2 == 1);
      var full := (if hit then v else s.(mode := m).Spr()[(if isData then 48 else 32) + a / 4096]) % 4096 * 4096 + a % 4096;
      var addr := if isData then full / 2 else full;
      Translate(t.Spr(), isData, a) == if addr <= PHYS_MEM_SIZE then At(addr) else Fault
  {
  }
}
