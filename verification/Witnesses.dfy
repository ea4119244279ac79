/** Programs that show what the run theorems leave possible: from power-up, a few
    instructions kill the emulator in each of the ways it can die, or spoil the user's
    r0. */
module Witnesses {
  import opened Words
  import opened Wrappers
  import opened Isa
  import A = Assembler
  import opened Encoding

  // ---- One turn of kernel code at the bottom of memory ----

  /** Kernel mode, nothing pending, code page 0 in place. */
  predicate Kernel(s: State) {
    s.mode == Kern && s.ex == 0 && s.run && s.pc < 64 && s.kspr[32] == 0 && s.kgen[0] == 0
  }

  function Ticked(s: State): State { s.(cyc := (s.cyc + 1) % CYC_SIZE) }

  lemma KernelStep(s: State, i: Instr)
    requires Kernel(s) && Decode(s.mem[s.pc]) == i
    ensures FetchAt(s) == Fetch(s.mem[s.pc])
    ensures Step(s) == Exec(Advance(s), i)
    ensures Step(s).Next? && Step(s).state.ex == 0 ==> Turn(s) == Next(Ticked(Step(s).state))
    ensures Step(s).Dead? ==> Turn(s) == Step(s)
  {
    hide Exec, Decode;
  }

  /** The first n words of memory are the program. */
  ghost predicate Loaded(s: State, ws: seq<Word>) {
    PoweredUp(s) && |ws| <= 8 && s.mem[..|ws|] == ws
  }

  lemma WordAt(s: State, ws: seq<Word>, p: nat)
    requires Loaded(s, ws) && p < |ws|
    ensures s.mem[p] == ws[p]
  {
    assert s.mem[p] == s.mem[..|ws|][p];
  }

  lemma BootIsKernel(s: State)
    requires PoweredUp(s)
    ensures Kernel(Boot(s)) && Boot(s).mem == s.mem && Boot(s).ugen[0] == 0
    ensures Boot(s).pc == 0 && Boot(s).kspr == s.kspr[IMR := 1] && Boot(s).kspr[MMU_CTL1] == 0
  {
  }

  // ---- The instructions used ----

  function Lsi(r: Reg, v: nat): Word
    requires v < 64
  {
    A.Rri(5, v, 0, r)
  }

  function Ssp(ra: Reg, rb: Reg): Word { A.Rr(2, rb, ra) }

  function Lsp(ra: Reg, rb: Reg): Word { A.Rr(0, rb, ra) }

  lemma LdwDecodes(ra: Reg)
    requires ra != 0
    ensures Decode(A.Rri(0, 0, 0, ra)) == Mem(Ldw, ra, 0, 0)
  {
    hide Decode;
    RriDecodes(0, 0, 0, ra);
  }

  /** A register load: lsi, or lui of an immediate a multiple of 64. */
  predicate Loads(w: Word, r: Reg, v: Word) {
    Decode(w) == Adi(r, 0, v) || Decode(w) == Lui(r, v)
  }

  lemma LsiLoads(r: Reg, v: nat)
    requires v < 64
    ensures Loads(Lsi(r, v), r, v)
  {
    hide Decode;
    RriDecodes(5, v, 0, r);
  }

  lemma LoadTurn(s: State, r: Reg, v: Word)
    requires Kernel(s) && Loads(s.mem[s.pc], r, v) && r != 0
    ensures Turn(s) == Next(Ticked(s.(kgen := s.kgen[r := v], pc := s.pc + 1)))
  {
    hide Decode, Turn, Step;
    KernelStep(s, Decode(s.mem[s.pc]));
  }

  /** Two loads, and the state in which the third instruction is executed. */
  function Loaded2(b: State, v: Word, k: Word): State {
    Ticked(Ticked(b.(kgen := b.kgen[1 := v][2 := k], pc := 2)))
  }

  lemma TwoLoads(s: State, ws: seq<Word>, v: Word, k: Word)
    requires Loaded(s, ws) && |ws| >= 3 && Loads(ws[0], 1, v) && Loads(ws[1], 2, k)
    ensures Run(Boot(s), 2) == Next(Loaded2(Boot(s), v, k)) && Kernel(Loaded2(Boot(s), v, k))
    ensures var t := Loaded2(Boot(s), v, k);
      t.mem[t.pc] == ws[2] && t.kgen[1] == v && t.kgen[2] == k
  {
    hide Loads, Turn, Reset;
    BootIsKernel(s);
    WordAt(s, ws, 0);
    WordAt(s, ws, 1);
    WordAt(s, ws, 2);
    var b := Boot(s);
    LoadTurn(b, 1, v);
    var c := Ticked(b.(kgen := b.kgen[1 := v], pc := 1));
    LoadTurn(c, 2, k);
    assert Run(b, 0) == Next(b);
    assert Run(b, 1) == Next(c);
  }

  /** A store to a special register of the kernel's other than code page 0. */
  predicate OwnRegister(k: Word) { k == IMR || 33 <= k < 64 }

  lemma StoreTurn(s: State, k: Word)
    requires Kernel(s) && s.mem[s.pc] == Ssp(1, 2) && s.kgen[2] == k && OwnRegister(k)
    requires s.kspr[MMU_CTL1] == 0
    ensures Turn(s) == Next(Ticked(s.(kspr := s.kspr[k := s.kgen[1]], pc := s.pc + 1)))
  {
    hide Decode, Turn, Step;
    RrDecodes(2, 2, 1);
    KernelStep(s, Yop(2, 1, 2));
  }

  /** Two loads and a store, and the state in which the fourth instruction is executed. */
  function Stored3(b: State, v: Word, k: Word): State
    requires k < SPR_SIZE
  {
    Ticked(Loaded2(b, v, k).(kspr := b.kspr[k := v], pc := 3))
  }

  lemma StoreSpr(s: State, ws: seq<Word>, v: Word, k: Word)
    requires Loaded(s, ws) && |ws| >= 4 && Loads(ws[0], 1, v) && Loads(ws[1], 2, k) && ws[2] == Ssp(1, 2)
    requires OwnRegister(k)
    ensures Run(Boot(s), 3) == Next(Stored3(Boot(s), v, k)) && Kernel(Stored3(Boot(s), v, k))
    ensures var t := Stored3(Boot(s), v, k); t.mem[t.pc] == ws[3] && t.kspr[k] == v
  {
    hide Loads, Turn, Reset, Ssp;
    TwoLoads(s, ws, v, k);
    BootIsKernel(s);
    WordAt(s, ws, 2);
    WordAt(s, ws, 3);
    StoreTurn(Loaded2(Boot(s), v, k), k);
  }

  lemma LastTurn(s: State, n: nat, t: State, i: Instr)
    requires Run(s, n) == Next(t) && Kernel(t) && Decode(t.mem[t.pc]) == i && Exec(Advance(t), i).Dead?
    ensures Run(s, n + 1) == Exec(Advance(t), i)
  {
    hide Exec, Decode, Turn, Step;
    KernelStep(t, i);
  }

  // ---- Dying ----

  lemma MissingSprAt(s: State)
    requires s.mode == Kern && s.kgen[2] == 24
    ensures Exec(Advance(s), Yop(0, 3, 2)) == Dead(MissingSpr)
  {
  }

  /** lsi r1, 24; lsi r2, 24; lsp r3, r2: a special register that is not there. */
  lemma DiesOfMissingSpr(s: State)
    requires Loaded(s, [Lsi(1, 24), Lsi(2, 24), Lsp(3, 2)])
    ensures Run(Boot(s), 3) == Dead(MissingSpr)
  {
    hide Decode, Boot, Lsi, Lsp, Loaded, Loaded2, Exec, Run, Loads;
    LsiLoads(1, 24);
    LsiLoads(2, 24);
    TwoLoads(s, [Lsi(1, 24), Lsi(2, 24), Lsp(3, 2)], 24, 24);
    var t := Loaded2(Boot(s), 24, 24);
    LspDecodes(3, 2);
    MissingSprAt(t);
    LastTurn(Boot(s), 2, t, Yop(0, 3, 2));
  }

  lemma LspDecodes(ra: Reg, rb: Reg)
    ensures Decode(Lsp(ra, rb)) == Yop(0, ra, rb)
  {
    hide Decode;
    RrDecodes(0, rb, ra);
  }

  lemma BadModeAt(s: State)
    requires s.mode == Kern && s.kspr[IMR] == 2
    ensures Exec(Advance(s), Vop(0)) == Dead(BadMode)
  {
  }

  /** lsi r1, 2; lsi r2, 4; ssp r1, r2; rti: a return to mode 2. */
  lemma DiesOfBadMode(s: State)
    requires Loaded(s, [Lsi(1, 2), Lsi(2, 4), Ssp(1, 2), A.R0(0)])
    ensures Run(Boot(s), 4) == Dead(BadMode)
  {
    hide Decode, Boot, Lsi, Ssp, A.R0, Loaded, Stored3, Exec, Run, Loads;
    LsiLoads(1, 2);
    LsiLoads(2, 4);
    StoreSpr(s, [Lsi(1, 2), Lsi(2, 4), Ssp(1, 2), A.R0(0)], 2, 4);
    var t := Stored3(Boot(s), 2, 4);
    R0Decodes(0);
    BadModeAt(t);
    LastTurn(Boot(s), 3, t, Vop(0));
  }

  /** Data page 0 just past the end of memory: neither loads nor dumps survive it. */
  lemma PageAtEnd(s: State)
    requires s.mode == Kern && s.kspr[48] == 192 && s.kgen[0] == 0 && FetchAt(Advance(s)).Fetch?
    ensures Exec(Advance(s), Mem(Ldw, 3, 0, 0)) == Dead(BeyondMemory)
    ensures Exec(Advance(s), Vop(5)) == Dead(DumpBeyondMemory)
  {
  }

  lemma NextFetches(s: State)
    requires Kernel(s)
    ensures s.mode == Kern && s.kgen[0] == 0 && FetchAt(Advance(s)).Fetch?
  {
  }

  /** lui r1, 3; lsi r2, 48; ssp r1, r2; and then a load from address 0. */
  lemma DiesBeyondMemory(s: State)
    requires Loaded(s, [A.Upper(3, 1), Lsi(2, 48), Ssp(1, 2), A.Rri(0, 0, 0, 3)])
    ensures Run(Boot(s), 4) == Dead(BeyondMemory)
  {
    hide Decode, Boot, Lsi, Ssp, A.Upper, A.Rri, Loaded, Stored3, Exec, Run, Loads, Kernel;
    LuiLoads();
    LsiLoads(2, 48);
    StoreSpr(s, [A.Upper(3, 1), Lsi(2, 48), Ssp(1, 2), A.Rri(0, 0, 0, 3)], 192, 48);
    var t := Stored3(Boot(s), 192, 48);
    LdwDecodes(3);
    NextFetches(t);
    PageAtEnd(t);
    LastTurn(Boot(s), 3, t, Mem(Ldw, 3, 0, 0));
  }

  lemma LuiLoads()
    ensures Loads(A.Upper(3, 1), 1, 192)
  {
    hide Decode;
    UpperDecodes(3, 1);
  }

  /** The same with a breakpoint last. */
  lemma DiesInDump(s: State)
    requires Loaded(s, [A.Upper(3, 1), Lsi(2, 48), Ssp(1, 2), A.R0(5)])
    ensures Run(Boot(s), 4) == Dead(DumpBeyondMemory)
  {
    hide Decode, Boot, Lsi, Ssp, A.Upper, A.R0, Loaded, Stored3, Exec, Run, Loads, Kernel;
    LuiLoads();
    LsiLoads(2, 48);
    StoreSpr(s, [A.Upper(3, 1), Lsi(2, 48), Ssp(1, 2), A.R0(5)], 192, 48);
    var t := Stored3(Boot(s), 192, 48);
    R0Decodes(5);
    NextFetches(t);
    PageAtEnd(t);
    LastTurn(Boot(s), 3, t, Vop(5));
  }

  // ---- The user's r0 ----

  /** lsi r1, v; lsi r2, 16; ssp r1, r2: the user's r0 is v. */
  lemma SpoilsUserZero(s: State, v: nat)
    requires v < 64 && Loaded(s, [Lsi(1, v), Lsi(2, 16), Ssp(1, 2)])
    ensures Run(Boot(s), 3).Next? && Run(Boot(s), 3).state.ugen[0] == v
  {
    hide Decode, Boot, Lsi, Ssp, Loaded, Loaded2, Exec, Loads, Turn, Step;
    LsiLoads(1, v);
    LsiLoads(2, 16);
    TwoLoads(s, [Lsi(1, v), Lsi(2, 16), Ssp(1, 2)], v, 16);
    var t := Loaded2(Boot(s), v, 16);
    SspDecodes(1, 2);
    KernelStep(t, Yop(2, 1, 2));
    SpoilAt(t);
  }

  lemma SpoilAt(s: State)
    requires s.mode == Kern && s.ex == 0 && s.kgen[2] == 16
    ensures var out := Exec(Advance(s), Yop(2, 1, 2));
      out.Next? && out.state.ex == 0 && out.state.ugen[0] == s.kgen[1]
  {
  }

  lemma SspDecodes(ra: Reg, rb: Reg)
    ensures Decode(Ssp(ra, rb)) == Yop(2, ra, rb)
  {
    hide Decode;
    RrDecodes(2, rb, ra);
  }
}
