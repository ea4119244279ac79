/** User mode computes from, and changes, nothing but the user's own state. */
module UserIsolation {
  import opened Words
  import opened Isa

  /** A physical word that some user code address maps to. */
  predicate CodeMapped(mmu: SprFile, a: nat) {
    exists r :: 32 <= r < 48 && PageOf(mmu, r) == a / 4096
  }

  /** A physical word that some user data address maps to. */
  predicate DataMapped(mmu: SprFile, a: nat) {
    exists r :: 48 <= r < 64 && PageOf(mmu, r) == a / 2048
  }

  function PageOf(mmu: SprFile, r: nat): nat
    requires r < SPR_SIZE
  {
    mmu[r] % 4096
  }

  predicate Mapped(mmu: SprFile, a: nat) {
    CodeMapped(mmu, a) || DataMapped(mmu, a)
  }

  lemma TranslateMapped(mmu: SprFile, isData: bool, v: Word)
    ensures var t := Translate(mmu, isData, v);
            t.At? ==> if isData then DataMapped(mmu, t.addr) else CodeMapped(mmu, t.addr)
  {
    var page := PageOf(mmu, (if isData then 48 else 32) + v / 4096);
    assert (page * 4096 + v % 4096) / 4096 == page;
    assert (page * 4096 + v % 4096) / 2 == page * 2048 + v % 4096 / 2;
    assert (page * 2048 + v % 4096 / 2) / 2048 == page;
  }

  /** Two user-mode machines that the user cannot tell apart. */
  ghost predicate UserEq(s: State, t: State) {
    && s.mode == User && t.mode == User
    && s.ugen == t.ugen && s.uspr[LINK] == t.uspr[LINK]
    && SameMmu(s.uspr, t.uspr)
    && s.pc == t.pc && s.hc == t.hc && s.cyc == t.cyc
    && s.run == t.run && s.en == t.en && s.ex == t.ex
    && SameMemory(s.uspr, s.mem, t.mem)
  }

  ghost predicate SameMmu(m: SprFile, k: SprFile) {
    forall r :: 32 <= r < SPR_SIZE ==> m[r] == k[r]
  }

  ghost predicate SameMemory(mmu: SprFile, m: Memory, k: Memory) {
    forall a :: 0 <= a < PHYS_MEM_SIZE && Mapped(mmu, a) ==> m[a] == k[a]
  }

  lemma MappedSame(m: SprFile, k: SprFile, a: nat)
    requires SameMmu(m, k)
    ensures Mapped(m, a) == Mapped(k, a) && DataMapped(m, a) == DataMapped(k, a)
  {
    assert forall r :: 32 <= r < SPR_SIZE ==> PageOf(m, r) == PageOf(k, r);
  }

  ghost predicate SameOutcome(a: Outcome, b: Outcome) {
    match (a, b)
    case (Next(s), Next(t)) => UserEq(s, t)
    case (Dead(x), Dead(y)) => x == y
    case _ => false
  }

  // ---- What a user-mode cycle leaves alone ----

  /** t differs from s only where a user-mode program may write. */
  ghost predicate OnlyUserChanged(s: State, t: State) {
    && t.mode == User && t.en == s.en && t.run == s.run
    && t.kgen == s.kgen && t.kspr == s.kspr
    && (forall r :: 0 <= r < SPR_SIZE && r != LINK ==> t.uspr[r] == s.uspr[r])
    && (forall a :: 0 <= a < PHYS_MEM_SIZE && !DataMapped(s.uspr, a) ==> t.mem[a] == s.mem[a])
  }

  ghost predicate Framed(s: State, out: Outcome) {
    out.Next? ==> OnlyUserChanged(s, out.state)
  }

  lemma MemFrame(s: State, op: MemOp, ra: Reg, rb: Reg, imm: Word)
    requires s.mode == User
    ensures Framed(s, Exec(s, Mem(op, ra, rb, imm)))
  {
    hide Translate, DataMapped;
    TranslateMapped(s.uspr, true, Add(s.Gen()[rb], imm));
  }

  lemma SpecialFrame(s: State, yop: Reg, ra: Reg, rb: Reg)
    requires s.mode == User
    ensures Framed(s, Special(s, yop, ra, rb))
  {
    hide DataMapped;
  }

  lemma ExecFrame(s: State, i: Instr)
    requires s.mode == User
    ensures Framed(s, Exec(s, i))
  {
    hide ReadData, WriteData, Special, DataMapped, Alu3, Alu1, Alu1Carry;
    match i
    case Mem(op, ra, rb, imm) => MemFrame(s, op, ra, rb, imm);
    case Yop(yop, ra, rb) => SpecialFrame(s, yop, ra, rb);
    case _ =>
  }

  // ---- Equal observations ----

  /** Equal user states read and write data alike. */
  lemma DataAlike(s: State, t: State, wide: bool, ea: Word)
    requires UserEq(s, t)
    ensures Translate(s.uspr, true, ea) == Translate(t.uspr, true, ea)
    ensures DataWord(s, wide, ea) == DataWord(t, wide, ea)
  {
    TranslateMapped(s.uspr, true, ea);
  }

  lemma WriteAlike(s: State, t: State, wide: bool, ea: Word, v: Word)
    requires UserEq(s, t)
    ensures SameOutcome(WriteData(s, wide, ea, v), WriteData(t, wide, ea, v))
  {
    hide Translate, DataWord, Mapped;
    DataAlike(s, t, wide, ea);
  }

  lemma LinkAlike(s: State, t: State, v: Word)
    requires UserEq(s, t)
    ensures UserEq(s.SetLink(v), t.SetLink(v))
  {
    hide Mapped;
    forall a: nat { MappedSame(s.uspr, s.uspr[LINK := v], a); }
  }

  lemma MemAlike(s: State, t: State, op: MemOp, ra: Reg, rb: Reg, imm: Word)
    requires UserEq(s, t)
    ensures SameOutcome(Exec(s, Mem(op, ra, rb, imm)), Exec(t, Mem(op, ra, rb, imm)))
  {
    hide Translate, DataWord, WriteData, SameMemory, SameMmu;
    var ea := Add(s.Gen()[rb], imm);
    DataAlike(s, t, IsWide(op), ea);
    WriteAlike(s, t, IsWide(op), ea, s.Gen()[ra]);
  }

  lemma SpecialAlike(s: State, t: State, yop: Reg, ra: Reg, rb: Reg)
    requires UserEq(s, t)
    ensures SameOutcome(Special(s, yop, ra, rb), Special(t, yop, ra, rb))
  {
    hide SameMemory, SameMmu;
    LinkAlike(s, t, s.Gen()[ra]);
  }

  lemma ExecAlike(s: State, t: State, i: Instr)
    requires UserEq(s, t) && s.ex == 0
    ensures SameOutcome(Exec(s, i), Exec(t, i))
  {
    hide SameMemory, SameMmu, Special, ReadData, WriteData, Alu3, Alu1, Alu1Carry;
    match i
    case Mem(op, ra, rb, imm) =>
      MemAlike(s, t, op, ra, rb, imm);
    case Jlr(ra, rb, imm) =>
      LinkAlike(s, t, s.pc);
    case Yop(yop, ra, rb) =>
      SpecialAlike(s, t, yop, ra, rb);
    case _ =>
  }

  lemma FetchAlike(s: State, t: State)
    requires UserEq(s, t) && s.ex == 0
    ensures match (FetchAt(s), FetchAt(t))
            case (Fetch(v), Fetch(w)) => v == w
            case (NoFetch(a), NoFetch(b)) => SameOutcome(a, b)
            case _ => false
  {
    TranslateMapped(s.uspr, false, s.pc);
  }

  lemma TurnAlike(s: State, t: State)
    requires UserEq(s, t) && s.ex == 0
    ensures SameOutcome(Turn(s), Turn(t))
  {
    hide Exec, Decode, FetchAt, Mapped;
    FetchAlike(s, t);
    if FetchAt(s).Fetch? {
      ExecAlike(Advance(s), Advance(t), Decode(FetchAt(s).w));
    }
  }

  /** s has run n turns in user mode without an exception before the last. */
  ghost predicate UserStretch(s: State, n: nat) {
    s.mode == User && forall k :: 0 <= k < n ==> Run(s, k).Next? ==> Run(s, k).state.ex == 0
  }

  /** Noninterference: machines the user cannot tell apart stay so, down to the
      exception that ends the stretch, however much their kernels and the rest
      of memory differ. */
  lemma {:induction false} NonInterference(s: State, t: State, n: nat)
    requires UserEq(s, t) && UserStretch(s, n)
    ensures SameOutcome(Run(s, n), Run(t, n))
  {
    hide Turn, UserEq;
    if n > 0 {
      NonInterference(s, t, n - 1);
      if Run(s, n - 1).Next? {
        var u, v := Run(s, n - 1).state, Run(t, n - 1).state;
        SameLife(u, v);
        if Live(u) {
          TurnAlike(u, v);
        }
      }
    }
  }

  lemma SameLife(s: State, t: State)
    requires UserEq(s, t)
    ensures Live(s) == Live(t)
  {
  }

  lemma TurnFrame(s: State)
    requires s.mode == User && s.ex == 0 && Turn(s).Next?
    ensures OnlyUserChanged(s, Turn(s).state)
  {
    hide Exec, Decode, DataMapped;
    if FetchAt(s).Fetch? {
      ExecFrame(Advance(s), Decode(FetchAt(s).w));
    }
  }

  /** Integrity: such a stretch leaves the kernel's registers, the user's MMU and
      all memory outside the user's data pages as they were. */
  lemma {:induction false} KernelUntouched(s: State, n: nat)
    requires UserStretch(s, n) && Run(s, n).Next?
    ensures OnlyUserChanged(s, Run(s, n).state)
  {
    hide Turn, DataMapped;
    if n > 0 {
      KernelUntouched(s, n - 1);
      var u := Run(s, n - 1).state;
      if Live(u) {
        TurnFrame(u);
        forall a | 0 <= a < PHYS_MEM_SIZE && !DataMapped(s.uspr, a)
          ensures Run(s, n).state.mem[a] == s.mem[a]
        {
          MappedSame(s.uspr, u.uspr, a);
        }
      }
    }
  }
}
