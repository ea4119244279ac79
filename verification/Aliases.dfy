/** What assembled code does when the machine runs it. */
module Aliases {
  import opened Words
  import opened Wrappers
  import opened Isa
  import A = Assembler
  import opened Encoding
  import Instructions

  // ---- Two-word aliases ----

  /** The code c lies at the program counter, mapped and within memory, and
      no exception is pending. */
  ghost predicate About(s: State, c: A.Code) {
    && s.ex == 0 && c.Some? && |c.value| == 2
    && FetchAt(s) == Fetch(c.value[0]) && FetchAt(Advance(s)) == Fetch(c.value[1])
  }

  /** The state after two cycles. */
  function TwoSteps(s: State): Outcome {
    match Step(s)
    case Dead(why) => Dead(why)
    case Next(t) => Step(t)
  }

  /** A lui and what follows it: the second word is fetched from the next address. */
  lemma AfterUpper(s: State, imm: nat, r: Reg, w: Word)
    requires s.ex == 0 && imm < 1024 && r != 0
    requires FetchAt(s) == Fetch(A.Upper(imm, r)) && FetchAt(Advance(s)) == Fetch(w)
    ensures TwoSteps(s) == Exec(Advance(Advance(s)).SetGen(r, imm * 64), Decode(w))
  {
    hide Decode, Translate, A.Upper;
    UpperDecodes(imm, r);
  }

  /** ldi puts exactly its operand in its register and changes nothing else. */
  lemma LdiLoads(s: State, r: Reg, v: Word)
    requires r != 0 && About(s, A.RuleRI(A.LDI, r, v))
    ensures TwoSteps(s) == Next(Advance(Advance(s)).SetGen(r, v))
  {
    hide Decode, FetchAt, Step, A.Upper, A.Rri;
    AfterUpper(s, v / 64, r, A.Rri(5, v % 64, r, r));
    RriDecodes(5, v % 64, r, r);
    assert v / 64 * 64 + v % 64 == v;
  }

  /** jsr arrives at exactly its target, linking past the pair. */
  lemma JsrArrives(s: State, r: Reg, target: Word)
    requires About(s, A.RuleRI(A.JSR, r, target))
    ensures TwoSteps(s) ==
      Next(Advance(Advance(s)).SetGen(r, target / 64 * 64).SetLink(Add(s.pc, 2)).(pc := target))
  {
    hide Decode, FetchAt, Step, A.Upper, A.Jlr;
    AfterUpper(s, target / 64, r, A.Jlr(target % 64, r, 1));
    JlrDecodes(target % 64, r, 1);
    assert target / 64 * 64 + target % 64 == target;
  }

  /** jmp arrives at exactly its target and links nothing. */
  lemma JmpArrives(s: State, r: Reg, target: Word)
    requires About(s, A.RuleRI(A.JMP, r, target))
    ensures TwoSteps(s) ==
      Next(Advance(Advance(s)).SetGen(r, target / 64 * 64).(pc := target))
  {
    hide Decode, FetchAt, Step, A.Upper, A.Jlr;
    AfterUpper(s, target / 64, r, A.Jlr(target % 64, r, 2));
    JlrDecodes(target % 64, r, 2);
    assert target / 64 * 64 + target % 64 == target;
  }

  // ---- Branches ----

  /** The signed distance from the word after the branch to the target. */
  function Distance(at: Word, target: Word): int {
    var d := Sub(target, at + 1);
    if d < 0x8000 then d else d - 0x10000
  }

  /** Two values this close are equal as words only if they are equal. */
  lemma SameWord(a: int, b: int)
    requires -0x10000 < a - b < 0x10000
    ensures a % 0x10000 == b % 0x10000 <==> a == b
  {
    assert a == 0x10000 * (a / 0x10000) + a % 0x10000;
    assert b == 0x10000 * (b / 0x10000) + b % 0x10000;
  }

  lemma WrapTwice(a: int, b: int, k: int)
    ensures ((a % 0x10000) + b + 0x10000 * k) % 0x10000 == (a + b) % 0x10000
  {
    assert (a % 0x10000) + b + 0x10000 * k == a + b + 0x10000 * (k - a / 0x10000);
  }

  /** The seven bits of a distance, sign-extended, as an integer. */
  function Signed7(d: int): int {
    if d % 128 < 64 then d % 128 else d % 128 - 128
  }

  lemma Signed7Exact(d: int)
    ensures Signed7(d) == d <==> -64 <= d <= 63
  {
    assert d == 128 * (d / 128) + d % 128;
  }

  lemma DistanceWraps(at: Word, target: Word)
    ensures (at + 1 + Distance(at, target)) % 0x10000 == target
    ensures (target - at - 1) % 128 == Distance(at, target) % 128
  {
    var d := Distance(at, target);
    var k := (target - at - 1 - d) / 0x10000;
    assert target - at - 1 == d + 0x10000 * k;
    assert target - at - 1 == d + 128 * (512 * k);
  }

  lemma Reach(at: Word, target: Word)
    ensures Add(Add(at, 1), SignExtend7((target - at - 1) % 128)) == target <==>
            -64 <= Distance(at, target) <= 63
  {
    hide Distance;
    var d := Distance(at, target);
    DistanceWraps(at, target);
    DistanceBounds(at, target);
    Signed7Exact(d);
    var x := SignExtend7(d % 128);
    WrapTwice(at + 1, Signed7(d), if d % 128 < 64 then 0 else 1);
    SameWord(at + 1 + Signed7(d), at + 1 + d);
  }

  lemma DistanceBounds(at: Word, target: Word)
    ensures -0x8000 <= Distance(at, target) < 0x8000
  {
  }

  /** A taken branch goes where the assembler was told, exactly when the target is
      within -64..63 words of the next instruction. */
  lemma BranchArrives(s: State, ra: Reg, rb: Reg, target: Word)
    requires s.ex == 0 && s.Gen()[ra] == s.Gen()[rb]
    requires FetchAt(s) == Fetch(A.RuleRRI(A.BEQ, ra, rb, target, s.pc).value[0])
    ensures Step(s).Next?
    ensures Step(s).state.pc == target <==> -64 <= Distance(s.pc, target) <= 63
  {
    hide Decode, FetchAt, A.Rri;
    RriDecodes(4, (target - s.pc - 1) % 128, rb, ra);
    Reach(s.pc, target);
  }

  /** Within range a branch is taken to its target if and only if its registers are equal;
      it changes nothing but the program counter, and untaken just moves on. */
  lemma Branches(s: State, ra: Reg, rb: Reg, target: Word)
    requires Runs(s, A.Line(A.BEQ, [A.R(ra), A.R(rb), A.I(target)]))
    ensures Step(s).Next? && Step(s).state == s.(pc := Step(s).state.pc)
    ensures s.Gen()[ra] != s.Gen()[rb] ==> Step(s).state.pc == (s.pc + 1) % 0x10000
    ensures s.Gen()[ra] == s.Gen()[rb] ==>
      (Step(s).state.pc == target <==> -64 <= Distance(s.pc, target) <= 63)
  {
    hide Decode, FetchAt, A.Rri, A.AssembleLine, SignExtend7, Distance;
    A.ShapeRRI(A.BEQ, ra, rb, target, s.pc);
    RriDecodes(4, (target - s.pc - 1) % 128, rb, ra);
    Reach(s.pc, target);
  }

  // ---- Calls ----

  /** After a jsr, an rtl that finds the link as the jsr left it resumes past the pair. */
  lemma CallReturns(s: State, r: Reg, target: Word, u: State)
    requires About(s, A.RuleRI(A.JSR, r, target)) && Runs(u, A.Line(A.RTL, []))
    requires TwoSteps(s).Next? ==> u.Spr()[LINK] == TwoSteps(s).state.Spr()[LINK]
    ensures TwoSteps(s).Next? && Step(u) == Next(u.(pc := (s.pc + 2) % 0x10000))
  {
    hide About, Runs, Step, TwoSteps;
    JsrArrives(s, r, target);
    Instructions.NoOperand(u, A.RTL);
  }

  // ---- Aliases for special registers and devices ----

  /** The state between the two words: rb has been moved on by v. */
  function Between(s: State, rb: Reg, v: nat): State {
    Advance(s).SetGen(rb, Add(s.Gen()[rb], v))
  }

  lemma AfterLli(s: State, v: nat, rb: Reg, w: Word)
    requires s.ex == 0 && v < 64
    requires FetchAt(s) == Fetch(A.Rri(5, v, rb, rb)) && FetchAt(Advance(s)) == Fetch(w)
    ensures TwoSteps(s) == Exec(Advance(Between(s, rb, v)), Decode(w))
  {
    hide Decode, Translate, A.Rri, Exec;
    RriDecodes(5, v, rb, rb);
    AddExec(s, rb, v);
  }

  lemma AddExec(s: State, rb: Reg, v: Word)
    ensures Exec(Advance(s), Adi(rb, rb, v)) == Next(Between(s, rb, v))
  {
  }

  /** ior reads 0 and iow does nothing, but for moving rB on; srr and srw read and write the
      special register that rB is moved on to. */
  lemma SpecialAliases(s: State, m: A.Mnemonic, ra: Reg, rb: Reg, v: nat)
    requires m in {A.IOR, A.IOW, A.SRR, A.SRW} && About(s, A.RuleRRI(m, ra, rb, v, s.pc))
    ensures v < 64
    ensures var u := Advance(Between(s, rb, v));
      var r := u.Gen()[rb] % SPR_SIZE;
      TwoSteps(s) ==
        match m
        case IOR => Next(u.SetGen(ra, 0))
        case IOW => Next(u)
        case SRR => Receive(u, ra, ReadSpecial(u, r))
        case _ => WriteSpecial(u, r, u.Gen()[ra])
  {
    hide Decode, FetchAt, Step, TwoSteps, A.Rri, A.Rr, Between, Special, A.RuleRRI, Exec;
    var y := if m == A.IOR then 1 else if m == A.IOW then 3 else if m == A.SRR then 0 else 2;
    AliasRule(m, ra, rb, v, s.pc);
    AfterLli(s, v, rb, A.Rr(y, rb, ra));
    RrDecodes(y, rb, ra);
    YopExec(Advance(Between(s, rb, v)), y, ra, rb);
    AliasExec(Advance(Between(s, rb, v)), ra, rb);
  }

  lemma YopExec(u: State, y: Reg, ra: Reg, rb: Reg)
    ensures Exec(u, Yop(y, ra, rb)) == Special(u, y, ra, rb)
  {
    hide Special;
  }

  lemma AliasRule(m: A.Mnemonic, ra: Reg, rb: Reg, v: nat, at: nat)
    requires m in {A.IOR, A.IOW, A.SRR, A.SRW} && A.RuleRRI(m, ra, rb, v, at).Some?
    ensures v < 64
    ensures var y := if m == A.IOR then 1 else if m == A.IOW then 3 else if m == A.SRR then 0 else 2;
      A.RuleRRI(m, ra, rb, v, at) == Some([A.Rri(5, v, rb, rb), A.Rr(y, rb, ra)])
  {
    hide A.Rri, A.Rr;
  }

  lemma AliasExec(u: State, ra: Reg, rb: Reg)
    ensures var r := u.Gen()[rb] % SPR_SIZE;
      && Special(u, 0, ra, rb) == Receive(u, ra, ReadSpecial(u, r)) && Special(u, 1, ra, rb) == Next(u.SetGen(ra, 0))
      && Special(u, 2, ra, rb) == WriteSpecial(u, r, u.Gen()[ra]) && Special(u, 3, ra, rb) == Next(u)
  {
    hide ReadSpecial, WriteSpecial;
  }

  // ---- Where the machine departs from its documentation ----

  /** The assembler's sxt runs as a byte swap and its swb as a sign extension; the
      two agree on no other values than 0 and 0xFFFF. */
  lemma SxtAndSwbExchanged(r: Word)
    ensures Alu1(A.ZopOf(A.SXT).value, r) == r % 256 * 256 + r / 256
    ensures Alu1(A.ZopOf(A.SWB).value, r) == (if r % 256 < 128 then r % 256 else 0xFF00 + r % 256)
    ensures Alu1(A.ZopOf(A.SXT).value, r) == Alu1(A.ZopOf(A.SWB).value, r) <==> r == 0 || r == 0xFFFF
  {
    assert r == r / 256 * 256 + r % 256;
  }

  /** The carry of an add is lost, so add and adc compute a double-word sum exactly
      when the low words do not carry. */
  lemma DoubleWordSum(s: State, ra: Reg, rb: Reg, rc: Reg, ah: Word, bh: Word)
    ensures var al: int, bl: int := s.Gen()[rc], s.Gen()[rb];
      var low := Exec(s, Xop(0, ra, rb, rc));
      && low.Next?
      && (Alu3(1, ah, bh, low.state.hc) == (ah * 0x10000 + al + bh * 0x10000 + bl) / 0x10000 % 0x10000
          <==> al + bl < 0x10000)
  {
    hide Alu3;
    var al: int, bl: int := s.Gen()[rc], s.Gen()[rb];
    AddNoCarry(ah, bh);
    assert (ah * 0x10000 + al + bh * 0x10000 + bl) / 0x10000 == ah + bh + (al + bl) / 0x10000;
  }

  lemma AddNoCarry(a: Word, b: Word)
    ensures Alu3(1, a, b, 0) == (a + b) % 0x10000
  {
  }
}
