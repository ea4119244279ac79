/** Reassembling a disassembly gives back the binary, exactly when it should. */
module RoundTrip {
  import opened Words
  import opened Wrappers
  import Isa
  import opened Assembler
  import opened Disassembler

  // ---- One word, one line ----

  /** The distance of a branch survives being shown as the low bits of its target. */
  lemma BranchDistance(imm: nat, at: nat)
    requires imm < 128
    ensures ((imm + at + 1) % 128 - at - 1) % 128 == imm
  {
    var q := (imm + at + 1) / 128;
    assert (imm + at + 1) % 128 - at - 1 == imm - 128 * q;
  }

  /** What the assembler makes of the first pass's text: the same word again,
      except that y05 turns into y06, y06 loses its operands, and jlr is not an
      assembler mnemonic. */
  function Reassembled(w: Word): Code {
    if Row(w) == 20 then Some([Rr(6, Isa.FieldB(w), Isa.FieldA(w))])
    else if Row(w) == 7 || Row(w) == 21 then None
    else Some([w])
  }

  // The table names and shapes its rows as the assembler's rules do, except in the
  // rows for y05 and y06.

  lemma BaseNames(k: nat)
    requires k < 8
    ensures |KEY_TABLE| == 37
    ensures KEY_TABLE[k].shape == if k == 6 then RJX else RRI
    ensures if k < 4 || k == 5 then RriOp(KEY_TABLE[k].name) == Some(k)
            else KEY_TABLE[k].name == (if k == 4 then BEQ else if k == 6 then LUI else JLR)
  {
    hide XopOf, YopOf, ZopOf, VopOf;
  }

  lemma XopNames(k: nat)
    requires 8 <= k < 15
    ensures |KEY_TABLE| == 37
    ensures XopOf(KEY_TABLE[k].name) == Some(k - 8) && KEY_TABLE[k].shape == RRR
  {
  }

  lemma YopNames(k: nat)
    requires 15 <= k < 22
    ensures |KEY_TABLE| == 37
    ensures YopOf(KEY_TABLE[k].name) == Some(if k < 20 then k - 15 else 6)
    ensures KEY_TABLE[k].shape == if k < 21 then RRX else XXX
    ensures k == 21 ==> KEY_TABLE[k].name == Y06
  {
  }

  lemma ZopNames(k: nat)
    requires 22 <= k < 29
    ensures |KEY_TABLE| == 37
    ensures ZopOf(KEY_TABLE[k].name) == Some(k - 22) && KEY_TABLE[k].shape == RXX
  {
  }

  lemma VopNames(k: nat)
    requires 29 <= k < 37
    ensures |KEY_TABLE| == 37
    ensures VopOf(KEY_TABLE[k].name) == Some(k - 29) && KEY_TABLE[k].shape == XXX
  {
  }

  // Words of each format are what the assembler's format makes of their fields.

  lemma RriFormat(w: Word)
    ensures Isa.BaseOp(w) < 8 && Isa.Imm7(w) < 128
    ensures w == Rri(Isa.BaseOp(w), Isa.Imm7(w), Isa.FieldB(w), Isa.FieldA(w))
  {
    Isa.DigitsOf(w);
  }

  lemma UpperFormat(w: Word, r: Reg)
    requires IsLui(w)
    ensures Isa.Imm10(w) < 1024
    ensures w == Upper(Isa.Imm10(w), r) <==> r == Isa.FieldA(w)
  {
    Isa.DigitsOf(w);
  }

  lemma JlrFormat(w: Word)
    requires IsJlr(w)
    ensures Isa.Imm7(w) < 64 && Row(w) == 7
    ensures w == Jlr(Isa.Imm7(w), Isa.FieldB(w), Isa.FieldA(w))
  {
    Isa.DigitsOf(w);
  }

  lemma BaseReassembles(w: Word, at: nat)
    requires Row(w) < 8
    ensures AssembleLine(Decoded(w, at), at) == Reassembled(w)
  {
    hide KEY_TABLE, AssembleLine, Isa.FieldA, Isa.FieldB, Isa.FieldC, Isa.FieldX, Isa.Top4, Isa.Imm7, Isa.Imm10;
    BaseNames(Row(w));
    var ra, rb, imm, m := Isa.FieldA(w), Isa.FieldB(w), Isa.Imm7(w), KEY_TABLE[Row(w)].name;
    RriFormat(w);
    if Row(w) == 6 {
      ShapeRI(m, ra, Isa.Imm10(w), at);
      UpperFormat(w, ra);
    } else if Row(w) == 4 {
      ShapeRRI(m, ra, rb, (imm + at + 1) % 128, at);
      BranchDistance(imm, at);
    } else {
      ShapeRRI(m, ra, rb, imm, at);
    }
  }

  lemma XopReassembles(w: Word, at: nat)
    requires 8 <= Row(w) < 15
    ensures AssembleLine(Decoded(w, at), at) == Reassembled(w)
  {
    hide KEY_TABLE, AssembleLine, Isa.FieldA, Isa.FieldB, Isa.FieldC, Isa.FieldX, Isa.Top4;
    XopNames(Row(w));
    ShapeRRR(KEY_TABLE[Row(w)].name, Isa.FieldA(w), Isa.FieldB(w), Isa.FieldC(w), at);
    Isa.DigitsOf(w);
  }

  lemma YopReassembles(w: Word, at: nat)
    requires 15 <= Row(w) < 22
    ensures AssembleLine(Decoded(w, at), at) == Reassembled(w)
  {
    hide KEY_TABLE, AssembleLine, Isa.FieldA, Isa.FieldB, Isa.FieldC, Isa.FieldX, Isa.Top4;
    YopNames(Row(w));
    ShapeRR(KEY_TABLE[Row(w)].name, Isa.FieldA(w), Isa.FieldB(w), at);
    Shape0(KEY_TABLE[Row(w)].name, at);
    Isa.DigitsOf(w);
  }

  lemma ZopReassembles(w: Word, at: nat)
    requires 22 <= Row(w) < 29
    ensures AssembleLine(Decoded(w, at), at) == Reassembled(w)
  {
    hide KEY_TABLE, AssembleLine, Isa.FieldA, Isa.FieldB, Isa.FieldC, Isa.FieldX, Isa.Top4;
    ZopNames(Row(w));
    ShapeR(KEY_TABLE[Row(w)].name, Isa.FieldA(w), at);
    Isa.DigitsOf(w);
  }

  lemma VopReassembles(w: Word, at: nat)
    requires 29 <= Row(w)
    ensures AssembleLine(Decoded(w, at), at) == Reassembled(w)
  {
    hide KEY_TABLE, AssembleLine, Isa.FieldA, Isa.FieldB, Isa.FieldC, Isa.FieldX, Isa.Top4;
    VopNames(Row(w));
    Shape0(KEY_TABLE[Row(w)].name, at);
    Isa.DigitsOf(w);
  }

  lemma DecodedReassembles(w: Word, at: nat)
    ensures AssembleLine(Decoded(w, at), at) == Reassembled(w)
  {
    hide AssembleLine, Decoded, Reassembled;
    if Row(w) < 8 { BaseReassembles(w, at); }
    else if Row(w) < 15 { XopReassembles(w, at); }
    else if Row(w) < 22 { YopReassembles(w, at); }
    else if Row(w) < 29 { ZopReassembles(w, at); }
    else { VopReassembles(w, at); }
  }

  // ---- One line of the finished listing ----

  /** A jlr that the assembler has a spelling for: an even sys, or a jump through a
      register other than r0 with no offset. */
  predicate JlrSpelled(w: Word) {
    match Isa.FieldA(w)
    case 0 => Isa.FieldB(w) == 0 && Isa.Imm7(w) % 2 == 0
    case 1 => Isa.FieldB(w) != 0 && Isa.Imm7(w) == 0
    case 2 => Isa.FieldB(w) != 0 && Isa.Imm7(w) == 0
    case _ => false
  }

  predicate IsY05OrY06(w: Word) {
    Isa.Top4(w) == 15 && Isa.FieldX(w) == 7 && 5 <= Isa.FieldC(w) <= 6
  }

  /** A word that survives on a line of its own. */
  predicate PlainOk(w: Word) {
    !IsY05OrY06(w) && (IsJlr(w) ==> JlrSpelled(w))
  }

  /** A fused pair that survives: an ldi whose two halves name the same register,
      or a jump through a register other than r0. */
  predicate FusedOk(prev: Word, w: Word) {
    if IsJlr(w) then Isa.FieldB(w) != 0 else Isa.FieldA(prev) == Isa.FieldA(w)
  }

  /** The assembler's spelling of word w yields code c. */
  ghost predicate Spells(c: Code, n: nat, ws: seq<Word>, ok: bool) {
    (c.Some? ==> |c.value| == n) && (c == Some(ws) <==> ok)
  }

  lemma SelfAdiReassembles(prev: Word, w: Word, at: nat)
    requires !Fuses(prev, w) && IsSelfAdi(w)
    ensures Spells(AssembleLine(Rewritten(prev, w, at), at), 1, [w], PlainOk(w))
  {
    hide AssembleLine, Decoded, Isa.FieldA, Isa.FieldB, Isa.FieldC, Isa.FieldX, Isa.Top4, Isa.Imm7;
    var r, imm := Isa.FieldA(w), Isa.Imm7(w);
    Isa.DigitsOf(w);
    RriFormat(w);
    ShapeRI(LLI, r, imm, at);
    ShapeRRI(ADI, r, r, imm, at);
  }

  lemma JlrReassembles(prev: Word, w: Word, at: nat)
    requires !Fuses(prev, w) && IsJlr(w)
    ensures Spells(AssembleLine(Rewritten(prev, w, at), at), 1, [w], PlainOk(w))
  {
    hide AssembleLine, Decoded, Isa.FieldA, Isa.FieldB, Isa.FieldC, Isa.FieldX, Isa.Imm7;
    JlrFormat(w);
    DecodedReassembles(w, at);
    Shape0(DIE, at);
    ShapeI(SYS, Isa.Imm7(w), at);
    ShapeR(if Isa.FieldA(w) == 1 then JSR else JMP, Isa.FieldB(w), at);
  }

  /** A line that stands for one word gives that word back exactly when it is
      PlainOk, and one word in any case. */
  lemma PlainReassembles(prev: Word, w: Word, at: nat)
    requires !Fuses(prev, w)
    ensures Spells(AssembleLine(Rewritten(prev, w, at), at), 1, [w], PlainOk(w))
  {
    hide AssembleLine, Decoded, Fuses, Isa.FieldA, Isa.FieldB, Isa.FieldC, Isa.FieldX;
    Isa.DigitsOf(w);
    if IsSelfAdi(w) { SelfAdiReassembles(prev, w, at); }
    else if IsJlr(w) { JlrReassembles(prev, w, at); }
    else {
      DecodedReassembles(w, at);
      Shape0(NOP, at);
    }
  }

  /** A line that stands for a fused pair gives the pair back exactly when it is
      FusedOk, and two words in any case, wherever it is placed. */
  lemma FusedReassembles(prev: Word, w: Word, at: nat, here: nat)
    requires Fuses(prev, w)
    ensures Spells(AssembleLine(Rewritten(prev, w, at), here), 2, [prev, w], FusedOk(prev, w))
  {
    hide AssembleLine, Decoded, Isa.FieldA, Isa.FieldB, Isa.FieldC, Isa.FieldX, Isa.Imm7, Isa.Imm10;
    var v := FusedImmediate(prev, w);
    if IsJlr(w) {
      JlrFormat(w);
      UpperFormat(prev, Isa.FieldB(w));
      ShapeRI(if Isa.FieldA(w) == 1 then JSR else JMP, Isa.FieldB(w), v, here);
    } else {
      RriFormat(w);
      UpperFormat(prev, Isa.FieldA(w));
      ShapeRI(LDI, Isa.FieldA(w), v, here);
    }
    assert v / 64 == Isa.Imm10(prev) && v % 64 == Isa.Imm7(w);
  }

  // ---- The whole listing ----

  function Listing(code: seq<Word>): (lines: seq<Line>) {
    seq(|code|, at requires 0 <= at < |code| => FinalLine(code, at))
  }

  predicate FusedAt(code: seq<Word>, p: nat) {
    p + 1 < |code| && Fuses(code[p], code[p + 1])
  }

  /** The words around position p survive. */
  predicate OkAt(code: seq<Word>, p: nat)
    requires p < |code|
  {
    if FusedAt(code, p) then FusedOk(code[p], code[p + 1])
    else if p > 0 && FusedAt(code, p - 1) then true
    else PlainOk(code[p])
  }

  predicate OkFrom(code: seq<Word>, p: nat) {
    forall q :: p <= q < |code| ==> OkAt(code, q)
  }

  lemma NoOverlap(code: seq<Word>, p: nat)
    requires FusedAt(code, p)
    ensures !FusedAt(code, p + 1)
  {
    hide Isa.FieldA, Isa.FieldB, Isa.FieldC, Isa.FieldX, Isa.Top4, Isa.Imm7;
  }

  lemma NothingBeforeStart(w: Word)
    ensures !Fuses(0, w)
  {
    assert Isa.BaseOp(0) == 0;
  }

  /** Appending the words of a first line to those of the rest. */
  function Joined(c: Code, rest: Code): Code {
    if c.None? || rest.None? then None else Some(c.value + rest.value)
  }

  /** Words of the right number are right as a whole when both parts are right. */
  lemma JoinedSpells(c: Code, n: nat, ws: seq<Word>, ok: bool,
                     rest: Code, m: nat, us: seq<Word>, restOk: bool)
    requires |ws| == n && Spells(c, n, ws, ok) && Spells(rest, m, us, restOk)
    ensures Spells(Joined(c, rest), n + m, ws + us, ok && restOk)
  {
    if c.Some? && rest.Some? {
      var all := c.value + rest.value;
      assert all[..n] == c.value && all[n..] == rest.value;
      assert (ws + us)[..n] == ws && (ws + us)[n..] == us;
    }
  }

  lemma OkSplit(code: seq<Word>, p: nat)
    requires p < |code|
    ensures OkFrom(code, p) <==> OkAt(code, p) && OkFrom(code, p + 1)
  {
    hide OkAt;
  }

  lemma AssembleFirst(lines: seq<Line>, at: nat)
    requires lines != []
    ensures Assemble(lines, at) ==
      (var c := AssembleLine(lines[0], at);
       if c.None? then None else Joined(c, Assemble(lines[1..], at + |c.value|)))
  {
  }

  lemma BlankFirst(lines: seq<Line>, at: nat)
    requires lines != [] && lines[0] == Blank
    ensures Assemble(lines, at) == Assemble(lines[1..], at)
  {
    AssembleFirst(lines, at);
    var rest := Assemble(lines[1..], at);
    if rest.Some? {
      assert [] + rest.value == rest.value;
    }
  }

  /** From any position that does not split a fused pair, the rest of the listing
      assembles at the same addresses to as many words, and to the same words
      exactly when every position is in order. */
  lemma {:induction false} ListingReassembles(code: seq<Word>, p: nat)
    requires p <= |code| && !(p > 0 && FusedAt(code, p - 1))
    ensures Spells(Assemble(Listing(code)[p..], p), |code| - p, code[p..], OkFrom(code, p))
    decreases |code| - p
  {
    hide AssembleLine, Fuses, Rewritten, PlainOk, FusedOk;
    var rest := Listing(code)[p..];
    if p == |code| {
    } else if FusedAt(code, p) {
      NoOverlap(code, p);
      var c, tail := AssembleLine(rest[1], p), Assemble(rest[1..][1..], p + 2);
      assert rest[0] == Blank && rest[1] == Rewritten(code[p], code[p + 1], p + 1);
      assert rest[1..][1..] == Listing(code)[p + 2..];
      FusedReassembles(code[p], code[p + 1], p + 1, p);
      ListingReassembles(code, p + 2);
      BlankFirst(rest, p);
      AssembleFirst(rest[1..], p);
      JoinedSpells(c, 2, [code[p], code[p + 1]], FusedOk(code[p], code[p + 1]),
                   tail, |code| - p - 2, code[p + 2..], OkFrom(code, p + 2));
      assert code[p..] == [code[p], code[p + 1]] + code[p + 2..];
      OkSplit(code, p);
      OkSplit(code, p + 1);
    } else {
      var c, tail := AssembleLine(rest[0], p), Assemble(rest[1..], p + 1);
      assert rest[0] == FinalLine(code, p) && rest[1..] == Listing(code)[p + 1..];
      NothingBeforeStart(code[p]);
      PlainReassembles(Before(code, p), code[p], p);
      ListingReassembles(code, p + 1);
      AssembleFirst(rest, p);
      JoinedSpells(c, 1, [code[p]], PlainOk(code[p]),
                   tail, |code| - p - 1, code[p + 1..], OkFrom(code, p + 1));
      assert code[p..] == [code[p]] + code[p + 1..];
      OkSplit(code, p);
    }
  }

  /** Exactly the binaries that disassembling and reassembling reproduces. */
  predicate RoundTrips(ws: seq<Word>) {
    |ws| <= BANK_SIZE && 0 !in ws && OkFrom(ws, 0)
  }

  /** The instruction test framework: disassemble, reassemble, compare. */
  method TestRoundTrip(ws: seq<Word>) returns (same: bool)
    ensures same <==> RoundTrips(ws)
  {
    hide FinalLine, OkAt;
    var lines := Disassemble(ws);
    same := AssembleProgram(lines) == Some(ws);
    ghost var n := CodeLength(ws);
    ghost var code := ws[..n];
    assert lines == Listing(code);
    assert Listing(code)[0..] == Listing(code) && code[0..] == code;
    ListingReassembles(code, 0);
    if n == |ws| {
      assert code == ws;
    }
  }

  // ---- What the assembler itself emits ----

  lemma RriFields(op: nat, imm: nat, rb: Reg, ra: Reg)
    requires op < 6 && imm < 128
    ensures !IsJlr(Rri(op, imm, rb, ra))
  {
    hide Isa.FieldA, Isa.FieldB, Isa.FieldC, Isa.FieldX, Isa.Top4;
    Isa.DigitsUnique(Rri(op, imm, rb, ra), ra, rb, imm % 8, imm / 8 % 8, 2 * op + imm / 8 / 8);
  }

  lemma UpperFields(imm: nat, ra: Reg)
    requires imm < 1024
    ensures IsLui(Upper(imm, ra)) && !IsJlr(Upper(imm, ra)) && Isa.FieldA(Upper(imm, ra)) == ra
  {
    hide Isa.FieldA, Isa.FieldB, Isa.FieldC, Isa.FieldX, Isa.Top4;
    Isa.DigitsUnique(Upper(imm, ra), ra, imm % 8, imm / 8 % 8, imm / 8 / 8 % 8, 12 + imm / 8 / 8 / 8);
  }

  lemma JlrFields(imm: nat, rb: Reg, flavour: Reg)
    requires imm < 64
    ensures var w := Jlr(imm, rb, flavour);
      IsJlr(w) && Isa.FieldA(w) == flavour && Isa.FieldB(w) == rb && Isa.Imm7(w) == imm
  {
    hide Isa.FieldA, Isa.FieldB, Isa.FieldC, Isa.FieldX, Isa.Top4;
    Isa.DigitsUnique(Jlr(imm, rb, flavour), flavour, rb, imm % 8, imm / 8, 14);
  }

  lemma RrrFields(xop: Reg, rc: Reg, rb: Reg, ra: Reg)
    ensures !IsJlr(Rrr(xop, rc, rb, ra))
  {
    hide Isa.FieldA, Isa.FieldB, Isa.FieldC, Isa.FieldX, Isa.Top4;
    Isa.DigitsUnique(Rrr(xop, rc, rb, ra), ra, rb, rc, xop, 15);
  }

  /** The second half of a jsr or jmp to a target. */
  predicate PairedJump(prev: Word, w: Word) {
    && IsLui(prev) && IsJlr(w) && 1 <= Isa.FieldA(w) <= 2
    && Isa.FieldB(w) == Isa.FieldA(prev) && Isa.FieldB(w) != 0
  }

  /** Every jlr has a spelling of its own or completes a pair. */
  predicate WellJumped(ws: seq<Word>) {
    forall p {:trigger ws[p]} :: 0 <= p < |ws| ==>
      (IsJlr(ws[p]) ==> JlrSpelled(ws[p]) || (p > 0 && PairedJump(ws[p - 1], ws[p])))
  }

  lemma LineWellJumped(l: Line, at: nat)
    ensures AssembleLine(l, at).Some? ==> WellJumped(AssembleLine(l, at).value)
  {
    hide IsLui, IsJlr, Isa.FieldA, Isa.FieldB, Isa.Imm7, Rri, Upper, Jlr, Rrr;
    forall op: nat, imm: nat, rb: Reg, ra: Reg | op < 6 && imm < 128 { RriFields(op, imm, rb, ra); }
    forall imm: nat, ra: Reg | imm < 1024 { UpperFields(imm, ra); }
    forall imm: nat, rb: Reg, f: Reg | imm < 64 { JlrFields(imm, rb, f); }
    forall x: Reg, rc: Reg, rb: Reg, ra: Reg { RrrFields(x, rc, rb, ra); }
  }

  lemma WellJumpedJoin(us: seq<Word>, ws: seq<Word>)
    requires WellJumped(us) && WellJumped(ws)
    ensures WellJumped(us + ws)
  {
    hide IsJlr, JlrSpelled, PairedJump;
    var all := us + ws;
    forall p | 0 <= p < |all|
      ensures IsJlr(all[p]) ==> JlrSpelled(all[p]) || (p > 0 && PairedJump(all[p - 1], all[p]))
    {
      if p >= |us| {
        var q := p - |us|;
        assert all[p] == ws[q] && (q > 0 ==> all[p - 1] == ws[q - 1]);
      } else {
        assert all[p] == us[p] && (p > 0 ==> all[p - 1] == us[p - 1]);
      }
    }
  }

  lemma AliasWellJumped(m: Mnemonic, args: seq<Operand>, imm: nat)
    requires imm < 128
    ensures SixBitAlias(m, args, imm).Some? ==> WellJumped(SixBitAlias(m, args, imm).value)
  {
    hide IsLui, IsJlr, Isa.FieldA, Isa.FieldB, Isa.Imm7, Rri, Rrr;
    forall rb: Reg, ra: Reg { RriFields(5, imm, rb, ra); }
    forall x: Reg, rc: Reg, rb: Reg, ra: Reg { RrrFields(x, rc, rb, ra); }
  }

  lemma EmittedLineWellJumped(l: Line, at: nat, ws: seq<Word>)
    requires Emits(l, at, ws)
    ensures WellJumped(ws)
  {
    hide AssembleLine, SixBitAlias, WellJumped;
    if AssembleLine(l, at) == Some(ws) {
      LineWellJumped(l, at);
    } else {
      var imm: nat :| imm < 128 && SixBitAlias(l.name, l.args, imm) == Some(ws);
      AliasWellJumped(l.name, l.args, imm);
    }
  }

  lemma {:induction false} EmittedWellJumped(prog: seq<Line>, at: nat, ws: seq<Word>)
    requires EmitsAll(prog, at, ws)
    ensures WellJumped(ws)
    decreases |prog|
  {
    hide Emits, WellJumped;
    if prog == [] {
      EmptyWellJumped();
    } else {
      var n :| 0 <= n <= |ws| && Emits(prog[0], at, ws[..n]) && EmitsAll(prog[1..], at + n, ws[n..]);
      EmittedLineWellJumped(prog[0], at, ws[..n]);
      EmittedWellJumped(prog[1..], at + n, ws[n..]);
      WellJumpedJoin(ws[..n], ws[n..]);
      assert ws == ws[..n] + ws[n..];
    }
  }

  lemma EmptyWellJumped()
    ensures WellJumped([])
  {
  }

  /** A lui before a positive self-adi, read back as an ldi, names its register. */
  predicate LoadsAgree(ws: seq<Word>) {
    forall p {:trigger ws[p]} :: 0 < p < |ws| ==>
      (IsLui(ws[p - 1]) && IsSelfAdi(ws[p]) && Isa.Imm7(ws[p]) < 64 ==>
        Isa.FieldA(ws[p - 1]) == Isa.FieldA(ws[p]))
  }

  lemma EmittedOkAt(ws: seq<Word>, p: nat)
    requires p < |ws| && WellJumped(ws)
    ensures !IsY05OrY06(ws[p]) && LoadsAgree(ws) ==> OkAt(ws, p)
    ensures IsY05OrY06(ws[p]) ==> !OkAt(ws, p)
  {
    hide Isa.FieldA, Isa.FieldB, Isa.FieldC, Isa.FieldX, Isa.Top4, Isa.Imm7;
    if FusedAt(ws, p) {
      var q := p + 1;
      assert IsJlr(ws[q]) ==> JlrSpelled(ws[q]) || PairedJump(ws[q - 1], ws[q]);
    } else if p > 0 && !FusedAt(ws, p - 1) {
      assert !Fuses(ws[p - 1], ws[p]);
    }
  }

  lemma EmittedLoads(ws: seq<Word>)
    requires OkFrom(ws, 0)
    ensures LoadsAgree(ws)
  {
    hide Isa.FieldA, Isa.FieldB, Isa.FieldC, Isa.FieldX, Isa.Top4, Isa.Imm7;
    forall p | 0 < p < |ws| && IsLui(ws[p - 1]) && IsSelfAdi(ws[p]) && Isa.Imm7(ws[p]) < 64
      ensures Isa.FieldA(ws[p - 1]) == Isa.FieldA(ws[p])
    {
      assert OkAt(ws, p - 1);
    }
  }

  /** For everything the assembler can emit, the round trip holds if and only if the
      binary has no zero word, uses neither y05 nor y06, and no lui stands by accident
      before a self-adi on another register. */
  lemma AssembledRoundTrips(prog: seq<Line>, ws: seq<Word>)
    requires EmitsAll(prog, 0, ws) && |ws| <= BANK_SIZE
    ensures RoundTrips(ws) <==>
      && 0 !in ws
      && (forall p :: 0 <= p < |ws| ==> !IsY05OrY06(ws[p]))
      && LoadsAgree(ws)
  {
    hide EmitsAll, WellJumped, LoadsAgree, OkAt, IsY05OrY06;
    EmittedWellJumped(prog, 0, ws);
    forall p | 0 <= p < |ws|
      ensures !IsY05OrY06(ws[p]) && LoadsAgree(ws) ==> OkAt(ws, p)
      ensures OkAt(ws, p) ==> !IsY05OrY06(ws[p])
    {
      EmittedOkAt(ws, p);
    }
    if OkFrom(ws, 0) {
      EmittedLoads(ws);
    }
  }

  lemma AssembleTwo(k: Line, l: Line, u: Word, w: Word)
    requires AssembleLine(k, 0) == Some([u]) && AssembleLine(l, 1) == Some([w])
    ensures Assemble([k, l], 0) == Some([u, w]) && AssembleProgram([k, l]) == Some([u, w])
  {
    hide AssembleLine;
    assert [k, l][1..] == [l] && [l][1..] == [];
    AssembleFirst([k, l], 0);
    AssembleFirst([l], 1);
    assert [w] + [] == [w] && [u] + [w] == [u, w];
  }

  lemma BadPair(u: Word, w: Word)
    requires Fuses(u, w) && !FusedOk(u, w)
    ensures !RoundTrips([u, w])
  {
    hide Fuses, FusedOk, PlainOk;
    assert !OkAt([u, w], 0);
  }

  lemma SelfAdiFields(imm: nat, r: Reg)
    requires imm < 64 && r != 0
    ensures var w := Rri(5, imm, r, r);
      IsSelfAdi(w) && Isa.Imm7(w) == imm && Isa.FieldA(w) == r && !IsJlr(w)
  {
    hide Isa.FieldA, Isa.FieldB, Isa.FieldC, Isa.FieldX, Isa.Top4;
    Isa.DigitsUnique(Rri(5, imm, r, r), r, r, imm % 8, imm / 8, 10);
  }

  lemma LuiThenLli(r: Reg, i: nat, x: Reg, j: nat)
    requires i < 1024 && j < 64
    ensures AssembleLine(Line(LUI, [R(r), I(i)]), 0) == Some([Upper(i, r)])
    ensures AssembleLine(Line(LLI, [R(x), I(j)]), 1) == Some([Rri(5, j, x, x)])
  {
    ShapeRI(LUI, r, i, 0);
    ShapeRI(LLI, x, j, 1);
  }

  /** Programs that reassemble to something else: the disassembler takes a lui of
      one register and an lli of another for a single ldi. */
  lemma AccidentalLoad(r: Reg, i: nat, x: Reg, j: nat)
    requires r != x && x != 0 && i < 1024 && j < 64
    ensures AssembleProgram([Line(LUI, [R(r), I(i)]), Line(LLI, [R(x), I(j)])])
            == Some([Upper(i, r), Rri(5, j, x, x)])
    ensures !RoundTrips([Upper(i, r), Rri(5, j, x, x)])
  {
    hide *;
    LuiThenLli(r, i, x, j);
    AssembleTwo(Line(LUI, [R(r), I(i)]), Line(LLI, [R(x), I(j)]), Upper(i, r), Rri(5, j, x, x));
    AccidentalPair(r, i, x, j);
  }

  lemma AccidentalPair(r: Reg, i: nat, x: Reg, j: nat)
    requires r != x && x != 0 && i < 1024 && j < 64
    ensures !RoundTrips([Upper(i, r), Rri(5, j, x, x)])
  {
    hide RoundTrips, IsLui, IsSelfAdi, IsJlr, Upper, Rri, Isa.FieldA, Isa.FieldB, Isa.Imm7;
    UpperFields(i, r);
    SelfAdiFields(j, x);
    BadPair(Upper(i, r), Rri(5, j, x, x));
  }
}
