/** Word-organised physical memory behaves as a flat array of bytes.

    The machine keeps 16-bit words and shifts data addresses; programs see bytes.
    Here every byte of physical memory is shown to hold, after any run, exactly
    the byte last stored to it, little-endian, through whatever page it was
    reached. */
module ByteMemory {
  import opened Words
  import opened Isa

  const BYTE_MEM_SIZE := 2 * PHYS_MEM_SIZE

  /** Byte b of physical memory. */
  function ByteAt(mem: Memory, b: nat): nat
    requires b < BYTE_MEM_SIZE
  {
    if b % 2 == 0 then mem[b / 2] % 256 else mem[b / 2] / 256
  }

  /** The physical byte address of a virtual data address. */
  function PhysByte(mmu: SprFile, ea: Word): nat {
    mmu[48 + ea / 4096] % 4096 * 4096 + ea % 4096
  }

  lemma TranslateByte(mmu: SprFile, ea: Word)
    ensures var b := PhysByte(mmu, ea);
      && b % 2 == ea % 2
      && Translate(mmu, true, ea) == (if b / 2 > PHYS_MEM_SIZE then Fault else At(b / 2))
  {
    var page := mmu[48 + ea / 4096] % 4096;
    assert page * 4096 + ea % 4096 == 2 * (page * 2048 + ea % 4096 / 2) + ea % 2;
  }

  /** The bytes a store of the given width at physical byte b changes. */
  function Stored(wide: bool, b: nat, v: Word): map<nat, nat> {
    if wide then map[b := v % 256, b + 1 := v / 256] else map[b := v % 256]
  }

  predicate Reaches(s: State, wide: bool, ea: Word) {
    PhysByte(s.Spr(), ea) < BYTE_MEM_SIZE && (wide ==> ea % 2 == 0)
  }

  /** What instruction i, executed in state s, stores in the flat byte array. */
  function StoresOf(s: State, i: Instr): map<nat, nat> {
    if i.Mem? && !IsLoad(i.op) then
      var ea := Add(s.Gen()[i.rb], i.imm);
      if Reaches(s, IsWide(i.op), ea) then
        Stored(IsWide(i.op), PhysByte(s.Spr(), ea), s.Gen()[i.ra])
      else map[]
    else map[]
  }

  /** What the next cycle stores in the flat byte array. */
  function Stores(s: State): map<nat, nat> {
    var e := Enter(s);
    match FetchAt(e)
    case NoFetch(_) => map[]
    case Fetch(w) => StoresOf(Advance(e), Decode(w))
  }

  // ---- Loads read bytes, stores change exactly theirs ----

  lemma ReadBytes(s: State, wide: bool, ea: Word)
    ensures var b := PhysByte(s.Spr(), ea);
      ReadData(s, wide, ea) ==
        if wide && ea % 2 == 1 then Trap(EX_MEMORY)
        else if b / 2 > PHYS_MEM_SIZE then Trap(EX_MEMORY)
        else if b >= BYTE_MEM_SIZE then Fatal(BeyondMemory)
        else if wide then Value(ByteAt(s.mem, b) + 256 * ByteAt(s.mem, b + 1))
        else Value(ByteAt(s.mem, b))
  {
    hide Translate, PhysByte;
    TranslateByte(s.Spr(), ea);
  }

  ghost predicate Overlaid(before: Memory, after: Memory, stores: map<nat, nat>) {
    forall b :: 0 <= b < BYTE_MEM_SIZE ==>
      ByteAt(after, b) == if b in stores then stores[b] else ByteAt(before, b)
  }

  /** Changing a word changes its two bytes. */
  lemma PokeBytes(m: Memory, a: nat, v: Word, b: nat)
    requires a < PHYS_MEM_SIZE && b < BYTE_MEM_SIZE
    ensures ByteAt(Poke(m, a, v), b) ==
      if b == 2 * a then v % 256 else if b == 2 * a + 1 then v / 256 else ByteAt(m, b)
  {
    assert b == 2 * (b / 2) + b % 2;
  }

  lemma WriteBytes(s: State, wide: bool, ea: Word, v: Word)
    requires WriteData(s, wide, ea, v).Next?
    ensures Overlaid(s.mem, WriteData(s, wide, ea, v).state.mem,
      if Reaches(s, wide, ea) then Stored(wide, PhysByte(s.Spr(), ea), v) else map[])
  {
    hide Translate, PhysByte, Poke, ByteAt;
    TranslateByte(s.Spr(), ea);
    var p := PhysByte(s.Spr(), ea);
    if Reaches(s, wide, ea) {
      var a := p / 2;
      assert p == 2 * a + ea % 2;
      WordBytes(s.mem, a);
      var was, low := s.mem[a], v % 256;
      assert (was % 256 + low * 256) % 256 == was % 256 && (was % 256 + low * 256) / 256 == low;
      assert (was / 256 * 256 + low) % 256 == low && (was / 256 * 256 + low) / 256 == was / 256;
      forall b | 0 <= b < BYTE_MEM_SIZE
        ensures ByteAt(WriteData(s, wide, ea, v).state.mem, b) ==
          if b in Stored(wide, p, v) then Stored(wide, p, v)[b] else ByteAt(s.mem, b)
      {
        PokeBytes(s.mem, a, if wide then v else if ea % 2 == 1 then was % 256 + low * 256
                            else was / 256 * 256 + low, b);
      }
    }
  }

  lemma WordBytes(m: Memory, a: nat)
    requires a < PHYS_MEM_SIZE
    ensures ByteAt(m, 2 * a) == m[a] % 256 && ByteAt(m, 2 * a + 1) == m[a] / 256
  {
  }

  lemma ExecBytes(s: State, i: Instr)
    requires Exec(s, i).Next?
    ensures Overlaid(s.mem, Exec(s, i).state.mem, StoresOf(s, i))
  {
    hide Translate, ReadData, WriteData, Reaches, Stored, Alu3, Alu1, Alu1Carry;
    match i
    case Mem(op, ra, rb, imm) =>
      if !IsLoad(op) {
        WriteBytes(s, IsWide(op), Add(s.Gen()[rb], imm), s.Gen()[ra]);
      }
    case _ =>
  }

  lemma TurnBytes(s: State)
    requires Turn(s).Next?
    ensures Overlaid(s.mem, Turn(s).state.mem, Stores(s))
  {
    hide Exec, Decode, StoresOf;
    var e := Enter(s);
    if FetchAt(e).Fetch? {
      ExecBytes(Advance(e), Decode(FetchAt(e).w));
    }
  }

  // ---- Runs ----

  /** The byte last stored at b in the first n turns from s, or the one that was
      there at the start. */
  function LastStored(s: State, n: nat, b: nat): nat
    requires b < BYTE_MEM_SIZE
  {
    if n == 0 then ByteAt(s.mem, b)
    else match Run(s, n - 1)
      case Dead(_) => LastStored(s, n - 1, b)
      case Next(t) =>
        if Live(t) && b in Stores(t) then Stores(t)[b] else LastStored(s, n - 1, b)
  }

  lemma {:induction false} RunBytes(s: State, n: nat, b: nat)
    requires b < BYTE_MEM_SIZE && Run(s, n).Next?
    ensures ByteAt(Run(s, n).state.mem, b) == LastStored(s, n, b)
  {
    hide Turn, Stores;
    if n > 0 {
      RunBytes(s, n - 1, b);
      if Live(Run(s, n - 1).state) {
        TurnBytes(Run(s, n - 1).state);
      }
    }
  }

  /** After any run, a load that reaches memory delivers the bytes last stored. */
  lemma LoadsReturnLastStores(s: State, n: nat, wide: bool, ea: Word)
    requires Run(s, n).Next? && Reaches(Run(s, n).state, wide, ea)
    ensures var t := Run(s, n).state; var b := PhysByte(t.Spr(), ea);
      && ReadData(t, wide, ea).Value?
      && var v := ReadData(t, wide, ea).v;
         && (!wide ==> v == LastStored(s, n, b))
         && (wide ==> b + 1 < BYTE_MEM_SIZE &&
                      v == LastStored(s, n, b) + 256 * LastStored(s, n, b + 1))
  {
    hide Run, ReadData, PhysByte;
    var t := Run(s, n).state;
    TranslateByte(t.Spr(), ea);
    ReadBytes(t, wide, ea);
    RunBytes(s, n, PhysByte(t.Spr(), ea));
    if wide {
      RunBytes(s, n, PhysByte(t.Spr(), ea) + 1);
    }
  }
}
