/** The protocol, byte by byte: what each command does to the hardware and gets in reply. */
module Protocol {
  import opened Words
  import opened Wrappers
  import opened SerialRing
  import opened Reversal
  import opened Nano
  import opened NanoRuns

  /** An acknowledgement is the command with every bit inverted. */
  lemma AckInverts(b: Byte, k: nat)
    requires k < 8
    ensures Bit(Ack(b), k) == !Bit(b, k)
  {
    hide Bit;
    assert Pow2(8) == 256;
    BitOfComplement(b, 8, k);
  }

  /** r has the bits of b in opposite order. */
  ghost predicate Opposite(r: Byte, b: Byte) {
    forall k :: 0 <= k < 8 ==> Bit(r, k) == Bit(b, 7 - k)
  }

  lemma ReverseIsOpposite(b: Byte)
    ensures Opposite(ReverseByte(b), b)
  {
    hide Bit, ReverseByte;
    forall k | 0 <= k < 8 ensures Bit(ReverseByte(b), k) == Bit(b, 7 - k) {
      ReverseBits(b, k);
    }
  }

  /** A pulse toggles its output as often as its count says, a set writes its data, in
      opposite order for the reversed set, a get reads its register; all of them touch
      the one id that is checked, and no other command touches anything. */
  lemma HardwareTouched(cmd: seq<Byte>)
    requires cmd != [] && |cmd| == LengthOf(cmd[0])
    ensures var acts := ActionsOf(cmd);
      && (forall k :: 0 <= k < |acts| ==> acts[k].id == IdOf(cmd))
      && (cmd[0] == 0xF0 ==>
           |cmd| == 3 && |acts| == cmd[1] && forall k :: 0 <= k < |acts| ==> acts[k].Toggle? && acts[k].id == cmd[2])
      && (cmd[0] == 0xF4 || cmd[0] == 0xF5 ==>
           && |cmd| == 3 && |acts| == 1 && acts[0].Write? && acts[0].id == cmd[1]
           && (if cmd[0] == 0xF4 then acts[0].data == cmd[2] else Opposite(acts[0].data, cmd[2])))
      && (cmd[0] == 0xF8 || cmd[0] == 0xF9 ==>
           |cmd| == 2 && |acts| == 1 && acts[0].Read? && acts[0].id == cmd[1])
      && (cmd[0] !in {0xF0, 0xF4, 0xF5, 0xF8, 0xF9} ==> acts == [])
  {
    hide ReverseByte, Opposite;
    if cmd[0] == 0xF5 {
      ReverseIsOpposite(cmd[2]);
    }
  }

  /** Replies to commands with good ids: sync, pulse and set are acknowledged, get-version
      gives the version, a poll the length of the message and the message, and a get the
      register, in opposite order for the reversed get. */
  lemma Replied(cmd: seq<Byte>, i: Input)
    requires cmd != [] && |cmd| == LengthOf(cmd[0]) && ValidInput(i) && !BadId(cmd)
    ensures var r := Reply(cmd, i);
      && r != [] && r[0] == 0xFF - cmd[0]
      && (cmd[0] in {0xE1, 0xF0, 0xF4, 0xF5} ==> |r| == 1)
      && (cmd[0] == 0xE2 ==> |r| == 2 && r[1] == PROTOCOL_VERSION)
      && (cmd[0] == 0xE3 ==>
           |r| >= 2 && r[1] == |r| - 2 && r[2..] == if i.log.Some? then i.log.value else [])
      && (cmd[0] == 0xF8 ==> |r| == 2 && r[1] == i.reg)
      && (cmd[0] == 0xF9 ==> |r| == 2 && Opposite(r[1], i.reg))
  {
    hide ReverseByte, Opposite;
    ReverseIsOpposite(i.reg);
  }

  /** A call writes and takes as much as it can: until the line takes no more or nothing is
      queued, and until nothing more is offered or the ring is full. */
  lemma WritesAndTakesAll(n: Node, i: Input)
    requires Inv(n) && ValidInput(i) && Step(n, i).Did?
    ensures var s := Step(n, i);
      && s.written == n.xmt[..|s.written|] && s.taken == i.offer[..|s.taken|]
      && |s.written| <= i.budget && (|s.written| == i.budget || |s.written| == |n.xmt|)
      && |n.rcv| + |s.taken| <= 15 && (|s.taken| == |i.offer| || |n.rcv| + |s.taken| == 15)
  {
    hide React;
  }
}
