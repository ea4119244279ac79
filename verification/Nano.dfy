/** The Nano's end of the serial protocol, as a transition on queues of bytes.

    One call of the serial task writes what the line takes, reads what it offers
    and then handles at most one thing.  How much is written and read, what the
    hardware registers hold and what is waiting in the log are inputs.  */
module Nano {
  import opened Words
  import opened Wrappers
  import opened SerialRing
  import opened Reversal

  const PROTOCOL_VERSION: Byte := 13
  const STCMD_BASE: Byte := 0xE0
  const STCMD_SYNC: Byte := 0xE1
  const STCMD_POLL: Byte := 0xE3
  const STCMD_SETR: Byte := 0xF5
  const STCMD_GET: Byte := 0xF8
  const STCMD_GETR: Byte := 0xF9
  const STERR_BADCMD: Byte := 0x81
  const MAX_FIXED_RESPONSE_BYTES := 2
  const POLL_BUF_MAX_DATA := 255

  // ---- Commands ----

  datatype Handler = BadCmd | Undef | Sync | GetVer | Poll | Pulse | Set | Get

  datatype CommandData = Command(handler: Handler, length: nat)

  /** The jump table, from command byte 0xE0 up. */
  const HANDLERS: seq<CommandData> := [
    Command(BadCmd, 1), Command(Sync, 1), Command(GetVer, 1), Command(Poll, 1),
    Command(Undef, 1), Command(Undef, 1), Command(Undef, 1), Command(Undef, 1),
    Command(Undef, 1), Command(Undef, 1), Command(Undef, 1), Command(Undef, 1),
    Command(Undef, 1), Command(Undef, 1), Command(Undef, 1), Command(Undef, 1),
    Command(Pulse, 3), Command(Undef, 1), Command(Undef, 1), Command(Undef, 1),
    Command(Set, 3), Command(Set, 3), Command(Undef, 1), Command(Undef, 1),
    Command(Get, 2), Command(Get, 2), Command(Undef, 1), Command(Undef, 1),
    Command(Undef, 1), Command(Undef, 1), Command(Undef, 1), Command(BadCmd, 1)
  ]

  predicate IsCommand(b: Byte) { b > STCMD_BASE }

  /** The handler of a byte received as a command. */
  function HandlerOf(b: Byte): Handler {
    match b
    case 0xE1 => Sync
    case 0xE2 => GetVer
    case 0xE3 => Poll
    case 0xF0 => Pulse
    case 0xF4 => Set
    case 0xF5 => Set
    case 0xF8 => Get
    case 0xF9 => Get
    case 0xFF => BadCmd
    case _ => if IsCommand(b) then Undef else BadCmd
  }

  function LengthOf(b: Byte): (n: nat)
    ensures 1 <= n <= 3
  {
    match HandlerOf(b)
    case Pulse => 3
    case Set => 3
    case Get => 2
    case _ => 1
  }

  lemma TableRow(b: Byte)
    requires IsCommand(b)
    ensures |HANDLERS| == 32
    ensures HANDLERS[b - STCMD_BASE] == Command(HandlerOf(b), LengthOf(b))
  {
  }

  predicate Defined(b: Byte) {
    !(HandlerOf(b) == BadCmd || HandlerOf(b) == Undef)
  }

  function Ack(b: Byte): Byte { 255 - b }

  // ---- State and inputs ----

  datatype Session = Unsync | Desynchronizing | Ready

  /** The two rings as queues, the session, whether a poll reply is in progress and
      what of it has not yet been queued. */
  datatype Node = Node(rcv: seq<Byte>, xmt: seq<Byte>, st: Session, prog: bool, pend: seq<Byte>)

  const RESET := Node([], [], Unsync, false, [])

  /** What a call finds: how many bytes the line takes, whether writing works, which
      bytes it offers, the register it may be asked for, and the log message waiting. */
  datatype Input = Input(budget: nat, writes: bool, offer: seq<Byte>, reg: Byte, log: Option<seq<Byte>>)

  predicate ValidInput(i: Input) {
    i.log.Some? ==> |i.log.value| <= POLL_BUF_MAX_DATA
  }

  /** A command taken from the receive ring and everything sent in reply to it. */
  datatype Exchange = Exchange(cmd: seq<Byte>, reply: seq<Byte>)

  datatype Reaction =
    | Halt(code: nat)                            // the firmware panics
    | Acts(node: Node, done: seq<Exchange>)

  datatype Effect =
    | Panic(code: nat)
    | Did(node: Node, written: seq<Byte>, taken: seq<Byte>, done: seq<Exchange>)

  // ---- Replies ----

  /** The register id a command names; the firmware accepts 0..15. */
  function IdOf(cmd: seq<Byte>): Byte
    requires cmd != [] && |cmd| == LengthOf(cmd[0])
  {
    match HandlerOf(cmd[0])
    case Pulse => cmd[2]
    case Set => cmd[1]
    case Get => cmd[1]
    case _ => 0
  }

  predicate BadId(cmd: seq<Byte>)
    requires cmd != [] && |cmd| == LengthOf(cmd[0])
  {
    IdOf(cmd) > 15
  }

  /** The part of the reply that goes straight into the transmit ring.  A bad id is
      refused and then served all the same. */
  function FixedReply(cmd: seq<Byte>, i: Input): (r: seq<Byte>)
    requires cmd != [] && |cmd| == LengthOf(cmd[0]) && ValidInput(i)
    ensures |r| <= if BadId(cmd) && HandlerOf(cmd[0]) == Get then 3 else 2
  {
    var ack := Ack(cmd[0]);
    var nak := if BadId(cmd) then [STERR_BADCMD] else [];
    match HandlerOf(cmd[0])
    case GetVer => [ack, PROTOCOL_VERSION]
    case Poll => [ack, if i.log.Some? then |i.log.value| else 0]
    case Get => nak + [ack, if cmd[0] == STCMD_GETR then ReverseByte(i.reg) else i.reg]
    case _ => nak + [ack]
  }

  /** The part that follows through the poll buffer. */
  function CountedReply(cmd: seq<Byte>, i: Input): seq<Byte>
    requires cmd != []
  {
    if HandlerOf(cmd[0]) == Poll && i.log.Some? then i.log.value else []
  }

  function Reply(cmd: seq<Byte>, i: Input): seq<Byte>
    requires cmd != [] && |cmd| == LengthOf(cmd[0]) && ValidInput(i)
  {
    FixedReply(cmd, i) + CountedReply(cmd, i)
  }

  // ---- What a command does to the hardware ----

  datatype Action = Toggle(id: Byte) | Write(id: Byte, data: Byte) | Read(id: Byte)

  /** The ports a command touches, in order; a bad id is passed on as it is. */
  function ActionsOf(cmd: seq<Byte>): seq<Action>
    requires cmd != [] && |cmd| == LengthOf(cmd[0])
  {
    match HandlerOf(cmd[0])
    case Pulse => seq(cmd[1], _ => Toggle(cmd[2]))
    case Set => [Write(cmd[1], if cmd[0] == STCMD_SETR then ReverseByte(cmd[2]) else cmd[2])]
    case Get => [Read(cmd[1])]
    case _ => []
  }

  /** The command of an exchange is as long as its first byte says. */
  predicate Whole(e: Exchange) {
    e.cmd != [] && |e.cmd| == LengthOf(e.cmd[0])
  }

  function Actions(d: seq<Exchange>): seq<Action>
    requires forall k :: 0 <= k < |d| ==> Whole(d[k])
  {
    if d == [] then [] else assert Whole(d[|d| - 1]); Actions(d[..|d| - 1]) + ActionsOf(d[|d| - 1].cmd)
  }

  lemma ActionsAppend(d: seq<Exchange>, e: Exchange)
    requires Whole(e) && forall k :: 0 <= k < |d| ==> Whole(d[k])
    ensures Actions(d + [e]) == Actions(d) + ActionsOf(e.cmd)
  {
    assert (d + [e])[..|d|] == d;
  }

  // ---- One call ----

  function Min(a: int, b: int): int { if a < b then a else b }

  /** How many more bytes of a poll reply go into a transmit ring; it is never quite
      filled. */
  function PollRoom(xmt: seq<Byte>): nat {
    if |xmt| < RING_MAX - 1 then RING_MAX - 1 - |xmt| else 0
  }

  function PollMore(n: Node): Node {
    var m := Min(PollRoom(n.xmt), |n.pend|);
    n.(xmt := n.xmt + n.pend[..m], pend := n.pend[m..], prog := m < |n.pend|)
  }

  /** Refuse a byte: NAK it without consuming it, and on the next call reset. */
  function Refuse(n: Node): Reaction {
    if n.st != Desynchronizing then
      if |n.xmt| >= RING_MAX - 1 then Halt(0xC)
      else Acts(n.(prog := false, xmt := n.xmt + [STERR_BADCMD], st := Desynchronizing), [])
    else Acts(Node([], [], Unsync, false, n.pend), [])
  }

  /** Take a whole command off the receive ring and answer it. */
  function Serve(n: Node, i: Input): Reaction
    requires n.rcv != [] && LengthOf(n.rcv[0]) <= |n.rcv| && ValidInput(i)
  {
    var cmd := n.rcv[..LengthOf(n.rcv[0])];
    var fixed := FixedReply(cmd, i);
    if |n.xmt| + |fixed| > RING_MAX then Halt(7)
    else
      var m := n.(rcv := n.rcv[|cmd|..], xmt := n.xmt + fixed);
      Acts(
        if HandlerOf(cmd[0]) == Poll && i.log.Some?
        then PollMore(m.(pend := i.log.value, prog := true)) else m,
        [Exchange(cmd, Reply(cmd, i))])
  }

  /** A byte at the head of the receive ring in a session. */
  function Process(n: Node, i: Input): Reaction
    requires n.rcv != [] && ValidInput(i)
  {
    var b := n.rcv[0];
    if !IsCommand(b) then Refuse(n)
    else if |n.rcv| < LengthOf(b) || RING_MAX - |n.xmt| < MAX_FIXED_RESPONSE_BYTES then Acts(n, [])
    else if !Defined(b) then Refuse(n)
    else Serve(n, i)
  }

  function React(n: Node, i: Input): Reaction
    requires ValidInput(i)
  {
    if n.prog then Acts(PollMore(n), [])
    else if n.rcv == [] then Acts(n, [])
    else if n.st == Ready then Process(n, i)
    else if n.st == Unsync && n.rcv[0] == STCMD_SYNC then
      Acts(n.(rcv := n.rcv[1..], xmt := n.xmt + [Ack(STCMD_SYNC)], st := Ready),
           [Exchange([STCMD_SYNC], [Ack(STCMD_SYNC)])])
    else Refuse(n)
  }

  function Written(n: Node, i: Input): nat { Min(i.budget, |n.xmt|) }

  function Taken(n: Node, i: Input): nat
    requires |n.rcv| <= RING_MAX
  {
    Min(RING_MAX - |n.rcv|, |i.offer|)
  }

  /** The node after the input and output at the start of a call. */
  function AfterIO(n: Node, i: Input): Node
    requires |n.rcv| <= RING_MAX
  {
    n.(xmt := n.xmt[Written(n, i)..], rcv := n.rcv + i.offer[..Taken(n, i)])
  }

  /** One call of the serial task. */
  function Step(n: Node, i: Input): Effect
    requires |n.rcv| <= RING_MAX && ValidInput(i)
  {
    if Written(n, i) > 0 && !i.writes then Panic(9)
    else
      match React(AfterIO(n, i), i)
      case Halt(code) => Panic(code)
      case Acts(m, done) => Did(m, n.xmt[..Written(n, i)], i.offer[..Taken(n, i)], done)
  }

  // ---- The invariant ----

  predicate Inv(n: Node) {
    && |n.rcv| <= RING_MAX && |n.xmt| <= RING_MAX
    && (n.st == Unsync ==> n.xmt == [])
    && (n.st == Desynchronizing ==> n.rcv != [])
    && (n.prog ==> n.st == Ready)
    && (n.prog <==> n.pend != [])
  }

  lemma ServeInv(n: Node, i: Input)
    requires Inv(n) && ValidInput(i) && n.st == Ready && !n.prog
    requires n.rcv != [] && LengthOf(n.rcv[0]) <= |n.rcv|
    ensures Serve(n, i).Acts? ==> Inv(Serve(n, i).node) && Serve(n, i).node.st == Ready
  {
  }

  /** What a call handles is whole. */
  lemma StepWhole(n: Node, i: Input)
    requires Inv(n) && ValidInput(i) && Step(n, i).Did?
    ensures |Step(n, i).done| <= 1 && forall k :: 0 <= k < |Step(n, i).done| ==> Whole(Step(n, i).done[k])
  {
    hide FixedReply, PollMore;
  }

  /** Every call, on any bytes at all, keeps the invariant: outside a session nothing
      is queued for sending, a session being torn down still holds the refused byte,
      and a poll reply is in progress exactly while some of it is unsent. */
  lemma StepInv(n: Node, i: Input)
    requires Inv(n) && ValidInput(i)
    ensures Step(n, i).Did? ==> Inv(Step(n, i).node)
  {
    hide Serve;
    var m := AfterIO(n, i);
    if m.rcv != [] && LengthOf(m.rcv[0]) <= |m.rcv| && m.st == Ready && !m.prog {
      ServeInv(m, i);
    }
  }
}
