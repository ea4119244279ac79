/** The serial task of the firmware: rings, poll buffer, handlers and session state,
    updated in place.  `SerialTask` is proved to perform one `Nano.Step`.  The
    numbered panics other than 7, 9 and 0xC are preconditions of the routines that
    raise them, so none of them can be reached. */
module Firmware {
  import opened Words
  import opened Wrappers
  import opened SerialRing
  import opened Reversal
  import opened Nano
  import opened NanoRuns

  const POLL_BUF_SIZE := 259
  const POLL_BUF_LAST := POLL_BUF_SIZE - 1
  const GUARD_BYTE: Byte := 0xAA

  class Device {
    const rcvBuf: Ring
    const xmtBuf: Ring
    var state: Session
    var inProgress: bool

    // The poll buffer.
    var remaining: nat
    var next: nat
    var inuse: bool
    const buf: array<Byte>

    // The panic that stopped the firmware, or 0.
    var halted: nat

    ghost const Repr: set<object>

    ghost predicate Shape() {
      && rcvBuf != xmtBuf && rcvBuf.body != xmtBuf.body
      && buf != rcvBuf.body && buf != xmtBuf.body && buf.Length == POLL_BUF_SIZE
      && Repr == {this, rcvBuf, xmtBuf, rcvBuf.body, xmtBuf.body, buf}
    }

    ghost predicate Valid()
      reads Repr
    {
      && Shape() && this in Repr
      && rcvBuf.Valid() && xmtBuf.Valid()
      && halted == 0 && inuse == inProgress
      && next + remaining <= POLL_BUF_MAX_DATA
      && buf[POLL_BUF_LAST] == GUARD_BYTE
    }

    ghost function Abs(): (n: Node)
      requires Valid()
      reads Repr
      ensures |n.rcv| <= RING_MAX && |n.xmt| <= RING_MAX
    {
      Node(rcvBuf.Contents(), xmtBuf.Contents(), state, inProgress,
           if inuse then buf[next..next + remaining] else [])
    }

    constructor ()
      ensures Valid() && Abs() == RESET && fresh(Repr)
    {
      var r := new Ring();
      var x := new Ring();
      var b := new Byte[POLL_BUF_SIZE](k => GUARD_BYTE);
      rcvBuf, xmtBuf, buf := r, x, b;
      state, inProgress := Unsync, false;
      remaining, next, inuse := 0, 0, false;
      halted := 0;
      Repr := {this, r, x, r.body, x.body, b};
    }

    // ---- Sending ----

    method CanSend(n: nat) returns (ok: bool)
      requires Valid()
      ensures ok <==> n < RING_MAX - |Abs().xmt|
    {
      var a := xmtBuf.Avail();
      ok := n < a;
    }

    /** Queue a byte; a full transmit ring is panic 7. */
    method Send(b: Byte)
      requires Valid()
      modifies `halted, xmtBuf, xmtBuf.body
      ensures if |old(Abs()).xmt| == RING_MAX then halted == 7
              else Valid() && Abs() == old(Abs()).(xmt := old(Abs()).xmt + [b])
    {
      var full := xmtBuf.IsFull();
      if full {
        halted := 7;
        return;
      }
      xmtBuf.Put(b);
    }

    method SendAck(b: Byte)
      requires Valid() && IsCommand(b)
      modifies `halted, xmtBuf, xmtBuf.body
      ensures if |old(Abs()).xmt| == RING_MAX then halted == 7
              else Valid() && Abs() == old(Abs()).(xmt := old(Abs()).xmt + [Ack(b)])
    {
      Send(Ack(b));
    }

    /** Queue an acknowledgement and a result. */
    method SendAckAnd(b: Byte, result: Byte)
      requires Valid() && IsCommand(b) && |Abs().xmt| < RING_MAX
      modifies `halted, xmtBuf, xmtBuf.body
      ensures if |old(Abs()).xmt| + 2 > RING_MAX then halted == 7
              else Valid() && Abs() == old(Abs()).(xmt := old(Abs()).xmt + [Ack(b), result])
    {
      SendAck(b);
      Send(result);
    }

    // ---- Refusing ----

    /** Drop the session.  Amid a poll reply, where only a panic calls it, this leaves the
        poll buffer allocated. */
    method StateUnsync()
      requires Valid()
      modifies Repr
      ensures rcvBuf.Valid() && rcvBuf.Contents() == [] && xmtBuf.Valid() && xmtBuf.Contents() == []
      ensures state == Unsync && !inProgress && inuse == old(inuse) && halted == 0
      ensures Valid() <==> !old(inProgress)
      ensures !old(inProgress) ==> Abs() == Node([], [], Unsync, false, old(Abs()).pend)
    {
      rcvBuf.Clear();
      xmtBuf.Clear();
      inProgress := false;
      state := Unsync;
    }

    /** stBadCmd: the caller stores the session it returns, or ignores it. */
    method StBadCmd() returns (st: Session)
      requires Valid() && !inProgress
      modifies Repr
      ensures match Refuse(old(Abs()))
              case Halt(code) => halted == code > 0
              case Acts(n, _) =>
                && Valid() && halted == 0 && st == n.st
                && Abs() == n.(st := if n.st == Unsync then Unsync else old(state))
    {
      st := state;
      inProgress := false;
      if state != Desynchronizing {
        var ok := CanSend(1);
        if !ok {
          halted := 0xC;
          return;
        }
        Send(STERR_BADCMD);
        st := Desynchronizing;
      } else {
        StateUnsync();
        st := Unsync;
      }
    }

    // ---- The poll buffer ----

    /** Allocate the poll buffer and fill it from the log. */
    method AllocPollBuffer(msg: seq<Byte>)
      requires Valid() && !inuse && |msg| <= POLL_BUF_MAX_DATA
      modifies Repr
      ensures Valid() && inProgress
      ensures Abs() == old(Abs()).(prog := true, pend := msg)
    {
      inuse := true;
      remaining := 0;
      next := 0;
      buf[POLL_BUF_LAST] := GUARD_BYTE;
      var k := 0;
      while k < |msg|
        invariant k <= |msg| && buf[..k] == msg[..k] && buf[POLL_BUF_LAST] == GUARD_BYTE
        invariant rcvBuf.Contents() == old(rcvBuf.Contents())
        invariant xmtBuf.Contents() == old(xmtBuf.Contents())
        modifies buf
      {
        buf[k] := msg[k];
        k := k + 1;
      }
      remaining := |msg|;
      inProgress := true;
    }

    method FreePollBuffer()
      requires Valid() && inProgress && remaining == 0
      modifies Repr
      ensures Valid() && Abs() == old(Abs()).(prog := false, pend := [])
    {
      next := 0;
      remaining := 0;
      inuse := false;
      inProgress := false;
    }

    lemma PollFacts()
      requires Valid() && inProgress
      ensures Abs().prog && |Abs().pend| == remaining && |Abs().xmt| <= RING_MAX
    {
    }

    method SendNextPollByte()
      requires Valid() && inProgress && remaining > 0 && |Abs().xmt| < RING_MAX
      modifies Repr
      ensures Valid() && inProgress && remaining == old(remaining) - 1
      ensures old(Abs()).pend != [] && Abs() == Moved(old(Abs()), 1)
    {
      ghost var n := Abs();
      assert n.pend[..1] == [buf[next]] && n.pend[1..] == buf[next + 1..next + remaining];
      Send(buf[next]);
      remaining := remaining - 1;
      next := next + 1;
      assert Abs().pend == n.pend[1..] && Abs().xmt == n.xmt + n.pend[..1];
    }

    /** Send as much of the poll buffer as fits, freeing it when none is left. */
    method PollResponseInProgress()
      requires Valid() && inProgress
      modifies Repr
      ensures Valid() && Abs() == PollMore(old(Abs()))
    {
      hide PollMore, Moved, Abs, Valid;
      ghost var start := Abs();
      ghost var m := 0;
      PollFacts();
      MovedNone(start);
      var ok := CanSend(1);
      while ok && remaining > 0
        invariant Valid() && inProgress && m <= |start.pend|
        invariant ok <==> |Abs().xmt| < RING_MAX - 1
        invariant |Abs().xmt| == |start.xmt| + m
        invariant m == 0 || |start.xmt| + m <= RING_MAX - 1
        invariant Abs() == Moved(start, m) && remaining == |start.pend| - m
        decreases remaining
      {
        SendNextPollByte();
        MovedOneMore(start, m);
        m := m + 1;
        MovedLength(start, m);
        ok := CanSend(1);
      }
      MovedIsPollMore(start, m);
      if remaining == 0 {
        FreePollBuffer();
      }
    }

    // ---- Command handlers ----

    /** The reaction r has taken place, up to storing the session st it returns. */
    ghost predicate Acted(r: Reaction, st: Session)
      reads Repr
    {
      match r
      case Halt(code) => this in Repr && halted == code > 0
      case Acts(n, _) => Valid() && halted == 0 && Abs().(st := st) == n
    }

    /** A whole command is at hand, with room for the fixed part of its reply. */
    ghost predicate Awaiting(h: Handler, b: Byte)
      reads Repr
    {
      && Valid() && !inProgress && state == Ready
      && HandlerOf(b) == h && Abs().rcv != [] && Abs().rcv[0] == b
      && LengthOf(b) <= |Abs().rcv|
      && MAX_FIXED_RESPONSE_BYTES <= RING_MAX - |Abs().xmt|
    }

    /** Copy and consume the n bytes of a command. */
    method TakeCommand(n: nat) returns (cmd: seq<Byte>)
      requires Valid() && n <= |Abs().rcv|
      modifies Repr
      ensures Valid() && cmd == old(Abs()).rcv[..n]
      ensures Abs() == old(Abs()).(rcv := old(Abs()).rcv[n..])
    {
      cmd := rcvBuf.Copy(n);
      rcvBuf.Consume(n);
    }

    /** Refuse a bad register id, ignoring the session this asks for. */
    method RefuseId(bad: bool)
      requires Valid() && !inProgress && state == Ready && |Abs().xmt| < RING_MAX - 1
      modifies Repr
      ensures Valid() &&
        Abs() == old(Abs()).(xmt := old(Abs()).xmt + if bad then [STERR_BADCMD] else [])
    {
      if bad {
        var ignored := StBadCmd();
      }
    }

    method StSync(b: Byte, ghost i: Input) returns (st: Session)
      requires Awaiting(Sync, b) && ValidInput(i)
      modifies Repr
      ensures Acted(Serve(old(Abs()), i), st)
    {
      rcvBuf.Consume(1);
      SendAck(b);
      st := Ready;
    }

    method StGetVer(b: Byte, ghost i: Input) returns (st: Session)
      requires Awaiting(GetVer, b) && ValidInput(i)
      modifies Repr
      ensures Acted(Serve(old(Abs()), i), st)
    {
      rcvBuf.Consume(1);
      SendAck(b);
      Send(PROTOCOL_VERSION);
      st := state;
    }

    /** Answer a poll with a message: its length now, its bytes as they fit. */
    method StartPollReply(msg: seq<Byte>)
      requires Valid() && !inProgress && |Abs().xmt| < RING_MAX && |msg| <= POLL_BUF_MAX_DATA
      modifies Repr
      ensures Valid()
      ensures Abs() == PollMore(old(Abs()).(xmt := old(Abs()).xmt + [|msg|], pend := msg, prog := true))
    {
      hide PollMore;
      AllocPollBuffer(msg);
      Send(|msg|);
      PollResponseInProgress();
    }

    method StPoll(b: Byte, i: Input) returns (st: Session)
      requires Awaiting(Poll, b) && ValidInput(i)
      modifies Repr
      ensures Acted(Serve(old(Abs()), i), st)
    {
      ghost var n := Abs();
      var cmd := TakeCommand(1);
      SendAck(b);
      ghost var m := Abs();
      st := state;
      if i.log.None? {
        Send(0);
        assert m.xmt + [0] == n.xmt + FixedReply(cmd, i);
      } else {
        StartPollReply(i.log.value);
        assert m.xmt + [|i.log.value|] == n.xmt + FixedReply(cmd, i);
      }
    }

    method TogglePulses(id: Byte, count: Byte) returns (acts: seq<Action>)
      ensures acts == seq(count, _ => Toggle(id))
    {
      acts := [];
      for k := 0 to count
        invariant acts == seq(k, _ => Toggle(id))
      {
        acts := acts + [Toggle(id)];
      }
    }

    method StPulse(b: Byte, ghost i: Input) returns (st: Session, acts: seq<Action>)
      requires Awaiting(Pulse, b) && ValidInput(i)
      modifies Repr
      ensures Acted(Serve(old(Abs()), i), st) && acts == ActionsOf(old(Abs()).rcv[..3])
    {
      ghost var n := Abs();
      var cmd := TakeCommand(3);
      RefuseId(cmd[2] > 15);
      acts := TogglePulses(cmd[2], cmd[1]);
      SendAck(b);
      assert Abs().xmt == n.xmt + FixedReply(cmd, i);
      st := state;
    }

    method StSet(b: Byte, ghost i: Input) returns (st: Session, acts: seq<Action>)
      requires Awaiting(Set, b) && ValidInput(i)
      modifies Repr
      ensures Acted(Serve(old(Abs()), i), st) && acts == ActionsOf(old(Abs()).rcv[..3])
    {
      hide ReverseByte;
      ghost var n := Abs();
      var cmd := TakeCommand(3);
      RefuseId(cmd[1] > 15);
      var data := cmd[2];
      if b == STCMD_SETR {
        data := ReverseByte(cmd[2]);
      }
      acts := [Write(cmd[1], data)];
      SendAck(b);
      assert Abs().xmt == n.xmt + FixedReply(cmd, i);
      st := state;
    }

    method StGet(b: Byte, i: Input) returns (st: Session, acts: seq<Action>)
      requires Awaiting(Get, b) && ValidInput(i)
      modifies Repr
      ensures Acted(Serve(old(Abs()), i), st) && acts == ActionsOf(old(Abs()).rcv[..2])
    {
      hide ReverseByte;
      ghost var n := Abs();
      var cmd := TakeCommand(2);
      RefuseId(cmd[1] > 15);
      acts := [Read(cmd[1])];
      var result := i.reg;
      if b == STCMD_GETR {
        result := ReverseByte(result);
      }
      ghost var m := Abs();
      SendAckAnd(b, result);
      assert m.xmt + [Ack(b), result] == n.xmt + FixedReply(cmd, i);
      st := Ready;
    }

    // ---- The task ----

    /** Dispatch on the command byte through the jump table. */
    method ProcessByte(b: Byte, i: Input) returns (st: Session, acts: seq<Action>)
      requires Valid() && !inProgress && state == Ready && ValidInput(i)
      requires Abs().rcv != [] && Abs().rcv[0] == b
      modifies Repr
      ensures Acted(Process(old(Abs()), i), st) && Performed(Process(old(Abs()), i), acts)
    {
      hide HANDLERS, Serve, Refuse, ActionsOf, Performed;
      ServePerforms(Abs(), i);
      acts := [];
      if !IsCommand(b) {
        st := StBadCmd();
        return;
      }
      TableRow(b);
      var row := HANDLERS[b - STCMD_BASE];
      var len := rcvBuf.Len();
      var room := xmtBuf.Avail();
      if len < row.length || room < MAX_FIXED_RESPONSE_BYTES {
        st := state;
        return;
      }
      match row.handler
      case BadCmd => st := StBadCmd();
      case Undef => st := StBadCmd();
      case Sync => st := StSync(b, i);
      case GetVer => st := StGetVer(b, i);
      case Poll => st := StPoll(b, i);
      case Pulse => st, acts := StPulse(b, i);
      case Set => st, acts := StSet(b, i);
      case Get => st, acts := StGet(b, i);
    }

    method WriteByte() returns (b: Byte)
      requires Valid() && Abs().xmt != []
      modifies Repr
      ensures Valid() && b == old(Abs()).xmt[0]
      ensures Abs() == Drained(old(Abs()), 1)
    {
      b := xmtBuf.Peek();
      xmtBuf.Consume(1);
    }

    /** Write queued bytes while the line takes them. */
    method WriteOut(i: Input) returns (written: seq<Byte>)
      requires Valid()
      modifies Repr
      ensures if Written(old(Abs()), i) > 0 && !i.writes then halted == 9
              else
                && Valid() && written == old(Abs()).xmt[..Written(old(Abs()), i)]
                && Abs() == Drained(old(Abs()), Written(old(Abs()), i))
    {
      hide Drained;
      ghost var start := Abs();
      DrainedNone(start);
      written := [];
      var n := xmtBuf.Len();
      while n > 0 && |written| < i.budget
        invariant Valid() && n == |Abs().xmt| == |start.xmt| - |written|
        invariant |written| <= i.budget && written == start.xmt[..|written|]
        invariant |written| > 0 ==> i.writes
        invariant Abs() == Drained(start, |written|)
        decreases n
      {
        if !i.writes {
          halted := 9;
          return;
        }
        DrainedOneMore(start, |written|);
        var b := WriteByte();
        written := written + [b];
        n := xmtBuf.Len();
      }
    }

    method ReadByte(b: Byte)
      requires Valid() && |Abs().rcv| < RING_MAX
      modifies Repr
      ensures Valid() && Abs() == old(Abs()).(rcv := old(Abs()).rcv + [b])
    {
      rcvBuf.Put(b);
    }

    /** Read offered bytes while there is room for them. */
    method ReadIn(i: Input) returns (taken: seq<Byte>)
      requires Valid()
      modifies Repr
      ensures Valid() && taken == i.offer[..Taken(old(Abs()), i)]
      ensures Abs() == old(Abs()).(rcv := old(Abs()).rcv + taken)
    {
      ghost var start := Abs();
      taken := [];
      var full := rcvBuf.IsFull();
      while !full && |taken| < |i.offer|
        invariant Valid() && full == (|Abs().rcv| == RING_MAX)
        invariant |taken| <= |i.offer| && taken == i.offer[..|taken|]
        invariant Abs() == start.(rcv := start.rcv + taken)
        decreases |i.offer| - |taken|
      {
        ReadByte(i.offer[|taken|]);
        taken := taken + [i.offer[|taken|]];
        full := rcvBuf.IsFull();
      }
    }

    /** The synchronising byte that opens a session. */
    method OpenSession()
      requires Valid() && !inProgress && state == Unsync && Abs().xmt == []
      requires Abs().rcv != [] && Abs().rcv[0] == STCMD_SYNC
      modifies Repr
      ensures Valid()
      ensures Abs() == old(Abs()).(rcv := old(Abs()).rcv[1..], xmt := [Ack(STCMD_SYNC)], st := Ready)
    {
      rcvBuf.Consume(1);
      SendAck(STCMD_SYNC);
      state := Ready;
    }

    lemma AbsFields()
      requires Valid()
      ensures Abs().prog == inProgress && Abs().st == state && halted == 0
    {
    }

    /** The oldest byte received, if there is one. */
    method NextByte() returns (any: bool, b: Byte)
      requires Valid()
      ensures any <==> Abs().rcv != []
      ensures any ==> b == Abs().rcv[0]
    {
      b := 0;
      var len := rcvBuf.Len();
      any := len > 0;
      if any {
        b := rcvBuf.Peek();
      }
    }

    method Enter(st: Session)
      requires Valid()
      modifies Repr
      ensures Valid() && Abs() == old(Abs()).(st := st)
    {
      state := st;
    }

    /** The rest of the call, once input and output are done. */
    method Handle(i: Input) returns (acts: seq<Action>)
      requires Valid() && Inv(Abs()) && ValidInput(i)
      modifies Repr
      ensures match React(old(Abs()), i)
              case Halt(code) => halted == code
              case Acts(n, _) => Valid() && Abs() == n
      ensures Performed(React(old(Abs()), i), acts)
    {
      hide PollMore, Process, Refuse, Abs, Valid, Performed;
      acts := [];
      AbsFields();
      OthersPerformNothing(Abs(), i);
      if inProgress {
        PollResponseInProgress();
        return;
      }
      var any, b := NextByte();
      if !any { return; }
      if state == Unsync && b == STCMD_SYNC {
        OpenSession();
        return;
      }
      var st;
      if state == Ready {
        st, acts := ProcessByte(b, i);
      } else {
        st := StBadCmd();
      }
      if halted == 0 {
        Enter(st);
      }
    }

    /** One call of the serial task. */
    method SerialTask(i: Input) returns (written: seq<Byte>, taken: seq<Byte>, acts: seq<Action>)
      requires Valid() && Inv(Abs()) && ValidInput(i)
      modifies Repr
      ensures match Step(old(Abs()), i)
              case Panic(code) => halted == code
              case Did(n, w, t, d) =>
                && Valid() && Abs() == n && written == w && taken == t
                && (forall k :: 0 <= k < |d| ==> Whole(d[k])) && acts == Actions(d)
    {
      hide React;
      ghost var n := Abs();
      taken, acts := [], [];
      written := WriteOut(i);
      if halted != 0 { return; }
      taken := ReadIn(i);
      assert Abs() == AfterIO(n, i);
      acts := Handle(i);
    }

    /** Reset the protocol from whatever state it is in. */
    method SerialReset()
      requires Shape() && this in Repr && rcvBuf.Valid() && xmtBuf.Valid()
      modifies Repr
      ensures Valid() && Abs() == RESET
    {
      halted := 0;
      rcvBuf.Clear();
      xmtBuf.Clear();
      inProgress := false;
      state := Unsync;
      inuse := false;
      remaining := 0;
      next := 0;
      buf[POLL_BUF_LAST] := GUARD_BYTE;
    }
  }

  /** The task called over and over: the device goes where the run on queues goes, with
      the same bytes written and taken, touching the hardware exactly as the commands
      handled say, and stops if and only if that run does. */
  method RunTask(d: Device, inputs: seq<Input>) returns (written: seq<Byte>, taken: seq<Byte>, acts: seq<Action>)
    requires d.Valid() && Inv(d.Abs()) && ValidInputs(inputs)
    modifies d.Repr
    ensures match RunFrom(old(d.Abs()), inputs)
            case Stopped => d.halted != 0
            case Run(n, w, t, done) =>
              && d.Valid() && d.Abs() == n && written == w && taken == t
              && AllWhole(done) && acts == Actions(done)
  {
    hide Step, Actions;
    ghost var start := d.Abs();
    written, taken, acts := [], [], [];
    NoActions();
    var k := 0;
    while k < |inputs|
      invariant k <= |inputs| && d.Valid() && Inv(d.Abs())
      invariant var r := RunFrom(start, inputs[..k]);
        && r.Run? && d.Abs() == r.node && written == r.written && taken == r.taken
        && AllWhole(r.done) && acts == Actions(r.done)
    {
      ghost var before := inputs[..k];
      ghost var r := RunFrom(start, before);
      ghost var s := Step(r.node, inputs[k]);
      assert inputs[..k + 1][..k] == before && inputs[..k + 1][k] == inputs[k];
      if s.Panic? {
        StepHalts(r.node, inputs[k]);
      }
      var w, t, a := d.SerialTask(inputs[k]);
      if d.halted != 0 {
        StoppedStays(start, inputs, k + 1);
        return;
      }
      StepInv(r.node, inputs[k]);
      StepWhole(r.node, inputs[k]);
      ActionsJoin(r.done, s.done);
      written, taken, acts := written + w, taken + t, acts + a;
      k := k + 1;
    }
    assert inputs[..k] == inputs;
  }

  /** The firmware from its start, fed a stream that begins by synchronising and goes on with
      commands of the protocol: it stops if and only if some call comes upon a refused get
      with room for two bytes only, and with good ids never.  Until then the bytes taken
      are a part of the stream, each exactly answered, and the hardware has been touched
      as the commands handled say. */
  method ServeStream(stream: seq<Byte>, inputs: seq<Input>, ghost goodIds: bool)
    returns (d: Device, written: seq<Byte>, taken: seq<Byte>, acts: seq<Action>)
    requires Opens(RESET, stream) && Parses(stream, goodIds)
    requires ValidInputs(inputs) && Feeds(RESET, stream, inputs)
    ensures d.halted == 0 <==> NeverBlocked(RESET, inputs)
    ensures goodIds ==> d.halted == 0
    ensures d.halted == 0 ==>
      var r := RunFrom(RESET, inputs);
      && r.Run? && d.Valid() && d.Abs() == r.node && written == r.written && taken == r.taken <= stream
      && Kept(RESET, inputs) && AllWhole(r.done) && acts == Actions(r.done)
  {
    hide RunFrom, NeverBlocked, Feeds, Parses, Kept, Actions, AllWhole;
    d := new Device();
    ValidSession(RESET, stream, inputs, goodIds);
    written, taken, acts := RunTask(d, inputs);
  }

  lemma NoActions()
    ensures AllWhole([]) && Actions([]) == []
  {
  }

  /** A panic has a code. */
  lemma StepHalts(n: Node, i: Input)
    requires Inv(n) && ValidInput(i) && Step(n, i).Panic?
    ensures Step(n, i).code != 0
  {
    PanicsExactly(n, i);
  }

  lemma {:induction false} StoppedStays(n: Node, inputs: seq<Input>, k: nat)
    requires Inv(n) && ValidInputs(inputs) && k <= |inputs| && RunFrom(n, inputs[..k]) == Stopped
    ensures RunFrom(n, inputs) == Stopped
    decreases |inputs|
  {
    hide Step;
    if k == |inputs| {
      assert inputs[..k] == inputs;
    } else {
      assert inputs[..|inputs| - 1][..k] == inputs[..k];
      StoppedStays(n, inputs[..|inputs| - 1], k);
    }
  }

  lemma ActionsJoin(d: seq<Exchange>, e: seq<Exchange>)
    requires AllWhole(d) && AllWhole(e) && |e| <= 1
    ensures AllWhole(d + e) && Actions(d + e) == Actions(d) + Actions(e)
  {
    hide Actions, ActionsOf, LengthOf;
    NoActions();
    if e == [] {
      assert d + e == d && Actions(d) + [] == Actions(d);
    } else {
      assert e == [e[0]] && [] + e == e;
      ActionsAppend(d, e[0]);
      ActionsAppend([], e[0]);
      assert [] + ActionsOf(e[0].cmd) == ActionsOf(e[0].cmd);
    }
  }

  /** The hardware actions of a reaction. */
  ghost predicate Performed(r: Reaction, acts: seq<Action>) {
    r.Acts? ==> (forall k :: 0 <= k < |r.done| ==> Whole(r.done[k])) && acts == Actions(r.done)
  }

  /** Only commands in a session touch the hardware. */
  lemma OthersPerformNothing(n: Node, i: Input)
    requires ValidInput(i)
    ensures n.prog || n.rcv == [] || n.st != Ready ==> Performed(React(n, i), [])
  {
    hide PollMore, Process;
    ActionsAppend([], Exchange([STCMD_SYNC], [Ack(STCMD_SYNC)]));
  }

  lemma ServePerforms(n: Node, i: Input)
    requires n.rcv != [] && ValidInput(i)
    ensures LengthOf(n.rcv[0]) <= |n.rcv| ==>
      Performed(Serve(n, i), ActionsOf(n.rcv[..LengthOf(n.rcv[0])]))
    ensures Performed(Refuse(n), []) && Performed(Acts(n, []), [])
    ensures LengthOf(n.rcv[0]) <= |n.rcv| && HandlerOf(n.rcv[0]) !in {Pulse, Set, Get} ==>
      ActionsOf(n.rcv[..LengthOf(n.rcv[0])]) == []
  {
    hide FixedReply, PollMore;
    if LengthOf(n.rcv[0]) <= |n.rcv| {
      ActionsAppend([], Exchange(n.rcv[..LengthOf(n.rcv[0])], Reply(n.rcv[..LengthOf(n.rcv[0])], i)));
    }
  }

  /** The first m bytes of a pending reply moved to the transmit queue. */
  ghost function Moved(n: Node, m: nat): Node
    requires m <= |n.pend|
  {
    n.(xmt := n.xmt + n.pend[..m], pend := n.pend[m..])
  }

  /** The first w bytes gone from the transmit queue. */
  ghost function Drained(n: Node, w: nat): Node
    requires w <= |n.xmt|
  {
    n.(xmt := n.xmt[w..])
  }

  lemma DrainedNone(n: Node)
    ensures Drained(n, 0) == n
  {
    assert n.xmt[0..] == n.xmt;
  }

  lemma DrainedOneMore(n: Node, w: nat)
    requires w < |n.xmt|
    ensures |Drained(n, w).xmt| == |n.xmt| - w && Drained(n, w).xmt[0] == n.xmt[w]
    ensures Drained(Drained(n, w), 1) == Drained(n, w + 1) && |Drained(n, w + 1).xmt| == |n.xmt| - w - 1
    ensures n.xmt[..w + 1] == n.xmt[..w] + [n.xmt[w]]
  {
  }

  lemma MovedNone(n: Node)
    ensures Moved(n, 0) == n
  {
    assert n.xmt + n.pend[..0] == n.xmt && n.pend[0..] == n.pend;
  }

  lemma MovedLength(n: Node, m: nat)
    requires m <= |n.pend|
    ensures |Moved(n, m).xmt| == |n.xmt| + m && Moved(n, m).prog == n.prog
  {
  }

  lemma MovedIsPollMore(n: Node, m: nat)
    requires n.prog && m == Min(PollRoom(n.xmt), |n.pend|)
    ensures m < |n.pend| ==> PollMore(n) == Moved(n, m)
    ensures m == |n.pend| ==> PollMore(n) == Moved(n, m).(prog := false, pend := [])
  {
  }

  lemma MovedOneMore(n: Node, m: nat)
    requires m < |n.pend|
    ensures Moved(Moved(n, m), 1) == Moved(n, m + 1)
  {
    assert n.pend[..m] + n.pend[m..][..1] == n.pend[..m + 1];
  }
}
