/** The host's end of a transaction, and the host and the Nano joined by two wires. */
module HostLink {
  import opened Words
  import opened Wrappers
  import opened SerialRing
  import opened Reversal
  import opened Nano
  import opened NanoRuns

  // ---- The host's transactions ----

  datatype HostError =
    | NoError
    | InvalidLength      // a fixed command is 1 to 8 bytes
    | InvalidExpected    // a fixed response is 0 to 8 bytes
    | NoResponse         // the device fell silent
    | Unexpected(cmd: Byte, response: Byte)

  /** The device acknowledges the command and sends the bytes expected. */
  predicate Answered(fixed: seq<Byte>, expected: int, incoming: seq<Byte>) {
    fixed != [] && expected >= 0 && |incoming| >= 1 + expected && incoming[0] == Ack(fixed[0])
  }

  /** The lengths are ones the host will go to the line with. */
  predicate Sendable(fixed: seq<Byte>, expected: int) {
    1 <= |fixed| <= 8 && 0 <= expected <= 8
  }

  /** Send a fixed command, check its acknowledgement, read its fixed response.  The
      bytes in `incoming` arrive in time; a read beyond them times out. */
  method DoFixedCommand(fixed: seq<Byte>, expected: int, incoming: seq<Byte>)
    returns (sent: seq<Byte>, response: seq<Byte>, err: HostError, used: nat)
    ensures sent == if Sendable(fixed, expected) then fixed else []
    ensures err == InvalidLength <==> !(1 <= |fixed| <= 8)
    ensures err == InvalidExpected <==> 1 <= |fixed| <= 8 && !(0 <= expected <= 8)
    ensures err.Unexpected? <==>
      Sendable(fixed, expected) && incoming != [] && incoming[0] != Ack(fixed[0])
    ensures err.Unexpected? ==> err == Unexpected(fixed[0], incoming[0])
    ensures err == NoError <==> Sendable(fixed, expected) && Answered(fixed, expected, incoming)
    ensures err == NoError ==> response == incoming[1..1 + expected]
    ensures used ==
      match err
      case NoError => 1 + expected
      case NoResponse => |incoming|
      case Unexpected(_, _) => 1
      case _ => 0
  {
    sent, response, err, used := [], [], NoError, 0;
    if |fixed| < 1 || |fixed| > 8 {
      err := InvalidLength;
      return;
    }
    if expected < 0 || expected > 8 {
      err := InvalidExpected;
      return;
    }
    sent := fixed;
    if incoming == [] {
      err := NoResponse;
      return;
    }
    used := 1;
    if incoming[0] != Ack(fixed[0]) {
      err := Unexpected(fixed[0], incoming[0]);
      return;
    }
    var k := 0;
    while k < expected
      invariant 0 <= k <= expected && used == 1 + k <= |incoming| && response == incoming[1..1 + k]
    {
      if used == |incoming| {
        err := NoResponse;
        return;
      }
      response := response + [incoming[used]];
      used := used + 1;
      k := k + 1;
    }
  }

  /** Issue a command whose fixed response is a count, and read that many bytes. */
  method DoCountedReceive(fixed: seq<Byte>, incoming: seq<Byte>)
    returns (sent: seq<Byte>, response: seq<Byte>, err: HostError, used: nat)
    ensures sent == if Sendable(fixed, 1) then fixed else []
    ensures err == InvalidLength <==> !(1 <= |fixed| <= 8)
    ensures err != InvalidExpected
    ensures err.Unexpected? <==> Sendable(fixed, 1) && incoming != [] && incoming[0] != Ack(fixed[0])
    ensures err.Unexpected? ==> err == Unexpected(fixed[0], incoming[0])
    ensures err == NoError <==>
      Sendable(fixed, 1) && Answered(fixed, 1, incoming) && |incoming| - 2 >= incoming[1]
    ensures used ==
      match err
      case NoError => 2 + incoming[1] as int
      case NoResponse => |incoming|
      case Unexpected(_, _) => 1
      case _ => 0
    ensures err == NoError ==> response == incoming[2..used]
  {
    sent, response, err, used := DoFixedCommand(fixed, 1, incoming);
    if err != NoError { return; }
    var count := response[0];
    response := [];
    var k := 0;
    while k < count
      invariant 0 <= k <= count && used == 2 + k <= |incoming| && response == incoming[2..2 + k]
    {
      if used == |incoming| {
        err := NoResponse;
        return;
      }
      response := response + [incoming[used]];
      used := used + 1;
      k := k + 1;
    }
  }

  // ---- The link ----

  /** The commands the host issues: whole commands of the protocol, with whatever id. */
  predicate WholeCommand(cmd: seq<Byte>) {
    cmd != [] && Defined(cmd[0]) && |cmd| == LengthOf(cmd[0])
  }

  /** Between commands, waiting with what has been read so far, or given up after an
      unexpected response. */
  datatype Phase = Idle | Waiting(cmd: seq<Byte>, got: seq<Byte>) | Failed(cmd: seq<Byte>, response: Byte)

  /** The host, the wire down, the Nano, the wire up, and what the call found that
      answered the current command. */
  datatype Link = Link(host: Phase, down: seq<Byte>, nano: Node, up: seq<Byte>, answer: Option<Input>)

  /** The bytes the host will have read when the transaction is over, told from what
      it has read so far. */
  function Expected(cmd: seq<Byte>, got: seq<Byte>): nat
    requires cmd != []
  {
    match HandlerOf(cmd[0])
    case GetVer => 2
    case Get => 2
    case Poll => if |got| < 2 then 2 else 2 + got[1] as int
    case _ => 1
  }

  predicate Finished(cmd: seq<Byte>, got: seq<Byte>)
    requires cmd != []
  {
    |got| == Expected(cmd, got)
  }

  datatype Event = Send(cmd: seq<Byte>) | Call(input: Input) | Receive

  predicate Enabled(l: Link, e: Event) {
    match e
    case Send(cmd) => l.host.Idle? && WholeCommand(cmd)
    case Call(i) =>
      ValidInput(i) && i.writes && i.offer <= l.down && |l.nano.rcv| <= RING_MAX
    case Receive => l.host.Waiting? && l.host.cmd != [] && l.up != []
  }

  /** Any of the three parties moves: the host issues a command, the Nano's task is
      called, or the host reads a byte.  None if the Nano panics. */
  function Fire(l: Link, e: Event): Option<Link>
    requires Enabled(l, e)
  {
    match e
    case Send(cmd) => Some(l.(host := Waiting(cmd, []), down := l.down + cmd, answer := None))
    case Call(i) =>
      var s := Step(l.nano, i);
      if s.Panic? then None
      else Some(l.(down := l.down[|s.taken|..], nano := s.node, up := l.up + s.written,
                   answer := if s.done == [] then l.answer else Some(i)))
    case Receive =>
      var cmd, got := l.host.cmd, l.host.got + [l.up[0]];
      Some(l.(up := l.up[1..],
              host := if got[0] != Ack(cmd[0]) then Failed(cmd, l.up[0])
                      else if Finished(cmd, got) then Idle
                      else Waiting(cmd, got)))
  }

  /** r is a proper reply to cmd. */
  predicate Proper(cmd: seq<Byte>, r: seq<Byte>) {
    && cmd != [] && |r| >= 1 && r[0] == Ack(cmd[0])
    && (HandlerOf(cmd[0]) == Poll ==> |r| >= 2)
    && |r| == Expected(cmd, r)
  }

  /** The reply to a command with a good id is proper; that to one with a bad id is a
      refusal and then a proper reply all the same. */
  lemma RepliesAreProper(cmd: seq<Byte>, i: Input)
    requires WholeCommand(cmd) && ValidInput(i)
    ensures var r := Reply(cmd, i);
      if BadId(cmd) then r != [] && r[0] == STERR_BADCMD != Ack(cmd[0]) && Proper(cmd, r[1..])
      else Proper(cmd, r)
  {
    hide ReverseByte;
  }

  /** Lockstep: between transactions both wires and both rings are empty and nothing
      is in progress; within one, every byte underway belongs to it; and a host that
      has given up has read the refusal of a bad id, the rest of the reply to which is
      still underway. */
  predicate Lockstep(l: Link) {
    match l.host
    case Idle => l.down == [] && l.up == [] && l.nano == OPEN
    case Waiting(cmd, got) =>
      && WholeCommand(cmd) && Inv(l.nano) && l.nano.st == Ready
      && (match l.answer
          case None =>
            && l.nano.rcv + l.down == cmd && got == [] && l.up == []
            && l.nano.xmt == [] && l.nano.pend == []
          case Some(i) => Answering(l, cmd, i, got) && |got| < |Reply(cmd, i)| && (BadId(cmd) ==> got == []))
    case Failed(cmd, b) =>
      && WholeCommand(cmd) && Inv(l.nano) && l.nano.st == Ready
      && l.answer.Some? && Answering(l, cmd, l.answer.value, [b])
      && BadId(cmd) && b == STERR_BADCMD
  }

  /** The whole command has been taken; what has been read, is on the wire, is queued and
      is pending make up the reply of a call that found i. */
  predicate Answering(l: Link, cmd: seq<Byte>, i: Input, got: seq<Byte>)
    requires WholeCommand(cmd)
  {
    && ValidInput(i) && l.nano.rcv == [] && l.down == []
    && got + l.up + l.nano.xmt + l.nano.pend == Reply(cmd, i)
  }

  // ---- Every event keeps the lockstep ----

  lemma SendKeeps(l: Link, cmd: seq<Byte>)
    requires Lockstep(l) && l.host.Idle? && WholeCommand(cmd)
    ensures Fire(l, Send(cmd)).Some? && Lockstep(Fire(l, Send(cmd)).value)
  {
  }

  /** A call between transactions finds nothing to do. */
  lemma IdleCall(l: Link, i: Input)
    requires Lockstep(l) && l.host.Idle? && Enabled(l, Call(i))
    ensures Fire(l, Call(i)).Some? && Lockstep(Fire(l, Call(i)).value)
  {
  }

  /** A call while the command is on its way: it waits for the rest, or answers. */
  lemma CallBeforeAnswer(l: Link, i: Input)
    requires Lockstep(l) && l.host.Waiting? && l.answer.None? && Enabled(l, Call(i))
    ensures Fire(l, Call(i)).Some? && Lockstep(Fire(l, Call(i)).value)
    ensures Fire(l, Call(i)).value.answer.Some? <==> |l.nano.rcv| + |i.offer| == |l.host.cmd|
  {
    hide Step, Lockstep, AfterIO;
    CommandArrives(l, i);
    if AfterIO(l.nano, i).rcv == l.host.cmd {
      CallAnswers(l, i);
    } else {
      CallWaits(l, i);
    }
  }

  /** Part of a command is left alone. */
  lemma CallWaits(l: Link, i: Input)
    requires Lockstep(l) && l.host.Waiting? && l.answer.None? && Enabled(l, Call(i))
    requires AfterIO(l.nano, i).rcv != l.host.cmd
    ensures Fire(l, Call(i)).Some? && Lockstep(Fire(l, Call(i)).value)
    ensures Fire(l, Call(i)).value.answer.None?
  {
    hide FixedReply, PollMore, Serve, Refuse;
    CommandArrives(l, i);
    var m := AfterIO(l.nano, i);
    assert React(m, i) == Acts(m, []);
  }

  /** A whole command is answered. */
  lemma CallAnswers(l: Link, i: Input)
    requires Lockstep(l) && l.host.Waiting? && l.answer.None? && Enabled(l, Call(i))
    requires AfterIO(l.nano, i).rcv == l.host.cmd
    ensures Fire(l, Call(i)).Some? && Lockstep(Fire(l, Call(i)).value)
    ensures Fire(l, Call(i)).value.answer.Some?
  {
    hide PollMore, Reply, Serve, BadId;
    CommandArrives(l, i);
    var cmd, m := l.host.cmd, AfterIO(l.nano, i);
    StepInv(l.nano, i);
    assert React(m, i) == Serve(m, i);
    ServeWhole(m, i);
    RepliesAreProper(cmd, i);
    assert Reply(cmd, i) != [];
    var l' := Fire(l, Call(i)).value;
    assert l'.up == [] && l'.down == [];
    assert [] + l'.up + l'.nano.xmt + l'.nano.pend == l'.nano.xmt + l'.nano.pend;
  }

  /** An idle Nano with just one valid command answers all of it. */
  lemma ServeWhole(m: Node, i: Input)
    requires WholeCommand(m.rcv) && ValidInput(i) && m.xmt == [] && m.pend == []
    ensures Serve(m, i).Acts?
    ensures var k := Serve(m, i).node;
      && Serve(m, i).done == [Exchange(m.rcv, Reply(m.rcv, i))]
      && k.rcv == [] && k.st == m.st && k.xmt + k.pend == Reply(m.rcv, i)
  {
    hide PollMore, Reply;
    assert m.rcv[..|m.rcv|] == m.rcv;
    ServeAccounts(m, i);
    ServeStays(m, i);
  }

  lemma CommandArrives(l: Link, i: Input)
    requires Lockstep(l) && l.host.Waiting? && l.answer.None? && Enabled(l, Call(i))
    ensures var m := AfterIO(l.nano, i);
      && m.rcv == l.host.cmd[..|m.rcv|] && l.down[|i.offer|..] == l.host.cmd[|m.rcv|..]
      && Taken(l.nano, i) == |i.offer| && |m.rcv| == |l.nano.rcv| + |i.offer| <= |l.host.cmd|
      && (m.rcv == l.host.cmd <==> |m.rcv| == |l.host.cmd|)
  {
    var cmd, rcv := l.host.cmd, l.nano.rcv;
    assert cmd == rcv + l.down && i.offer == l.down[..|i.offer|];
    assert i.offer[..|i.offer|] == i.offer;
    assert rcv + i.offer == cmd[..|rcv| + |i.offer|];
  }

  /** A call once the answer is settled only moves it along. */
  lemma CallAfterAnswer(l: Link, i: Input, cmd: seq<Byte>, j: Input, got: seq<Byte>)
    requires WholeCommand(cmd) && Answering(l, cmd, j, got) && Enabled(l, Call(i))
    requires Inv(l.nano) && l.nano.st == Ready
    ensures Fire(l, Call(i)).Some?
    ensures var m := Fire(l, Call(i)).value;
      && m.host == l.host && m.answer == l.answer && Answering(m, cmd, j, got)
      && Inv(m.nano) && m.nano.st == Ready
  {
    hide PollMore, Reply, WholeCommand;
    var n := l.nano;
    var m := AfterIO(n, i);
    assert i.offer == [] && m.rcv == [];
    StepInv(n, i);
    PollMoreKeeps(m);
    var w := Written(n, i);
    var k := Step(n, i).node;
    assert n.xmt == n.xmt[..w] + n.xmt[w..];
    assert k.xmt + k.pend == n.xmt[w..] + n.pend;
    MovesAlong(got, l.up, n.xmt[..w], n.xmt[w..], n.pend, k.xmt, k.pend);
  }

  lemma MovesAlong(got: seq<Byte>, up: seq<Byte>, out: seq<Byte>, xmt: seq<Byte>, pend: seq<Byte>,
                   xmt': seq<Byte>, pend': seq<Byte>)
    requires xmt' + pend' == xmt + pend
    ensures got + (up + out) + xmt' + pend' == got + up + (out + xmt) + pend
  {
    Regroup(got + (up + out), xmt', pend');
    Regroup(got + (up + out), xmt, pend);
    Regroup(got, up, out);
    Regroup(got + up, out, xmt);
  }

  /** Reading a byte keeps the lockstep; the host gives up exactly on a bad id. */
  lemma ReceiveKeeps(l: Link)
    requires Lockstep(l) && Enabled(l, Receive)
    ensures Fire(l, Receive).Some? && Lockstep(Fire(l, Receive).value)
    ensures Fire(l, Receive).value.host.Failed? <==> BadId(l.host.cmd)
  {
    hide Inv, Reply, BadId, Proper, Finished;
    var cmd, got, r := l.host.cmd, l.host.got, Reply(l.host.cmd, l.answer.value);
    var got' := got + [l.up[0]];
    assert l.up == [l.up[0]] + l.up[1..];
    assert r == got' + (l.up[1..] + l.nano.xmt + l.nano.pend);
    assert r == got' + l.up[1..] + l.nano.xmt + l.nano.pend;
    assert r[0] == got'[0];
    RepliesAreProper(cmd, l.answer.value);
    if !BadId(cmd) {
      ProperStart(cmd, r);
      FinishedIsAll(cmd, got', r);
      if got' == r {
        assert l.up[1..] == [] && l.nano.xmt == [] && l.nano.pend == [];
        InvQuiet(l.nano);
      }
    }
  }

  lemma ProperStart(cmd: seq<Byte>, r: seq<Byte>)
    requires Proper(cmd, r)
    ensures r[0] == Ack(cmd[0])
  {
  }

  /** The host stops reading exactly at the end of a proper reply. */
  lemma FinishedIsAll(cmd: seq<Byte>, got: seq<Byte>, r: seq<Byte>)
    requires Proper(cmd, r) && got <= r && got != []
    ensures Finished(cmd, got) <==> got == r
  {
  }

  lemma InvQuiet(n: Node)
    requires Inv(n) && n.st == Ready && n.rcv == [] && n.xmt == [] && n.pend == []
    ensures n == OPEN
  {
  }

  // ---- Runs of the link ----

  /** The link after a sequence of events, those not enabled being skipped; None once
      the Nano has panicked. */
  function Run(l: Link, es: seq<Event>): Option<Link> {
    if es == [] then Some(l)
    else
      match Run(l, es[..|es| - 1])
      case None => None
      case Some(m) => var e := es[|es| - 1]; if Enabled(m, e) then Fire(m, e) else Some(m)
  }

  /** A call while an answer is underway, to a host that waits for it or has given up. */
  lemma AnsweredCall(l: Link, i: Input)
    requires Lockstep(l) && !l.host.Idle? && (l.host.Waiting? ==> l.answer.Some?) && Enabled(l, Call(i))
    ensures Fire(l, Call(i)).Some? && Lockstep(Fire(l, Call(i)).value)
    ensures Fire(l, Call(i)).value.host == l.host && Fire(l, Call(i)).value.answer == l.answer
  {
    hide Fire, Enabled, Inv, Reply, WholeCommand, BadId, Answering;
    CallAfterAnswer(l, i, l.host.cmd, l.answer.value, if l.host.Waiting? then l.host.got else [l.host.response]);
  }

  lemma FireKeeps(l: Link, e: Event)
    requires Lockstep(l) && Enabled(l, e)
    ensures Fire(l, e).Some? && Lockstep(Fire(l, e).value)
  {
    hide Lockstep, Fire;
    match e
    case Send(cmd) => SendKeeps(l, cmd);
    case Receive => ReceiveKeeps(l);
    case Call(i) =>
      if l.host.Idle? { IdleCall(l, i); }
      else if l.host.Waiting? && l.answer.None? { CallBeforeAnswer(l, i); }
      else { AnsweredCall(l, i); }
  }

  /** However commands, calls and reads are interleaved, the Nano never panics and the
      two stay in lockstep. */
  lemma {:induction false} AlwaysLockstep(es: seq<Event>)
    ensures var r := Run(Link(Idle, [], OPEN, [], None), es); r.Some? && Lockstep(r.value)
  {
    hide Fire, Enabled;
    var l := Link(Idle, [], OPEN, [], None);
    if es != [] {
      AlwaysLockstep(es[..|es| - 1]);
      var m := Run(l, es[..|es| - 1]).value;
      if Enabled(m, es[|es| - 1]) {
        FireKeeps(m, es[|es| - 1]);
      }
    }
  }

  // ---- The host succeeds ----

  /** Once the Nano has answered, the host's transaction accepts the answer if and only
      if the id is good, and then in full: the acknowledgement matches and no byte is
      missing or left over.  Of the answer to a bad id it reads the refusal and leaves
      on the wire a whole acknowledgement and result. */
  method CompleteTransaction(l: Link) returns (response: seq<Byte>, err: HostError, left: seq<Byte>)
    requires Lockstep(l) && l.host.Waiting? && l.answer.Some?
    ensures err == NoError <==> !BadId(l.host.cmd)
    ensures err == NoError ==> left == []
    ensures err == NoError ==>
      var cmd, r := l.host.cmd, Reply(l.host.cmd, l.answer.value);
      r == [Ack(cmd[0])] + (if HandlerOf(cmd[0]) == Poll then [|response|] else []) + response
    ensures BadId(l.host.cmd) ==>
      && err == Unexpected(l.host.cmd[0], STERR_BADCMD)
      && Reply(l.host.cmd, l.answer.value) == [STERR_BADCMD] + left && Proper(l.host.cmd, left)
  {
    hide Reply, BadId;
    var cmd, r := l.host.cmd, Reply(l.host.cmd, l.answer.value);
    RepliesAreProper(cmd, l.answer.value);
    var sent, used;
    if HandlerOf(cmd[0]) == Poll {
      sent, response, err, used := DoCountedReceive(cmd, r);
    } else {
      sent, response, err, used := DoFixedCommand(cmd, Expected(cmd, []) - 1, r);
    }
    left := r[used..];
  }

  /** A call that offers the Nano everything on the wire and drains its ring. */
  predicate FullCall(l: Link, i: Input) {
    Enabled(l, Call(i)) && i.offer == l.down && i.budget >= 1
  }

  /** While some of a poll reply is pending the ring is as full as it gets. */
  lemma StepFills(n: Node, i: Input)
    requires Inv(n) && ValidInput(i) && Step(n, i).Did?
    ensures Step(n, i).node.pend != [] ==> |Step(n, i).node.xmt| >= RING_MAX - 1
  {
    hide FixedReply;
  }

  /** After such a call, a byte of the reply is on the wire or queued. */
  lemma FirstCall(l: Link, i: Input)
    requires Lockstep(l) && l.host.Waiting? && FullCall(l, i)
    ensures Fire(l, Call(i)).Some?
    ensures var m := Fire(l, Call(i)).value;
      Lockstep(m) && m.host.Waiting? && (m.up != [] || m.nano.xmt != [])
  {
    hide React, Proper, WholeCommand;
    FireKeeps(l, Call(i));
    StepFills(l.nano, i);
    if l.answer.None? {
      CallBeforeAnswer(l, i);
      assert |l.nano.rcv| + |i.offer| == |l.host.cmd|;
    }
  }

  /** No deadlock: while the host waits, two such calls in a row put the next byte of
      the reply on the wire. */
  lemma ReplyComes(l: Link, i: Input, j: Input)
    requires Lockstep(l) && l.host.Waiting? && FullCall(l, i)
    requires Fire(l, Call(i)).Some? ==> FullCall(Fire(l, Call(i)).value, j)
    ensures Fire(l, Call(i)).Some?
    ensures var m := Fire(l, Call(i)).value; Fire(m, Call(j)).Some? && Fire(m, Call(j)).value.up != []
  {
    hide React, Lockstep;
    FirstCall(l, i);
    FireKeeps(Fire(l, Call(i)).value, Call(j));
  }

  // ---- Transactions end ----

  /** A working line that takes at least a byte. */
  predicate Working(i: Input) {
    ValidInput(i) && i.writes && i.budget >= 1
  }

  /** A call that is offered everything on the wire. */
  function CallWith(l: Link, i: Input): Link {
    var e := Call(i.(offer := l.down));
    if Enabled(l, e) && Fire(l, e).Some? then Fire(l, e).value else l
  }

  function ReadOne(l: Link): Link {
    if Enabled(l, Receive) then Fire(l, Receive).value else l
  }

  /** Rounds of two calls and a read, for as long as the host waits. */
  function Play(l: Link, rounds: seq<(Input, Input)>): Link
    decreases |rounds|
  {
    if rounds == [] || !l.host.Waiting? then l
    else Play(ReadOne(CallWith(CallWith(l, rounds[0].0), rounds[0].1)), rounds[1..])
  }

  const MAX_REPLY := 2 + POLL_BUF_MAX_DATA

  lemma ReplyBound(cmd: seq<Byte>, i: Input)
    requires WholeCommand(cmd) && ValidInput(i)
    ensures |Reply(cmd, i)| <= MAX_REPLY
  {
    hide ReverseByte;
  }

  /** How many bytes the host may yet have to read. */
  function Left(l: Link): nat
    requires Lockstep(l) && l.host.Waiting?
  {
    match l.answer
    case None => MAX_REPLY
    case Some(i) => |Reply(l.host.cmd, i)| - |l.host.got|
  }

  /** A call from lockstep, offered everything on the wire, has the command answered. */
  lemma CalledWith(l: Link, i: Input)
    requires Lockstep(l) && l.host.Waiting? && Working(i)
    ensures var m := CallWith(l, i);
      && Enabled(l, Call(i.(offer := l.down))) && Fire(l, Call(i.(offer := l.down))) == Some(m)
      && Lockstep(m) && m.host == l.host && m.answer.Some? && Left(m) <= Left(l)
  {
    hide Fire, Reply;
    var j := i.(offer := l.down);
    OfferFits(l, i);
    FireKeeps(l, Call(j));
    if l.answer.None? {
      CallBeforeAnswer(l, j);
      CallKeepsHost(l, j);
      ReplyBound(l.host.cmd, CallWith(l, i).answer.value);
    } else {
      AnsweredCall(l, j);
    }
  }

  lemma OfferFits(l: Link, i: Input)
    requires Lockstep(l) && l.host.Waiting? && Working(i)
    ensures Enabled(l, Call(i.(offer := l.down)))
    ensures l.answer.None? ==> |l.nano.rcv| + |l.down| == |l.host.cmd|
  {
    hide Reply;
  }

  lemma CallKeepsHost(l: Link, i: Input)
    requires Enabled(l, Call(i)) && Fire(l, Call(i)).Some?
    ensures Fire(l, Call(i)).value.host == l.host
  {
  }

  /** A round reads a byte of the reply. */
  lemma RoundReads(l: Link, i: Input, j: Input)
    requires Lockstep(l) && l.host.Waiting? && Working(i) && Working(j)
    ensures var m := ReadOne(CallWith(CallWith(l, i), j));
      && Lockstep(m) && (m.host.Failed? <==> BadId(l.host.cmd))
      && (m.host.Waiting? ==> m.host.cmd == l.host.cmd && Left(m) < Left(l))
  {
    hide Fire, Lockstep, Left, BadId, CallWith;
    var k := CallWith(l, i);
    CalledWith(l, i);
    CalledWith(k, j);
    ReplyComes(l, i.(offer := l.down), j.(offer := k.down));
    var m := CallWith(k, j);
    HasCommand(m);
    ReceiveKeeps(m);
    if ReadOne(m).host.Waiting? {
      ReadLeaves(m);
    }
  }

  lemma HasCommand(l: Link)
    requires Lockstep(l) && l.host.Waiting?
    ensures l.host.cmd != []
  {
  }

  lemma ReadLeaves(l: Link)
    requires Lockstep(l) && Enabled(l, Receive) && Lockstep(ReadOne(l)) && ReadOne(l).host.Waiting?
    ensures ReadOne(l).host.cmd == l.host.cmd && Left(ReadOne(l)) < Left(l)
  {
    hide Reply, BadId, Inv;
  }

  /** Every transaction ends: after as many rounds as the longest reply has bytes the host
      has the whole of it and the link is quiet again, or, exactly for a bad id, has given
      up. */
  lemma {:induction false} TransactionEnds(l: Link, rounds: seq<(Input, Input)>)
    requires Lockstep(l) && l.host.Waiting? && |rounds| >= Left(l)
    requires forall k :: 0 <= k < |rounds| ==> Working(rounds[k].0) && Working(rounds[k].1)
    ensures var m := Play(l, rounds);
      && Lockstep(m) && (m.host.Idle? <==> !BadId(l.host.cmd)) && (m.host.Failed? <==> BadId(l.host.cmd))
      && (m.host.Idle? ==> m.nano == OPEN && m.down == [] && m.up == [])
    decreases |rounds|
  {
    hide Fire, Left, BadId, CallWith, ReadOne, Working;
    LeftPositive(l);
    var m := ReadOne(CallWith(CallWith(l, rounds[0].0), rounds[0].1));
    RoundReads(l, rounds[0].0, rounds[0].1);
    assert Play(l, rounds) == Play(m, rounds[1..]);
    if m.host.Waiting? {
      TransactionEnds(m, rounds[1..]);
    }
  }

  lemma LeftPositive(l: Link)
    requires Lockstep(l) && l.host.Waiting?
    ensures 0 < Left(l) <= MAX_REPLY
  {
    hide Reply;
    if l.answer.Some? {
      ReplyBound(l.host.cmd, l.answer.value);
    }
  }
}
