/** What the Nano does over any schedule of calls. */
module NanoRuns {
  import opened Words
  import opened Wrappers
  import opened SerialRing
  import opened Reversal
  import opened Nano

  // ---- Exactly when a call panics ----

  predicate WriteFails(n: Node, i: Input) {
    Written(n, i) > 0 && !i.writes
  }

  /** The byte to be handled next is not a command and there is no room to refuse it. */
  predicate RefusalBlocked(m: Node) {
    m.st == Ready && !m.prog && m.rcv != [] && !IsCommand(m.rcv[0]) && |m.xmt| >= RING_MAX - 1
  }

  /** A get of a register that does not exist, with room for two reply bytes, not three. */
  predicate BadGetBlocked(m: Node) {
    && m.st == Ready && !m.prog && m.rcv != [] && HandlerOf(m.rcv[0]) == Get
    && |m.rcv| >= 2 && m.rcv[1] > 15 && |m.xmt| == RING_MAX - 2
  }

  /** A call panics in just three ways: the line fails (9), a byte that is not a
      command arrives with the transmit ring all but full (0xC), or a get of a bad
      register overruns it (7). */
  lemma PanicsExactly(n: Node, i: Input)
    requires Inv(n) && ValidInput(i)
    ensures var m := AfterIO(n, i);
      Step(n, i).Panic? <==> WriteFails(n, i) || RefusalBlocked(m) || BadGetBlocked(m)
    ensures Step(n, i).Panic? ==>
      Step(n, i).code == if WriteFails(n, i) then 9 else if RefusalBlocked(AfterIO(n, i)) then 0xC else 7
  {
    hide ReverseByte, PollMore;
    var m := AfterIO(n, i);
    if m.rcv != [] && |m.rcv| >= LengthOf(m.rcv[0]) {
      var cmd := m.rcv[..LengthOf(m.rcv[0])];
      assert HandlerOf(cmd[0]) == Get ==> cmd[1] == m.rcv[1];
    }
  }

  // ---- Runs ----

  /** A run of calls: everything written, everything taken, and the exchanges made. */
  datatype Run = Stopped | Run(node: Node, written: seq<Byte>, taken: seq<Byte>, done: seq<Exchange>)

  predicate ValidInputs(inputs: seq<Input>) {
    forall k :: 0 <= k < |inputs| ==> ValidInput(inputs[k])
  }

  function RunFrom(n: Node, inputs: seq<Input>): (r: Run)
    requires Inv(n) && ValidInputs(inputs)
    ensures r.Run? ==> Inv(r.node)
  {
    if inputs == [] then Run(n, [], [], [])
    else
      var last := inputs[|inputs| - 1];
      match RunFrom(n, inputs[..|inputs| - 1])
      case Stopped => Stopped
      case Run(m, w, t, d) =>
        StepInv(m, last);
        match Step(m, last)
        case Panic(_) => Stopped
        case Did(k, w', t', d') => Run(k, w + w', t + t', d + d')
  }

  function Commands(d: seq<Exchange>): seq<Byte> {
    if d == [] then [] else Commands(d[..|d| - 1]) + d[|d| - 1].cmd
  }

  function Replies(d: seq<Exchange>): seq<Byte> {
    if d == [] then [] else Replies(d[..|d| - 1]) + d[|d| - 1].reply
  }

  // ---- Nothing lost, nothing reordered, nothing made up ----

  /** In a session, what has been taken is the commands handled and then the bytes
      still waiting; what has been written, queued or set aside for a poll is the
      replies to those commands. */
  predicate Accounted(r: Run) {
    && r.Run?
    && r.taken == Commands(r.done) + r.node.rcv
    && r.written + r.node.xmt + r.node.pend == Replies(r.done)
  }

  lemma ServeAccounts(n: Node, i: Input)
    requires n.rcv != [] && LengthOf(n.rcv[0]) <= |n.rcv| && ValidInput(i) && n.pend == []
    ensures Serve(n, i).Acts? ==>
      var m, e := Serve(n, i).node, Serve(n, i).done[0];
      && |Serve(n, i).done| == 1 && n.rcv == e.cmd + m.rcv
      && m.xmt + m.pend == n.xmt + e.reply
  {
    hide FixedReply;
    var cmd := n.rcv[..LengthOf(n.rcv[0])];
    var fixed := FixedReply(cmd, i);
    if Serve(n, i).Acts? && HandlerOf(cmd[0]) == Poll && i.log.Some? {
      PollMoreKeeps(n.(rcv := n.rcv[|cmd|..], xmt := n.xmt + fixed, pend := i.log.value, prog := true));
    }
    assert n.xmt + fixed + CountedReply(cmd, i) == n.xmt + (fixed + CountedReply(cmd, i));
  }

  lemma PollMoreKeeps(n: Node)
    ensures PollMore(n).xmt + PollMore(n).pend == n.xmt + n.pend
    ensures PollMore(n).rcv == n.rcv && PollMore(n).st == n.st
  {
    var m := Min(PollRoom(n.xmt), |n.pend|);
    assert n.pend == n.pend[..m] + n.pend[m..];
  }

  /** A call that opens a session, waits for one or stays in it accounts for its bytes. */
  lemma ReactAccounts(n: Node, i: Input)
    requires Inv(n) && ValidInput(i) && n.st != Desynchronizing
    requires React(n, i).Acts? && React(n, i).node.st != Desynchronizing
    ensures var m, d := React(n, i).node, React(n, i).done;
      && |d| <= 1
      && n.rcv == (if d == [] then [] else d[0].cmd) + m.rcv
      && m.xmt + m.pend == n.xmt + n.pend + (if d == [] then [] else d[0].reply)
  {
    hide Serve, PollMore;
    if n.prog {
      PollMoreKeeps(n);
    } else if n.st == Unsync && n.rcv != [] {
      assert n.rcv == [STCMD_SYNC] + n.rcv[1..];
    } else if n.rcv != [] && LengthOf(n.rcv[0]) <= |n.rcv| {
      ServeAccounts(n, i);
    }
  }

  lemma StepAccounts(r: Run, i: Input)
    requires Accounted(r) && Inv(r.node) && ValidInput(i) && r.node.st != Desynchronizing
    requires Step(r.node, i).Did? && Step(r.node, i).node.st != Desynchronizing
    ensures var s := Step(r.node, i);
      Accounted(Run(s.node, r.written + s.written, r.taken + s.taken, r.done + s.done))
  {
    hide React, Replies, Commands, AfterIO;
    var n := r.node;
    var s := Step(n, i);
    var m := AfterIO(n, i);
    IOAccounts(r, i);
    ReactAccounts(m, i);
    Extend(r.done, s.done);
    var e := if s.done == [] then Exchange([], []) else s.done[0];
    Regroup(Commands(r.done), e.cmd, s.node.rcv);
    var w := r.written + s.written;
    Regroup(w, s.node.xmt, s.node.pend);
    Regroup(w, m.xmt + m.pend, e.reply);
    Regroup(w, m.xmt, m.pend);
  }

  lemma Regroup(a: seq<Byte>, b: seq<Byte>, c: seq<Byte>)
    ensures a + b + c == a + (b + c)
  {
  }

  /** Reading and writing only moves bytes along. */
  lemma IOAccounts(r: Run, i: Input)
    requires Accounted(r) && Inv(r.node) && ValidInput(i) && Step(r.node, i).Did?
    ensures var s, m := Step(r.node, i), AfterIO(r.node, i);
      && Inv(m) && m.st == r.node.st
      && r.taken + s.taken == Commands(r.done) + m.rcv
      && r.written + s.written + m.xmt + m.pend == Replies(r.done)
  {
    hide React, Replies, Commands;
    var n, w := r.node, Written(r.node, i);
    assert n.xmt == n.xmt[..w] + n.xmt[w..];
    Regroup(r.written, n.xmt[..w], n.xmt[w..]);
    Regroup(Commands(r.done), n.rcv, Step(n, i).taken);
  }

  lemma Extend(d: seq<Exchange>, e: seq<Exchange>)
    requires |e| <= 1
    ensures Commands(d + e) == Commands(d) + if e == [] then [] else e[0].cmd
    ensures Replies(d + e) == Replies(d) + if e == [] then [] else e[0].reply
  {
    if e == [] {
      assert d + e == d;
    } else {
      assert (d + e)[..|d + e| - 1] == d;
    }
  }

  // ---- Which call ends a session, and which reply is a refusal ----

  /** The byte to be handled next is no command of the protocol. */
  predicate Refuses(m: Node) {
    && !m.prog && m.rcv != [] && !Defined(m.rcv[0])
    && (IsCommand(m.rcv[0]) ==> RING_MAX - |m.xmt| >= MAX_FIXED_RESPONSE_BYTES)
  }

  /** A call leaves a session if and only if it panics or comes upon a byte that is no
      command of the protocol.  In particular a refused id does not end the session. */
  lemma StaysExactly(n: Node, i: Input)
    requires Inv(n) && ValidInput(i) && n.st == Ready
    ensures Step(n, i).Did? && Step(n, i).node.st == Ready <==>
      Step(n, i).Did? && !Refuses(AfterIO(n, i))
  {
    hide FixedReply, PollMore, AfterIO, Serve;
    var m := AfterIO(n, i);
    AfterIOSession(n, i);
    PollMoreKeeps(m);
    if m.rcv != [] && LengthOf(m.rcv[0]) <= |m.rcv| {
      ServeStays(m, i);
    }
  }

  /** A reply starts with a refusal exactly when the id is bad, and what follows is the
      reply to the same command with the id taken as good. */
  lemma RefusedId(cmd: seq<Byte>, i: Input)
    requires cmd != [] && |cmd| == LengthOf(cmd[0]) && Defined(cmd[0]) && ValidInput(i)
    ensures Reply(cmd, i) != [] && (Reply(cmd, i)[0] == STERR_BADCMD <==> BadId(cmd))
    ensures var good := if BadId(cmd) then Reply(cmd, i)[1..] else Reply(cmd, i);
      good != [] && good[0] == Ack(cmd[0])
  {
    hide ReverseByte;
  }

  /** With a whole command waiting and room for a fixed reply, the call panics exactly
      for the third byte of a refused get; otherwise the byte closes the session if and
      only if it is no command of the protocol, and a command of the protocol is
      answered, with a refusal first if and only if its id is bad. */
  lemma RefusedExactly(n: Node, i: Input)
    requires Inv(n) && ValidInput(i) && n.st == Ready && !n.prog && !WriteFails(n, i)
    requires var m := AfterIO(n, i);
      m.rcv != [] && LengthOf(m.rcv[0]) <= |m.rcv| && |m.xmt| + MAX_FIXED_RESPONSE_BYTES <= RING_MAX
    ensures Step(n, i).Did? <==> !BadGetBlocked(AfterIO(n, i))
    ensures Step(n, i).Did? ==>
      (Step(n, i).node.st == Desynchronizing <==> !Defined(AfterIO(n, i).rcv[0]))
    ensures Step(n, i).Did? && Defined(AfterIO(n, i).rcv[0]) ==>
      var d, cmd := Step(n, i).done, AfterIO(n, i).rcv[..LengthOf(AfterIO(n, i).rcv[0])];
      && d == [Exchange(cmd, Reply(cmd, i))]
      && d[0].reply != [] && (d[0].reply[0] == STERR_BADCMD <==> BadId(cmd))
  {
    hide FixedReply, PollMore, AfterIO, Reply;
    var m := AfterIO(n, i);
    AfterIOSession(n, i);
    PanicsExactly(n, i);
    ServeStays(m, i);
    if Defined(m.rcv[0]) {
      RefusedId(m.rcv[..LengthOf(m.rcv[0])], i);
    }
  }

  // ---- Commands of the protocol keep the session ----

  /** The bytes are whole commands of the protocol, with good ids if so asked, and then
      perhaps the start of one. */
  predicate Parses(bs: seq<Byte>, goodIds: bool)
    decreases |bs|
  {
    bs != [] ==>
      && Defined(bs[0])
      && (LengthOf(bs[0]) <= |bs| ==>
           && (goodIds ==> !BadId(bs[..LengthOf(bs[0])]))
           && Parses(bs[LengthOf(bs[0])..], goodIds))
  }

  lemma {:induction false} ParsesPrefix(bs: seq<Byte>, cs: seq<Byte>, goodIds: bool)
    requires Parses(bs + cs, goodIds)
    ensures Parses(bs, goodIds)
    decreases |bs|
  {
    if bs != [] {
      var n := LengthOf(bs[0]);
      assert (bs + cs)[0] == bs[0];
      if n <= |bs| {
        assert (bs + cs)[..n] == bs[..n] && (bs + cs)[n..] == bs[n..] + cs;
        ParsesPrefix(bs[n..], cs, goodIds);
      }
    }
  }

  /** After commands that have been handled, the rest of the stream parses. */
  lemma {:induction false} ParsesRest(d: seq<Exchange>, bs: seq<Byte>, goodIds: bool)
    requires AllWhole(d) && Parses(Commands(d) + bs, goodIds)
    ensures Parses(bs, goodIds)
  {
    if d == [] {
      assert [] + bs == bs;
    } else {
      var last := d[|d| - 1];
      var before := d[..|d| - 1];
      assert Commands(d) + bs == Commands(before) + (last.cmd + bs);
      ParsesRest(before, last.cmd + bs, goodIds);
      assert (last.cmd + bs)[|last.cmd|..] == bs;
    }
  }

  /** A call that finds only commands of the protocol stays in the session if and only
      if it does not panic for want of room for a refused get. */
  lemma ValidStep(n: Node, i: Input, goodIds: bool)
    requires Inv(n) && ValidInput(i) && n.st == Ready && Parses(AfterIO(n, i).rcv, goodIds)
    requires !WriteFails(n, i)
    ensures Step(n, i).Did? <==> !BadGetBlocked(AfterIO(n, i))
    ensures Step(n, i).Did? ==> Step(n, i).node.st == Ready
    ensures goodIds ==> !BadGetBlocked(AfterIO(n, i))
  {
    hide AfterIO, Step;
    PanicsExactly(n, i);
    StaysExactly(n, i);
    var m := AfterIO(n, i);
    if BadGetBlocked(m) {
      assert m.rcv[..LengthOf(m.rcv[0])][1] == m.rcv[1];
    }
  }

  lemma AfterIOSession(n: Node, i: Input)
    requires Inv(n)
    ensures AfterIO(n, i).st == n.st && AfterIO(n, i).prog == n.prog
  {
  }

  lemma ServeStays(n: Node, i: Input)
    requires n.rcv != [] && LengthOf(n.rcv[0]) <= |n.rcv| && ValidInput(i)
    ensures Serve(n, i).Acts? ==>
      && Serve(n, i).node.st == n.st && |Serve(n, i).done| == 1
      && AnsweredAt(Serve(n, i).done[0], i)
  {
    hide FixedReply;
  }

  // ---- Every reply is the right one ----

  /** The exchange is a whole command and the reply to it of a call with input i. */
  predicate AnsweredAt(e: Exchange, i: Input) {
    Whole(e) && ValidInput(i) && e.reply == Reply(e.cmd, i)
  }

  /** All the exchanges of a run are whole commands. */
  predicate AllWhole(d: seq<Exchange>) {
    forall k :: 0 <= k < |d| ==> Whole(d[k])
  }

  /** The numbers of the calls that handled a command, in a run from n. */
  ghost function Calls(n: Node, inputs: seq<Input>): seq<nat>
    requires Inv(n) && ValidInputs(inputs)
  {
    if inputs == [] then []
    else
      var last := |inputs| - 1;
      var r := RunFrom(n, inputs[..last]);
      Calls(n, inputs[..last]) +
        if r.Run? && Step(r.node, inputs[last]).Did? && Step(r.node, inputs[last]).done != [] then [last] else []
  }

  /** Each exchange was answered in its own call, those calls follow each other, and the
      reply is the one for what that call found. */
  ghost predicate Timed(d: seq<Exchange>, calls: seq<nat>, inputs: seq<Input>) {
    && |d| == |calls|
    && (forall k :: 0 <= k < |d| ==> calls[k] < |inputs| && AnsweredAt(d[k], inputs[calls[k]]))
    && (forall j, k :: 0 <= j < k < |d| ==> calls[j] < calls[k])
  }

  lemma StepAnswers(n: Node, i: Input)
    requires Inv(n) && ValidInput(i) && Step(n, i).Did?
    ensures |Step(n, i).done| <= 1 && (Step(n, i).done != [] ==> AnsweredAt(Step(n, i).done[0], i))
  {
    hide AfterIO, Serve, PollMore, AnsweredAt;
    var m := AfterIO(n, i);
    AfterIOSession(n, i);
    SyncAnswered(i);
    if m.rcv != [] && LengthOf(m.rcv[0]) <= |m.rcv| {
      ServeStays(m, i);
    }
  }

  lemma SyncAnswered(i: Input)
    requires ValidInput(i)
    ensures AnsweredAt(Exchange([STCMD_SYNC], [Ack(STCMD_SYNC)]), i)
  {
  }

  lemma TimedNext(d: seq<Exchange>, calls: seq<nat>, inputs: seq<Input>, e: seq<Exchange>)
    requires inputs != [] && Timed(d, calls, inputs[..|inputs| - 1]) && |e| <= 1
    requires e != [] ==> AnsweredAt(e[0], inputs[|inputs| - 1])
    ensures Timed(d + e, calls + if e != [] then [|inputs| - 1] else [], inputs)
  {
    hide AnsweredAt;
  }

  // ---- Sessions ----

  /** A session just opened, its acknowledgement sent. */
  const OPEN := Node([], [], Ready, false, [])

  /** Where sessions are watched from: a reset, before the synchronising byte has come, or
      a session just opened. */
  predicate Start(n: Node) { n == RESET || n == OPEN }

  /** A reset and a synchronising byte, and a call in which the line takes a byte, open a
      session. */
  lemma SessionOpens(i: Input, j: Input)
    requires ValidInput(i) && i.offer == [STCMD_SYNC] && ValidInput(j) && j.offer == [] && j.writes && j.budget >= 1
    ensures var r := RunFrom(RESET, [i, j]); r.Run? && r.node == OPEN && r.written == [Ack(STCMD_SYNC)]
  {
    var n := Node([], [Ack(STCMD_SYNC)], Ready, false, []);
    assert [i, j][..1] == [i] && [i][..0] == [];
    assert RunFrom(RESET, []) == Run(RESET, [], [], []);
    assert Step(RESET, i).node == n && Step(RESET, i).written == [];
    assert RunFrom(RESET, [i]).node == n;
    assert Step(n, j).node == OPEN && Step(n, j).written == n.xmt;
  }

  /** No byte is refused and no call panics, from start to end. */
  predicate NeverRefused(n: Node, inputs: seq<Input>)
    requires Inv(n) && ValidInputs(inputs)
  {
    forall k :: 0 <= k <= |inputs| ==>
      var r := RunFrom(n, inputs[..k]); r.Run? && r.node.st != Desynchronizing
  }

  /** Everything is accounted for, and every reply is the right one. */
  ghost predicate Kept(n: Node, inputs: seq<Input>)
    requires Inv(n) && ValidInputs(inputs)
  {
    var r := RunFrom(n, inputs);
    Accounted(r) && Timed(r.done, Calls(n, inputs), inputs)
  }

  lemma KeptAtStart(n: Node)
    requires Start(n)
    ensures Kept(n, [])
  {
  }

  lemma KeptNext(n: Node, inputs: seq<Input>)
    requires Inv(n) && inputs != [] && ValidInputs(inputs) && Kept(n, inputs[..|inputs| - 1])
    requires var r := RunFrom(n, inputs[..|inputs| - 1]);
      r.node.st != Desynchronizing && Step(r.node, inputs[|inputs| - 1]).Did? &&
      Step(r.node, inputs[|inputs| - 1]).node.st != Desynchronizing
    ensures Kept(n, inputs)
  {
    hide Step, Accounted, Timed;
    var before, last := inputs[..|inputs| - 1], inputs[|inputs| - 1];
    var r := RunFrom(n, before);
    assert r.Run? by { RunOfAccounted(r); }
    StepAccounts(r, last);
    StepAnswers(r.node, last);
    TimedNext(r.done, Calls(n, before), inputs, Step(r.node, last).done);
  }

  lemma RunOfAccounted(r: Run)
    requires Accounted(r)
    ensures r.Run?
  {
  }

  /** Whatever bytes arrive from a reset or in a session just opened, in whatever pieces,
      as long as none is refused all of them are accounted for and every command, the
      synchronising byte included, gets its own reply. */
  lemma {:induction false} SessionAccounts(n: Node, inputs: seq<Input>)
    requires Start(n) && ValidInputs(inputs) && NeverRefused(n, inputs)
    ensures Kept(n, inputs)
    decreases |inputs|
  {
    hide Step, Kept;
    if inputs == [] {
      KeptAtStart(n);
    } else {
      var last := |inputs| - 1;
      var before := inputs[..last];
      assert forall k :: 0 <= k <= last ==> before[..k] == inputs[..k];
      SessionAccounts(n, before);
      assert inputs[..|inputs|] == inputs && before == inputs[..last];
      assert RunFrom(n, before).Run? && RunFrom(n, before).node.st != Desynchronizing;
      assert RunFrom(n, inputs).Run? && RunFrom(n, inputs).node.st != Desynchronizing;
      KeptNext(n, inputs);
    }
  }

  /** Each call is offered some of the bytes of the stream not yet taken. */
  predicate Feeds(n: Node, stream: seq<Byte>, inputs: seq<Input>)
    requires Inv(n) && ValidInputs(inputs)
  {
    forall k :: 0 <= k < |inputs| ==>
      inputs[k].writes &&
      var r := RunFrom(n, inputs[..k]);
      r.Run? && |r.taken| <= |stream| ==> inputs[k].offer <= stream[|r.taken|..]
  }

  lemma FeedsPrefix(start: Node, stream: seq<Byte>, inputs: seq<Input>)
    requires Inv(start) && inputs != [] && ValidInputs(inputs) && Feeds(start, stream, inputs)
    ensures var n := |inputs| - 1;
      && ValidInputs(inputs[..n]) && Feeds(start, stream, inputs[..n]) && inputs[n].writes
      && var r := RunFrom(start, inputs[..n]);
         r.Run? && |r.taken| <= |stream| ==> inputs[n].offer <= stream[|r.taken|..]
  {
    hide RunFrom;
    var n := |inputs| - 1;
    assert forall k :: 0 <= k < n ==> inputs[..n][..k] == inputs[..k] && inputs[..n][k] == inputs[k];
  }

  /** No call comes upon a get of a bad id with room for two reply bytes only. */
  predicate NeverBlocked(n: Node, inputs: seq<Input>)
    requires Inv(n) && ValidInputs(inputs)
    decreases |inputs|
  {
    inputs != [] ==>
      var before, last := inputs[..|inputs| - 1], inputs[|inputs| - 1];
      && NeverBlocked(n, before)
      && (RunFrom(n, before).Run? ==> !BadGetBlocked(AfterIO(RunFrom(n, before).node, last)))
  }

  /** A stream for a session that starts at n: after a reset it begins by synchronising. */
  predicate Opens(n: Node, stream: seq<Byte>) {
    n == RESET && stream != [] ==> stream[0] == STCMD_SYNC
  }

  /** Waiting for the synchronising byte lasts exactly until the first exchange. */
  predicate Awaits(r: Run) {
    r.Run? && r.node.st != Desynchronizing && (r.node.st == Unsync ==> r.done == [])
  }

  /** A host that sends commands of the protocol, good ids or bad, delivered in pieces of
      any size, from the reset on: the session lasts if and only if no call comes upon a
      refused get with room for two bytes only, and with good ids none does.  As long as
      it lasts no byte is lost or reordered, and what is sent back is exactly the replies
      to the commands consumed so far. */
  lemma {:induction false} ValidSession(n: Node, stream: seq<Byte>, inputs: seq<Input>, goodIds: bool)
    requires Start(n) && Opens(n, stream)
    requires ValidInputs(inputs) && Parses(stream, goodIds) && Feeds(n, stream, inputs)
    ensures var r := RunFrom(n, inputs);
      && (r.Run? <==> NeverBlocked(n, inputs)) && (goodIds ==> r.Run?)
      && (r.Run? ==> Awaits(r) && r.taken <= stream && Kept(n, inputs))
      && (r.Run? && n == OPEN ==> r.node.st == Ready)
    decreases |inputs|
  {
    hide Step, Kept, Parses, Feeds, BadGetBlocked, AfterIO, Opens;
    if inputs == [] {
      KeptAtStart(n);
    } else {
      var k := |inputs| - 1;
      FeedsPrefix(n, stream, inputs);
      ValidSession(n, stream, inputs[..k], goodIds);
      var r := RunFrom(n, inputs[..k]);
      if r.Run? {
        KeptFacts(n, inputs[..k]);
        SynchronisesFirst(n, stream, r);
        ValidNext(stream, r, inputs[k], goodIds);
        if Step(r.node, inputs[k]).Did? {
          KeptNext(n, inputs);
        }
      }
    }
  }

  lemma KeptFacts(n: Node, inputs: seq<Input>)
    requires Inv(n) && ValidInputs(inputs) && Kept(n, inputs)
    ensures Accounted(RunFrom(n, inputs)) && AllWhole(RunFrom(n, inputs).done)
  {
    hide RunFrom, Calls, Accounted;
  }

  lemma SynchronisesFirst(n: Node, stream: seq<Byte>, r: Run)
    requires Opens(n, stream) && r.Run? && (r.node.st == Unsync ==> n == RESET)
    ensures r.node.st == Unsync && stream != [] ==> stream[0] == STCMD_SYNC
  {
  }

  lemma ValidNext(stream: seq<Byte>, r: Run, i: Input, goodIds: bool)
    requires Parses(stream, goodIds) && ValidInput(i) && i.writes
    requires Awaits(r) && Inv(r.node) && Accounted(r) && AllWhole(r.done)
    requires r.node.st == Unsync && stream != [] ==> stream[0] == STCMD_SYNC
    requires r.taken <= stream && i.offer <= stream[|r.taken|..]
    ensures Step(r.node, i).Did? <==> !BadGetBlocked(AfterIO(r.node, i))
    ensures goodIds ==> Step(r.node, i).Did?
    ensures var s := Step(r.node, i); s.Did? ==>
      && r.taken + s.taken <= stream && s.node.st != Desynchronizing
      && (s.node.st == Unsync ==> r.node.st == Unsync && s.done == [])
  {
    hide Step, Parses, BadGetBlocked, AllWhole, AfterIO, Accounted;
    var m := AfterIO(r.node, i);
    var all := Commands(r.done) + m.rcv;
    TakenSoFar(stream, r, i);
    if r.node.st == Ready {
      ParsesPrefix(all, stream[|all|..], goodIds);
      ParsesRest(r.done, m.rcv, goodIds);
      ValidStep(r.node, i, goodIds);
    } else {
      assert m.rcv == all;
      Synchronises(r.node, i);
    }
  }

  /** The commands handled and the bytes waiting are the start of the stream. */
  lemma TakenSoFar(stream: seq<Byte>, r: Run, i: Input)
    requires Accounted(r) && Inv(r.node) && ValidInput(i) && i.writes
    requires r.taken <= stream && i.offer <= stream[|r.taken|..]
    ensures var all := Commands(r.done) + AfterIO(r.node, i).rcv;
      && all <= stream && stream == all + stream[|all|..]
      && (Step(r.node, i).Did? ==> r.taken + Step(r.node, i).taken == all)
  {
    hide React, Commands, Replies;
    var got := i.offer[..Taken(r.node, i)];
    var all := r.taken + got;
    assert got <= stream[|r.taken|..];
    assert all == stream[..|all|];
    Regroup(Commands(r.done), r.node.rcv, got);
  }

  /** Before a session, nothing but the synchronising byte is waiting: it opens one. */
  lemma Synchronises(n: Node, i: Input)
    requires Inv(n) && ValidInput(i) && i.writes && n.st == Unsync
    requires AfterIO(n, i).rcv != [] ==> AfterIO(n, i).rcv[0] == STCMD_SYNC
    ensures Step(n, i).Did? && !BadGetBlocked(AfterIO(n, i)) && Step(n, i).node.st != Desynchronizing
    ensures Step(n, i).node.st == Unsync ==> Step(n, i).done == []
  {
  }

  /** A poll and a get, and two calls during which the line takes nothing. */
  function PollThenGet(id: Byte, msg: seq<Byte>): seq<Input> {
    [Input(0, true, [STCMD_POLL, STCMD_GET, id], 0, Some(msg)), Input(0, true, [], 0, None)]
  }

  lemma PollFills(id: Byte, msg: seq<Byte>)
    requires |msg| == 11
    ensures var s := Step(OPEN, PollThenGet(id, msg)[0]);
      s.Did? && s.node == Node([STCMD_GET, id], [Ack(STCMD_POLL), 11] + msg, Ready, false, [])
  {
    var i := PollThenGet(id, msg)[0];
    var m := AfterIO(OPEN, i);
    assert m == Node([STCMD_POLL, STCMD_GET, id], [], Ready, false, []);
    assert m.rcv[..1] == [STCMD_POLL] && m.rcv[1..] == [STCMD_GET, id];
    assert FixedReply([STCMD_POLL], i) == [Ack(STCMD_POLL), 11];
    assert [] + [Ack(STCMD_POLL), 11] == [Ack(STCMD_POLL), 11] && msg[..11] == msg && msg[11..] == [];
  }

  /** Commands of the protocol can stop the Nano: a poll whose reply leaves two bytes of
      room, and then a get of any id above 15. */
  lemma BadGetStops(id: Byte, msg: seq<Byte>)
    requires |msg| == 11
    ensures ValidInputs(PollThenGet(id, msg)) && Parses([STCMD_POLL, STCMD_GET, id], false)
    ensures RunFrom(OPEN, PollThenGet(id, msg)) == Stopped <==> id > 15
  {
    hide Step, Reply, FixedReply;
    var inputs := PollThenGet(id, msg);
    assert inputs[..1] == [inputs[0]] && inputs[..1][..0] == [];
    assert [STCMD_POLL, STCMD_GET, id][1..] == [STCMD_GET, id] && [STCMD_GET, id][2..] == [];
    assert Parses([], false) && Parses([STCMD_GET, id], false);
    PollFills(id, msg);
    assert RunFrom(OPEN, []) == Run(OPEN, [], [], []);
    var n := Node([STCMD_GET, id], [Ack(STCMD_POLL), 11] + msg, Ready, false, []);
    assert RunFrom(OPEN, [inputs[0]]).node == n;
    assert AfterIO(n, inputs[1]) == n;
    PanicsExactly(n, inputs[1]);
  }

  // ---- Refusals end the session ----

  /** A refused byte is answered with a NAK and stays where it is; the next call
      throws everything away and waits for a new session. */
  lemma RefusalEndsSession(n: Node, i: Input)
    requires Inv(n) && ValidInput(i) && n.st == Desynchronizing && !WriteFails(n, i)
    ensures Step(n, i).Did? && Step(n, i).node == RESET && Step(n, i).done == []
  {
  }

  lemma BadByteRefused(n: Node, i: Input)
    requires Inv(n) && ValidInput(i) && n.st != Desynchronizing && !n.prog && !WriteFails(n, i)
    requires var m := AfterIO(n, i);
      && m.rcv != [] && !Defined(m.rcv[0]) && |m.xmt| < RING_MAX - 1
    ensures Step(n, i).Did?
    ensures var m, k := AfterIO(n, i), Step(n, i).node;
      k == m.(xmt := m.xmt + [STERR_BADCMD], st := Desynchronizing)
  {
    hide Serve;
  }

  // ---- Progress ----

  /** With a whole command of the protocol waiting and nothing in progress, a call that does
      not panic handles it, consuming exactly its bytes, if and only if there is room for
      a fixed reply; otherwise it leaves all as it is. */
  lemma CommandHandled(n: Node, i: Input)
    requires Inv(n) && ValidInput(i) && n.st == Ready && !n.prog && Step(n, i).Did?
    requires var m := AfterIO(n, i);
      m.rcv != [] && Defined(m.rcv[0]) && LengthOf(m.rcv[0]) <= |m.rcv|
    ensures var m, s := AfterIO(n, i), Step(n, i);
      var cmd := m.rcv[..LengthOf(m.rcv[0])];
      if |m.xmt| + MAX_FIXED_RESPONSE_BYTES <= RING_MAX
      then s.done == [Exchange(cmd, Reply(cmd, i))] && s.node.rcv == m.rcv[|cmd|..]
      else s.done == [] && s.node == m
  {
    hide FixedReply, PollRoom;
  }
}
