/** A poll reply gets out, however few bytes at a time the line takes. */
module PollProgress {
  import opened Words
  import opened Wrappers
  import opened SerialRing
  import opened Nano
  import opened NanoRuns

  /** A call with a reply in progress moves as much of it as fits and handles nothing; what
      has been written, is queued and is pending is what was queued and pending. */
  lemma PollStep(n: Node, i: Input)
    requires Inv(n) && ValidInput(i) && n.prog && !WriteFails(n, i)
    ensures Step(n, i).Did? && Step(n, i).done == []
    ensures var s, m := Step(n, i), AfterIO(n, i);
      && s.written == n.xmt[..Written(n, i)] && s.written + s.node.xmt + s.node.pend == n.xmt + n.pend
      && s.node.pend == n.pend[Min(PollRoom(m.xmt), |n.pend|)..]
  {
    hide PollMore;
    var m, w := AfterIO(n, i), Written(n, i);
    PollMoreKeeps(m);
    PollMoreTakes(m);
    assert n.xmt == n.xmt[..w] + n.xmt[w..];
    Regroup(n.xmt[..w], PollMore(m).xmt, PollMore(m).pend);
    Regroup(n.xmt[..w], n.xmt[w..], n.pend);
  }

  lemma PollMoreTakes(m: Node)
    ensures PollMore(m).pend == m.pend[Min(PollRoom(m.xmt), |m.pend|)..]
    ensures PollMore(m).prog <==> PollMore(m).pend != []
    ensures |PollMore(m).xmt| == |m.xmt| + Min(PollRoom(m.xmt), |m.pend|)
  {
  }

  /** After such a call the reply is still in progress if and only if more is left, queued
      and pending, than a ring not quite full holds. */
  lemma PollStepLeft(n: Node, i: Input)
    requires Inv(n) && ValidInput(i) && n.prog && !WriteFails(n, i)
    ensures Step(n, i).Did?
    ensures var k := Step(n, i).node;
      && (k.prog <==> |k.xmt| + |k.pend| > RING_MAX - 1)
      && (k.prog ==> |k.xmt| >= RING_MAX - 1)
  {
    hide PollMore;
    PollMoreTakes(AfterIO(n, i));
  }

  /** The line works, and a reply is in progress before each call. */
  predicate Underway(n: Node, inputs: seq<Input>)
    requires Inv(n) && ValidInputs(inputs)
  {
    forall k :: 0 <= k < |inputs| ==>
      inputs[k].writes && var r := RunFrom(n, inputs[..k]); r.Run? ==> r.node.prog
  }

  lemma UnderwayPrefix(n: Node, inputs: seq<Input>)
    requires Inv(n) && inputs != [] && ValidInputs(inputs) && Underway(n, inputs)
    ensures var k := |inputs| - 1;
      && ValidInputs(inputs[..k]) && Underway(n, inputs[..k]) && inputs[k].writes
      && (RunFrom(n, inputs[..k]).Run? ==> RunFrom(n, inputs[..k]).node.prog)
  {
    hide RunFrom;
    var k := |inputs| - 1;
    assert forall j :: 0 <= j < k ==> inputs[..k][..j] == inputs[..j] && inputs[..k][j] == inputs[j];
  }

  /** Over any calls, whatever the line takes in each: nothing else is handled, the reply
      comes out in order with nothing lost, and it is in progress if and only if what is
      left is more than the ring may hold. */
  lemma {:induction false} PollRun(n: Node, inputs: seq<Input>)
    requires Inv(n) && n.prog && ValidInputs(inputs) && Underway(n, inputs)
    ensures var r := RunFrom(n, inputs);
      && r.Run? && r.done == [] && r.written + r.node.xmt + r.node.pend == n.xmt + n.pend
      && (inputs != [] ==>
           && (r.node.prog <==> |r.written| + (RING_MAX - 1) < |n.xmt| + |n.pend|)
           && (r.node.prog ==> |r.node.xmt| >= RING_MAX - 1))
    decreases |inputs|
  {
    hide Step;
    if inputs == [] {
      assert [] + n.xmt == n.xmt;
    } else {
      UnderwayPrefix(n, inputs);
      var before, last := inputs[..|inputs| - 1], inputs[|inputs| - 1];
      PollRun(n, before);
      var r := RunFrom(n, before);
      var s := Step(r.node, last);
      PollStep(r.node, last);
      PollStepLeft(r.node, last);
      Follows(r.written, r.node.xmt, r.node.pend, s.written, s.node.xmt, s.node.pend);
      assert |r.written + s.written| + |s.node.xmt| + |s.node.pend| == |n.xmt| + |n.pend|;
    }
  }

  lemma Follows(w: seq<Byte>, x: seq<Byte>, p: seq<Byte>, w': seq<Byte>, x': seq<Byte>, p': seq<Byte>)
    requires w' + x' + p' == x + p
    ensures w + w' + x' + p' == w + x + p
    ensures |w + w'| + |x'| + |p'| == |w| + |x| + |p|
  {
    Regroup(w, x, p);
    Regroup(w, w', x');
    Regroup(w, w' + x', p');
    assert |w' + x' + p'| == |x + p|;
  }

  /** The line works and takes at least a byte in every call. */
  predicate Taking(inputs: seq<Input>) {
    forall k :: 0 <= k < |inputs| ==> ValidInput(inputs[k]) && inputs[k].writes && inputs[k].budget >= 1
  }

  /** As long as the reply is in progress every call but the first is sure to write. */
  lemma {:induction false} PollWrites(n: Node, inputs: seq<Input>)
    requires Inv(n) && n.prog && Taking(inputs) && Underway(n, inputs)
    ensures RunFrom(n, inputs).Run? && |RunFrom(n, inputs).written| >= |inputs| - 1
    decreases |inputs|
  {
    hide Step;
    PollRun(n, inputs);
    if inputs != [] {
      UnderwayPrefix(n, inputs);
      var before, last := inputs[..|inputs| - 1], inputs[|inputs| - 1];
      PollWrites(n, before);
      PollRun(n, before);
      PollStep(RunFrom(n, before).node, last);
    }
  }

  /** A poll reply of any length completes: with the line taking a byte or more in every
      call there is a call, no later than the number of bytes left less thirteen, after
      which all of the reply has been written or queued and nothing is in progress. */
  lemma PollCompletes(n: Node, inputs: seq<Input>)
    requires Inv(n) && n.prog && Taking(inputs) && inputs != []
    requires |inputs| + (RING_MAX - 2) >= |n.xmt| + |n.pend|
    ensures ValidInputs(inputs)
    ensures exists k :: 0 < k <= |inputs| && Completed(n, inputs[..k])
  {
    if Underway(n, inputs) {
      PollRun(n, inputs);
      PollWrites(n, inputs);
      assert inputs[..|inputs|] == inputs;
    } else {
      var k := FirstIdle(n, inputs);
      PollRun(n, inputs[..k]);
    }
  }

  predicate Completed(n: Node, inputs: seq<Input>)
    requires Inv(n) && ValidInputs(inputs)
  {
    var r := RunFrom(n, inputs);
    r.Run? && !r.node.prog && r.done == [] && r.written + r.node.xmt == n.xmt + n.pend
  }

  /** The first call before which no reply is in progress. */
  lemma FirstIdle(n: Node, inputs: seq<Input>) returns (k: nat)
    requires Inv(n) && n.prog && Taking(inputs) && !Underway(n, inputs)
    ensures 0 < k <= |inputs| && Underway(n, inputs[..k])
    ensures RunFrom(n, inputs[..k]).Run? && !RunFrom(n, inputs[..k]).node.prog
    decreases |inputs|
  {
    hide Step;
    var before := inputs[..|inputs| - 1];
    assert forall j :: 0 <= j <= |before| ==> before[..j] == inputs[..j];
    if Underway(n, before) {
      k := |before|;
      PollRun(n, before);
    } else {
      k := FirstIdle(n, before);
    }
  }
}
