/** Which circuits the simulator can evaluate at all. */
module Settling {
  import opened Words
  import opened Wrappers
  import opened Circuit

  // ---- What an evaluation calls for ----

  /** The components that evaluating c really evaluates. */
  ghost function Demands(nl: Netlist, c: Component, vis: Snapshot): set<Component>
    requires c in nl
  {
    var w := nl[c];
    match c.kind
    case Source => {}
    case Register => if w.input != null && c.enable(vis) then {w.input} else {}
    case Mux => if w.control == null then {} else {w.control} + Selected(nl, w, vis)
  }

  /** The input that a multiplexer's control selects, if there is one. */
  ghost function Selected(nl: Netlist, w: Wires, vis: Snapshot): set<Component>
    requires w.control != null
  {
    if !Settles(nl, w.control, vis) then {}
    else
      var k := ValueOf(nl, w.control, vis).value;
      if k < |w.data| && w.data[k] != null then {w.data[k]} else {}
  }

  /** Evaluating c fails outright: a missing wire, an unknown register, or a selector
      with no input behind it. */
  ghost predicate Stuck(nl: Netlist, c: Component, vis: Snapshot)
    requires c in nl
  {
    var w := nl[c];
    match c.kind
    case Source => false
    case Register => c.id !in vis || (c.enable(vis) && w.input == null)
    case Mux => w.control == null || (Settles(nl, w.control, vis) && Selected(nl, w, vis) == {})
  }

  lemma OutIsValue(nl: Netlist, c: Component, vis: Snapshot, f: nat)
    requires Out(nl, c, vis, f).Some?
    ensures Settles(nl, c, vis) && ValueOf(nl, c, vis) == Out(nl, c, vis, f).value
  {
    assert Gives(nl, c, vis, Out(nl, c, vis, f).value);
    GivesOnce(nl, c, vis, ValueOf(nl, c, vis), Out(nl, c, vis, f).value);
  }

  /** Whatever is demanded is evaluated one level deeper. */
  lemma DemandDeeper(nl: Netlist, c: Component, vis: Snapshot, f: nat, d: Component)
    requires c in nl && Out(nl, c, vis, f).Some? && d in Demands(nl, c, vis)
    ensures f > 0 && Out(nl, d, vis, f - 1).Some?
  {
    if c.kind == Mux {
      OutIsValue(nl, nl[c].control, vis, f - 1);
    }
  }

  lemma NotStuck(nl: Netlist, c: Component, vis: Snapshot)
    requires c in nl && Settles(nl, c, vis)
    ensures !Stuck(nl, c, vis)
  {
    var f: nat :| Out(nl, c, vis, f).Some?;
    if c.kind == Mux {
      OutIsValue(nl, nl[c].control, vis, f - 1);
      assert nl[c].data[ValueOf(nl, nl[c].control, vis).value] in Selected(nl, nl[c], vis);
    }
  }

  /** If everything demanded settles and c is not stuck, c settles. */
  lemma SettlesFromDemands(nl: Netlist, c: Component, vis: Snapshot)
    requires c in nl && !Stuck(nl, c, vis) && forall d :: d in Demands(nl, c, vis) ==> Settles(nl, d, vis)
    ensures Settles(nl, c, vis)
  {
    var w := nl[c];
    match c.kind
    case Source =>
      assert Out(nl, c, vis, 0).Some?;
    case Register =>
      if c.enable(vis) {
        assert w.input in Demands(nl, c, vis);
        var f: nat :| Out(nl, w.input, vis, f).Some?;
        assert Out(nl, c, vis, f + 1).Some?;
      } else {
        assert Out(nl, c, vis, 0).Some?;
      }
    case Mux =>
      assert w.control in Demands(nl, c, vis);
      var f: nat :| Out(nl, w.control, vis, f).Some?;
      OutIsValue(nl, w.control, vis, f);
      var d := w.data[ValueOf(nl, w.control, vis).value];
      assert d in Demands(nl, c, vis);
      var g: nat :| Out(nl, d, vis, g).Some?;
      var h := if f < g then g else f;
      OutStable(nl, w.control, vis, f, h);
      OutStable(nl, d, vis, g, h);
      assert Out(nl, c, vis, h + 1).Some?;
  }

  // ---- Settling is the absence of demanded feedback ----

  /** A ranking that falls along every demand: there is no feedback. */
  ghost predicate Ranked(nl: Netlist, vis: Snapshot, older rank: map<Component, nat>) {
    && rank.Keys == nl.Keys
    && forall c, d :: c in nl && d in Demands(nl, c, vis) ==> d in nl && rank[d] < rank[c]
  }

  ghost predicate NoFeedback(nl: Netlist, vis: Snapshot) {
    exists rank :: Ranked(nl, vis, rank)
  }

  lemma {:induction false} RankedSettles(nl: Netlist, vis: Snapshot, rank: map<Component, nat>, c: Component)
    requires Ranked(nl, vis, rank) && c in nl
    requires forall d :: d in nl ==> !Stuck(nl, d, vis)
    ensures Settles(nl, c, vis)
    decreases rank[c]
  {
    forall d | d in Demands(nl, c, vis) ensures Settles(nl, d, vis) {
      RankedSettles(nl, vis, rank, d);
    }
    SettlesFromDemands(nl, c, vis);
  }

  /** The least depth at which evaluating c comes to an end. */
  ghost function Depth(nl: Netlist, c: Component, vis: Snapshot, f: nat): (g: nat)
    requires Out(nl, c, vis, f).Some?
    ensures g <= f && Out(nl, c, vis, g).Some? && (g > 0 ==> Out(nl, c, vis, g - 1).None?)
  {
    if f > 0 && Out(nl, c, vis, f - 1).Some? then Depth(nl, c, vis, f - 1) else f
  }

  ghost function LeastDepth(nl: Netlist, c: Component, vis: Snapshot): (g: nat)
    requires Settles(nl, c, vis)
    ensures Out(nl, c, vis, g).Some? && (g > 0 ==> Out(nl, c, vis, g - 1).None?)
  {
    var f: nat :| Out(nl, c, vis, f).Some?;
    Depth(nl, c, vis, f)
  }

  lemma DemandShallower(nl: Netlist, c: Component, d: Component, vis: Snapshot)
    requires c in nl && Settles(nl, c, vis) && d in Demands(nl, c, vis)
    ensures Settles(nl, d, vis) && LeastDepth(nl, d, vis) < LeastDepth(nl, c, vis)
  {
    hide Out;
    var f := LeastDepth(nl, c, vis);
    DemandDeeper(nl, c, vis, f, d);
    var g := LeastDepth(nl, d, vis);
    if f <= g {
      OutStable(nl, d, vis, f - 1, g - 1);
    }
  }

  /** All of a closed network can be evaluated if and only if no demand leads back to
      where it came from and no component is stuck. */
  lemma SettlesExactly(nl: Netlist, vis: Snapshot)
    requires forall c, d :: c in nl && d in Demands(nl, c, vis) ==> d in nl
    ensures (forall c :: c in nl ==> Settles(nl, c, vis)) <==>
            NoFeedback(nl, vis) && (forall c :: c in nl ==> !Stuck(nl, c, vis))
  {
    if forall c :: c in nl ==> Settles(nl, c, vis) {
      var rank := map c | c in nl :: LeastDepth(nl, c, vis);
      forall c, d | c in nl && d in Demands(nl, c, vis) ensures rank[d] < rank[c] {
        DemandShallower(nl, c, d, vis);
      }
      assert Ranked(nl, vis, rank);
      forall c | c in nl ensures !Stuck(nl, c, vis) { NotStuck(nl, c, vis); }
    }
    if NoFeedback(nl, vis) && forall c :: c in nl ==> !Stuck(nl, c, vis) {
      var rank :| Ranked(nl, vis, rank);
      forall c | c in nl ensures Settles(nl, c, vis) { RankedSettles(nl, vis, rank, c); }
    }
  }

  /** A loop of demands, each component demanding the next and the last being the first. */
  ghost predicate DemandLoop(nl: Netlist, loop: seq<Component>, vis: Snapshot) {
    && |loop| >= 2 && loop[0] == loop[|loop| - 1]
    && forall k :: 0 <= k < |loop| - 1 ==> loop[k] in nl && loop[k + 1] in Demands(nl, loop[k], vis)
  }

  /** Feedback, even through a register, is never evaluated: an enabled register that
      depends on its own output recurses without end. */
  lemma {:induction false} LoopNeverEnds(nl: Netlist, loop: seq<Component>, vis: Snapshot, f: nat, k: nat)
    requires DemandLoop(nl, loop, vis) && k < |loop| - 1
    ensures Out(nl, loop[k], vis, f).None?
    decreases f
  {
    if Out(nl, loop[k], vis, f).Some? {
      DemandDeeper(nl, loop[k], vis, f, loop[k + 1]);
      LoopNeverEnds(nl, loop, vis, f - 1, if k + 1 == |loop| - 1 then 0 else k + 1);
    }
  }

  /** Two circuits that pass every check and are never evaluated: an enabled register
      fed by itself, and one fed through a multiplexer that it controls. */
  method BuildLoops() returns (r: Component, q: Component, m: Component)
    ensures Checked(r, r.Wiring())
    ensures var nl := map[r := r.Wiring()];
      Closed(nl) && forall vis: Snapshot :: DemandLoop(nl, [r, r], vis) && !Settles(nl, r, vis)
    ensures q != m && Checked(q, q.Wiring()) && Checked(m, m.Wiring())
    ensures var nl := map[q := q.Wiring(), m := m.Wiring()];
      Closed(nl) && forall vis: Snapshot :: DemandLoop(nl, [q, m, q], vis) && !Settles(nl, q, vis)
  {
    r := new Component.MakeRegister(0, 1, (vis: Snapshot) => true);
    var ok := r.AddInput(r);
    ok := r.Check();
    LoopOfOne(r, r.Wiring());

    q := new Component.MakeRegister(0, 1, (vis: Snapshot) => true);
    m := new Component.MakeMux(1, 1);
    ok := q.AddInput(m);
    ok := m.AddControl(q);
    assert Pow2(1) == 2;
    ok := m.AddData(q, 0);
    ok := m.AddData(q, 1);
    ok := m.Check();
    LoopOfTwo(q, m, q.Wiring(), m.Wiring());
  }

  lemma LoopOfOne(r: Component, w: Wires)
    requires r.kind == Register && w.input == r && forall vis: Snapshot :: r.enable(vis)
    ensures var nl := map[r := w];
      Closed(nl) && forall vis: Snapshot :: DemandLoop(nl, [r, r], vis) && !Settles(nl, r, vis)
  {
    var nl := map[r := w];
    forall vis: Snapshot ensures DemandLoop(nl, [r, r], vis) && !Settles(nl, r, vis) {
      NeverSettles(nl, [r, r], vis);
    }
  }

  lemma LoopOfTwo(q: Component, m: Component, v: Wires, w: Wires)
    requires q.kind == Register && v.input == m && forall vis: Snapshot :: q.enable(vis)
    requires m.kind == Mux && w.control == q && forall d :: d in w.data ==> d == q
    ensures var nl := map[q := v, m := w];
      Closed(nl) && forall vis: Snapshot :: DemandLoop(nl, [q, m, q], vis) && !Settles(nl, q, vis)
  {
    var nl := map[q := v, m := w];
    forall vis: Snapshot ensures DemandLoop(nl, [q, m, q], vis) && !Settles(nl, q, vis) {
      NeverSettles(nl, [q, m, q], vis);
    }
  }

  lemma NeverSettles(nl: Netlist, loop: seq<Component>, vis: Snapshot)
    requires DemandLoop(nl, loop, vis)
    ensures !Settles(nl, loop[0], vis)
  {
    forall f: nat ensures Out(nl, loop[0], vis, f).None? {
      LoopNeverEnds(nl, loop, vis, f, 0);
    }
  }

  // ---- Circuits that pass their checks and have no feedback always settle ----

  /** Every register shows a value of its width. */
  ghost predicate Sized(nl: Netlist, vis: Snapshot) {
    forall c :: c in nl && c.kind == Register ==> c.id in vis && vis[c.id].value < Pow2(c.width)
  }

  /** A ranking that falls along every wire. */
  ghost predicate Acyclic(nl: Netlist, rank: map<Component, nat>) {
    && rank.Keys == nl.Keys
    && forall c, d :: c in nl && d in Feeds(nl, c) ==> d in nl && rank[d] < rank[c]
  }

  ghost predicate AllChecked(nl: Netlist) {
    forall c :: c in nl ==> Checked(c, nl[c])
  }

  /** A checked register yields a sized value once its input does. */
  lemma RegisterOut(nl: Netlist, c: Component, vis: Snapshot, f: nat)
    requires c in nl && c.kind == Register && nl[c].input != null && f > 0
    requires c.id in vis && vis[c.id].value < Pow2(c.width) && Out(nl, nl[c].input, vis, f - 1).Some?
    ensures Out(nl, c, vis, f).Some? && Out(nl, c, vis, f).value.value < Pow2(c.width)
  {
  }

  lemma SourceOut(nl: Netlist, c: Component, vis: Snapshot, f: nat)
    requires c in nl && c.kind == Source && c.source.value < Pow2(c.width)
    ensures Out(nl, c, vis, f).Some? && Out(nl, c, vis, f).value.value < Pow2(c.width)
  {
  }

  lemma MuxOut(nl: Netlist, c: Component, vis: Snapshot, f: nat)
    requires c in nl && c.kind == Mux && nl[c].control != null && f > 0
    requires Out(nl, nl[c].control, vis, f - 1).Some?
    requires var k := Out(nl, nl[c].control, vis, f - 1).value.value; k < |nl[c].data| && nl[c].data[k] != null
    ensures Out(nl, c, vis, f) == Out(nl, nl[c].data[Out(nl, nl[c].control, vis, f - 1).value.value], vis, f - 1)
  {
  }

  lemma {:induction false} AcyclicOut(nl: Netlist, vis: Snapshot, rank: map<Component, nat>, c: Component)
    requires Acyclic(nl, rank) && Sized(nl, vis) && AllChecked(nl) && c in nl
    ensures Out(nl, c, vis, rank[c]).Some? && Out(nl, c, vis, rank[c]).value.value < Pow2(c.width)
    decreases rank[c]
  {
    hide Pow2, Out;
    var w := nl[c];
    assert Checked(c, w);
    match c.kind
    case Source => SourceOut(nl, c, vis, rank[c]);
    case Register =>
      assert w.input in Feeds(nl, c);
      AcyclicOut(nl, vis, rank, w.input);
      OutStable(nl, w.input, vis, rank[w.input], rank[c] - 1);
      RegisterOut(nl, c, vis, rank[c]);
    case Mux =>
      assert w.control in Feeds(nl, c);
      AcyclicOut(nl, vis, rank, w.control);
      OutStable(nl, w.control, vis, rank[w.control], rank[c] - 1);
      var d := w.data[Out(nl, w.control, vis, rank[c] - 1).value.value];
      assert d in Feeds(nl, c);
      AcyclicOut(nl, vis, rank, d);
      OutStable(nl, d, vis, rank[d], rank[c] - 1);
      MuxOut(nl, c, vis, rank[c]);
  }

  /** The registers of a network. */
  ghost function RegistersOf(nl: Netlist): set<Component> {
    set c | c in nl && c.kind == Register
  }

  lemma FeedInNet(nl: Netlist, rank: map<Component, nat>, c: Component, d: Component)
    requires Acyclic(nl, rank) && c in nl && d in Feeds(nl, c)
    ensures d in nl && c in rank && d in rank && rank[d] < rank[c]
  {
  }

  /** An acyclic, checked circuit settles, and its next state is sized again. */
  lemma AcyclicTick(nl: Netlist, vis: Snapshot, rank: map<Component, nat>)
    requires Acyclic(nl, rank) && Sized(nl, vis) && Distinct(RegistersOf(nl)) && AllChecked(nl)
    ensures AllSettle(nl, RegistersOf(nl), vis)
    ensures Sized(nl, Tick(nl, RegistersOf(nl), vis))
  {
    hide Out, Acyclic, Pow2;
    forall c | c in RegistersOf(nl)
      ensures Settles(nl, c, vis) && NextBits(nl, c, vis).value < Pow2(c.width)
    {
      AcyclicOut(nl, vis, rank, c);
      assert Checked(c, nl[c]) && nl[c].input in Feeds(nl, c);
      FeedInNet(nl, rank, c, nl[c].input);
      AcyclicOut(nl, vis, rank, nl[c].input);
      OutIsValue(nl, nl[c].input, vis, rank[nl[c].input]);
    }
  }

  /** Such a circuit can be simulated for any number of cycles. */
  lemma {:induction false} AcyclicRuns(nl: Netlist, vis: Snapshot, rank: map<Component, nat>, n: nat)
    requires Acyclic(nl, rank) && Sized(nl, vis) && Distinct(RegistersOf(nl)) && AllChecked(nl)
    ensures RunsFor(nl, RegistersOf(nl), vis, n)
    decreases n
  {
    if n > 0 {
      AcyclicTick(nl, vis, rank);
      AcyclicRuns(nl, Tick(nl, RegistersOf(nl), vis), rank, n - 1);
    }
  }

  /** Check, reset and simulate a circuit without loops: if it passes the checks, its
      registers go through exactly the synchronous next states, for every number of
      cycles. */
  method SimulateAcyclic(s: System, ghost rank: map<Component, nat>, nCycles: nat) returns (ok: bool)
    requires s.WellBuilt() && Acyclic(s.Circuit(), rank) && nCycles < COUNTER_SIZE
    requires s.cycleCounter < COUNTER_SIZE
    requires forall c :: c in s.Net() ==> c.Fits()
    modifies s, s.Net()
    ensures ok <==> old(AllChecked(s.Circuit()))
    ensures ok ==>
      var nl, zero := old(s.Circuit()), map c | c in s.Regs() :: c.id := UNDEF_BITS;
      && RunsFor(nl, s.Regs(), zero, nCycles)
      && s.Visible() == After(nl, s.Regs(), zero, nCycles)
      && s.cycleCounter == nCycles
  {
    ghost var nl := s.Circuit();
    ok := s.CheckAll();
    assert ok <==> AllChecked(nl);
    if ok {
      assert RegistersOf(nl) == s.Regs();
      AcyclicRuns(nl, s.Start(true), rank, nCycles);
      s.Simulate(true, nCycles, nl);
    }
  }
}
