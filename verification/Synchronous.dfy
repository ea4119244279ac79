/** What a clock cycle does, told from the visible states alone. */
module Synchronous {
  import opened Words
  import opened Wrappers
  import opened Circuit
  import opened Settling

  /** What is on the wire out of c: the constant of a source, the visible state of a
      register, or what is on the data wire of a multiplexer that its control selects.
      Nothing is evaluated beyond a register. */
  ghost function Wire(nl: Netlist, c: Component, vis: Snapshot, depth: nat): Option<Bits>
    decreases depth
  {
    match c.kind
    case Source => Some(c.source)
    case Register => if c.id in vis then Some(vis[c.id]) else None
    case Mux =>
      if c !in nl || nl[c].control == null || depth == 0 then None
      else
        match Wire(nl, nl[c].control, vis, depth - 1)
        case None => None
        case Some(s) =>
          if s.value < |nl[c].data| && nl[c].data[s.value] != null
          then Wire(nl, nl[c].data[s.value], vis, depth - 1) else None
  }

  lemma {:induction false} OutIsWire(nl: Netlist, c: Component, vis: Snapshot, f: nat)
    requires Out(nl, c, vis, f).Some?
    ensures Wire(nl, c, vis, f) == Out(nl, c, vis, f)
    decreases f
  {
    if c.kind == Mux {
      OutIsWire(nl, nl[c].control, vis, f - 1);
      OutIsWire(nl, nl[c].data[Out(nl, nl[c].control, vis, f - 1).value.value], vis, f - 1);
    }
  }

  /** Evaluation yields what is on the wire. */
  lemma ValueIsWire(nl: Netlist, c: Component, vis: Snapshot) returns (depth: nat)
    requires Settles(nl, c, vis)
    ensures Wire(nl, c, vis, depth) == Some(ValueOf(nl, c, vis))
  {
    depth :| Out(nl, c, vis, depth).Some?;
    OutIsWire(nl, c, vis, depth);
    OutIsValue(nl, c, vis, depth);
  }

  /** After a cycle a register that was not enabled shows what it showed; one that was shows
      what was on the wire into it: what the register feeding it showed, the constant of
      the source feeding it, or what the multiplexer feeding it selected. */
  lemma NextState(nl: Netlist, regs: set<Component>, vis: Snapshot, c: Component) returns (depth: nat)
    requires Distinct(regs) && AllSettle(nl, regs, vis) && c in regs
    ensures c in nl && c.id in vis && c.id in Tick(nl, regs, vis)
    ensures var b := Tick(nl, regs, vis)[c.id];
      if !c.enable(vis) then b == vis[c.id]
      else
        nl[c].input != null &&
        var d := nl[c].input;
        && Wire(nl, d, vis, depth) == Some(b)
        && (d.kind == Register ==> d.id in vis && b == vis[d.id])
        && (d.kind == Source ==> b == d.source)
  {
    hide Out, Settles, Wire;
    depth := 0;
    if c.enable(vis) {
      EnabledInputSettles(nl, c, vis);
      depth := ValueIsWire(nl, nl[c].input, vis);
      WireEnds(nl, nl[c].input, vis, depth);
    }
  }

  lemma WireEnds(nl: Netlist, c: Component, vis: Snapshot, depth: nat)
    requires Wire(nl, c, vis, depth).Some?
    ensures c.kind == Register ==> c.id in vis && Wire(nl, c, vis, depth) == Some(vis[c.id])
    ensures c.kind == Source ==> Wire(nl, c, vis, depth) == Some(c.source)
  {
  }

  // ---- Shift registers ----

  /** Stages of which each but the first is always enabled and fed by the one before. */
  ghost predicate Chain(nl: Netlist, regs: set<Component>, stages: seq<Component>) {
    && (forall k :: 0 <= k < |stages| ==> stages[k] in regs && stages[k] in nl && stages[k].kind == Register)
    && (forall k {:trigger stages[k]} :: 0 < k < |stages| ==> nl[stages[k]].input == stages[k - 1])
    && (forall k, vis: Snapshot :: 0 < k < |stages| ==> stages[k].enable(vis))
  }

  lemma ChainStep(nl: Netlist, regs: set<Component>, stages: seq<Component>, vis: Snapshot, j: nat)
    requires Distinct(regs) && AllSettle(nl, regs, vis) && Chain(nl, regs, stages) && 0 < j < |stages|
    ensures stages[j].id in Tick(nl, regs, vis) && stages[j - 1].id in vis
    ensures Tick(nl, regs, vis)[stages[j].id] == vis[stages[j - 1].id]
  {
    hide AllSettle, Tick;
    var d := NextState(nl, regs, vis, stages[j]);
  }

  /** After n cycles every stage shows what the stage n places before it showed; so stage n
      shows what the first did. */
  lemma {:induction false} Shifts(nl: Netlist, regs: set<Component>, stages: seq<Component>, vis: Snapshot, n: nat, j: nat)
    requires Distinct(regs) && RunsFor(nl, regs, vis, n) && Chain(nl, regs, stages)
    requires n <= j < |stages| && forall c :: c in regs ==> c.id in vis
    ensures stages[j].id in After(nl, regs, vis, n) && stages[j - n].id in vis
    ensures After(nl, regs, vis, n)[stages[j].id] == vis[stages[j - n].id]
    decreases n
  {
    hide AllSettle, Tick, Chain;
    assert stages[j] in regs && stages[j - n] in regs by { InChain(nl, regs, stages, j); InChain(nl, regs, stages, j - n); }
    if n > 0 {
      TickHasAll(nl, regs, vis);
      Shifts(nl, regs, stages, Tick(nl, regs, vis), n - 1, j);
      ChainStep(nl, regs, stages, vis, j - n + 1);
    }
  }

  lemma InChain(nl: Netlist, regs: set<Component>, stages: seq<Component>, j: nat)
    requires Chain(nl, regs, stages) && j < |stages|
    ensures stages[j] in regs
  {
  }

  lemma TickHasAll(nl: Netlist, regs: set<Component>, vis: Snapshot)
    requires Distinct(regs) && AllSettle(nl, regs, vis)
    ensures forall c :: c in regs ==> c.id in Tick(nl, regs, vis)
  {
  }
}
