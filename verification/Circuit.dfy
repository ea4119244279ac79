/** The clocked circuit simulator: components that evaluate each other recursively,
    remember what they computed, and change state on the clock edge. */
module Circuit {
  import opened Words
  import opened Wrappers

  /** Up to sixteen bits, each 0, 1, high impedance or undefined. */
  datatype Bits = Bits(value: nat, highz: nat, undef: nat, width: nat)

  const UNDEF_BITS := Bits(0, 0, 0xFFFF, 16)

  datatype Kind = Source | Register | Mux

  /** The visible states of the registers, by identity, as the enable functions see
      them. */
  type Snapshot = map<nat, Bits>

  /** What a component is wired to; nothing yet where it says null. */
  datatype Wires = Wires(input: Component?, control: Component?, data: seq<Component?>)

  /** A source of constant bits, a register, or a multiplexer.  It is wired up once the
      components around it exist, and only its state changes after that. */
  class Component {
    const id: nat                    // which component this is
    const kind: Kind
    const width: nat                 // how many bits it yields
    const source: Bits               // of a source
    const enable: Snapshot -> bool   // of a register

    var input: Component?            // of a register
    var control: Component?          // of a multiplexer
    var data: seq<Component?>        // of a multiplexer

    var visibleState: Bits
    var cachedState: Bits
    var cacheValid: bool
    var clockEnabled: bool

    ghost function Wiring(): Wires
      reads `input, `control, `data
    {
      Wires(input, control, data)
    }

    /** What is wired so far has the right widths and number. */
    ghost predicate Fits()
      reads `input, `control, `data
    {
      match kind
      case Source => source.value < Pow2(width)
      case Register => input != null ==> input.width == width
      case Mux =>
        if control == null then data == []
        else |data| == Pow2(control.width) && forall d :: d in data && d != null ==> d.width == width
    }

    /** A source of the given bits. */
    constructor MakeSource(id: nat, width: nat, source: Bits)
      requires source.value < Pow2(width)
      ensures this.id == id && kind == Source && this.width == width && this.source == source && Fits()
      ensures Wiring() == Wires(null, null, [])
    {
      this.id, this.width, kind, this.source := id, width, Source, source;
      enable := (vis: Snapshot) => false;
      input, control, data := null, null, [];
      visibleState, cachedState, cacheValid, clockEnabled := source, source, false, false;
    }

    constructor MakeRegister(id: nat, width: nat, enable: Snapshot -> bool)
      ensures this.id == id && kind == Register && this.width == width && this.enable == enable && Fits()
      ensures Wiring() == Wires(null, null, [])
    {
      this.id, this.width, kind, source := id, width, Register, ZeroBits(width);
      this.enable := enable;
      input, control, data := null, null, [];
      visibleState, cachedState := Bits(0, 0, 0xFFFF, width), Bits(0, 0, 0xFFFF, width);
      cacheValid, clockEnabled := false, false;
    }

    constructor MakeMux(id: nat, width: nat)
      ensures this.id == id && kind == Mux && this.width == width && Fits()
      ensures Wiring() == Wires(null, null, [])
    {
      this.id, this.width, kind, source := id, width, Mux, ZeroBits(width);
      enable := (vis: Snapshot) => false;
      input, control, data := null, null, [];
      visibleState, cachedState, cacheValid, clockEnabled := ZeroBits(width), ZeroBits(width), false, false;
    }

    // ---- Wiring ----

    /** Connect a register's input, if the widths agree. */
    method AddInput(c: Component) returns (ok: bool)
      requires kind == Register && Fits()
      modifies `input
      ensures Fits() && (ok <==> c.width == width)
      ensures Wiring() == old(Wiring()).(input := if ok then c else old(input))
    {
      if width != c.width {
        return false;
      }
      input := c;
      return true;
    }

    /** Connect a multiplexer's control, once, and make room for its inputs. */
    method AddControl(c: Component?) returns (ok: bool)
      requires kind == Mux && Fits()
      modifies `control, `data
      ensures Fits() && (ok <==> c != null && c.width <= 3 && old(control) == null)
      ensures ok ==> Wiring() == old(Wiring()).(control := c, data := seq(Pow2(c.width), _ => null))
      ensures !ok ==> Wiring() == old(Wiring())
    {
      if c == null || c.width > 3 {
        return false;
      }
      if |data| > 0 {
        return false;
      }
      control := c;
      data := seq(Pow2(c.width), _ => null);
      return true;
    }

    /** Connect one of a multiplexer's inputs. */
    method AddData(c: Component?, slot: nat) returns (ok: bool)
      requires kind == Mux && Fits()
      modifies `data
      ensures Fits()
      ensures ok <==> control != null && c != null && c.width == width && slot < |data|
      ensures Wiring() == old(Wiring()).(data := if ok then old(data)[slot := c] else old(data))
    {
      if control == null || c == null || c.width != width || slot >= Pow2(control.width) {
        return false;
      }
      data := data[slot := c];
      return true;
    }

    /** Whether the wiring is complete. */
    method Check() returns (ok: bool)
      requires Fits()
      ensures ok <==> Checked(this, Wiring())
    {
      match kind
      case Source => ok := true;
      case Register => ok := input != null && input.width == width;
      case Mux =>
        if control == null {
          return false;
        }
        for k := 0 to |data|
          invariant forall j :: 0 <= j < k ==> data[j] != null
        {
          if data[k] == null {
            return false;
          }
        }
        ok := true;
    }

    // ---- Simulation ----

    method Reset()
      modifies `visibleState, `cacheValid, `clockEnabled
      ensures visibleState == UNDEF_BITS && !cacheValid && !clockEnabled
    {
      visibleState := UNDEF_BITS;
      cacheValid := false;
      clockEnabled := false;
    }

    method Prepare()
      modifies `cacheValid
      ensures !cacheValid
    {
      cacheValid := false;
    }

    /** Evaluate this component and, through it, whatever it depends on, each at most
        once.  The answer is the one computed without remembering anything. */
    method Evaluate(vis: Snapshot, ghost nl: Netlist, ghost fuel: nat) returns (b: Bits)
      requires this in nl && Wired(nl) && Shows(nl.Keys, vis) && CacheOk(nl, vis)
      requires Out(nl, this, vis, fuel).Some?
      modifies nl.Keys`cachedState, nl.Keys`cacheValid, nl.Keys`clockEnabled
      ensures Out(nl, this, vis, fuel) == Some(b)
      ensures CacheOk(nl, vis) && (kind != Source ==> cacheValid)
      ensures forall c :: c in nl ==> (old(c.cacheValid) ==> c.cacheValid)
      ensures forall c :: c in nl ==> c.cacheValid || c.clockEnabled == old(c.clockEnabled)
      decreases fuel
    {
      hide Wired, Shows, Gives;
      OfThis(nl, this, vis);
      match kind
      case Source =>
        b := source;
      case Register =>
        if !cacheValid {
          clockEnabled := enable(vis);
          var v := cachedState;
          if clockEnabled {
            v := input.Evaluate(vis, nl, fuel - 1);
            GivesOut(nl, input, vis, fuel - 1);
          }
          Remember(v, vis, nl);
        }
        b := visibleState;
      case Mux =>
        if !cacheValid {
          var selector := control.Evaluate(vis, nl, fuel - 1);
          var v := data[selector.value].Evaluate(vis, nl, fuel - 1);
          GivesOut(nl, this, vis, fuel);
          Remember(v, vis, nl);
        } else {
          GivesOut(nl, this, vis, fuel);
          GivesOnce(nl, this, vis, cachedState, Out(nl, this, vis, fuel).value);
        }
        b := cachedState;
    }

    /** Keep a value that is known to be right. */
    method Remember(v: Bits, ghost vis: Snapshot, ghost nl: Netlist)
      requires this in nl && Wired(nl) && CacheOk(nl, vis) && kind != Source
      requires kind == Mux ==> Gives(nl, this, vis, v)
      requires kind == Register ==> clockEnabled == enable(vis)
      requires kind == Register && clockEnabled ==> input != null && Gives(nl, input, vis, v)
      modifies `cachedState, `cacheValid
      ensures CacheOk(nl, vis) && cacheValid && cachedState == v
    {
      hide Gives;
      assert Wiring() == nl[this];
      cachedState := v;
      cacheValid := true;
      assert Remembers(nl, this, vis);
    }

    method PositiveEdge()
      modifies `visibleState
      ensures visibleState == if clockEnabled then cachedState else old(visibleState)
    {
      if clockEnabled {
        visibleState := cachedState;
      }
    }
  }

  function ZeroBits(width: nat): Bits { Bits(0, 0, 0, width) }

  /** Everything connected, widths equal, and an input for every value of a
      multiplexer's control. */
  ghost predicate Checked(c: Component, w: Wires) {
    match c.kind
    case Source => c.source.value < Pow2(c.width)
    case Register => w.input != null && w.input.width == c.width
    case Mux =>
      && w.control != null && |w.data| == Pow2(w.control.width)
      && forall k :: 0 <= k < |w.data| ==> w.data[k] != null && w.data[k].width == c.width
  }

  // ---- Networks ----

  /** A network, once wired. */
  type Netlist = map<Component, Wires>

  ghost predicate Wired(nl: Netlist)
    reads nl.Keys`input, nl.Keys`control, nl.Keys`data
  {
    forall c :: c in nl ==> c.Wiring() == nl[c]
  }

  /** The components that c may evaluate. */
  ghost function Feeds(nl: Netlist, c: Component): set<Component>
    requires c in nl
  {
    match c.kind
    case Source => {}
    case Register => if nl[c].input == null then {} else {nl[c].input}
    case Mux =>
      (set d: Component | d in nl[c].data) + if nl[c].control == null then {} else {nl[c].control}
  }

  ghost predicate Closed(nl: Netlist) {
    forall c :: c in nl ==> Feeds(nl, c) <= nl.Keys
  }

  /** The snapshot holds what the registers show. */
  ghost predicate Shows(net: set<Component>, vis: Snapshot)
    reads net`visibleState
  {
    forall c :: c in net && c.kind == Register ==> c.id in vis && vis[c.id] == c.visibleState
  }

  /** Whatever has been remembered is right. */
  ghost predicate CacheOk(nl: Netlist, vis: Snapshot)
    reads nl.Keys
  {
    forall c :: c in nl && c.cacheValid ==> Remembers(nl, c, vis)
  }

  lemma OfThis(nl: Netlist, c: Component, vis: Snapshot)
    requires c in nl && Wired(nl) && Shows(nl.Keys, vis) && CacheOk(nl, vis)
    ensures c.Wiring() == nl[c] && (c.cacheValid ==> Remembers(nl, c, vis))
    ensures c.kind == Register ==> c.id in vis && vis[c.id] == c.visibleState
  {
  }

  ghost predicate Remembers(nl: Netlist, c: Component, vis: Snapshot)
    requires c in nl
    reads c
  {
    match c.kind
    case Source => true
    case Mux => Gives(nl, c, vis, c.cachedState)
    case Register =>
      && c.clockEnabled == c.enable(vis)
      && (c.clockEnabled ==> nl[c].input != null && Gives(nl, nl[c].input, vis, c.cachedState))
  }

  // ---- What evaluation computes, without memory ----

  /** What evaluating c yields, and None if that takes recursion deeper than `fuel`,
      leaves the network or follows a wire that is not there.  A register yields its
      visible state but, when enabled, evaluates its input first. */
  ghost function Out(nl: Netlist, c: Component, vis: Snapshot, fuel: nat): Option<Bits>
    decreases fuel
  {
    if c !in nl then None
    else match c.kind
      case Source => Some(c.source)
      case Register =>
        if c.id !in vis then None
        else if !c.enable(vis) then Some(vis[c.id])
        else if fuel == 0 || nl[c].input == null || Out(nl, nl[c].input, vis, fuel - 1).None? then None
        else Some(vis[c.id])
      case Mux =>
        if fuel == 0 || nl[c].control == null then None
        else
          match Out(nl, nl[c].control, vis, fuel - 1)
          case None => None
          case Some(b) =>
            if b.value >= |nl[c].data| || nl[c].data[b.value] == null then None
            else Out(nl, nl[c].data[b.value], vis, fuel - 1)
  }

  lemma {:induction false} OutStable(nl: Netlist, c: Component, vis: Snapshot, f: nat, g: nat)
    requires f <= g && Out(nl, c, vis, f).Some?
    ensures Out(nl, c, vis, g) == Out(nl, c, vis, f)
    decreases f
  {
    match c.kind
    case Source =>
    case Register =>
      if c.enable(vis) {
        OutStable(nl, nl[c].input, vis, f - 1, g - 1);
      }
    case Mux =>
      OutStable(nl, nl[c].control, vis, f - 1, g - 1);
      OutStable(nl, nl[c].data[Out(nl, nl[c].control, vis, f - 1).value.value], vis, f - 1, g - 1);
  }

  /** Evaluation of c comes to an end, and yields b. */
  ghost predicate Gives(nl: Netlist, c: Component, vis: Snapshot, b: Bits) {
    exists f: nat :: Out(nl, c, vis, f) == Some(b)
  }

  ghost predicate Settles(nl: Netlist, c: Component, vis: Snapshot) {
    exists f: nat :: Out(nl, c, vis, f).Some?
  }

  lemma GivesOut(nl: Netlist, c: Component, vis: Snapshot, f: nat)
    requires Out(nl, c, vis, f).Some?
    ensures Gives(nl, c, vis, Out(nl, c, vis, f).value)
  {
  }

  lemma GivesOnce(nl: Netlist, c: Component, vis: Snapshot, a: Bits, b: Bits)
    requires Gives(nl, c, vis, a) && Gives(nl, c, vis, b)
    ensures a == b
  {
    var f: nat :| Out(nl, c, vis, f) == Some(a);
    var g: nat :| Out(nl, c, vis, g) == Some(b);
    if f <= g { OutStable(nl, c, vis, f, g); } else { OutStable(nl, c, vis, g, f); }
  }

  // ---- The synchronous meaning of a circuit ----

  /** What c yields, when evaluating it comes to an end. */
  ghost function ValueOf(nl: Netlist, c: Component, vis: Snapshot): (b: Bits)
    requires Settles(nl, c, vis)
    ensures Gives(nl, c, vis, b)
  {
    var f: nat :| Out(nl, c, vis, f).Some?;
    Out(nl, c, vis, f).value
  }

  /** Each register has its own identity. */
  ghost predicate Distinct(regs: set<Component>) {
    forall c, d :: c in regs && d in regs && c.id == d.id ==> c == d
  }

  ghost predicate AllSettle(nl: Netlist, regs: set<Component>, vis: Snapshot) {
    forall c :: c in regs ==> c in nl && Settles(nl, c, vis) && c.kind == Register && c.id in vis
  }

  lemma EnabledInputSettles(nl: Netlist, c: Component, vis: Snapshot)
    requires c in nl && c.kind == Register && Settles(nl, c, vis) && c.enable(vis)
    ensures nl[c].input != null && Settles(nl, nl[c].input, vis)
  {
    var f: nat :| Out(nl, c, vis, f).Some?;
    assert Out(nl, nl[c].input, vis, f - 1).Some?;
  }

  /** The state of register c after a clock edge: what its input yielded if it was
      enabled, and otherwise what it was. */
  ghost function NextBits(nl: Netlist, c: Component, vis: Snapshot): Bits
    requires c in nl && c.kind == Register && Settles(nl, c, vis) && c.id in vis
  {
    if c.enable(vis) then EnabledInputSettles(nl, c, vis); ValueOf(nl, nl[c].input, vis) else vis[c.id]
  }

  /** All registers change at once.  The registers are a set: there is no order. */
  ghost function Tick(nl: Netlist, regs: set<Component>, vis: Snapshot): Snapshot
    requires Distinct(regs) && AllSettle(nl, regs, vis)
  {
    map c | c in regs :: c.id := NextBits(nl, c, vis)
  }

  /** The circuit settles in each of n successive cycles, and where it gets to. */
  ghost predicate RunsFor(nl: Netlist, regs: set<Component>, vis: Snapshot, n: nat)
    requires Distinct(regs)
  {
    n == 0 || (AllSettle(nl, regs, vis) && RunsFor(nl, regs, Tick(nl, regs, vis), n - 1))
  }

  ghost function After(nl: Netlist, regs: set<Component>, vis: Snapshot, n: nat): Snapshot
    requires Distinct(regs) && RunsFor(nl, regs, vis, n)
  {
    if n == 0 then vis else After(nl, regs, Tick(nl, regs, vis), n - 1)
  }

  // ---- Simulation ----

  const COUNTER_SIZE := 0x1_0000_0000

  class System {
    const logic: seq<Component>
    const state: seq<Component>
    var cycleCounter: nat

    ghost function Regs(): set<Component> {
      set c | c in state
    }

    ghost function Net(): set<Component> {
      Regs() + set c | c in logic
    }

    constructor (logic: seq<Component>, state: seq<Component>)
      ensures this.logic == logic && this.state == state && cycleCounter == 0
    {
      this.logic, this.state, cycleCounter := logic, state, 0;
    }

    /** How the components are wired. */
    ghost function Circuit(): (nl: Netlist)
      reads Net()`input, Net()`control, Net()`data
      ensures Has(nl)
    {
      map c | c in Net() :: c.Wiring()
    }

    /** The components are wired as nl says. */
    ghost predicate Has(nl: Netlist)
      reads nl.Keys`input, nl.Keys`control, nl.Keys`data
    {
      nl.Keys == Net() && Wired(nl)
    }

    /** Registers are among the state and all else among the logic. */
    ghost predicate WellBuilt() {
      && Distinct(Regs())
      && (forall c :: c in state ==> c.kind == Register)
      && (forall c :: c in logic ==> c.kind != Register)
    }

    ghost function Visible(): (vis: Snapshot)
      requires WellBuilt()
      reads Regs()`visibleState
    {
      map c | c in Regs() :: c.id := c.visibleState
    }

    method ReadVisible() returns (vis: Snapshot)
      requires WellBuilt()
      ensures vis == Visible()
    {
      vis := map[];
      for k := 0 to |state|
        invariant vis.Keys == set c | c in state[..k] :: c.id
        invariant forall c :: c in state[..k] ==> vis[c.id] == c.visibleState
      {
        vis := vis[state[k].id := state[k].visibleState];
      }
      assert state[..|state|] == state;
    }

    /** Check every component. */
    method CheckAll() returns (ok: bool)
      requires forall c :: c in Net() ==> c.Fits()
      ensures ok <==> forall c :: c in Net() ==> Checked(c, c.Wiring())
    {
      hide Checked;
      var a := CheckList(state);
      var b := CheckList(logic);
      ok := a && b;
    }

    method CheckList(cs: seq<Component>) returns (ok: bool)
      requires forall c :: c in cs ==> c.Fits()
      ensures ok <==> forall c :: c in cs ==> Checked(c, c.Wiring())
    {
      hide Checked;
      ok := true;
      for k := 0 to |cs|
        invariant ok <==> forall j :: 0 <= j < k ==> Checked(cs[j], cs[j].Wiring())
      {
        var good := cs[k].Check();
        ok := ok && good;
      }
      assert ok ==> forall c :: c in cs ==> Checked(c, c.Wiring());
    }

    method PrepareAll(cs: seq<Component>)
      modifies (set c | c in cs)`cacheValid
      ensures forall c :: c in cs ==> !c.cacheValid
    {
      for k := 0 to |cs|
        invariant forall c :: c in cs[..k] ==> !c.cacheValid
      {
        cs[k].Prepare();
      }
      assert cs[..|cs|] == cs;
    }

    /** Evaluate every register, in the order of the list. */
    method EvaluateAll(vis: Snapshot, ghost nl: Netlist)
      requires WellBuilt() && Has(nl) && vis == Visible() && AllSettle(nl, Regs(), vis)
      requires forall c :: c in Net() ==> !c.cacheValid
      modifies Net()`cachedState, Net()`cacheValid, Net()`clockEnabled
      ensures forall c :: c in Regs() ==> c.cacheValid && Remembers(nl, c, vis)
    {
      hide CacheOk, Remembers, Out, Wired;
      ghost var net := Net();
      NothingRemembered(nl, vis);
      for k := 0 to |state|
        invariant Shows(net, vis) && CacheOk(nl, vis)
        invariant forall j :: 0 <= j < k ==> state[j].cacheValid
      {
        var r := state[k];
        assert r in Regs() && r in net;
        ghost var f: nat :| Out(nl, r, vis, f).Some?;
        var _ := r.Evaluate(vis, nl, f);
      }
      RememberedRight(nl, vis);
    }

    static lemma NothingRemembered(nl: Netlist, vis: Snapshot)
      requires forall c :: c in nl ==> !c.cacheValid
      ensures CacheOk(nl, vis)
    {
    }

    static lemma RememberedRight(nl: Netlist, vis: Snapshot)
      requires CacheOk(nl, vis)
      ensures forall c :: c in nl && c.cacheValid ==> Remembers(nl, c, vis)
    {
    }

    /** The snapshot that agrees with every register. */
    lemma VisibleIs(vis: Snapshot)
      requires WellBuilt()
      requires vis.Keys == set c | c in Regs() :: c.id
      requires forall j :: 0 <= j < |state| ==> vis[state[j].id] == state[j].visibleState
      ensures Visible() == vis
    {
    }

    /** Clock every register, in the order of the list. */
    method ClockAll(ghost next: Snapshot)
      requires WellBuilt() && next.Keys == set c | c in Regs() :: c.id
      requires forall j :: 0 <= j < |state| ==>
        next[state[j].id] == if state[j].clockEnabled then state[j].cachedState else state[j].visibleState
      modifies Regs()`visibleState
      ensures Visible() == next
    {
      hide Distinct;
      for k := 0 to |state|
        invariant forall j :: 0 <= j < k ==> state[j].visibleState == next[state[j].id]
        invariant forall j :: 0 <= j < |state| ==>
          next[state[j].id] == if state[j].clockEnabled then state[j].cachedState else state[j].visibleState
      {
        state[k].PositiveEdge();
      }
      VisibleIs(next);
    }

    /** The clock edge brings what was remembered. */
    static lemma Edge(nl: Netlist, r: Component, vis: Snapshot)
      requires r in nl && r.kind == Register && Settles(nl, r, vis) && r.id in vis && Remembers(nl, r, vis)
      ensures NextBits(nl, r, vis) == if r.clockEnabled then r.cachedState else vis[r.id]
    {
      if r.clockEnabled {
        EnabledInputSettles(nl, r, vis);
        GivesOnce(nl, nl[r].input, vis, r.cachedState, ValueOf(nl, nl[r].input, vis));
      }
    }

    /** One cycle: whatever the order of the lists, the registers move together. */
    method OneCycle(ghost nl: Netlist)
      requires WellBuilt() && Has(nl) && AllSettle(nl, Regs(), Visible())
      modifies Net()`visibleState, Net()`cachedState, Net()`cacheValid, Net()`clockEnabled
      ensures Visible() == Tick(nl, Regs(), old(Visible()))
    {
      hide Settles, Gives, NextBits, Wired;
      var vis := ReadVisible();
      PrepareAll(logic);
      PrepareAll(state);
      EvaluateAll(vis, nl);
      forall c | c in Regs()
        ensures NextBits(nl, c, vis) == if c.clockEnabled then c.cachedState else c.visibleState
      {
        Edge(nl, c, vis);
      }
      ClockAll(Tick(nl, Regs(), vis));
    }

    method ResetAll()
      requires WellBuilt()
      modifies Regs()`visibleState, Regs()`cacheValid, Regs()`clockEnabled
      ensures Visible() == map c | c in Regs() :: c.id := UNDEF_BITS
    {
      for k := 0 to |state|
        invariant forall c :: c in state[..k] ==> c.visibleState == UNDEF_BITS
      {
        state[k].Reset();
      }
      assert state[..|state|] == state;
    }

    /** The simulation loop. */
    method RunUntil(end: nat, ghost nl: Netlist)
      requires WellBuilt() && cycleCounter <= end < COUNTER_SIZE
      requires Has(nl) && RunsFor(nl, Regs(), Visible(), end - cycleCounter)
      modifies `cycleCounter, Net()`visibleState, Net()`cachedState, Net()`cacheValid, Net()`clockEnabled
      ensures Visible() == old(After(nl, Regs(), Visible(), end - cycleCounter))
      ensures cycleCounter == end
    {
      hide Tick, AllSettle, Distinct, Has;
      ghost var regs := Regs();
      ghost var last := After(nl, regs, Visible(), end - cycleCounter);
      while cycleCounter < end
        invariant cycleCounter <= end
        invariant RunsFor(nl, regs, Visible(), end - cycleCounter)
        invariant After(nl, regs, Visible(), end - cycleCounter) == last
      {
        OneCycle(nl);
        cycleCounter := (cycleCounter + 1) % COUNTER_SIZE;
      }
    }

    /** Reset if asked, then run nCycles cycles; if the 32-bit cycle counter would
        wrap, none at all. */
    method Simulate(reset: bool, nCycles: nat, ghost nl: Netlist)
      requires WellBuilt() && cycleCounter < COUNTER_SIZE && nCycles < COUNTER_SIZE
      requires Has(nl) && RunsFor(nl, Regs(), Start(reset), CyclesRun(reset, nCycles))
      modifies `cycleCounter, Net()`visibleState, Net()`cachedState, Net()`cacheValid, Net()`clockEnabled
      ensures Visible() == old(After(nl, Regs(), Start(reset), CyclesRun(reset, nCycles)))
      ensures cycleCounter == (if reset then 0 else old(cycleCounter)) + old(CyclesRun(reset, nCycles)) < COUNTER_SIZE
    {
      hide Tick, AllSettle, Distinct, Has;
      if reset {
        ResetAll();
        cycleCounter := 0;
      }
      var end := (cycleCounter + nCycles) % COUNTER_SIZE;
      if cycleCounter < end {
        RunUntil(end, nl);
      }
    }

    ghost function Start(reset: bool): Snapshot
      requires WellBuilt()
      reads Regs()`visibleState
    {
      if reset then map c | c in Regs() :: c.id := UNDEF_BITS else Visible()
    }

    function CyclesRun(reset: bool, nCycles: nat): nat
      reads this
    {
      if (if reset then 0 else cycleCounter) + nCycles < COUNTER_SIZE then nCycles else 0
    }
  }
}
