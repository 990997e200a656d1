/** The scheduler as it runs: fields updated in place, loops over ports and
    connections, recursion over the graph. */
module Scheduler {
  import opened Wrappers
  import opened Digraph
  import opened DataflowGraph
  import opened NodeTypes
  import opened SchedulerState
  import opened MaskNegotiation
  import opened DependencyCounters
  import opened NodeScheduling
  import opened ProcessingOrder
  import opened ProcessingRun
  import opened GraphScheduling
  import opened ComponentScheduling
  import opened NodeMarking
  import opened CycleCheck
  import opened ListOrders

  class Schedule {
    const g: Graph
    var required: seq<Mask>
    var negotiated: seq<Mask>
    var propagated: seq<Mask>
    var deps: seq<nat>
    var gen: seq<seq<nat>>
    var marking: seq<Marking>
    var list: seq<nat>
    ghost var done: seq<nat>

    ghost function St(): State
      reads this
    {
      State(negotiated, propagated, deps, gen, list, done)
    }

    ghost predicate Valid()
      reads this
    {
      WellFormed(g) && Shaped(g, St()) && |required| == |g| == |marking|
    }

    /** What scheduling a component needs of the masks. */
    ghost predicate Ready()
      reads this
    {
      && Valid() && NegBounded(g, negotiated) && |required| == |g|
      && forall n :: 0 <= n < |g| ==> Bounded(required[n], |g[n]|)
    }

    /** A graph whose nodes have just been instantiated. Instances are allocated without
        being cleared, and neither markings nor counters are set. */
    constructor (graph: Graph, marks: seq<Marking>, counters: seq<nat>)
      requires WellFormed(graph) && |marks| == |graph| == |counters|
      ensures g == graph && Ready() && GenerationsValid(g, gen) && list == [] && done == []
      ensures marking == marks && deps == counters
      ensures forall n :: 0 <= n < |g| ==> required[n] == negotiated[n] == propagated[n] == EMPTY_MASK
    {
      g := graph;
      required := seq(|graph|, n => EMPTY_MASK);
      negotiated := seq(|graph|, n => EMPTY_MASK);
      propagated := seq(|graph|, n => EMPTY_MASK);
      deps := counters;
      gen := InitialGenerations(graph);
      marking := marks;
      list := [];
      done := [];
      new;
      forall n | 0 <= n < |g| ensures Bounded(EMPTY_MASK, |g[n]|) {
        EmptyBounded(|g[n]|);
      }
    }

    /** Sets the mask that a node requires at the next call, as its owner does. */
    method Require(n: nat, m: Mask)
      requires Ready() && n < |g| && Bounded(m, |g[n]|)
      modifies `required
      ensures Ready() && required == old(required)[n := m]
    {
      required := required[n := m];
    }

    // ----- The search for cycles, which uses the same markings -----

    /** am_dfg_graph_has_cycle on the graph of the scheduler. */
    method CheckCycle(extra: Leg, ignore: Option<Leg>, wanted: bool)
      returns (found: bool, cycle: seq<Leg>, ghost stack: seq<nat>, ghost finished: seq<nat>)
      requires Valid() && HasPort(g, extra.src) && HasPort(g, extra.dst)
      modifies `marking
      ensures Valid() && (found <==> Cyclic(SearchEdges(g, extra, ignore)))
      ensures CheckLeaves(g, extra, ignore, found, marking, stack, finished)
      ensures stack != [] <==> RootReachesCycle(g, extra, ignore)
      ensures cycle != [] <==> wanted && RootReachesCycle(g, extra, ignore)
      ensures cycle != [] ==> found && SimpleCycle(g, extra, ignore, cycle)
    {
      found, cycle, marking, stack, finished := HasCycle(g, extra, ignore, wanted);
    }

    // ----- Negotiation -----

    /** The four am_dfg_port_propagate functions, which differ in the expected port
        direction and in the mask they offer. Returns true on failure. */
    method PropagateBits(n: nat, bits: set<nat>, d: Direction, k: Freshness) returns (failed: bool)
      requires Valid() && n < |g|
      modifies `negotiated, `list
      ensures Valid() && Outcome(!failed, St()) == Propagate(g, old(St()), n, bits, d, k, 0)
    {
      var i := 0;
      while i < |g[n]|
        invariant 0 <= i <= |g[n]| && Valid()
        invariant Propagate(g, St(), n, bits, d, k, i) == Propagate(g, old(St()), n, bits, d, k, 0)
      {
        if i in bits {
          if g[n][i].ptype.dir != d {
            return true;
          }
          OfferConnected(n, i, k);
        }
        i := i + 1;
      }
      return false;
    }

    /** The loop over the ports connected to port `i` of node `n`. */
    method OfferConnected(n: nat, i: nat, k: Freshness)
      requires Valid() && n < |g| && i < |g[n]|
      modifies `negotiated, `list
      ensures Valid() && PortsExist(g, g[n][i].conns) && St() == OfferAll(g, old(St()), g[n][i].conns, k)
    {
      PortConnsExist(g, n, i);
      var qs := g[n][i].conns;
      OfferAllShape(g, St(), qs, k);
      var c := 0;
      while c < |qs|
        invariant 0 <= c <= |qs| && Valid() && PortsExist(g, qs[c..])
        invariant OfferAll(g, St(), qs[c..], k) == OfferAll(g, old(St()), qs, k)
      {
        assert qs[c] in qs[c..] && qs[c..][1..] == qs[c + 1..];
        OfferPort(qs[c], k);
        assert forall x :: x in qs[c + 1..] ==> x in qs;
        c := c + 1;
      }
      assert qs[c..] == [];
    }

    /** Extends the negotiated mask of the node of port `q` if it lacks a bit. */
    method OfferPort(q: PortRef, k: Freshness)
      requires Valid() && HasPort(g, q)
      modifies `negotiated, `list
      ensures Valid() && St() == Offer(g, old(St()), q, k)
    {
      var m := g[q.node][q.idx].ptype.MaskFor(k);
      RemoveIn(list, q.node);
      if !m.SubsetOf(negotiated[q.node]) {
        negotiated := negotiated[q.node := negotiated[q.node].Apply(m)];
        list := PushFront(list, q.node);
      }
    }

    /** am_dfg_schedule_node_eval_dependencies. */
    method EvalDependencies(n: nat) returns (failed: bool)
      requires Valid() && n < |g| && NegBounded(g, negotiated)
      modifies `negotiated, `propagated, `deps, `list
      ensures Valid() && Outcome(!failed, St()) == Evaluate(g, old(St()), n)
    {
      var dmask := negotiated[n].Diff(propagated[n]);
      failed := PropagateBits(n, dmask.pullNew, In, New);
      if failed { return; }
      failed := PropagateBits(n, dmask.pullOld, In, Old);
      if failed { return; }
      failed := PropagateBits(n, dmask.pushNew, Out, New);
      if failed { return; }
      failed := PropagateBits(n, dmask.pushOld, Out, Old);
      if failed { return; }
      PropagateAllBounded(g, old(St()), n, dmask);
      propagated := propagated[n := propagated[n].Apply(negotiated[n])];
      var count := CountActive(n);
      deps := deps[n := count];
    }

    /** Drops the ports that are not activated from the pull mask and counts the rest. */
    method CountActive(n: nat) returns (count: nat)
      requires Valid() && n < |g| && Bounded(negotiated[n], |g[n]|)
      ensures count == |ActiveInputs(g, negotiated, gen, n)|
    {
      var inMask := negotiated[n].pullOld + negotiated[n].pullNew;
      ghost var all := inMask;
      assert forall x :: x in all ==> x in negotiated[n].Bits(In, Old) || x in negotiated[n].Bits(In, New);
      var i := 0;
      while i < |g[n]|
        invariant 0 <= i <= |g[n]|
        invariant forall x :: x in inMask <==> x in all && (x < i ==> Activated(g, negotiated, gen, PortRef(n, x)))
      {
        var active := PortActivated(PortRef(n, i));
        if !active {
          inMask := inMask - {i};
        }
        i := i + 1;
      }
      hide Activated;
      forall x ensures x in inMask <==> x in ActiveInputs(g, negotiated, gen, n) {
        assert x in inMask ==> x < |g[n]|;
      }
      assert inMask == ActiveInputs(g, negotiated, gen, n);
      count := |inMask|;
    }

    /** am_dfg_port_activated. */
    method PortActivated(r: PortRef) returns (b: bool)
      requires Valid() && HasPort(g, r)
      ensures b == Activated(g, negotiated, gen, r)
    {
      var p := g[r.node][r.idx];
      if p.conns == [] {
        return false;
      }
      if p.ptype.dir == In {
        var other := p.conns[0];
        assert Connected(g, r, other);
        return r.idx in negotiated[r.node].pullOld ||
               (r.idx in negotiated[r.node].pullNew && other.idx in negotiated[other.node].pushNew);
      }
      if r.idx in negotiated[r.node].pushNew {
        return true;
      }
      if r.idx in negotiated[r.node].pushOld {
        var c := 0;
        while c < |p.conns|
          invariant 0 <= c <= |p.conns|
          invariant forall q :: q in p.conns[..c] ==> !ConsumerPulls(r, q)
        {
          var q := p.conns[c];
          assert Connected(g, r, q);
          if q.idx in negotiated[q.node].pullOld ||
             (q.idx in negotiated[q.node].pullNew && gen[r.node][r.idx] != gen[q.node][q.idx])
          {
            assert ConsumerPulls(r, q);
            return true;
          }
          c := c + 1;
        }
        assert p.conns[..c] == p.conns;
        forall q | q in p.conns ensures HasPort(g, q) && !ConsumerPulls(r, q) {
          assert Connected(g, r, q);
        }
      }
      return false;
    }

    /** Consumer port `q` would read old data from output port `r`. */
    ghost predicate ConsumerPulls(r: PortRef, q: PortRef)
      requires Valid() && HasPort(g, r)
      reads this
    {
      HasPort(g, q) &&
      (q.idx in negotiated[q.node].pullOld ||
       (q.idx in negotiated[q.node].pullNew && gen[r.node][r.idx] != gen[q.node][q.idx]))
    }

    /** am_dfg_schedule_list_pop_front on a list that is not empty. */
    method PopFront() returns (n: nat)
      requires Valid() && list != []
      modifies `list
      ensures Valid() && n == old(list)[0] && n < |g| && list == old(list)[1..]
    {
      n := list[0];
      assert n in list;
      assert forall x :: x in list[1..] ==> x in list;
      list := list[1..];
    }

    /** am_dfg_schedule_converge_deps. */
    method ConvergeDeps() returns (failed: bool)
      requires Valid() && Startable(g, St())
      modifies `negotiated, `propagated, `deps, `list
      ensures Valid() && Outcome(!failed, St()) == Converge(g, old(St())) && (!failed ==> list == [])
    {
      while list != []
        invariant Valid() && Startable(g, St())
        invariant Converge(g, St()) == Converge(g, old(St()))
        decreases Missing(g, negotiated), |list|
      {
        assert list[0] in list;
        StepStartable(g, St(), list[0]);
        var n := PopFront();
        var f := EvalDependencies(n);
        if f {
          return true;
        }
      }
      return false;
    }

    // ----- Processing -----

    /** am_dfg_output_port_inc_generation on the ports of `n` marked as new. */
    method RenewOutputs(n: nat)
      requires Valid() && n < |g|
      modifies `gen
      ensures Valid() && gen == Renew(old(gen), n, negotiated[n].pushNew, 0)
    {
      var i := 0;
      while i < |g[n]|
        invariant 0 <= i <= |g[n]| && Valid()
        invariant Renew(gen, n, negotiated[n].pushNew, i) == Renew(old(gen), n, negotiated[n].pushNew, 0)
      {
        if i in negotiated[n].pushNew {
          var row: seq<nat> := gen[n][i := if gen[n][i] == UINT64_MAX then 1 else gen[n][i] + 1];
          gen := gen[n := row];
        }
        i := i + 1;
      }
    }

    /** Connected and requested inputs take over the generation of their producer. */
    method CatchUpInputs(n: nat)
      requires Valid() && n < |g|
      modifies `gen
      ensures Valid() && gen == CatchUp(g, old(gen), n, Pulls(negotiated[n]), 0)
    {
      var inMask := negotiated[n].pullNew + negotiated[n].pullOld;
      var i := 0;
      while i < |g[n]|
        invariant 0 <= i <= |g[n]| && Valid()
        invariant CatchUp(g, gen, n, Pulls(negotiated[n]), i) == CatchUp(g, old(gen), n, Pulls(negotiated[n]), 0)
      {
        if i in inMask && g[n][i].conns != [] {
          assert Connected(g, PortRef(n, i), g[n][i].conns[0]);
          var p := g[n][i].conns[0];
          var row: seq<nat> := gen[n][i := gen[p.node][p.idx]];
          gen := gen[n := row];
        }
        i := i + 1;
      }
    }

    /** Whether all requested ports of `n` may be omitted. */
    method MayOmit(n: nat) returns (skip: bool)
      requires Valid() && n < |g|
      ensures skip == Omittable(g, negotiated, gen, n)
    {
      var reqMask := negotiated[n].pushNew + negotiated[n].pushOld + (negotiated[n].pullNew + negotiated[n].pullOld);
      assert reqMask == Pushes(negotiated[n]) + Pulls(negotiated[n]);
      var i := 0;
      while i < |g[n]|
        invariant 0 <= i <= |g[n]|
        invariant forall x :: 0 <= x < i && x in reqMask ==> !Activated(g, negotiated, gen, PortRef(n, x))
      {
        var active := PortActivated(PortRef(n, i));
        if i in reqMask && active {
          return false;
        }
        i := i + 1;
      }
      return true;
    }

    /** One step of the update of the consumers' counters. */
    method DeliverTo(q: PortRef) returns (failed: bool)
      requires Valid() && HasPort(g, q)
      modifies `deps, `list
      ensures Valid() && Outcome(!failed, St()) == Deliver(g, old(St()), q)
    {
      var active := PortActivated(q);
      if active {
        if deps[q.node] == 0 {
          return true;
        }
        deps := deps[q.node := deps[q.node] - 1];
        if deps[q.node] == 0 {
          list := [q.node] + list;
        }
      }
      return false;
    }

    method DeliverToAll(n: nat, i: nat) returns (failed: bool)
      requires Valid() && n < |g| && i < |g[n]|
      modifies `deps, `list
      ensures Valid() && PortsExist(g, g[n][i].conns)
      ensures Outcome(!failed, St()) == DeliverAll(g, old(St()), g[n][i].conns)
    {
      PortConnsExist(g, n, i);
      var qs := g[n][i].conns;
      var c := 0;
      while c < |qs|
        invariant 0 <= c <= |qs| && Valid() && PortsExist(g, qs[c..])
        invariant DeliverAll(g, St(), qs[c..]) == DeliverAll(g, old(St()), qs)
      {
        assert qs[c] in qs[c..] && qs[c..][1..] == qs[c + 1..];
        var f := DeliverTo(qs[c]);
        if f {
          return true;
        }
        assert forall x :: x in qs[c + 1..] ==> x in qs;
        c := c + 1;
      }
      assert qs[c..] == [];
      return false;
    }

    method DeliverOutputs(n: nat, bits: set<nat>) returns (failed: bool)
      requires Valid() && n < |g|
      modifies `deps, `list
      ensures Valid() && Outcome(!failed, St()) == DeliverPorts(g, old(St()), n, bits, 0)
    {
      var i := 0;
      while i < |g[n]|
        invariant 0 <= i <= |g[n]| && Valid()
        invariant DeliverPorts(g, St(), n, bits, i) == DeliverPorts(g, old(St()), n, bits, 0)
      {
        if i in bits {
          var f := DeliverToAll(n, i);
          if f {
            return true;
          }
        }
        i := i + 1;
      }
      return false;
    }

    /** am_dfg_schedule_process_node. */
    method ProcessNode(n: nat, fails: set<nat>) returns (failed: bool)
      requires Valid() && n < |g|
      modifies `deps, `list, `gen, `marking, `done
      ensures Quiet(old(marking)) ==> Quiet(marking)
      ensures Valid() && Outcome(!failed, St()) == Process(g, old(St()), n, fails)
    {
      if deps[n] != 0 {
        return true;
      }
      marking := marking[n := PROCESSING];
      RenewOutputs(n);
      var skip := MayOmit(n);
      if !skip && n in fails {
        return true;
      }
      CatchUpInputs(n);
      var f := DeliverOutputs(n, negotiated[n].pushNew + negotiated[n].pushOld);
      if f {
        return true;
      }
      marking := marking[n := DONE];
      done := done + [n];
      return false;
    }

    /** am_dfg_schedule_nodes. */
    method RunNodes(fails: set<nat>) returns (failed: bool)
      requires Valid()
      modifies `deps, `list, `gen, `marking, `done
      ensures Quiet(old(marking)) ==> Quiet(marking)
      ensures Valid() && Outcome(!failed, St()) == ScheduleNodes(g, old(St()), fails)
    {
      while list != []
        invariant Valid() && (Quiet(old(marking)) ==> Quiet(marking))
        invariant ScheduleNodes(g, St(), fails) == ScheduleNodes(g, old(St()), fails)
        decreases Sum(deps), |list|
      {
        var n := PopFront();
        ProcessLowers(g, St(), n, fails);
        var f := ProcessNode(n, fails);
        if f {
          return true;
        }
      }
      return false;
    }

    // ----- Scheduling a whole graph -----

    /** am_dfg_schedule_reset_node. */
    method ResetNode(n: nat)
      requires Valid() && n < |g|
      modifies `negotiated, `propagated, `deps, `marking
      ensures Valid()
      ensures negotiated == old(negotiated)[n := EMPTY_MASK] && propagated == old(propagated)[n := EMPTY_MASK]
      ensures deps == old(deps)[n := 0] && marking == old(marking)[n := RESET]
    {
      deps := deps[n := 0];
      negotiated := negotiated[n := EMPTY_MASK];
      propagated := propagated[n := EMPTY_MASK];
      marking := marking[n := RESET];
    }

    /** am_dfg_schedule_reset_graph. */
    method ResetGraph()
      requires Valid()
      modifies `negotiated, `propagated, `deps, `marking
      ensures Valid()
      ensures forall x :: 0 <= x < |g| ==>
        negotiated[x] == propagated[x] == EMPTY_MASK && deps[x] == 0 && marking[x] == RESET
    {
      var n := 0;
      while n < |g|
        invariant 0 <= n <= |g| && Valid()
        invariant forall x :: 0 <= x < n ==>
          negotiated[x] == propagated[x] == EMPTY_MASK && deps[x] == 0 && marking[x] == RESET
      {
        ResetNode(n);
        n := n + 1;
      }
    }

    /** Marks all inputs of all nodes as pulling regardless of age and lists all nodes. */
    method RequireAllInputs()
      requires Valid() && list == [] && done == []
      requires forall x :: 0 <= x < |g| ==> negotiated[x] == propagated[x] == EMPTY_MASK && deps[x] == 0
      modifies `required, `negotiated, `list
      ensures Ready() && required == negotiated && St() == GraphStart(g, gen)
    {
      hide WellFormed; hide InputMask;
      var n := 0;
      while n < |g|
        invariant 0 <= n <= |g| && Valid() && list == CountDown(n)
        invariant forall x :: 0 <= x < n ==> negotiated[x] == required[x] == EMPTY_MASK.(pullOld := InputMask(g[x]))
      {
        required := required[n := EMPTY_MASK.(pullOld := InputMask(g[n]))];
        negotiated := negotiated[n := required[n]];
        CountDownElems(n);
        RemoveAbsent(CountDown(n), n);
        list := PushFront(list, n);
        n := n + 1;
      }
      AllRequired();
    }

    lemma AllRequired()
      requires Valid() && list == CountDown(|g|) && done == []
      requires forall x :: 0 <= x < |g| ==> propagated[x] == EMPTY_MASK && deps[x] == 0
      requires forall x :: 0 <= x < |g| ==> negotiated[x] == required[x] == EMPTY_MASK.(pullOld := InputMask(g[x]))
      ensures Ready() && required == negotiated && St() == GraphStart(g, gen)
    {
      hide Negotiating; hide Counted; hide AllInputsPull; hide Scope; hide InputMask;
      assert negotiated == GraphStart(g, gen).neg;
      assert propagated == GraphStart(g, gen).prop;
      assert deps == GraphStart(g, gen).deps;
      GraphStartNegotiates(g, gen);
    }

    lemma {:induction false} RemoveAbsent(l: seq<nat>, n: nat)
      requires n !in l
      ensures Remove(l, n) == l
    {
      if l != [] {
        RemoveAbsent(l[1..], n);
      }
    }

    method ListReady()
      requires Valid()
      modifies `list
      ensures Valid() && St() == AddReady(g, old(St()), 0)
    {
      var n := 0;
      while n < |g|
        invariant 0 <= n <= |g| && Valid()
        invariant AddReady(g, St(), n) == AddReady(g, old(St()), 0)
      {
        if deps[n] == 0 {
          RemoveIn(list, n);
          list := PushFront(list, n);
        }
        n := n + 1;
      }
    }

    /** The first half of am_dfg_schedule_graph: reset and negotiation. */
    method NegotiateGraph() returns (failed: bool)
      requires Valid() && list == [] && done == []
      modifies `required, `negotiated, `propagated, `deps, `list, `marking
      ensures Ready() && Quiet(marking)
      ensures Startable(g, GraphStart(g, old(gen))) && Outcome(!failed, St()) == Converge(g, GraphStart(g, old(gen)))
    {
      ResetGraph();
      assert Quiet(marking);
      RequireAllInputs();
      GraphStartNegotiates(g, gen);
      hide GraphStart;
      ConvergeStaysStartable(g, St());
      failed := ConvergeDeps();
    }

    /** am_dfg_schedule_graph. */
    method RunGraph(fails: set<nat>) returns (failed: bool)
      requires Valid()
      modifies `required, `negotiated, `propagated, `deps, `list, `gen, `marking, `done
      ensures Ready() && Quiet(marking) && Outcome(!failed, St()) == ScheduleGraph(g, old(gen), fails)
    {
      list := [];
      done := [];
      hide GraphStart; hide NegBounded; hide Bounded; hide Converge; hide AddReady; hide WellFormed; hide ScheduleNodes;
      var f := NegotiateGraph();
      if f {
        return true;
      }
      ListReady();
      failed := RunNodes(fails);
    }

    // ----- Walks over the connected component -----

    /** am_dfg_schedule_mark_component. The mark that stops the recursion is only in
        place while a node is on the recursion stack, so nodes are visited again and
        again along different simple paths. */
    method MarkComponent(n: nat, m: Marking)
      requires Valid() && n < |g| && m != MARKING
      modifies `marking
      ensures Valid() && marking == Painting(g, old(marking), n, m)
      ensures Repainted(g, old(marking), marking, Marked(g, old(marking), MARKING), n, m)
      ensures Painted(g, marking, Marked(g, old(marking), MARKING), n, m)
      decreases AllNodes(g) - Marked(g, marking, MARKING), 1
    {
      if marking[n] == MARKING {
        AvoidedIsPainted(g, marking, Marked(g, marking, MARKING), n, m);
        PaintedIsPainting(g, marking, marking, n, m);
        return;
      }
      assert n in AllNodes(g) - Marked(g, marking, MARKING);
      marking := marking[n := MARKING];
      assert Marked(g, marking, MARKING) == Marked(g, old(marking), MARKING) + {n};
      MarkNeighbours(n, m);
      PaintingCompletes(g, old(marking), marking, n, m);
      marking := marking[n := m];
    }

    /** The two nested loops of MarkComponent, over ports and over connections. */
    method MarkNeighbours(n: nat, m: Marking)
      requires Valid() && n < |g| && m != MARKING
      modifies `marking
      ensures Valid() && Repainted(g, old(marking), marking, Marked(g, old(marking), MARKING) - {n}, n, m)
      ensures forall y: nat {:trigger Adjacent(g, n, y)} :: Adjacent(g, n, y) ==>
        Painted(g, marking, Marked(g, old(marking), MARKING), y, m)
      decreases AllNodes(g) - Marked(g, marking, MARKING), 3
    {
      ghost var avoid := Marked(g, marking, MARKING);
      var i := 0;
      while i < |g[n]|
        invariant 0 <= i <= |g[n]| && Valid()
        invariant Repainted(g, old(marking), marking, avoid - {n}, n, m) && Marked(g, marking, MARKING) == avoid
        invariant forall j, q :: 0 <= j < i && q in g[n][j].conns ==> Painted(g, marking, avoid, q.node, m)
      {
        ghost var before := marking;
        MarkPort(n, i, m);
        forall j, q | 0 <= j < i && q in g[n][j].conns ensures Painted(g, marking, avoid, q.node, m) {
          PaintedStays(g, before, marking, avoid, q.node, avoid - {n}, n, m);
        }
        RepaintedJoin(old(marking), before, marking, avoid - {n}, n, m);
        RepaintedKeepsMarking(g, before, marking, avoid - {n}, n, m);
        i := i + 1;
      }
      forall y: nat | Adjacent(g, n, y) ensures Painted(g, marking, avoid, y, m) {
        var r, q :| Connected(g, r, q) && r.node == n && q.node == y;
        assert q in g[n][r.idx].conns;
      }
    }

    lemma RepaintedJoin(a: seq<Marking>, b: seq<Marking>, c: seq<Marking>, avoid: set<nat>, n: nat, m: Marking)
      requires m != MARKING && Repainted(g, a, b, avoid, n, m) && Repainted(g, b, c, avoid, n, m)
      ensures Repainted(g, a, c, avoid, n, m)
    {
    }

    method MarkPort(n: nat, i: nat, m: Marking)
      requires Valid() && n < |g| && i < |g[n]| && m != MARKING
      modifies `marking
      ensures Valid() && Repainted(g, old(marking), marking, Marked(g, old(marking), MARKING) - {n}, n, m)
      ensures forall q :: q in g[n][i].conns ==> Painted(g, marking, Marked(g, old(marking), MARKING), q.node, m)
      decreases AllNodes(g) - Marked(g, marking, MARKING), 2
    {
      ghost var avoid := Marked(g, marking, MARKING);
      var qs := g[n][i].conns;
      var c := 0;
      while c < |qs|
        invariant 0 <= c <= |qs| && Valid()
        invariant Repainted(g, old(marking), marking, avoid - {n}, n, m) && Marked(g, marking, MARKING) == avoid
        invariant forall k :: 0 <= k < c ==> Painted(g, marking, avoid, qs[k].node, m)
      {
        ghost var before := marking;
        var q := qs[c];
        assert Connected(g, PortRef(n, i), q);
        assert Adjacent(g, n, q.node);
        MarkComponent(q.node, m);
        PaintingAdvances(g, old(marking), before, marking, n, qs, c, m);
        RepaintedKeepsMarking(g, before, marking, avoid, q.node, m);
        c := c + 1;
      }
    }

    /** am_dfg_schedule_reset_component. */
    method ResetComponent(n: nat)
      requires Valid() && n < |g|
      modifies `negotiated, `propagated, `deps, `marking
      ensures Touched(old(marking), marking, RESET)
      ensures Valid() && n in Marked(g, marking, RESET)
      ensures Explored(ConnectionEdges(g), Marked(g, old(marking), RESET), Marked(g, marking, RESET), n)
      ensures ResetExactly(old(St()), St(), Marked(g, marking, RESET) - Marked(g, old(marking), RESET))
      decreases AllNodes(g) - Marked(g, marking, RESET), 1
    {
      if marking[n] == RESET {
        return;
      }
      assert n in AllNodes(g) - Marked(g, marking, RESET);
      hide Exploring; hide Explored; hide Adjacent; hide ResetExactly;
      MarkedOne(g, marking, n, RESET);
      hide Marked;
      ghost var seen, st := Marked(g, marking, RESET), St();
      ResetNode(n);
      ghost var first := St();
      ResetOne(st, first, n);
      ExploringStarts(ConnectionEdges(g), seen, n);
      ResetNeighbours(n, seen);
      ResetDone(ConnectionEdges(g), seen, Marked(g, marking, RESET), st, first, St(), n);
    }

    method ResetNeighbours(n: nat, ghost seen: set<nat>)
      requires Valid() && n < |g| && Exploring(ConnectionEdges(g), seen, Marked(g, marking, RESET), n)
      modifies `negotiated, `propagated, `deps, `marking
      ensures Touched(old(marking), marking, RESET)
      ensures Valid() && Exploring(ConnectionEdges(g), seen, Marked(g, marking, RESET), n)
      ensures Marked(g, old(marking), RESET) <= Marked(g, marking, RESET)
      ensures ResetExactly(old(St()), St(), Marked(g, marking, RESET) - Marked(g, old(marking), RESET))
      ensures forall y: nat :: Adjacent(g, n, y) ==> y in Marked(g, marking, RESET)
      decreases AllNodes(g) - Marked(g, marking, RESET), 3
    {
      hide ResetExactly; hide Exploring; hide Explored; hide WellFormed;
      ghost var first, st := Marked(g, marking, RESET), St();
      ResettingStarts(ConnectionEdges(g), seen, first, st, n);
      var i := 0;
      while i < |g[n]|
        invariant 0 <= i <= |g[n]| && Valid() && Touched(old(marking), marking, RESET)
        invariant Resetting(ConnectionEdges(g), seen, first, st, Marked(g, marking, RESET), St(), n)
        invariant forall j, q :: 0 <= j < i && q in g[n][j].conns ==> q.node in Marked(g, marking, RESET)
      {
        assert first <= Marked(g, marking, RESET);
        assert Exploring(ConnectionEdges(g), seen, Marked(g, marking, RESET), n);
        hide Resetting;
        ghost var mid, midSt := Marked(g, marking, RESET), St();
        ResetPort(n, i, seen);
        ResettingJoins(ConnectionEdges(g), seen, first, st, mid, midSt, Marked(g, marking, RESET), St(), n);
        i := i + 1;
      }
      forall y: nat | Adjacent(g, n, y) ensures y in Marked(g, marking, RESET) {
        var r, q :| Connected(g, r, q) && r.node == n && q.node == y;
        assert q in g[n][r.idx].conns;
      }
    }

    method ResetPort(n: nat, i: nat, ghost seen: set<nat>)
      requires Valid() && n < |g| && i < |g[n]| && Exploring(ConnectionEdges(g), seen, Marked(g, marking, RESET), n)
      modifies `negotiated, `propagated, `deps, `marking
      ensures Touched(old(marking), marking, RESET)
      ensures Valid() && Exploring(ConnectionEdges(g), seen, Marked(g, marking, RESET), n)
      ensures Marked(g, old(marking), RESET) <= Marked(g, marking, RESET)
      ensures ResetExactly(old(St()), St(), Marked(g, marking, RESET) - Marked(g, old(marking), RESET))
      ensures forall q :: q in g[n][i].conns ==> q.node in Marked(g, marking, RESET)
      decreases AllNodes(g) - Marked(g, marking, RESET), 2
    {
      hide ResetExactly; hide Exploring; hide Explored;
      ghost var first, st := Marked(g, marking, RESET), St();
      ResettingStarts(ConnectionEdges(g), seen, first, st, n);
      var qs := g[n][i].conns;
      var c := 0;
      while c < |qs|
        invariant 0 <= c <= |qs| && Valid() && Touched(old(marking), marking, RESET)
        invariant Resetting(ConnectionEdges(g), seen, first, st, Marked(g, marking, RESET), St(), n)
        invariant forall k :: 0 <= k < c ==> qs[k].node in Marked(g, marking, RESET)
      {
        assert first <= Marked(g, marking, RESET);
        hide Resetting;
        ghost var mid, midSt := Marked(g, marking, RESET), St();
        assert Connected(g, PortRef(n, i), qs[c]);
        assert Adjacent(g, n, qs[c].node);
        ResetComponent(qs[c].node);
        ResettingStep(ConnectionEdges(g), seen, first, st, mid, midSt, Marked(g, marking, RESET), St(), n, qs[c].node);
        c := c + 1;
      }
    }

    // ----- Roots -----

    /** am_dfg_schedule_is_root. */
    method IsSchedulingRoot(n: nat) returns (b: bool)
      requires Valid() && n < |g|
      ensures b == IsRoot(g, Base(), n)
    {
      var outMask := negotiated[n].pushOld + negotiated[n].pushNew;
      if deps[n] != 0 {
        return false;
      }
      var i := 0;
      while i < |g[n]|
        invariant 0 <= i <= |g[n]|
        invariant forall x :: 0 <= x < i && x in outMask ==> !Activated(g, negotiated, gen, PortRef(n, x))
      {
        var active := PortActivated(PortRef(n, i));
        if i in outMask && active {
          assert i in Pushes(negotiated[n]);
          return true;
        }
        i := i + 1;
      }
      assert outMask == Pushes(negotiated[n]);
      return false;
    }

    /** What the test for roots depends on. */
    ghost function Base(): State
      reads this
    {
      St().(list := [])
    }

    /** __am_dfg_schedule_component_find_roots. */
    method FindRoots(n: nat)
      requires Valid() && n < |g| && Distinct(list) && Elems(list) <= Marked(g, marking, FIND_ROOTS)
      modifies `list, `marking
      ensures Touched(old(marking), marking, FIND_ROOTS)
      ensures Valid() && n in Marked(g, marking, FIND_ROOTS) && Elems(list) <= Marked(g, marking, FIND_ROOTS)
      ensures Explored(UsedEdges(g, negotiated), Marked(g, old(marking), FIND_ROOTS), Marked(g, marking, FIND_ROOTS), n)
      ensures RootsAdded(g, Base(), old(list), list,
        Marked(g, marking, FIND_ROOTS) - Marked(g, old(marking), FIND_ROOTS))
      ensures OnTop(old(list), list)
      ensures old(marking)[n] != FIND_ROOTS && IsRoot(g, Base(), n) ==> OnTop([n] + old(list), list)
      decreases AllNodes(g) - Marked(g, marking, FIND_ROOTS), 1
    {
      hide OnTop; hide RootsAdded; hide Exploring; hide Explored; hide Activated; hide InputActivated; hide IsRoot;
      hide RefsExist; hide Symmetric; hide SingleInput; hide NoDuplicateConns; hide MasksBounded; hide AtMost64Ports;
      ghost var seen := Marked(g, marking, FIND_ROOTS);
      OnTopOfItself(list, n);
      if marking[n] == FIND_ROOTS {
        SeenAlready(g, Base(), UsedEdges(g, negotiated), seen, list, n);
        return;
      }
      assert n in AllNodes(g) - Marked(g, marking, FIND_ROOTS);
      EnterNode(n);
      ghost var first := list;
      ExploringStarts(UsedEdges(g, negotiated), seen, n);
      VisitNeighbours(n, seen);
      OnTopTwice(old(list), first, list);
      SearchedAround(g, Base(), UsedEdges(g, negotiated), seen, Marked(g, marking, FIND_ROOTS),
        old(list), first, list, n);
    }

    /** Marks a node as evaluated and lists it if it is a root. */
    method EnterNode(n: nat)
      requires Valid() && n < |g| && marking[n] != FIND_ROOTS
      requires Distinct(list) && Elems(list) <= Marked(g, marking, FIND_ROOTS)
      modifies `list, `marking
      ensures Touched(old(marking), marking, FIND_ROOTS)
      ensures Valid() && Marked(g, marking, FIND_ROOTS) == Marked(g, old(marking), FIND_ROOTS) + {n}
      ensures Elems(list) <= Marked(g, marking, FIND_ROOTS) && RootsAdded(g, Base(), old(list), list, {n})
      ensures list == if IsRoot(g, Base(), n) then [n] + old(list) else old(list)
    {
      assert n !in Elems(list);
      MarkEvaluated(n);
      ListIfRoot(n);
    }

    method MarkEvaluated(n: nat)
      requires Valid() && n < |g|
      modifies `marking
      ensures Touched(old(marking), marking, FIND_ROOTS)
      ensures Valid() && Marked(g, marking, FIND_ROOTS) == Marked(g, old(marking), FIND_ROOTS) + {n}
    {
      MarkedOne(g, marking, n, FIND_ROOTS);
      marking := marking[n := FIND_ROOTS];
    }

    method ListIfRoot(n: nat)
      requires Valid() && n < |g| && Distinct(list) && n !in list
      modifies `list
      ensures Valid() && RootsAdded(g, Base(), old(list), list, {n}) && Elems(list) <= Elems(old(list)) + {n}
      ensures list == if IsRoot(g, Base(), n) then [n] + old(list) else old(list)
    {
      var root := IsSchedulingRoot(n);
      RootsAddedOne(g, Base(), list, n, root);
      if root {
        list := [n] + list;
      }
    }

    /** The two nested loops of FindRoots, over the ports in use and their connections. */
    method VisitNeighbours(n: nat, ghost seen: set<nat>)
      requires Valid() && n < |g| && Exploring(UsedEdges(g, negotiated), seen, Marked(g, marking, FIND_ROOTS), n)
      requires Distinct(list) && Elems(list) <= Marked(g, marking, FIND_ROOTS)
      modifies `list, `marking
      ensures Touched(old(marking), marking, FIND_ROOTS)
      ensures Valid() && Exploring(UsedEdges(g, negotiated), seen, Marked(g, marking, FIND_ROOTS), n)
      ensures Marked(g, old(marking), FIND_ROOTS) <= Marked(g, marking, FIND_ROOTS)
      ensures Elems(list) <= Marked(g, marking, FIND_ROOTS)
      ensures RootsAdded(g, Base(), old(list), list,
        Marked(g, marking, FIND_ROOTS) - Marked(g, old(marking), FIND_ROOTS))
      ensures OnTop(old(list), list)
      ensures forall y: nat :: UsedEdges(g, negotiated)(n, y) ==> y in Marked(g, marking, FIND_ROOTS)
      decreases AllNodes(g) - Marked(g, marking, FIND_ROOTS), 3
    {
      hide Activated; hide InputActivated; hide IsRoot; hide RootsAdded; hide Exploring; hide Explored; hide OnTop;
      ghost var first, l := Marked(g, marking, FIND_ROOTS), list;
      OnTopOfItself(list, n);
      SearchStarts(g, Base(), UsedEdges(g, negotiated), seen, first, list, n);
      var usedMask := negotiated[n].pushOld + negotiated[n].pushNew + negotiated[n].pullNew + negotiated[n].pullOld;
      assert usedMask == AllBits(negotiated[n]);
      var i := 0;
      while i < |g[n]|
        invariant 0 <= i <= |g[n]| && Valid() && Touched(old(marking), marking, FIND_ROOTS)
        invariant Searching(g, Base(), UsedEdges(g, negotiated), seen, first, l,
                            Marked(g, marking, FIND_ROOTS), list, n)
        invariant OnTop(l, list)
        invariant forall j, q :: 0 <= j < i && j in usedMask && q in g[n][j].conns ==>
          q.node in Marked(g, marking, FIND_ROOTS)
      {
        if i in usedMask {
          ghost var mid, midList := Marked(g, marking, FIND_ROOTS), list;
          SearchEnds(g, Base(), UsedEdges(g, negotiated), seen, first, l, mid, list, n);
          VisitPort(n, i, seen);
          OnTopTwice(l, midList, list);
          SearchMore(g, Base(), UsedEdges(g, negotiated), seen, first, l, mid, midList,
            Marked(g, marking, FIND_ROOTS), list, n);
        }
        i := i + 1;
      }
      forall y: nat | UsedEdges(g, negotiated)(n, y) ensures y in Marked(g, marking, FIND_ROOTS) {
        var j, q :| j in usedMask && Connected(g, PortRef(n, j), q) && q.node == y;
        assert q in g[n][j].conns;
      }
    }

    method VisitPort(n: nat, i: nat, ghost seen: set<nat>)
      requires Valid() && n < |g| && i < |g[n]| && i in AllBits(negotiated[n])
      requires Exploring(UsedEdges(g, negotiated), seen, Marked(g, marking, FIND_ROOTS), n)
      requires Distinct(list) && Elems(list) <= Marked(g, marking, FIND_ROOTS)
      modifies `list, `marking
      ensures Touched(old(marking), marking, FIND_ROOTS)
      ensures Valid() && Exploring(UsedEdges(g, negotiated), seen, Marked(g, marking, FIND_ROOTS), n)
      ensures Marked(g, old(marking), FIND_ROOTS) <= Marked(g, marking, FIND_ROOTS)
      ensures Elems(list) <= Marked(g, marking, FIND_ROOTS)
      ensures RootsAdded(g, Base(), old(list), list,
        Marked(g, marking, FIND_ROOTS) - Marked(g, old(marking), FIND_ROOTS))
      ensures OnTop(old(list), list)
      ensures forall q :: q in g[n][i].conns ==> q.node in Marked(g, marking, FIND_ROOTS)
      decreases AllNodes(g) - Marked(g, marking, FIND_ROOTS), 2
    {
      hide Activated; hide InputActivated; hide IsRoot; hide RootsAdded; hide Exploring; hide Explored; hide OnTop;
      hide Symmetric; hide SingleInput; hide NoDuplicateConns; hide MasksBounded; hide AtMost64Ports;
      ghost var first, l := Marked(g, marking, FIND_ROOTS), list;
      OnTopOfItself(list, n);
      SearchStarts(g, Base(), UsedEdges(g, negotiated), seen, first, list, n);
      var qs := g[n][i].conns;
      var c := 0;
      while c < |qs|
        invariant 0 <= c <= |qs| && Valid() && Touched(old(marking), marking, FIND_ROOTS)
        invariant Searching(g, Base(), UsedEdges(g, negotiated), seen, first, l,
                            Marked(g, marking, FIND_ROOTS), list, n)
        invariant OnTop(l, list)
        invariant forall k :: 0 <= k < c ==> qs[k].node in Marked(g, marking, FIND_ROOTS)
      {
        hide Searching;
        ghost var mid, midList := Marked(g, marking, FIND_ROOTS), list;
        SearchEnds(g, Base(), UsedEdges(g, negotiated), seen, first, l, mid, list, n);
        assert Connected(g, PortRef(n, i), qs[c]);
        assert Neighbour(g, n, AllBits(negotiated[n]), qs[c].node);
        FindRoots(qs[c].node);
        OnTopTwice(l, midList, list);
        SearchStep(g, Base(), UsedEdges(g, negotiated), seen, first, l, mid, midList,
          Marked(g, marking, FIND_ROOTS), list, n, qs[c].node);
        c := c + 1;
      }
    }

    // ----- Scheduling the component of a node -----

    /** Clears the markings in reach and resets all nodes in reach, whatever markings the
        nodes carry. */
    method PrepareComponent(n: nat)
      requires Valid() && n < |g|
      modifies `negotiated, `propagated, `deps, `marking
      ensures Valid() && marking == AfterReset(g, old(marking), n)
      ensures ResetExactly(old(St()), St(), ResetSet(g, old(marking), n))
    {
      MarkComponent(n, NONE);
      ghost var cleared := marking;
      ghost var seen := Marked(g, marking, RESET);
      StuckIs(g, old(marking), n);
      ResetComponent(n);
      ghost var now := Marked(g, marking, RESET);
      ExploredExactly(ConnectionEdges(g), seen, now, n);
      ExploredIsVisiting(g, ConnectionEdges(g), cleared, marking, n, RESET);
      assert now - seen == ResetSet(g, old(marking), n);
    }

    /** am_dfg_schedule_component_find_roots. */
    method ComponentFindRoots(n: nat)
      requires Valid() && n < |g| && list == []
      modifies `list, `marking
      ensures Valid() && RootsFound(g, old(St()), n, SeenBefore(g, old(marking), n), list)
      ensures Quiet(old(marking)) ==> Quiet(marking)
    {
      MarkComponent(n, NONE);
      ghost var cleared := marking;
      ghost var e := UsedEdges(g, negotiated);
      ghost var seen := Marked(g, marking, FIND_ROOTS);
      assert Quiet(old(marking)) ==> Quiet(marking);
      FindRoots(n);
      ExploredExactly(e, seen, Marked(g, marking, FIND_ROOTS), n);
      assert Base() == old(St());
    }

    /** The first half of am_dfg_schedule_component: reset and negotiation. */
    method NegotiateComponent(n: nat) returns (failed: bool, ghost start: State)
      requires Ready() && n < |g| && list == [] && done == []
      modifies `negotiated, `propagated, `deps, `list, `marking
      ensures Ready() && (!failed ==> list == []) && marking == AfterReset(g, old(marking), n)
      ensures ComponentBegins(g, old(St()), start, ResetSet(g, old(marking), n), n, required[n])
      ensures Startable(g, start) && Outcome(!failed, St()) == Converge(g, start)
    {
      hide ResetSet; hide AfterReset; hide Converge; hide ComponentStart; hide ComponentBegins; hide ResetExactly;
      hide RefsExist; hide MasksBounded; hide Symmetric; hide SingleInput; hide NoDuplicateConns; hide AtMost64Ports;
      StuckIs(g, marking, n);
      PrepareComponent(n);
      ghost var clear := St();
      ResetStarts(g, old(St()), clear, ResetSet(g, old(marking), n), n, required[n]);
      negotiated := negotiated[n := required[n]];
      list := PushFront(list, n);
      start := St();
      assert start == clear.(neg := clear.neg[n := required[n]], list := [n]);
      ConvergeStaysStartable(g, St());
      failed := ConvergeDeps();
    }

    /** am_dfg_schedule_component. The negotiation leads from `start` to `mid`, and `l` are
        the roots found then. Which nodes are reset depends on the markings. */
    method RunComponent(n: nat, fails: set<nat>)
      returns (failed: bool, ghost start: State, ghost mid: State, ghost l: seq<nat>)
      requires Ready() && n < |g|
      modifies `negotiated, `propagated, `deps, `list, `gen, `marking, `done
      ensures Ready() && (Quiet(old(marking)) ==> Quiet(marking))
      ensures ComponentBegins(g, old(St()), start, ResetSet(g, old(marking), n), n, required[n])
      ensures ComponentRun(g, start, mid, n, SeenBefore(g, AfterReset(g, old(marking), n), n), l, fails, failed, St())
    {
      hide WellFormed; hide RootsFound; hide ResetSet; hide SeenBefore; hide AfterReset; hide Converge;
      hide ScheduleNodes; hide ComponentStart;
      list := [];
      done := [];
      l := [];
      failed, start := NegotiateComponent(n);
      assert ComponentBegins(g, old(St()), start, ResetSet(g, old(marking), n), n, required[n]);
      hide ComponentBegins;
      AfterResetQuiet(g, old(marking), n);
      mid := St();
      if failed {
        return;
      }
      ComponentFindRoots(n);
      l := list;
      if list == [] {
        failed := true;
        return;
      }
      failed := RunNodes(fails);
    }
  }
}
