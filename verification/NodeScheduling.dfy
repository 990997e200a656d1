/** Processing of the nodes in the scheduling list: a node is processed when its
    counter of remaining dependencies is zero, and then decrements the counters of
    its consumers. */
module NodeScheduling {
  import opened Digraph
  import opened DataflowGraph
  import opened SchedulerState
  import opened MaskNegotiation
  import opened DependencyCounters

  // ----- What the program does -----

  /** Increments the generations of the ports of `n` in `bits`, from index `i` on. */
  function Renew(gen: seq<seq<nat>>, n: nat, bits: set<nat>, i: nat): (r: seq<seq<nat>>)
    requires n < |gen| && i <= |gen[n]|
    ensures |r| == |gen| && forall m :: 0 <= m < |gen| ==> |r[m]| == |gen[m]|
    decreases |gen[n]| - i
  {
    if i == |gen[n]| then gen
    else if i in bits then
      var row: seq<nat> := gen[n][i := NextGeneration(gen[n][i])];
      Renew(gen[n := row], n, bits, i + 1)
    else Renew(gen, n, bits, i + 1)
  }

  /** Connected ports of `n` in `bits` take over the generation of their producer. */
  function CatchUp(g: Graph, gen: seq<seq<nat>>, n: nat, bits: set<nat>, i: nat): (r: seq<seq<nat>>)
    requires RefsExist(g) && n < |g| == |gen| && i <= |g[n]|
    requires forall m :: 0 <= m < |g| ==> |gen[m]| == |g[m]|
    ensures |r| == |gen| && forall m :: 0 <= m < |gen| ==> |r[m]| == |gen[m]|
    decreases |g[n]| - i
  {
    if i == |g[n]| then gen
    else if i in bits && g[n][i].conns != [] then
      assert Connected(g, PortRef(n, i), g[n][i].conns[0]);
      var p := g[n][i].conns[0];
      var row: seq<nat> := gen[n][i := gen[p.node][p.idx]];
      CatchUp(g, gen[n := row], n, bits, i + 1)
    else CatchUp(g, gen, n, bits, i + 1)
  }

  /** Tells the consumer port `q` that its data is there. A counter that is zero
      already is an error; one that drops to zero makes the consumer ready. */
  function Deliver(g: Graph, s: State, q: PortRef): (r: Outcome)
    requires RefsExist(g) && Shaped(g, s) && HasPort(g, q)
    ensures Shaped(g, r.st) && r.st.neg == s.neg && r.st.gen == s.gen && r.st.prop == s.prop && r.st.done == s.done
  {
    if !Activated(g, s.neg, s.gen, q) then
      Outcome(true, s)
    else if s.deps[q.node] == 0 then
      Outcome(false, s)
    else if s.deps[q.node] == 1 then
      Outcome(true, s.(deps := s.deps[q.node := 0], list := [q.node] + s.list))
    else
      Outcome(true, s.(deps := s.deps[q.node := s.deps[q.node] - 1]))
  }

  function DeliverAll(g: Graph, s: State, qs: seq<PortRef>): (r: Outcome)
    requires RefsExist(g) && Shaped(g, s) && PortsExist(g, qs)
    ensures Shaped(g, r.st) && r.st.neg == s.neg && r.st.gen == s.gen && r.st.prop == s.prop && r.st.done == s.done
    decreases |qs|
  {
    if qs == [] then Outcome(true, s) else
    var r := Deliver(g, s, qs[0]);
    if !r.ok then r else DeliverAll(g, r.st, qs[1..])
  }

  function DeliverPorts(g: Graph, s: State, n: nat, bits: set<nat>, i: nat): (r: Outcome)
    requires RefsExist(g) && Shaped(g, s) && n < |g| && i <= |g[n]|
    ensures Shaped(g, r.st) && r.st.neg == s.neg && r.st.gen == s.gen && r.st.prop == s.prop && r.st.done == s.done
    decreases |g[n]| - i
  {
    if i == |g[n]| then Outcome(true, s)
    else if i in bits then
      PortConnsExist(g, n, i);
      var r := DeliverAll(g, s, g[n][i].conns);
      if !r.ok then r else DeliverPorts(g, r.st, n, bits, i + 1)
    else DeliverPorts(g, s, n, bits, i + 1)
  }

  function Pushes(m: Mask): set<nat> {
    m.pushNew + m.pushOld
  }

  function Pulls(m: Mask): set<nat> {
    m.pullNew + m.pullOld
  }

  /** No requested port of `n` is activated, so running the node can be omitted. */
  predicate Omittable(g: Graph, neg: seq<Mask>, gen: seq<seq<nat>>, n: nat)
    requires RefsExist(g) && n < |g| == |neg| == |gen|
    requires forall m :: 0 <= m < |g| ==> |gen[m]| == |g[m]|
  {
    forall i :: 0 <= i < |g[n]| && i in Pushes(neg[n]) + Pulls(neg[n]) ==> !Activated(g, neg, gen, PortRef(n, i))
  }

  /** am_dfg_schedule_process_node. The nodes in `fails` have a process function
      that reports a failure whenever it is called. */
  function Process(g: Graph, s: State, n: nat, fails: set<nat>): (r: Outcome)
    requires RefsExist(g) && Shaped(g, s) && n < |g|
    ensures Shaped(g, r.st) && r.st.neg == s.neg && r.st.prop == s.prop
  {
    if s.deps[n] != 0 then Outcome(false, s) else
    var s1 := s.(gen := Renew(s.gen, n, s.neg[n].pushNew, 0));
    if !Omittable(g, s1.neg, s1.gen, n) && n in fails then Outcome(false, s1) else
    var s2 := s1.(gen := CatchUp(g, s1.gen, n, Pulls(s.neg[n]), 0));
    var r := DeliverPorts(g, s2, n, Pushes(s.neg[n]), 0);
    if !r.ok then r else Outcome(true, r.st.(done := r.st.done + [n]))
  }

  function Sum(s: seq<nat>): nat {
    if s == [] then 0 else s[0] + Sum(s[1..])
  }

  lemma {:induction false} SumUpdate(s: seq<nat>, i: nat, v: nat)
    requires i < |s|
    ensures Sum(s[i := v]) == Sum(s) - s[i] + v
  {
    var t := s[i := v];
    if i == 0 {
      assert t[1..] == s[1..];
    } else {
      SumUpdate(s[1..], i - 1, v);
      assert t[1..] == s[1..][i - 1 := v];
    }
  }

  /** Deliveries either leave counters and list alone or lower the sum of counters. */
  ghost predicate Lowers(s: State, t: State) {
    Sum(t.deps) < Sum(s.deps) || (t.deps == s.deps && t.list == s.list)
  }

  lemma DeliverLowers(g: Graph, s: State, q: PortRef)
    requires RefsExist(g) && Shaped(g, s) && HasPort(g, q)
    ensures Lowers(s, Deliver(g, s, q).st)
  {
    if Activated(g, s.neg, s.gen, q) && s.deps[q.node] > 0 {
      SumUpdate(s.deps, q.node, s.deps[q.node] - 1);
    }
  }

  lemma {:induction false} DeliverAllLowers(g: Graph, s: State, qs: seq<PortRef>)
    requires RefsExist(g) && Shaped(g, s) && PortsExist(g, qs)
    ensures Lowers(s, DeliverAll(g, s, qs).st)
    decreases |qs|
  {
    if qs != [] {
      DeliverLowers(g, s, qs[0]);
      var r := Deliver(g, s, qs[0]);
      if r.ok { DeliverAllLowers(g, r.st, qs[1..]); }
    }
  }

  lemma {:induction false} DeliverPortsLowers(g: Graph, s: State, n: nat, bits: set<nat>, i: nat)
    requires RefsExist(g) && Shaped(g, s) && n < |g| && i <= |g[n]|
    ensures Lowers(s, DeliverPorts(g, s, n, bits, i).st)
    decreases |g[n]| - i
  {
    if i < |g[n]| {
      if i in bits {
        PortConnsExist(g, n, i);
        DeliverAllLowers(g, s, g[n][i].conns);
        var r := DeliverAll(g, s, g[n][i].conns);
        if r.ok { DeliverPortsLowers(g, r.st, n, bits, i + 1); }
      } else {
        DeliverPortsLowers(g, s, n, bits, i + 1);
      }
    }
  }

  lemma ProcessLowers(g: Graph, s: State, n: nat, fails: set<nat>)
    requires RefsExist(g) && Shaped(g, s) && n < |g|
    ensures Lowers(s, Process(g, s, n, fails).st)
  {
    if s.deps[n] == 0 {
      var s1 := s.(gen := Renew(s.gen, n, s.neg[n].pushNew, 0));
      var s2 := s1.(gen := CatchUp(g, s1.gen, n, Pulls(s.neg[n]), 0));
      DeliverPortsLowers(g, s2, n, Pushes(s.neg[n]), 0);
    }
  }

  /** am_dfg_schedule_nodes. */
  function ScheduleNodes(g: Graph, s: State, fails: set<nat>): (r: Outcome)
    requires RefsExist(g) && Shaped(g, s)
    ensures Shaped(g, r.st) && r.st.neg == s.neg && r.st.prop == s.prop
    decreases Sum(s.deps), |s.list|
  {
    if s.list == [] then
      Outcome(true, s)
    else
      var n := s.list[0];
      var s0 := s.(list := s.list[1..]);
      assert n in s.list;
      assert forall x :: x in s0.list ==> x in s.list;
      ProcessLowers(g, s0, n, fails);
      var r := Process(g, s0, n, fails);
      if !r.ok then r else ScheduleNodes(g, r.st, fails)
  }
}
