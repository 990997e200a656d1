/** Scheduling of a whole graph: every input pulls, the masks are negotiated, and
    every node whose dependencies are satisfied is processed. */
module GraphScheduling {
  import opened Digraph
  import opened DataflowGraph
  import opened NodeTypes
  import opened SchedulerState
  import opened MaskNegotiation
  import opened DependencyCounters
  import opened NodeScheduling
  import opened ProcessingOrder
  import opened ProcessingRun

  /** am_dfg_node_type_input_mask. */
  function InputMask(ports: seq<Port>): set<nat> {
    set i | 0 <= i < |ports| && ports[i].ptype.dir == In
  }

  /** The list after pushing nodes 0, 1, ..., n - 1 to the front. */
  function CountDown(n: nat): seq<nat> {
    if n == 0 then [] else [n - 1] + CountDown(n - 1)
  }

  /** All nodes reset, all inputs pulling regardless of age, all nodes listed. */
  function GraphStart(g: Graph, gen: seq<seq<nat>>): State {
    State(
      seq(|g|, n requires 0 <= n < |g| => EMPTY_MASK.(pullOld := InputMask(g[n]))),
      seq(|g|, n => EMPTY_MASK),
      seq(|g|, n => 0),
      gen,
      CountDown(|g|),
      [])
  }

  /** Pushes the nodes from `n` on whose counter is zero to the front of the list. */
  function AddReady(g: Graph, s: State, n: nat): State
    requires |s.deps| == |g| && n <= |g|
    decreases |g| - n
  {
    if n == |g| then s
    else if s.deps[n] == 0 then AddReady(g, s.(list := PushFront(s.list, n)), n + 1)
    else AddReady(g, s, n + 1)
  }

  /** am_dfg_schedule_graph. */
  function ScheduleGraph(g: Graph, gen: seq<seq<nat>>, fails: set<nat>): (r: Outcome)
    requires WellFormed(g) && GenShape(g, gen)
    ensures Shaped(g, r.st)
  {
    GraphStartNegotiates(g, gen);
    var r := Converge(g, GraphStart(g, gen));
    if !r.ok then r else
    AddReadyShape(g, r.st, 0);
    ScheduleNodes(g, AddReady(g, r.st, 0), fails)
  }

  lemma {:induction false} CountDownElems(n: nat)
    ensures Distinct(CountDown(n)) && forall x: nat :: x in CountDown(n) <==> x < n
  {
    if n > 0 {
      CountDownElems(n - 1);
      DistinctCons(n - 1, CountDown(n - 1));
    }
  }

  lemma EmptyHonoursAll(g: Graph, neg: seq<Mask>, n: nat)
    requires |neg| == |g| && n < |g|
    ensures HonoursAll(g, neg, n, EMPTY_MASK) && Typed(EMPTY_MASK, g[n])
  {
    forall d: Direction, k: Freshness, i: nat | i in EMPTY_MASK.Bits(d, k) ensures false {
    }
  }

  lemma GraphStartNegotiates(g: Graph, gen: seq<seq<nat>>)
    requires WellFormed(g) && GenShape(g, gen)
    ensures var s := GraphStart(g, gen);
      Startable(g, s) && Negotiating(g, AllNodes(g), s) && Counted(g, AllNodes(g), s) &&
      AllInputsPull(g, AllNodes(g), s.neg)
    ensures Scope(g, AllNodes(g))
  {
    var s := GraphStart(g, gen);
    CountDownElems(|g|);
    forall n | 0 <= n < |g|
      ensures Bounded(s.neg[n], |g[n]|) && HonoursAll(g, s.neg, n, s.prop[n]) && Typed(s.prop[n], g[n])
    {
      EmptyHonoursAll(g, s.neg, n);
      assert InputMask(g[n]) <= Indexes(|g[n]|);
      BoundedIsBelowFull(s.neg[n], |g[n]|);
    }
  }

  lemma {:induction false} AddReadyElems(g: Graph, s: State, n: nat)
    requires |s.deps| == |g| && n <= |g| && Distinct(s.list)
    ensures var t := AddReady(g, s, n);
      t == s.(list := t.list) && Distinct(t.list) &&
      forall x :: x in t.list <==> x in s.list || (n <= x < |g| && s.deps[x] == 0)
    decreases |g| - n
  {
    if n < |g| {
      if s.deps[n] == 0 {
        PushFrontElems(s.list, n);
        AddReadyElems(g, s.(list := PushFront(s.list, n)), n + 1);
      } else {
        AddReadyElems(g, s, n + 1);
      }
    }
  }

  lemma {:induction false} AddReadyShape(g: Graph, s: State, n: nat)
    requires Shaped(g, s) && n <= |g|
    ensures Shaped(g, AddReady(g, s, n))
    decreases |g| - n
  {
    if n < |g| {
      if s.deps[n] == 0 {
        RemoveIn(s.list, n);
        AddReadyShape(g, s.(list := PushFront(s.list, n)), n + 1);
      } else {
        AddReadyShape(g, s, n + 1);
      }
    }
  }

  // ----- The negotiation succeeds on well-typed masks -----

  ghost function TypedTop(ports: seq<Port>): Mask {
    var ins := InputMask(ports);
    var outs := Indexes(|ports|) - ins;
    Mask(ins, ins, outs, outs)
  }

  ghost function TypedTops(g: Graph): (t: seq<Mask>)
    ensures |t| == |g|
  {
    seq(|g|, n requires 0 <= n < |g| => TypedTop(g[n]))
  }

  lemma TypedIsBelowTop(m: Mask, ports: seq<Port>)
    ensures Typed(m, ports) <==> m.SubsetOf(TypedTop(ports))
  {
    if Typed(m, ports) {
      forall i: nat ensures
        (i in m.pullNew ==> i in InputMask(ports)) && (i in m.pullOld ==> i in InputMask(ports)) &&
        (i in m.pushNew ==> i in Indexes(|ports|) - InputMask(ports)) &&
        (i in m.pushOld ==> i in Indexes(|ports|) - InputMask(ports))
      {
        assert i in m.Bits(In, New) ==> Directed(ports, i, In);
        assert i in m.Bits(In, Old) ==> Directed(ports, i, In);
        assert i in m.Bits(Out, New) ==> Directed(ports, i, Out);
        assert i in m.Bits(Out, Old) ==> Directed(ports, i, Out);
      }
    }
    if m.SubsetOf(TypedTop(ports)) {
      forall d: Direction, k: Freshness, i: nat | i in m.Bits(d, k) ensures Directed(ports, i, d) {
        assert i in TypedTop(ports).Bits(d, k);
      }
    }
  }

  lemma TypedTopsClosed(g: Graph, c: set<nat>)
    requires MasksTyped(g)
    ensures Closed(g, c, TypedTops(g))
  {
    var top := TypedTops(g);
    forall n | n in c && n < |g| ensures HonoursAll(g, top, n, top[n]) && Typed(top[n], g[n]) {
      TypedIsBelowTop(top[n], g[n]);
      forall d: Direction, k: Freshness, i: nat | i in top[n].Bits(d, k) ensures Honoured(g, top, n, i, k) {
        forall q | Connected(g, PortRef(n, i), q) && HasPort(g, q)
          ensures At(g, q).ptype.MaskFor(k).SubsetOf(top[q.node])
        {
          TypedIsBelowTop(At(g, q).ptype.MaskFor(k), g[q.node]);
        }
      }
    }
  }

  lemma TypedMasksConverge(g: Graph, c: set<nat>, s: State)
    requires WellFormed(g) && MasksTyped(g) && Scope(g, c) && NoSelfLoop(g, c) && Negotiating(g, c, s)
    requires forall n :: n in c && n < |g| ==> Typed(s.neg[n], g[n])
    ensures Converge(g, s).ok
  {
    var top := TypedTops(g);
    TypedTopsClosed(g, c);
    forall n | n in c && n < |g| ensures s.neg[n].SubsetOf(top[n]) {
      TypedIsBelowTop(s.neg[n], g[n]);
    }
    assert Below(c, s.neg, top);
    ConvergeBelow(g, c, s, top);
  }

  // ----- Counters after negotiation -----

  /** The connected input ports of `n`. */
  function ConnectedInputs(g: Graph, n: nat): set<nat>
    requires n < |g|
  {
    set i | 0 <= i < |g[n]| && g[n][i].ptype.dir == In && g[n][i].conns != []
  }

  lemma AllPullAwaited(g: Graph, neg: seq<Mask>, n: nat)
    requires RefsExist(g) && |neg| == |g| && n < |g| && AllInputsPull(g, AllNodes(g), neg)
    ensures Awaited(g, neg, n) == ConnectedInputs(g, n)
  {
    forall i | i in ConnectedInputs(g, n) ensures i in Awaited(g, neg, n) {
      assert n in AllNodes(g) && Directed(g[n], i, In);
    }
  }

  // ----- The negotiation of a whole graph, whatever its connections -----

  /** The rules that pulls of old data impose hold. */
  ghost predicate OldPullsHonoured(g: Graph, neg: seq<Mask>) {
    |neg| == |g| && forall n, i :: 0 <= n < |g| && i in neg[n].pullOld ==> Honoured(g, neg, n, i, Old)
  }

  /** The masks of node `n` are typed, all its inputs pull old data, and those that have
      been propagated have been acted upon. A bit that a node offers to itself can count as
      propagated without that, but never one of these, as they are there from the start. */
  ghost predicate PullingNode(g: Graph, s: State, n: nat)
    requires Shaped(g, s) && n < |g|
  {
    && Typed(s.neg[n], g[n]) && s.neg[n].pullOld == InputMask(g[n]) && s.prop[n].SubsetOf(s.neg[n])
    && (forall i :: i in s.prop[n].pullOld ==> Honoured(g, s.neg, n, i, Old))
    && (n !in s.list ==> s.prop[n].pullOld == InputMask(g[n]) && s.deps[n] == |ConnectedInputs(g, n)|)
  }

  /** What each step of the negotiation of a whole graph keeps. */
  ghost predicate Pulling(g: Graph, s: State) {
    RefsExist(g) && Startable(g, s) && forall n :: 0 <= n < |g| ==> PullingNode(g, s, n)
  }

  lemma GraphStartPulls(g: Graph, gen: seq<seq<nat>>)
    requires WellFormed(g) && GenShape(g, gen)
    ensures Pulling(g, GraphStart(g, gen))
  {
    var s := GraphStart(g, gen);
    GraphStartNegotiates(g, gen);
    CountDownElems(|g|);
    forall n | 0 <= n < |g| ensures PullingNode(g, s, n) {
      TypedIsBelowTop(s.neg[n], g[n]);
    }
  }

  lemma TypedPulls(m: Mask, ports: seq<Port>)
    requires Typed(m, ports)
    ensures m.pullOld <= InputMask(ports)
  {
    forall i | i in m.pullOld ensures i in InputMask(ports) {
      assert i in m.Bits(In, Old);
      assert Directed(ports, i, In);
    }
  }

  lemma AllTypedIsBelowTops(g: Graph, neg: seq<Mask>)
    requires |neg| == |g|
    ensures (forall x :: 0 <= x < |g| ==> Typed(neg[x], g[x])) <==>
      forall x :: x in AllNodes(g) && x < |g| ==> neg[x].SubsetOf(TypedTops(g)[x])
  {
    hide Typed; hide TypedTop; hide Mask.SubsetOf;
    forall x | 0 <= x < |g| ensures Typed(neg[x], g[x]) <==> neg[x].SubsetOf(TypedTops(g)[x]) {
      TypedIsBelowTop(neg[x], g[x]);
      assert TypedTops(g)[x] == TypedTop(g[x]);
    }
    assert forall x: nat :: x < |g| <==> x in AllNodes(g);
  }

  lemma TopsHonourTyped(g: Graph, n: nat, m: Mask)
    requires MasksTyped(g) && n < |g| && Typed(m, g[n])
    ensures HonoursAll(g, TypedTops(g), n, m)
    ensures forall d: Direction, k: Freshness, i: nat :: i in m.Bits(d, k) ==> i < |g[n]|
  {
    TypedTopsClosed(g, AllNodes(g));
    TypedIsBelowTop(m, g[n]);
    assert n in AllNodes(g);
    forall d: Direction, k: Freshness, i: nat | i in m.Bits(d, k)
      ensures Honoured(g, TypedTops(g), n, i, k) && i < |g[n]|
    {
      assert i in TypedTops(g)[n].Bits(d, k);
    }
  }

  /** Propagating typed masks succeeds and leaves typed masks. */
  lemma TypedPropagation(g: Graph, s: State, n: nat, m: Mask)
    requires WellFormed(g) && MasksTyped(g) && Shaped(g, s) && Distinct(s.list) && n < |g| && Typed(m, g[n])
    requires forall x :: 0 <= x < |g| ==> Typed(s.neg[x], g[x])
    ensures var t := PropagateAll(g, s, n, m);
      t.ok && Grown(s, t.st) && HonoursAll(g, t.st.neg, n, m) && forall x :: 0 <= x < |g| ==> Typed(t.st.neg[x], g[x])
  {
    AllTypedIsBelowTops(g, s.neg);
    TopsHonourTyped(g, n, m);
    hide Typed; hide MasksTyped;
    PropagateAllSpreads(g, s, n, m);
    PropagateAllBelow(g, AllNodes(g), s, n, m, TypedTops(g));
    AllTypedIsBelowTops(g, PropagateAll(g, s, n, m).st.neg);
  }

  lemma StepPulls(g: Graph, s: State, n: nat)
    requires WellFormed(g) && MasksTyped(g) && Pulling(g, s) && n in s.list
    ensures Step(g, s, n).ok && Pulling(g, Step(g, s, n).st)
    ensures Step(g, s, n).st.gen == s.gen && Step(g, s, n).st.done == s.done
  {
    var s0 := s.(list := Remove(s.list, n));
    RemoveElems(s.list, n);
    var m := s.neg[n].Diff(s.prop[n]);
    assert PullingNode(g, s, n);
    DiffMask(s.neg[n], s.prop[n]);
    SubsetTyped(m, s.neg[n], g[n]);
    forall x | 0 <= x < |g| ensures Typed(s.neg[x], g[x]) {
      assert PullingNode(g, s, x);
    }
    PropagateAllShape(g, s0, n, m);
    TypedPropagation(g, s0, n, m);
    var t := PropagateAll(g, s0, n, m).st;
    StepStartable(g, s, n);
    forall x | 0 <= x < |g| ensures PullingNode(g, Step(g, s, n).st, x) {
      SettlePulls(g, s, t, n, x);
    }
  }

  lemma SettlePulls(g: Graph, s: State, t: State, n: nat, x: nat)
    requires WellFormed(g) && Pulling(g, s) && n in s.list && n < |g| && x < |g|
    requires Shaped(g, t) && Distinct(s.list) && Grown(s.(list := Remove(s.list, n)), t)
    requires forall y :: y in Remove(s.list, n) <==> y in s.list && y != n
    requires HonoursAll(g, t.neg, n, s.neg[n].Diff(s.prop[n])) && forall y :: 0 <= y < |g| ==> Typed(t.neg[y], g[y])
    ensures PullingNode(g, Settle(g, t, n), x)
  {
    var u := Settle(g, t, n);
    assert PullingNode(g, s, x);
    assert s.neg[x].SubsetOf(t.neg[x]);
    TypedPulls(t.neg[x], g[x]);
    forall i | i in s.prop[x].pullOld ensures Honoured(g, t.neg, x, i, Old) {
      HonouredMonotone(g, s.neg, t.neg, x, i, Old);
    }
    if x == n {
      forall i | i in s.neg[n].pullOld && i !in s.prop[n].pullOld ensures Honoured(g, t.neg, n, i, Old) {
        assert i in s.neg[n].Diff(s.prop[n]).Bits(In, Old);
      }
      ActiveInputsAreAwaited(g, t.neg, t.gen, n);
      PullingAwaits(g, t.neg, n);
    }
  }

  lemma PullingAwaits(g: Graph, neg: seq<Mask>, n: nat)
    requires RefsExist(g) && |neg| == |g| && n < |g| && neg[n].pullOld == InputMask(g[n])
    ensures Awaited(g, neg, n) == ConnectedInputs(g, n)
  {
  }

  lemma {:induction false} ConvergePulls(g: Graph, s: State)
    requires WellFormed(g) && MasksTyped(g) && Pulling(g, s)
    ensures var r := Converge(g, s);
      r.ok && Pulling(g, r.st) && r.st.list == [] && r.st.gen == s.gen && r.st.done == s.done
    decreases Missing(g, s.neg), |s.list|
  {
    if s.list != [] {
      var n := s.list[0];
      assert n in s.list;
      StepStartable(g, s, n);
      StepPulls(g, s, n);
      ConvergePulls(g, Step(g, s, n).st);
    }
  }

  /** After the negotiation of a whole graph every counter equals the number of
      connected inputs of its node, whatever the masks of the port types and whatever the
      connections, including connections of a node with itself. */
  lemma GraphCounters(g: Graph, gen: seq<seq<nat>>)
    requires WellFormed(g) && MasksTyped(g) && GenShape(g, gen)
    ensures Startable(g, GraphStart(g, gen))
    ensures var r := Converge(g, GraphStart(g, gen));
      r.ok && AllInputsPull(g, AllNodes(g), r.st.neg) && OldPullsHonoured(g, r.st.neg) &&
      forall n :: 0 <= n < |g| ==> r.st.deps[n] == |ConnectedInputs(g, n)|
  {
    GraphStartPulls(g, gen);
    ConvergePulls(g, GraphStart(g, gen));
    PullingEnds(g, Converge(g, GraphStart(g, gen)).st);
  }

  lemma PullingEnds(g: Graph, t: State)
    requires Pulling(g, t) && t.list == []
    ensures AllInputsPull(g, AllNodes(g), t.neg) && OldPullsHonoured(g, t.neg) && Exact(g, AllNodes(g), t)
    ensures forall n :: 0 <= n < |g| ==> Typed(t.neg[n], g[n]) && t.deps[n] == |ConnectedInputs(g, n)|
  {
    forall n | 0 <= n < |g|
      ensures Typed(t.neg[n], g[n]) && t.neg[n].pullOld == InputMask(g[n]) && t.prop[n].pullOld == InputMask(g[n])
      ensures t.deps[n] == |ConnectedInputs(g, n)| == |Awaited(g, t.neg, n)|
      ensures forall i :: i in t.neg[n].pullOld ==> Honoured(g, t.neg, n, i, Old)
    {
      assert PullingNode(g, t, n);
      PullingAwaits(g, t.neg, n);
    }
  }

  // ----- The processing phase -----

  /** The masks with which a graph is processed. */
  ghost function GraphMasks(g: Graph, gen: seq<seq<nat>>): (neg: seq<Mask>)
    requires WellFormed(g) && GenShape(g, gen)
    ensures |neg| == |g|
  {
    GraphStartNegotiates(g, gen);
    Converge(g, GraphStart(g, gen)).st.neg
  }

  /** The state in which processing starts. */
  ghost function Prepared(g: Graph, gen: seq<seq<nat>>): State
    requires WellFormed(g) && MasksTyped(g) && GenShape(g, gen)
  {
    GraphCounters(g, gen);
    AddReady(g, Converge(g, GraphStart(g, gen)).st, 0)
  }

  /** Before anything is processed, exact counters make the processing invariant hold. */
  lemma ExactStartsRunning(g: Graph, c: set<nat>, s: State, idle: set<nat>)
    requires WellFormed(g) && Scope(g, c) && Shaped(g, s) && s.done == [] && Exact(g, c, s)
    requires forall n :: n in c && n < |g| ==> Typed(s.neg[n], g[n])
    requires Queued(g, c, s, idle)
    ensures Running(g, c, s, idle)
  {
    forall n | n in c && n < |g| ensures Pending(g, s.neg, n, {}) == Awaited(g, s.neg, n) {
    }
    assert DeliveredBy(g, s.neg, []) == {};
  }

  lemma PreparedRuns(g: Graph, gen: seq<seq<nat>>)
    requires WellFormed(g) && MasksTyped(g) && GenShape(g, gen)
    ensures Running(g, AllNodes(g), Prepared(g, gen), {})
    ensures Prepared(g, gen).done == [] && Prepared(g, gen).gen == gen && Prepared(g, gen).neg == GraphMasks(g, gen)
    ensures AllInputsPull(g, AllNodes(g), Prepared(g, gen).neg) && OldPullsHonoured(g, Prepared(g, gen).neg)
  {
    var s := GraphStart(g, gen);
    var c := AllNodes(g);
    GraphStartNegotiates(g, gen);
    GraphStartPulls(g, gen);
    GraphCounters(g, gen);
    ConvergePulls(g, s);
    var t := Converge(g, s).st;
    PullingEnds(g, t);
    var u := Prepared(g, gen);
    AddReadyElems(g, t, 0);
    AddReadyShape(g, t, 0);
    assert Queued(g, c, u, {});
    ExactStartsRunning(g, c, u, {});
  }

  // ----- What scheduling a graph achieves -----

  /** No node twice, and each after all nodes that feed it. */
  ghost predicate Topological(g: Graph, done: seq<nat>) {
    Distinct(done) && History(done, g) && InOrder(FlowEdges(g), done)
  }

  lemma FeedsConnectedInput(g: Graph, m: nat, n: nat)
    requires WellFormed(g) && Feeds(g, m, n)
    ensures exists j :: n < |g| && j in ConnectedInputs(g, n) && g[n][j].conns[0].node == m
  {
    var r, q :| Connected(g, r, q) && At(g, r).ptype.dir == Out && r.node == m && q.node == n;
    OnlyProducer(g, r, q);
    assert q.idx in ConnectedInputs(g, n);
  }

  lemma RunningIsTopological(g: Graph, s: State, idle: set<nat>)
    requires Running(g, AllNodes(g), s, idle) && AllInputsPull(g, AllNodes(g), s.neg)
    ensures Topological(g, s.done)
  {
    forall k: nat, m: nat | k < |s.done| && FlowEdges(g)(m, s.done[k]) ensures EarlierIn(s.done, m, k) {
      var n := s.done[k];
      FeedsConnectedInput(g, m, n);
      var j :| n < |g| && j in ConnectedInputs(g, n) && g[n][j].conns[0].node == m;
      AllPullAwaited(g, s.neg, n);
      assert ServedBefore(g, s.neg, s.done, k, j);
      var l, i :| 0 <= l < k && i in Pushes(s.neg[s.done[l]]) && Connected(g, PortRef(s.done[l], i), PortRef(n, j));
      PushesAreOutputs(g, s.done[l], s.neg[s.done[l]], i);
      OnlyProducer(g, PortRef(s.done[l], i), PortRef(n, j));
    }
  }

  /** Scheduling a graph with well-typed masks fails only if a process function
      fails. No node is processed twice or before a producer of one of its connected
      inputs, and afterwards the inputs of all processed nodes are up to date. */
  lemma ScheduleGraphIsSafe(g: Graph, gen: seq<seq<nat>>, fails: set<nat>)
    requires WellFormed(g) && MasksTyped(g) && GenShape(g, gen)
    ensures var r := ScheduleGraph(g, gen, fails);
      (!r.ok ==> exists n :: n in fails && n < |g|) &&
      (r.ok ==> r.st.list == [] && Topological(g, r.st.done))
  {
    GraphCounters(g, gen);
    PreparedRuns(g, gen);
    ScheduleNodesKeeps(g, AllNodes(g), Prepared(g, gen), {}, fails);
    var r := ScheduleGraph(g, gen, fails);
    assert r == ScheduleNodes(g, Prepared(g, gen), fails);
    if r.ok {
      RunningIsTopological(g, r.st, {});
    } else {
      var n :| n in fails && n in AllNodes(g);
      assert n < |g|;
    }
  }

  /** The inputs of processed nodes carry the generation of their producers. */
  ghost predicate UpToDate(g: Graph, s: State) {
    Shaped(g, s) && forall n, j :: n in s.done && n < |g| && j in ConnectedInputs(g, n) ==>
      Copied(g, s.gen, s.gen, n, j)
  }

  lemma ScheduleGraphGenerations(g: Graph, gen: seq<seq<nat>>, fails: set<nat>)
    requires WellFormed(g) && MasksTyped(g) && GenerationsValid(g, gen)
    ensures var r := ScheduleGraph(g, gen, fails);
      GenerationsValid(g, r.st.gen) && (r.ok ==> UpToDate(g, r.st))
  {
    hide UpToDate; hide ScheduleNodes; hide Copied; hide Balanced; hide Ordered; hide Queued; hide MasksTyped;
    GraphCounters(g, gen);
    PreparedRuns(g, gen);
    ScheduleNodesSyncs(g, AllNodes(g), Prepared(g, gen), {}, fails);
    ScheduleNodesKeeps(g, AllNodes(g), Prepared(g, gen), {}, fails);
    var r := ScheduleGraph(g, gen, fails);
    assert r == ScheduleNodes(g, Prepared(g, gen), fails);
    if r.ok {
      SyncedIsUpToDate(g, r.st);
    }
  }

  lemma SyncedIsUpToDate(g: Graph, s: State)
    requires Synced(g, s) && AllInputsPull(g, AllNodes(g), s.neg)
    ensures UpToDate(g, s)
  {
    forall n, j | n in s.done && n < |g| && j in ConnectedInputs(g, n) ensures Copied(g, s.gen, s.gen, n, j) {
      assert n in AllNodes(g) && Directed(g[n], j, In);
      assert Pulled(g, s.neg, n, j);
    }
  }

  // ----- Nodes that wait for ever -----

  /** Input `j` of `n` is activated, but its producer does not push. */
  ghost predicate StarvedAt(g: Graph, neg: seq<Mask>, n: nat, j: nat) {
    && RefsExist(g) && |neg| == |g| && n < |g| && j in Awaited(g, neg, n)
    && (assert Connected(g, PortRef(n, j), Producer(g, PortRef(n, j)));
        var p := Producer(g, PortRef(n, j)); p.idx !in Pushes(neg[p.node]))
  }

  ghost predicate Starved(g: Graph, neg: seq<Mask>, n: nat) {
    exists j :: StarvedAt(g, neg, n, j)
  }

  /** `n` lies on a cycle or is starved, or lies downstream of such a node. */
  ghost predicate Blocked(g: Graph, neg: seq<Mask>, e: Edges, n: nat) {
    exists m: nat :: (OnCycle(e, m) || Starved(g, neg, m)) && Reaches(e, m, n)
  }

  /** Without starved nodes only cycles block. */
  lemma FedIsBlockedByCycles(g: Graph, neg: seq<Mask>, e: Edges, n: nat)
    requires forall m: nat :: !Starved(g, neg, m)
    ensures Blocked(g, neg, e, n) <==> BelowCycle(e, n)
  {
  }

  lemma BlockedSpreads(g: Graph, neg: seq<Mask>, e: Edges, a: nat, b: nat)
    requires Blocked(g, neg, e, a) && e(a, b)
    ensures Blocked(g, neg, e, b)
  {
    var m: nat :| (OnCycle(e, m) || Starved(g, neg, m)) && Reaches(e, m, a);
    ReachesEdge(e, a, b);
    ReachesTrans(e, m, a, b);
  }

  /** If every waiting node that is not starved has a waiting predecessor, all waiting
      nodes are blocked. */
  lemma WaitingIsBlocked(g: Graph, neg: seq<Mask>, e: Edges, waiting: set<nat>, n: nat)
    requires forall b {:trigger HasPredecessorIn(e, waiting, b)} :: b in waiting && !Starved(g, neg, b) ==>
      HasPredecessorIn(e, waiting, b)
    requires n in waiting
    ensures Blocked(g, neg, e, n)
  {
    if !Blocked(g, neg, e, n) {
      var free := set b | b in waiting && !Blocked(g, neg, e, b);
      forall b | b in free ensures HasPredecessorIn(e, free, b) {
        ReachesSelf(e, b);
        assert HasPredecessorIn(e, waiting, b);
        var a :| a in waiting && e(a, b);
        if Blocked(g, neg, e, a) {
          BlockedSpreads(g, neg, e, a, b);
        }
        assert a in free;
      }
      PredecessorsMeanBelowCycle(e, free, n);
    }
  }

  /** What has been processed in order, without a starved node, is not blocked. */
  lemma InOrderIsNotBlocked(g: Graph, neg: seq<Mask>, e: Edges, done: seq<nat>, n: nat)
    requires InOrder(e, done) && Distinct(done) && n in done && forall m :: m in done ==> !Starved(g, neg, m)
    ensures !Blocked(g, neg, e, n)
  {
    if Blocked(g, neg, e, n) {
      var m: nat :| (OnCycle(e, m) || Starved(g, neg, m)) && Reaches(e, m, n);
      var k :| 0 <= k < |done| && done[k] == n;
      var w :| WalkFromTo(e, w, m, n);
      WalkIntoOrder(e, done, w, k);
      assert m in done;
      ReachesSelf(e, m);
      InOrderIsNotBelowCycle(e, done, m);
    }
  }

  lemma ProcessedIsFed(g: Graph, c: set<nat>, s: State, idle: set<nat>, n: nat)
    requires Running(g, c, s, idle) && n in s.done
    ensures !Starved(g, s.neg, n)
  {
    var k :| 0 <= k < |s.done| && s.done[k] == n;
    forall j | j in Awaited(g, s.neg, n) ensures !StarvedAt(g, s.neg, n, j) {
      assert ServedBefore(g, s.neg, s.done, k, j);
      var l, i :| 0 <= l < k && i in Pushes(s.neg[s.done[l]]) && Connected(g, PortRef(s.done[l], i), PortRef(n, j));
      assert s.done[l] in s.done;
      PushesAreOutputs(g, s.done[l], s.neg[s.done[l]], i);
      OnlyProducer(g, PortRef(s.done[l], i), PortRef(n, j));
    }
  }

  // ----- Which nodes are processed -----

  lemma WaitingHasWaitingProducer(g: Graph, s: State, n: nat)
    requires Running(g, AllNodes(g), s, {}) && s.list == [] && n < |g| && n !in s.done && !Starved(g, s.neg, n)
    ensures HasPredecessorIn(FlowEdges(g), AllNodes(g) - Elems(s.done), n)
  {
    LeftOversAwait(g, AllNodes(g), s, {}, n);
    var j :| j in Awaited(g, s.neg, n) && PortRef(n, j) !in DeliveredBy(g, s.neg, s.done);
    var q := PortRef(n, j);
    var p := Producer(g, q);
    assert Connected(g, q, p);
    assert Connected(g, p, q);
    assert !StarvedAt(g, s.neg, n, j);
    DeliveredIs(g, s.neg, s.done, q);
    assert PortRef(p.node, p.idx) == p;
    assert p.node !in s.done;
    assert Feeds(g, p.node, n);
    assert FlowEdges(g)(p.node, n) && p.node in AllNodes(g) - Elems(s.done);
  }

  /** They are the least masks closed under the rules by which all inputs pull, unless a node
      is connected to itself. */
  lemma GraphMasksAreLeast(g: Graph, gen: seq<seq<nat>>)
    requires WellFormed(g) && MasksTyped(g) && GenShape(g, gen) && NoSelfLoop(g, AllNodes(g))
    ensures LeastClosed(g, AllNodes(g), GraphStart(g, gen).neg, GraphMasks(g, gen))
  {
    GraphStartNegotiates(g, gen);
    GraphCounters(g, gen);
    ConvergeReachesLeastClosed(g, AllNodes(g), GraphStart(g, gen));
  }

  /** Scheduling a graph processes exactly the nodes that are not blocked: nodes on a cycle,
      nodes with a connected input whose producer does not push, and all that lies downstream
      of such a node wait for ever. */
  lemma ScheduleGraphProcesses(g: Graph, gen: seq<seq<nat>>, fails: set<nat>)
    requires WellFormed(g) && MasksTyped(g) && GenShape(g, gen)
    requires ScheduleGraph(g, gen, fails).ok
    ensures forall n :: 0 <= n < |g| ==>
      (n in ScheduleGraph(g, gen, fails).st.done <==> !Blocked(g, GraphMasks(g, gen), FlowEdges(g), n))
  {
    GraphCounters(g, gen);
    PreparedRuns(g, gen);
    ScheduleNodesKeeps(g, AllNodes(g), Prepared(g, gen), {}, fails);
    var s := ScheduleGraph(g, gen, fails).st;
    assert ScheduleGraph(g, gen, fails) == ScheduleNodes(g, Prepared(g, gen), fails);
    RunningIsTopological(g, s, {});
    forall m | m in s.done ensures !Starved(g, s.neg, m) {
      ProcessedIsFed(g, AllNodes(g), s, {}, m);
    }
    var waiting := AllNodes(g) - Elems(s.done);
    forall b | b in waiting && !Starved(g, s.neg, b) ensures HasPredecessorIn(FlowEdges(g), waiting, b) {
      WaitingHasWaitingProducer(g, s, b);
    }
    forall n | 0 <= n < |g| ensures n in s.done <==> !Blocked(g, s.neg, FlowEdges(g), n) {
      if n in s.done {
        InOrderIsNotBlocked(g, s.neg, FlowEdges(g), s.done, n);
      } else {
        WaitingIsBlocked(g, s.neg, FlowEdges(g), waiting, n);
      }
    }
  }

  /** Node `n` has a connected input, or a connected output that pushes. */
  ghost predicate TakesPart(g: Graph, neg: seq<Mask>, n: nat) {
    n < |g| && |neg| == |g| &&
    (ConnectedInputs(g, n) != {} || exists i :: i in Pushes(neg[n]) && i < |g[n]| && g[n][i].conns != [])
  }

  lemma TakingPartIsNeeded(g: Graph, neg: seq<Mask>, n: nat)
    requires WellFormed(g) && |neg| == |g| && n < |g| && AllInputsPull(g, AllNodes(g), neg) && Typed(neg[n], g[n])
    ensures TakesPart(g, neg, n) ==> SurelyNeeded(g, neg, n)
    ensures PerhapsNeeded(g, neg, n) ==> TakesPart(g, neg, n)
  {
    AllPullAwaited(g, neg, n);
    if ConnectedInputs(g, n) == {} && TakesPart(g, neg, n) {
      var i :| i in Pushes(neg[n]) && i < |g[n]| && g[n][i].conns != [];
      var q := g[n][i].conns[0];
      PushesAreOutputs(g, n, neg[n], i);
      assert Connected(g, PortRef(n, i), q);
      OnlyProducer(g, PortRef(n, i), q);
      assert q.node in AllNodes(g) && Directed(g[q.node], q.idx, In);
      assert Pushed(g, neg, n, i, q) && q.idx in neg[q.node].pullOld;
    }
    if ConnectedInputs(g, n) == {} && PerhapsNeeded(g, neg, n) {
      var i: nat, q :| Pushed(g, neg, n, i, q);
      assert g[n][i].conns != [];
    }
  }

  /** Scheduling a graph fails if and only if a process function fails of a node that is not
      blocked and takes part. */
  lemma ScheduleGraphFailsIff(g: Graph, gen: seq<seq<nat>>, fails: set<nat>)
    requires WellFormed(g) && MasksTyped(g) && GenShape(g, gen)
    ensures !ScheduleGraph(g, gen, fails).ok <==>
      exists n: nat :: n in fails && !Blocked(g, GraphMasks(g, gen), FlowEdges(g), n) &&
        TakesPart(g, GraphMasks(g, gen), n)
  {
    GraphCounters(g, gen);
    PreparedRuns(g, gen);
    var c, s, neg := AllNodes(g), Prepared(g, gen), GraphMasks(g, gen);
    assert ScheduleGraph(g, gen, fails) == ScheduleNodes(g, s, fails);
    if ScheduleGraph(g, gen, fails).ok {
      SuccessMeansNoFailure(g, c, s, {}, fails);
      ScheduleGraphProcesses(g, gen, fails);
      forall n: nat | n in fails && !Blocked(g, neg, FlowEdges(g), n) ensures !TakesPart(g, neg, n) {
        if n < |g| {
          TakingPartIsNeeded(g, neg, n);
        }
      }
    } else {
      var n, u := FailureHasCause(g, c, s, {}, fails);
      TakingPartIsNeeded(g, neg, n);
      RunningIsTopological(g, u, {});
      forall m | m in u.done ensures !Starved(g, neg, m) {
        ProcessedIsFed(g, c, u, {}, m);
      }
      InOrderIsNotBlocked(g, neg, FlowEdges(g), u.done, n);
    }
  }

  lemma OldPullIsAnswered(g: Graph, neg: seq<Mask>, q: PortRef)
    requires WellFormed(g) && OldDataIsPushed(g) && |neg| == |g| && Honoured(g, neg, q.node, q.idx, Old)
    requires HasPort(g, q) && At(g, q).ptype.dir == In && At(g, q).conns != []
    ensures var p := Producer(g, q);
      HasPort(g, p) && At(g, p).ptype.dir == Out && Connected(g, p, q) && p.idx in neg[p.node].pushOld
  {
    var p := Producer(g, q);
    assert PortRef(q.node, q.idx) == q;
    assert Connected(g, q, p);
    assert Connected(g, p, q);
  }

  /** If outputs answer pulls for old data, exactly the nodes are processed that are neither
      on a cycle nor downstream of one. */
  lemma AnsweringGraphProcesses(g: Graph, gen: seq<seq<nat>>, fails: set<nat>)
    requires WellFormed(g) && MasksTyped(g) && OldDataIsPushed(g) && GenShape(g, gen)
    requires ScheduleGraph(g, gen, fails).ok
    ensures forall n :: 0 <= n < |g| ==>
      (n in ScheduleGraph(g, gen, fails).st.done <==> !BelowCycle(FlowEdges(g), n))
  {
    GraphCounters(g, gen);
    var neg := GraphMasks(g, gen);
    forall m: nat, j: nat | m < |g| && j in Awaited(g, neg, m) ensures !StarvedAt(g, neg, m, j) {
      AllPullAwaited(g, neg, m);
      assert m in AllNodes(g) && Directed(g[m], j, In);
      assert j in neg[m].pullOld;
      OldPullIsAnswered(g, neg, PortRef(m, j));
    }
    ScheduleGraphProcesses(g, gen, fails);
    forall n | 0 <= n < |g| ensures Blocked(g, neg, FlowEdges(g), n) <==> BelowCycle(FlowEdges(g), n) {
      FedIsBlockedByCycles(g, neg, FlowEdges(g), n);
    }
  }

  // ----- A constant -----

  /** An output of a type without dependencies feeds the input of a pure function. */
  function ConstantGraph(): Graph {
    [[Port(BuildPorts([Out], [], false)[0], [PortRef(1, 0)])],
     [Port(BuildPorts([In], [], true)[0], [PortRef(0, 0)])]]
  }

  lemma ConstantTypes()
    ensures BuildPorts([Out], [], false)[0] == PortType(Out, Mask({}, {}, {}, {0}), EMPTY_MASK)
    ensures BuildPorts([In], [], true)[0] == PortType(In, Mask({}, {0}, {}, {}), Mask({0}, {}, {}, {}))
  {
    assert PortsOf([In], In) == {0} && PortsOf([In], Out) == {};
  }

  lemma ConstantPorts(r: PortRef)
    ensures |ConstantGraph()| == 2 && |ConstantGraph()[0]| == |ConstantGraph()[1]| == 1
    ensures HasPort(ConstantGraph(), r) <==> r == PortRef(0, 0) || r == PortRef(1, 0)
    ensures HasPort(ConstantGraph(), r) ==>
      At(ConstantGraph(), r) ==
      if r.node == 0 then Port(PortType(Out, Mask({}, {}, {}, {0}), EMPTY_MASK), [PortRef(1, 0)])
      else Port(PortType(In, Mask({}, {0}, {}, {}), Mask({0}, {}, {}, {})), [PortRef(0, 0)])
  {
    ConstantTypes();
  }

  lemma ConstantMasks(r: PortRef)
    requires HasPort(ConstantGraph(), r)
    ensures var p := At(ConstantGraph(), r).ptype; var ports := ConstantGraph()[r.node];
      Typed(p.newMask, ports) && Typed(p.oldMask, ports) && Bounded(p.newMask, |ports|) && Bounded(p.oldMask, |ports|)
  {
    hide ConstantGraph;
    ConstantPorts(r);
    assert At(ConstantGraph(), r) == ConstantGraph()[r.node][0];
  }

  lemma ConstantGraphIs()
    ensures var g := ConstantGraph();
      WellFormed(g) && MasksTyped(g) && !Cyclic(FlowEdges(g)) && NoSelfLoop(g, AllNodes(g)) && !OldDataIsPushed(g)
  {
    hide ConstantGraph; hide Typed; hide Bounded; hide Cyclic;
    var g := ConstantGraph();
    forall r ensures HasPort(g, r) <==> r == PortRef(0, 0) || r == PortRef(1, 0) {
      ConstantPorts(r);
    }
    ConstantPorts(PortRef(0, 0));
    ConstantPorts(PortRef(1, 0));
    ConstantMasks(PortRef(0, 0));
    ConstantMasks(PortRef(1, 0));
    forall r, q ensures Connected(g, r, q) <==>
      (r == PortRef(0, 0) && q == PortRef(1, 0)) || (r == PortRef(1, 0) && q == PortRef(0, 0))
    {
    }
    RankedIsAcyclic(FlowEdges(g), (n: nat) => 0 - n as int);
  }

  /** Nothing makes the constant push: the masks with an empty one for it are closed. */
  lemma ConstantMasksClose(top: seq<Mask>)
    requires top == [EMPTY_MASK, EMPTY_MASK.(pullOld := {0})]
    ensures Closed(ConstantGraph(), AllNodes(ConstantGraph()), top)
  {
    hide ConstantGraph; hide BuildPorts;
    var g := ConstantGraph();
    ConstantPorts(PortRef(0, 0));
    ConstantPorts(PortRef(1, 0));
    assert g[1][0] == At(g, PortRef(1, 0));
    forall n | n in AllNodes(g) && n < |g| ensures HonoursAll(g, top, n, top[n]) && Typed(top[n], g[n]) {
      forall d: Direction, k: Freshness, i: nat | i in top[n].Bits(d, k)
        ensures Honoured(g, top, n, i, k) && Directed(g[n], i, d)
      {
        assert n == 1 && i == 0 && k == Old && d == In;
      }
    }
  }

  lemma ConstantPushesNothing(gen: seq<seq<nat>>)
    requires GenShape(ConstantGraph(), gen)
    ensures WellFormed(ConstantGraph()) && GraphMasks(ConstantGraph(), gen)[0] == EMPTY_MASK
  {
    hide Closed; hide WellFormed; hide NoSelfLoop; hide ConstantGraph; hide Converge; hide Negotiating;
    var g := ConstantGraph();
    ConstantGraphIs();
    ConstantPorts(PortRef(1, 0));
    assert g[1][0] == At(g, PortRef(1, 0));
    var start := GraphStart(g, gen);
    var top := [EMPTY_MASK, EMPTY_MASK.(pullOld := {0})];
    ConstantMasksClose(top);
    assert Below(AllNodes(g), start.neg, top);
    GraphStartNegotiates(g, gen);
    ConvergeBelow(g, AllNodes(g), start, top);
    assert 0 in AllNodes(g);
    SubsetAntisym(GraphMasks(g, gen)[0], EMPTY_MASK);
  }

  /** Scheduling that graph succeeds without ever processing the function: its input pulls old
      data, which the constant does not push. */
  lemma ConstantStarvesFunction(gen: seq<seq<nat>>)
    requires GenShape(ConstantGraph(), gen)
    ensures WellFormed(ConstantGraph()) && MasksTyped(ConstantGraph()) && !Cyclic(FlowEdges(ConstantGraph()))
    ensures ScheduleGraph(ConstantGraph(), gen, {}).ok && 1 !in ScheduleGraph(ConstantGraph(), gen, {}).st.done
  {
    var g := ConstantGraph();
    ConstantGraphIs();
    ConstantPushesNothing(gen);
    var neg := GraphMasks(g, gen);
    assert StarvedAt(g, neg, 1, 0) by {
      GraphCounters(g, gen);
      AllPullAwaited(g, neg, 1);
      ConstantTypes();
      assert 0 in ConnectedInputs(g, 1) && Producer(g, PortRef(1, 0)) == PortRef(0, 0);
    }
    hide WellFormed; hide MasksTyped; hide Starved; hide StarvedAt; hide OldDataIsPushed;
    ScheduleGraphIsSafe(g, gen, {});
    ScheduleGraphProcesses(g, gen, {});
    ReachesSelf(FlowEdges(g), 1);
    assert Starved(g, neg, 1);
    assert Blocked(g, neg, FlowEdges(g), 1);
  }

  /** On an acyclic graph of pure-functional nodes whose process functions succeed,
      every node is processed exactly once, after all nodes that feed it, and every
      connected input ends up with the generation of its producer. */
  lemma PureAcyclicGraphIsFullyScheduled(g: Graph, gen: seq<seq<nat>>)
    requires WellFormed(g) && PureGraph(g) && !Cyclic(FlowEdges(g)) && GenerationsValid(g, gen)
    ensures var r := ScheduleGraph(g, gen, {});
      r.ok && Topological(g, r.st.done) && Elems(r.st.done) == AllNodes(g) && |r.st.done| == |g| &&
      GenerationsValid(g, r.st.gen) &&
      forall n, j :: 0 <= n < |g| && j in ConnectedInputs(g, n) ==> Copied(g, r.st.gen, r.st.gen, n, j)
  {
    PureGraphGuarantees(g);
    ScheduleGraphIsSafe(g, gen, {});
    AnsweringGraphProcesses(g, gen, {});
    ScheduleGraphGenerations(g, gen, {});
    var done := ScheduleGraph(g, gen, {}).st.done;
    forall n | 0 <= n < |g| ensures n in done {
    }
    assert Elems(done) == AllNodes(g);
    DistinctCardinality(done);
  }

  // ----- Sequences of passes -----

  /** The generations after a sequence of passes, each with its own failures. */
  function AfterPasses(g: Graph, gen: seq<seq<nat>>, passes: seq<set<nat>>): (r: seq<seq<nat>>)
    requires WellFormed(g) && GenShape(g, gen)
    ensures GenShape(g, r)
  {
    if passes == [] then gen
    else ScheduleGraph(g, AfterPasses(g, gen, passes[..|passes| - 1]), passes[|passes| - 1]).st.gen
  }

  /** ports as instantiated: outputs start at generation 1, inputs at 0. */
  function InitialGenerations(g: Graph): seq<seq<nat>> {
    seq(|g|, n requires 0 <= n < |g| =>
      seq(|g[n]|, i requires 0 <= i < |g[n]| => if g[n][i].ptype.dir == Out then 1 else 0))
  }

  /** Whatever failures occur on the way, no output generation is ever 0 and all
      generations stay within 64 bits; a pass that succeeds brings the inputs of the
      nodes it processed up to date. */
  lemma {:induction false} GenerationsOverPasses(g: Graph, passes: seq<set<nat>>)
    requires WellFormed(g) && MasksTyped(g)
    ensures GenShape(g, InitialGenerations(g))
    ensures GenerationsValid(g, AfterPasses(g, InitialGenerations(g), passes))
    ensures forall fails ::
      var r := ScheduleGraph(g, AfterPasses(g, InitialGenerations(g), passes), fails);
      r.ok ==> UpToDate(g, r.st)
    decreases |passes|
  {
    var gen := InitialGenerations(g);
    if passes != [] {
      var before := passes[..|passes| - 1];
      GenerationsOverPasses(g, before);
      ScheduleGraphGenerations(g, AfterPasses(g, gen, before), passes[|passes| - 1]);
    }
    forall fails ensures
      var r := ScheduleGraph(g, AfterPasses(g, gen, passes), fails);
      r.ok ==> UpToDate(g, r.st)
    {
      ScheduleGraphGenerations(g, AfterPasses(g, gen, passes), fails);
    }
  }
}
