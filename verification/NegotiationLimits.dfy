/** How far the negotiation result reaches: it does not depend on the order in
    which listed nodes are evaluated, and self-loops are what it cannot cope with. */
module NegotiationLimits {
  import opened Digraph
  import opened DataflowGraph
  import opened NodeTypes
  import opened SchedulerState
  import opened MaskNegotiation
  import opened ComponentScheduling

  // ----- Any evaluation order -----

  /** Some listed node is taken from the list and evaluated. */
  ghost predicate Evaluates(g: Graph, s: State, t: State) {
    RefsExist(g) && Shaped(g, s) && exists n :: n in s.list && n < |g| && Step(g, s, n) == Outcome(true, t)
  }

  /** What any stretch of a negotiation guarantees. */
  ghost predicate Kept(g: Graph, c: set<nat>, start: seq<Mask>, s: State) {
    Negotiating(g, c, s) && Below(c, start, s.neg)
  }

  lemma KeptStep(g: Graph, c: set<nat>, start: seq<Mask>, s: State, t: State)
    requires WellFormed(g) && Scope(g, c) && NoSelfLoop(g, c) && Kept(g, c, start, s) && Evaluates(g, s, t)
    ensures Kept(g, c, start, t)
  {
    EvaluatesKeeps(g, c, s, t);
    BelowTrans(c, start, s.neg, t.neg);
  }

  /** A negotiation that evaluates listed nodes in an arbitrary order. */
  ghost predicate Negotiation(g: Graph, run: seq<State>) {
    |run| > 0 && forall i, j :: 0 <= i < j == i + 1 < |run| ==> Evaluates(g, run[i], run[j])
  }

  lemma {:induction false} NegotiationKeeps(g: Graph, c: set<nat>, run: seq<State>, i: nat)
    requires WellFormed(g) && Scope(g, c) && NoSelfLoop(g, c) && i < |run|
    requires Negotiation(g, run) && Negotiating(g, c, run[0])
    ensures Kept(g, c, run[0].neg, run[i])
  {
    if i > 0 {
      NegotiationKeeps(g, c, run, i - 1);
      KeptStep(g, c, run[0].neg, run[i - 1], run[i]);
    }
  }

  lemma EvaluatesKeeps(g: Graph, c: set<nat>, s: State, t: State)
    requires WellFormed(g) && Scope(g, c) && NoSelfLoop(g, c) && Negotiating(g, c, s) && Evaluates(g, s, t)
    ensures Negotiating(g, c, t) && Below(c, s.neg, t.neg)
  {
    var n :| n in s.list && n < |g| && Step(g, s, n) == Outcome(true, t);
    StepNegotiates(g, c, s, n);
  }

  lemma {:induction false} NegotiationStaysBelow(g: Graph, c: set<nat>, run: seq<State>, top: seq<Mask>, i: nat)
    requires WellFormed(g) && Scope(g, c) && NoSelfLoop(g, c) && i < |run|
    requires Negotiation(g, run) && Negotiating(g, c, run[0])
    requires Closed(g, c, top) && Below(c, run[0].neg, top)
    ensures Below(c, run[i].neg, top)
  {
    if i > 0 {
      NegotiationStaysBelow(g, c, run, top, i - 1);
      NegotiationKeeps(g, c, run, i - 1);
      EvaluatesBelow(g, c, run[0].neg, run[i - 1], run[i], top);
    }
  }

  lemma EvaluatesBelow(g: Graph, c: set<nat>, start: seq<Mask>, s: State, t: State, top: seq<Mask>)
    requires WellFormed(g) && Kept(g, c, start, s) && Evaluates(g, s, t)
    requires Closed(g, c, top) && Below(c, s.neg, top)
    ensures Below(c, t.neg, top)
  {
    var n :| n in s.list && n < |g| && Step(g, s, n) == Outcome(true, t);
    StepBelow(g, c, s, n, top);
  }

  lemma BelowTrans(c: set<nat>, x: seq<Mask>, y: seq<Mask>, z: seq<Mask>)
    requires Below(c, x, y) && Below(c, y, z)
    ensures Below(c, x, z)
  {
    forall n | n in c && n < |x| ensures x[n].SubsetOf(z[n]) {
      assert x[n].SubsetOf(y[n]) && y[n].SubsetOf(z[n]);
    }
  }

  /** Whatever the order of evaluation, a negotiation that empties the list ends at
      the least closed assignment, the one the program's own order computes. */
  lemma AnyOrderReachesLeastClosed(g: Graph, c: set<nat>, run: seq<State>)
    requires WellFormed(g) && Scope(g, c) && NoSelfLoop(g, c)
    requires Negotiation(g, run) && Negotiating(g, c, run[0]) && run[|run| - 1].list == []
    ensures LeastClosed(g, c, run[0].neg, run[|run| - 1].neg)
    ensures Converge(g, run[0]).ok
    ensures |run[|run| - 1].neg| == |g|
    ensures forall n :: n in c ==> n < |g| && Converge(g, run[0]).st.neg[n] == run[|run| - 1].neg[n]
  {
    hide Converge; hide Closed; hide Below; hide LeastClosed; hide WellFormed; hide NoSelfLoop; hide Typed;
    NegotiationEndsLeast(g, c, run);
    EndIsClosed(g, c, run[0].neg, run[|run| - 1].neg);
    ConvergeReachesLeastClosed(g, c, run[0]);
    LeastIsUnique(g, c, run[0].neg, run[|run| - 1].neg, Converge(g, run[0]).st.neg);
  }

  lemma NegotiationEndsLeast(g: Graph, c: set<nat>, run: seq<State>)
    requires WellFormed(g) && Scope(g, c) && NoSelfLoop(g, c)
    requires Negotiation(g, run) && Negotiating(g, c, run[0]) && run[|run| - 1].list == []
    ensures LeastClosed(g, c, run[0].neg, run[|run| - 1].neg)
  {
    NegotiationKeeps(g, c, run, |run| - 1);
    var neg := run[|run| - 1].neg;
    assert Closed(g, c, neg);
    hide Closed; hide HonoursAll; hide Typed; hide WellFormed; hide NoSelfLoop; hide NegBounded;
    forall top | Closed(g, c, top) && Below(c, run[0].neg, top) ensures Below(c, neg, top) {
      NegotiationStaysBelow(g, c, run, top, |run| - 1);
    }
  }

  lemma EndIsClosed(g: Graph, c: set<nat>, start: seq<Mask>, neg: seq<Mask>)
    requires LeastClosed(g, c, start, neg)
    ensures Closed(g, c, neg) && Below(c, start, neg)
  {
  }

  lemma LeastIsUnique(g: Graph, c: set<nat>, start: seq<Mask>, a: seq<Mask>, b: seq<Mask>)
    requires Scope(g, c) && LeastClosed(g, c, start, a) && LeastClosed(g, c, start, b)
    ensures |a| == |b| == |g| && forall n :: n in c ==> n < |g| && b[n] == a[n]
  {
    forall n | n in c ensures n < |g| && b[n] == a[n] {
      SubsetAntisym(a[n], b[n]);
    }
  }

  // ----- Self-loops -----

  /** The same nodes, directions and connections; only the masks of the port types
      may differ. */
  ghost predicate SameShape(g: Graph, h: Graph) {
    |g| == |h| && forall n :: 0 <= n < |g| ==> SamePorts(g[n], h[n])
  }

  ghost predicate SamePorts(a: seq<Port>, b: seq<Port>) {
    |a| == |b| && forall i :: 0 <= i < |a| ==> a[i].conns == b[i].conns && a[i].ptype.dir == b[i].ptype.dir
  }

  lemma SameShapeConnected(g: Graph, h: Graph)
    requires SameShape(g, h)
    ensures forall r :: HasPort(g, r) <==> HasPort(h, r)
    ensures forall r :: HasPort(g, r) ==> At(g, r).conns == At(h, r).conns && At(g, r).ptype.dir == At(h, r).ptype.dir
    ensures forall r, q :: Connected(g, r, q) <==> Connected(h, r, q)
  {
    forall r | HasPort(g, r) || HasPort(h, r)
      ensures HasPort(g, r) && HasPort(h, r) && At(g, r).conns == At(h, r).conns
      ensures At(g, r).ptype.dir == At(h, r).ptype.dir
    {
      assert r.node < |g| && SamePorts(g[r.node], h[r.node]);
    }
  }

  lemma SameShapeWellFormed(g: Graph, h: Graph)
    requires SameShape(g, h) && WellFormed(g) && MasksBounded(h)
    ensures WellFormed(h)
  {
    SameShapeConnected(g, h);
    forall n | 0 <= n < |h| ensures |h[n]| <= 64 {
      assert SamePorts(g[n], h[n]);
    }
    forall r | HasPort(h, r) ensures Distinct(At(h, r).conns) {
      assert HasPort(g, r);
    }
  }

  ghost function DirsOf(ports: seq<Port>): (r: seq<Direction>)
    ensures |r| == |ports|
  {
    seq(|ports|, i requires 0 <= i < |ports| => ports[i].ptype.dir)
  }

  /** A node whose port types are built from a definition. */
  ghost predicate BuiltNode(ports: seq<Port>) {
    exists dirs, deps, pure :: DepsTyped(dirs, deps) && Instance(ports, BuildPorts(dirs, deps, pure))
  }

  ghost predicate BuiltGraph(g: Graph) {
    forall n :: 0 <= n < |g| ==> BuiltNode(g[n])
  }

  /** The ports of a pure-functional node with the same directions and connections. */
  ghost function PurePorts(ports: seq<Port>): (res: seq<Port>)
    ensures |res| == |ports|
  {
    seq(|ports|, i requires 0 <= i < |ports| => Port(BuildPorts(DirsOf(ports), [], true)[i], ports[i].conns))
  }

  lemma PurePortsAre(ports: seq<Port>)
    ensures SamePorts(ports, PurePorts(ports)) && PureNode(PurePorts(ports)) && BuiltNode(PurePorts(ports))
    ensures var ins, outs := PortsOf(DirsOf(ports), In), PortsOf(DirsOf(ports), Out);
      forall i :: 0 <= i < |ports| ==>
        PurePorts(ports)[i].ptype.oldMask ==
          if ports[i].ptype.dir == Out then Mask({}, ins, {}, outs) else Mask(ins, {}, {}, outs)
  {
    var dirs := DirsOf(ports);
    var ins, outs := PortsOf(dirs, In), PortsOf(dirs, Out);
    forall i | 0 <= i < |ports| ensures BuildPorts(dirs, [], true)[i] == AddPure(InitialType(dirs[i], i), ins, outs) {
      assert AddDeps(InitialType(dirs[i], i), i, []) == InitialType(dirs[i], i);
    }
    assert DepsTyped(dirs, []) && Instance(PurePorts(ports), BuildPorts(dirs, [], true));
  }

  ghost function LoopGraph(g: Graph): (h: Graph)
    ensures |h| == |g| && forall n :: 0 <= n < |g| ==> h[n] == PurePorts(g[n])
  {
    seq(|g|, n requires 0 <= n < |g| => PurePorts(g[n]))
  }

  ghost function LoopStart(g: Graph, q: PortRef): State
    requires q.node < |g|
  {
    State(
      seq(|g|, n => if n == q.node then EMPTY_MASK.(pullOld := {q.idx}) else EMPTY_MASK),
      seq(|g|, n => EMPTY_MASK),
      seq(|g|, n => 0),
      seq(|g|, n requires 0 <= n < |g| => seq(|g[n]|, i => 0)),
      [q.node],
      [])
  }

  lemma LoopGraphIs(g: Graph)
    requires WellFormed(g)
    ensures var h := LoopGraph(g);
      SameShape(g, h) && WellFormed(h) && BuiltGraph(h) && PureGraph(h)
  {
    var h := LoopGraph(g);
    hide PurePorts; hide BuiltNode; hide PureNode; hide Bounded; hide Typed;
    forall n | 0 <= n < |g| ensures SamePorts(g[n], h[n]) && BuiltNode(h[n]) && PureNode(h[n]) {
      PurePortsAre(g[n]);
    }
    SameShapeConnected(g, h);
    PureGraphGuarantees(h);
    forall x | HasPort(h, x)
      ensures Bounded(At(h, x).ptype.newMask, |h[x.node]|) && Bounded(At(h, x).ptype.oldMask, |h[x.node]|)
    {
      TypedIsBounded(At(h, x).ptype.newMask, h[x.node]);
      TypedIsBounded(At(h, x).ptype.oldMask, h[x.node]);
    }
    SameShapeWellFormed(g, h);
  }

  lemma TypedIsBounded(m: Mask, ports: seq<Port>)
    requires Typed(m, ports)
    ensures Bounded(m, |ports|)
  {
    forall d: Direction, k: Freshness, i: nat | i in m.Bits(d, k) ensures i < |ports| {
      assert Directed(ports, i, d);
    }
  }

  /** What the node with the self-loop ends up with: everything that its output asks for. */
  ghost function Swallowed(ports: seq<Port>): Mask {
    Mask({}, PortsOf(DirsOf(ports), In), {}, PortsOf(DirsOf(ports), Out))
  }

  lemma LoopGraphMasks(g: Graph, r: PortRef, q: PortRef)
    requires WellFormed(g) && Connected(g, r, q) && q.node == r.node && At(g, r).ptype.dir == Out
    ensures var h := LoopGraph(g); var m := Swallowed(g[q.node]);
      SameShape(g, h) && WellFormed(h) && BuiltGraph(h) && PureGraph(h) && HasPort(h, q) && HasPort(h, r) &&
      At(h, q).conns == [r] && At(h, r).ptype.dir == Out && At(h, q).ptype.dir == In && Connected(h, r, q) &&
      At(h, r).ptype.oldMask == m && r.idx in m.pushOld && q.idx in m.pullOld &&
      q.idx in At(h, q).ptype.oldMask.pullNew
  {
    LoopGraphIs(g);
    OnlyProducer(g, r, q);
    PurePortsAre(g[r.node]);
  }

  lemma {:induction false} PropagateNothing(g: Graph, s: State, n: nat, bits: set<nat>, d: Direction, k: Freshness,
                                            i: nat)
    requires RefsExist(g) && n < |g| && i <= |g[n]| && |s.neg| == |g|
    requires forall j :: j in bits ==> j < i
    ensures Propagate(g, s, n, bits, d, k, i) == Outcome(true, s)
    decreases |g[n]| - i
  {
    if i < |g[n]| {
      PropagateNothing(g, s, n, bits, d, k, i + 1);
    }
  }

  lemma {:induction false} PropagateOne(g: Graph, s: State, n: nat, j: nat, d: Direction, k: Freshness, i: nat)
    requires RefsExist(g) && n < |g| && i <= j < |g[n]| && |s.neg| == |g| && g[n][j].ptype.dir == d
    ensures PortsExist(g, g[n][j].conns)
    ensures Propagate(g, s, n, {j}, d, k, i) == Outcome(true, OfferAll(g, s, g[n][j].conns, k))
    decreases |g[n]| - i
  {
    PortConnsExist(g, n, j);
    if i == j {
      PropagateNothing(g, OfferAll(g, s, g[n][j].conns, k), n, {j}, d, k, i + 1);
    } else {
      PropagateOne(g, s, n, j, d, k, i + 1);
    }
  }

  lemma LoopFirstStep(h: Graph, s: State, r: PortRef, q: PortRef)
    requires WellFormed(h) && Shaped(h, s) && HasPort(h, q) && At(h, q).conns == [r] && At(h, q).ptype.dir == In
    requires HasPort(h, r) && r.node == q.node
    requires var m := At(h, r).ptype.oldMask; q.idx in m.pullOld && r.idx in m.pushOld && m.pullNew == m.pushNew == {}
    requires s.list == [q.node] && s.prop[q.node] == EMPTY_MASK
    requires s.neg[q.node] == EMPTY_MASK.(pullOld := {q.idx})
    ensures var t := Step(h, s, q.node);
      var m := At(h, r).ptype.oldMask;
      t.ok && t.st.list == [q.node] && t.st.neg[q.node] == m && t.st.prop[q.node] == m
  {
    var n := q.node;
    var s0 := s.(list := []);
    assert Remove(s.list, n) == [];
    assert s.neg[n].Diff(s.prop[n]) == s.neg[n];
    PropagateNothing(h, s0, n, {}, In, New, 0);
    PropagateOne(h, s0, n, q.idx, In, Old, 0);
    var t := Offer(h, s0, r, Old);
    assert t.neg[n] == At(h, r).ptype.oldMask;
    assert OfferAll(h, s0, [r], Old) == t by {
      assert [r][1..] == [];
      assert OfferAll(h, t, [], Old) == t;
    }
    PropagateNothing(h, t, n, {}, Out, New, 0);
    PropagateNothing(h, t, n, {}, Out, Old, 0);
  }

  lemma IdleStep(h: Graph, s: State, n: nat)
    requires WellFormed(h) && Shaped(h, s) && n < |h| && s.list == [n] && s.prop[n] == s.neg[n]
    ensures Step(h, s, n).ok && Step(h, s, n).st.list == [] && Step(h, s, n).st.neg == s.neg
  {
    var s0 := s.(list := []);
    assert Remove(s.list, n) == [];
    assert s.neg[n].Diff(s.prop[n]) == EMPTY_MASK;
    PropagateNothing(h, s0, n, {}, In, New, 0);
    PropagateNothing(h, s0, n, {}, In, Old, 0);
    PropagateNothing(h, s0, n, {}, Out, New, 0);
    PropagateNothing(h, s0, n, {}, Out, Old, 0);
  }

  lemma LoopStartNegotiates(h: Graph, q: PortRef)
    requires WellFormed(h) && HasPort(h, q)
    ensures Negotiating(h, AllNodes(h), LoopStart(h, q)) && Startable(h, LoopStart(h, q))
  {
    var s := LoopStart(h, q);
    forall n | 0 <= n < |h| ensures Bounded(s.neg[n], |h[n]|) {
    }
  }

  /** On any graph with a self-loop, pure-functional node types make the negotiation report
      success with a rule still violated: the bits that a node offers to itself are marked as
      propagated without having been acted upon. */
  lemma SelfLoopIsSwallowed(g: Graph, r: PortRef, q: PortRef) returns (h: Graph, s: State)
    requires WellFormed(g) && Connected(g, r, q) && q.node == r.node && At(g, r).ptype.dir == Out
    ensures SameShape(g, h) && WellFormed(h) && BuiltGraph(h) && PureGraph(h) && Negotiating(h, AllNodes(h), s)
    ensures Converge(h, s).ok && !Closed(h, AllNodes(h), Converge(h, s).st.neg)
  {
    h := LoopGraph(g);
    s := LoopStart(h, q);
    LoopGraphMasks(g, r, q);
    LoopStartNegotiates(h, q);
    LoopConverges(h, s, r, q);
    LoopIsNotClosed(h, AllNodes(h), Converge(h, s).st.neg, r, q);
  }

  /** So the call on a component with a self-loop can break its first promise, that the
      negotiation ends at masks that satisfy all rules, although everything else that its
      promises rest on holds. */
  lemma SelfLoopBreaksComponent(g: Graph, r: PortRef, q: PortRef) returns (h: Graph, s: State, required: Mask)
    requires WellFormed(g) && Connected(g, r, q) && q.node == r.node && At(g, r).ptype.dir == Out
    ensures SameShape(g, h) && WellFormed(h) && PureGraph(h) && q.node < |h| && Typed(required, h[q.node])
    ensures MasksTyped(h) && NewDataIsPulled(h) && OldDataIsPushed(h)
    ensures ComponentStart(h, Component(h, q.node), s, q.node, required) && Startable(h, s)
    ensures Converge(h, s).ok && !Negotiated(h, Component(h, q.node), Converge(h, s).st, q.node)
  {
    h := LoopGraph(g);
    s := LoopStart(h, q);
    required := EMPTY_MASK.(pullOld := {q.idx});
    LoopGraphMasks(g, r, q);
    LoopStartIs(h, q);
    hide LoopGraph; hide LoopStart; hide WellFormed; hide PureGraph; hide Component; hide Converge; hide ComponentStart;
    hide MasksTyped; hide Negotiating; hide SameShape; hide BuiltGraph; hide NewDataIsPulled; hide OldDataIsPushed;
    PureGraphGuarantees(h);
    LoopConverges(h, s, r, q);
    LoopIsNotClosed(h, Component(h, q.node), Converge(h, s).st.neg, r, q);
  }

  lemma LoopStartIs(h: Graph, q: PortRef)
    requires WellFormed(h) && HasPort(h, q) && At(h, q).ptype.dir == In
    ensures var s := LoopStart(h, q); var required := EMPTY_MASK.(pullOld := {q.idx});
      && ComponentStart(h, Component(h, q.node), s, q.node, required) && q.node in Component(h, q.node)
      && Startable(h, s) && Typed(required, h[q.node])
      && s.list == [q.node] && s.prop[q.node] == EMPTY_MASK && s.neg[q.node] == required
  {
    ComponentIsScope(h, q.node);
    LoopStartNegotiates(h, q);
    assert Directed(h[q.node], q.idx, In);
  }

  lemma LoopConverges(h: Graph, s: State, r: PortRef, q: PortRef)
    requires WellFormed(h) && Startable(h, s) && HasPort(h, q) && At(h, q).conns == [r] && At(h, q).ptype.dir == In
    requires HasPort(h, r) && r.node == q.node
    requires var m := At(h, r).ptype.oldMask; q.idx in m.pullOld && r.idx in m.pushOld && m.pullNew == m.pushNew == {}
    requires s.list == [q.node] && s.prop[q.node] == EMPTY_MASK
    requires s.neg[q.node] == EMPTY_MASK.(pullOld := {q.idx})
    ensures Converge(h, s).ok && Converge(h, s).st.neg[q.node] == At(h, r).ptype.oldMask
  {
    LoopFirstStep(h, s, r, q);
    StepStartable(h, s, q.node);
    var t := Step(h, s, q.node).st;
    StepStartable(h, t, q.node);
    IdleStep(h, t, q.node);
    var u := Step(h, t, q.node).st;
    assert Converge(h, u) == Outcome(true, u);
    assert Converge(h, t) == Outcome(true, u);
  }

  lemma LoopIsNotClosed(h: Graph, c: set<nat>, neg: seq<Mask>, r: PortRef, q: PortRef)
    requires |neg| == |h| && HasPort(h, q) && Connected(h, r, q) && r.node == q.node && q.node in c
    requires r.idx in neg[q.node].pushOld && q.idx in At(h, q).ptype.oldMask.pullNew && neg[q.node].pullNew == {}
    ensures !Closed(h, c, neg)
  {
    if Closed(h, c, neg) {
      ClosedHonours(h, c, neg, r, Out, Old);
    }
  }

  lemma ClosedHonours(g: Graph, c: set<nat>, neg: seq<Mask>, r: PortRef, d: Direction, k: Freshness)
    requires Closed(g, c, neg) && r.node in c && r.node < |g| && r.idx in neg[r.node].Bits(d, k)
    ensures forall q :: Connected(g, r, q) && HasPort(g, q) ==> At(g, q).ptype.MaskFor(k).SubsetOf(neg[q.node])
  {
    assert Honoured(g, neg, r.node, r.idx, k);
    assert r == PortRef(r.node, r.idx);
  }

  ghost predicate AlwaysCloses(g: Graph) {
    forall h, s ::
      SameShape(g, h) && WellFormed(h) && Negotiating(h, AllNodes(h), s) && Startable(h, s) && Converge(h, s).ok ==>
      Closed(h, AllNodes(h), Converge(h, s).st.neg)
  }

  /** The same for masks that are built from definitions. */
  ghost predicate AlwaysClosesIfBuilt(g: Graph) {
    forall h, s ::
      SameShape(g, h) && WellFormed(h) && BuiltGraph(h) &&
      Negotiating(h, AllNodes(h), s) && Startable(h, s) && Converge(h, s).ok ==>
        Closed(h, AllNodes(h), Converge(h, s).st.neg)
  }

  /** Negotiation satisfies every rule, whatever the masks, exactly on the graphs
      in which no node is connected to itself; and so it does if only masks built from
      definitions are considered. */
  lemma ClosesIffNoSelfLoop(g: Graph)
    requires WellFormed(g)
    ensures AlwaysCloses(g) <==> NoSelfLoop(g, AllNodes(g))
    ensures AlwaysClosesIfBuilt(g) <==> NoSelfLoop(g, AllNodes(g))
  {
    if NoSelfLoop(g, AllNodes(g)) {
      forall h, s | SameShape(g, h) && WellFormed(h) && Negotiating(h, AllNodes(h), s) && Startable(h, s) &&
        Converge(h, s).ok
        ensures Closed(h, AllNodes(h), Converge(h, s).st.neg)
      {
        SameShapeConnected(g, h);
        assert Scope(h, AllNodes(h));
        ConvergeReachesLeastClosed(h, AllNodes(h), s);
      }
    } else {
      var r, q :| Connected(g, r, q) && r.node in AllNodes(g) && q.node == r.node;
      assert Connected(g, q, r);
      if At(g, r).ptype.dir == Out {
        var h, s := SelfLoopIsSwallowed(g, r, q);
      } else {
        var h, s := SelfLoopIsSwallowed(g, q, r);
      }
    }
  }
}
