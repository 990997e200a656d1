/** What the search for cycles means for the scheduler: both use the same markings, and a
    number that the search leaves behind has a meaning for the scheduler, too. */
module SharedMarkings {
  import opened Wrappers
  import opened Digraph
  import opened DataflowGraph
  import opened NodeTypes
  import opened SchedulerState
  import opened MaskNegotiation
  import opened ProcessingOrder
  import opened ProcessingRun
  import opened ComponentScheduling
  import opened NodeMarking
  import opened CycleCheck

  /** What a call promises when no node of the component is stuck. */
  lemma UnstuckRunKeepsPromises(g: Graph, marks: seq<Marking>, a: State, start: State, mid: State, n: nat,
                                required: Mask, l: seq<nat>, fails: set<nat>, failed: bool, t: State)
    requires |marks| == |g| && n < |g| && Unstuck(g, marks, n)
    requires ComponentBegins(g, a, start, ResetSet(g, marks, n), n, required)
    requires ComponentRun(g, start, mid, n, SeenBefore(g, AfterReset(g, marks, n), n), l, fails, failed, t)
    requires Schedulable(g, n, required)
    ensures Negotiated(g, Component(g, n), mid, n) && LeastClosed(g, Component(g, n), start.neg, mid.neg)
    ensures ComponentOutcome(g, Component(g, n), mid, fails, failed, t)
    ensures GenerationsValid(g, a.gen) ==> GenerationsValid(g, t.gen) && (!failed ==> Synced(g, t))
  {
    ResetsComponentIff(g, marks, n);
    ResetIsNotSeen(g, marks, n);
    hide ComponentBegins; hide ComponentRun; hide Component; hide Schedulable; hide AfterReset;
    ComponentRunKeepsPromises(g, a, start, mid, n, required, SeenBefore(g, AfterReset(g, marks, n), n), l, fails,
      failed, t);
  }

  /** A search without result leaves the number of nodes being marked in all nodes. The
      marking that precedes a reset has no effect then, but the reset covers the component. */
  lemma AcyclicCheckIsHarmless(g: Graph, extra: Leg, ignore: Option<Leg>, marks: seq<Marking>, stack: seq<nat>,
                               finished: seq<nat>, n: nat)
    requires CheckLeaves(g, extra, ignore, false, marks, stack, finished) && n < |g|
    ensures forall x :: 0 <= x < |g| ==> marks[x] == MARKING
    ensures Painting(g, marks, n, NONE) == marks
    ensures Unstuck(g, marks, n)
  {
    var e := ConnectionEdges(g);
    forall x: nat | x < |g| ensures !ReachesAvoiding(e, Marked(g, marks, MARKING), n, x) {
      if ReachesAvoiding(e, Marked(g, marks, MARKING), n, x) {
        AvoidingReaches(e, Marked(g, marks, MARKING), n, x);
      }
    }
  }

  /** A search that finds a cycle leaves the number of reset nodes on its stack. If it had
      finished with a node before, a reset that starts there leaves out all nodes of the
      stack. */
  lemma StackIsStuck(g: Graph, extra: Leg, ignore: Option<Leg>, marks: seq<Marking>, stack: seq<nat>,
                     finished: seq<nat>, n: nat, x: nat)
    requires CheckLeaves(g, extra, ignore, true, marks, stack, finished) && n in finished && x in stack
    ensures n < |g| && x < |g| && marks[x] == RESET && x in Stuck(g, marks, n) && x !in ResetSet(g, marks, n)
    ensures x in Component(g, n) ==> !Unstuck(g, marks, n)
  {
    var e := ConnectionEdges(g);
    if ReachesAvoiding(e, Marked(g, marks, MARKING), n, x) {
      AvoidingReaches(e, Marked(g, marks, MARKING), n, x);
    }
    assert x in Stuck(g, marks, n);
    if ReachesAvoiding(e, Stuck(g, marks, n), n, x) {
      AvoidingReaches(e, Stuck(g, marks, n), n, x);
    }
  }

  // ----- An example -----

  function Plain(d: Direction, conns: seq<PortRef>): Port {
    Port(PortType(d, EMPTY_MASK, EMPTY_MASK), conns)
  }

  /** Node 1 feeds nodes 0 and 2. */
  function Fork(): Graph {
    [[Plain(In, [PortRef(1, 0)])],
     [Plain(Out, [PortRef(0, 0)]), Plain(Out, [PortRef(2, 0)]), Plain(In, [])],
     [Plain(In, [PortRef(1, 1)]), Plain(Out, [])]]
  }

  /** A connection back from node 2 to node 1. */
  const BACK := Leg(PortRef(2, 1), PortRef(1, 2))

  lemma ForkConnections(r: PortRef, q: PortRef)
    requires Connected(Fork(), r, q)
    ensures HasPort(Fork(), q) && Connected(Fork(), q, r) && At(Fork(), q).ptype.dir != At(Fork(), r).ptype.dir
  {
    assert (r == PortRef(0, 0) && q == PortRef(1, 0)) || (r == PortRef(1, 0) && q == PortRef(0, 0)) ||
      (r == PortRef(1, 1) && q == PortRef(2, 0)) || (r == PortRef(2, 0) && q == PortRef(1, 1));
  }

  lemma ForkPorts(r: PortRef)
    requires HasPort(Fork(), r)
    ensures var p := At(Fork(), r); p == Plain(p.ptype.dir, p.conns) && |p.conns| <= 1
  {
  }

  lemma ForkWellFormed()
    ensures WellFormed(Fork()) && HasPort(Fork(), BACK.src) && HasPort(Fork(), BACK.dst)
  {
    var g := Fork();
    forall r | HasPort(g, r) ensures var p := At(g, r); p == Plain(p.ptype.dir, p.conns) && |p.conns| <= 1 {
      ForkPorts(r);
    }
    forall r, q | Connected(g, r, q)
      ensures HasPort(g, q) && Connected(g, q, r) && At(g, q).ptype.dir != At(g, r).ptype.dir
    {
      ForkConnections(r, q);
    }
  }

  lemma ForkEdges(a: nat, b: nat)
    ensures SearchEdges(Fork(), BACK, None)(a, b) <==> (a == 1 && (b == 0 || b == 2)) || (a == 2 && b == 1)
  {
    var g := Fork();
    assert Considered(g, BACK, None, BACK);
    assert Considered(g, BACK, None, Leg(PortRef(1, 0), PortRef(0, 0)));
    assert Considered(g, BACK, None, Leg(PortRef(1, 1), PortRef(2, 0)));
  }

  lemma ForkIsConnected()
    ensures Component(Fork(), 0) == {0, 1, 2}
  {
    var g := Fork();
    var e := ConnectionEdges(g);
    assert Connected(g, PortRef(0, 0), PortRef(1, 0)) && Connected(g, PortRef(1, 1), PortRef(2, 0));
    assert Adjacent(g, 0, 1) && Adjacent(g, 1, 2);
    ReachesSelf(e, 0);
    ReachesEdge(e, 0, 1);
    ReachesEdge(e, 1, 2);
    ReachesTrans(e, 0, 1, 2);
  }

  /** The search for cycles with the connection back finishes node 0 and then finds the
      cycle through nodes 1 and 2. */
  lemma ForkSearch(found: bool, marks: seq<Marking>, stack: seq<nat>, finished: seq<nat>)
    requires CheckLeaves(Fork(), BACK, None, found, marks, stack, finished)
    ensures found && 0 in finished && 1 in stack && 2 in stack
    ensures marks == [VISITED, MARKED, MARKED]
  {
    var g := Fork();
    var e := SearchEdges(g, BACK, None);
    forall a: nat, b: nat ensures e(a, b) <==> (a == 1 && (b == 0 || b == 2)) || (a == 2 && b == 1) {
      ForkEdges(a, b);
    }
    assert !(1 in finished && 2 in finished) by {
      if 1 in finished {
        assert WalkFromTo(e, [1, 2, 1], 1, 1);
        CycleWitness(e, 1, [1, 2, 1]);
        ReachesSelf(e, 1);
        FinishedReachesNoCycle(e, finished, 1, 1);
      }
    }
    forall n: nat ensures LooseRoot(g, None, n) {
      ForkWellFormed();
      AllAreLooseRoots(g, None, n);
    }
    assert stack != [];
    ForkStack(stack);
    assert marks[0] == VISITED && marks[1] == MARKED && marks[2] == MARKED;
  }

  lemma ForkStack(stack: seq<nat>)
    requires LoopsBack(SearchEdges(Fork(), BACK, None), stack)
    ensures stack[0] != 0 && 1 in stack && 2 in stack
  {
    var e := SearchEdges(Fork(), BACK, None);
    forall a: nat, b: nat ensures e(a, b) <==> (a == 1 && (b == 0 || b == 2)) || (a == 2 && b == 1) {
      ForkEdges(a, b);
    }
    var last := stack[|stack| - 1];
    var y: nat :| y in stack && e(last, y);
    assert last in stack;
    if |stack| > 1 {
      assert e(stack[0], stack[1]);
    }
    var j :| 0 <= j < |stack| && stack[j] == y;
    assert j < |stack| - 1 ==> e(stack[j], stack[j + 1]);
  }

  /** Scheduling the component of node 0 right after that search resets node 0 only,
      though nodes 1 and 2 belong to its component. */
  lemma StaleAfterCheck(found: bool, marks: seq<Marking>, stack: seq<nat>, finished: seq<nat>)
    requires CheckLeaves(Fork(), BACK, None, found, marks, stack, finished)
    ensures |marks| == 3 && Component(Fork(), 0) == {0, 1, 2} && ResetSet(Fork(), marks, 0) == {0}
    ensures !Unstuck(Fork(), marks, 0)
  {
    var g := Fork();
    ForkSearch(found, marks, stack, finished);
    ForkIsConnected();
    StackIsStuck(g, BACK, None, marks, stack, finished, 0, 1);
    StackIsStuck(g, BACK, None, marks, stack, finished, 0, 2);
    StuckIs(g, marks, 0);
    ResetsComponentIff(g, marks, 0);
  }
}
