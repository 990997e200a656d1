/** Scheduling of the connected component of one node: its required mask is
    negotiated with the component, and processing starts at the nodes that need no
    data themselves but have a consumer. */
module ComponentScheduling {
  import opened Digraph
  import opened DataflowGraph
  import opened NodeTypes
  import opened SchedulerState
  import opened MaskNegotiation
  import opened DependencyCounters
  import opened NodeScheduling
  import opened ProcessingOrder
  import opened ProcessingRun
  import opened GraphScheduling

  /** Two nodes share a connection, in either direction. */
  ghost predicate Adjacent(g: Graph, a: nat, b: nat) {
    exists r, q :: Connected(g, r, q) && r.node == a && q.node == b
  }

  ghost function ConnectionEdges(g: Graph): Edges {
    (a: nat, b: nat) => Adjacent(g, a, b)
  }

  /** The connected component of node `n`. */
  ghost function Component(g: Graph, n: nat): set<nat> {
    set x | x in AllNodes(g) && Reaches(ConnectionEdges(g), n, x)
  }

  lemma ComponentIsScope(g: Graph, n: nat)
    requires RefsExist(g) && n < |g|
    ensures Scope(g, Component(g, n)) && n in Component(g, n)
  {
    var e := ConnectionEdges(g);
    ReachesSelf(e, n);
    forall r, q | Connected(g, r, q) && r.node in Component(g, n) ensures q.node in Component(g, n) {
      assert Adjacent(g, r.node, q.node);
      ReachesEdge(e, r.node, q.node);
      ReachesTrans(e, n, r.node, q.node);
    }
  }

  /** Edges along connected ports that occur in the negotiated mask. */
  ghost function UsedEdges(g: Graph, neg: seq<Mask>): Edges
    requires |neg| == |g|
  {
    (a: nat, b: nat) => a < |g| && Neighbour(g, a, AllBits(neg[a]), b)
  }

  lemma UsedReachStaysInComponent(g: Graph, neg: seq<Mask>, n: nat, x: nat)
    requires RefsExist(g) && |neg| == |g| && n < |g| && Reaches(UsedEdges(g, neg), n, x)
    ensures x in Component(g, n)
  {
    ComponentIsScope(g, n);
    var p :| WalkFromTo(UsedEdges(g, neg), p, n, x);
    forall a: nat, b: nat | a in Component(g, n) && UsedEdges(g, neg)(a, b) ensures b in Component(g, n) {
      var i, q :| i in AllBits(neg[a]) && Connected(g, PortRef(a, i), q) && q.node == b;
    }
    ClosedContainsReachable(UsedEdges(g, neg), Component(g, n), p);
  }

  lemma UsedEdgesMonotone(g: Graph, a: seq<Mask>, b: seq<Mask>, n: nat, x: nat)
    requires |a| == |g| == |b| && Reaches(UsedEdges(g, a), n, x)
    requires forall m :: 0 <= m < |g| ==> a[m].SubsetOf(b[m])
    ensures Reaches(UsedEdges(g, b), n, x)
  {
    var p :| WalkFromTo(UsedEdges(g, a), p, n, x);
    var e := UsedEdges(g, b);
    forall i | 0 <= i < |p| - 1 ensures e(p[i], p[i + 1]) {
      assert UsedEdges(g, a)(p[i], p[i + 1]);
      var j, q :| j in AllBits(a[p[i]]) && Connected(g, PortRef(p[i], j), q) && q.node == p[i + 1];
      assert a[p[i]].SubsetOf(b[p[i]]);
      assert j in AllBits(b[p[i]]);
    }
    assert WalkFromTo(e, p, n, x);
  }

  /** All listed or non-idle nodes are reached from `n` along used ports. */
  ghost predicate Traced(g: Graph, c: set<nat>, s: State, n: nat) {
    Shaped(g, s) &&
    forall x :: x in c && x < |g| && (x in s.list || s.neg[x] != EMPTY_MASK) ==> Reaches(UsedEdges(g, s.neg), n, x)
  }

  lemma StepTraces(g: Graph, c: set<nat>, s: State, n: nat, x: nat)
    requires WellFormed(g) && Scope(g, c) && NoSelfLoop(g, c) && Negotiating(g, c, s) && Traced(g, c, s, n)
    requires x in s.list
    ensures Traced(g, c, Step(g, s, x).st, n)
  {
    StepNegotiates(g, c, s, x);
    var t := Step(g, s, x).st;
    var s0 := s.(list := Remove(s.list, x));
    RemoveElems(s.list, x);
    PropagateAllGrown(g, s0, x, s.neg[x].Diff(s.prop[x]));
    forall y | y in c && y < |g| && (y in t.list || t.neg[y] != EMPTY_MASK) ensures Reaches(UsedEdges(g, t.neg), n, y) {
      if t.neg[y] == s.neg[y] {
        assert y in s.list || s.neg[y] != EMPTY_MASK;
        UsedEdgesMonotone(g, s.neg, t.neg, n, y);
      } else {
        assert Neighbour(g, x, AllBits(s.neg[x]), y);
        ReachesEdge(UsedEdges(g, s.neg), x, y);
        ReachesTrans(UsedEdges(g, s.neg), n, x, y);
        UsedEdgesMonotone(g, s.neg, t.neg, n, y);
      }
    }
  }

  lemma {:induction false} ConvergeTraces(g: Graph, c: set<nat>, s: State, n: nat)
    requires WellFormed(g) && Scope(g, c) && NoSelfLoop(g, c) && Negotiating(g, c, s) && Traced(g, c, s, n)
    ensures Traced(g, c, Converge(g, s).st, n)
    decreases Missing(g, s.neg), |s.list|
  {
    if s.list != [] {
      var x := s.list[0];
      assert x in s.list;
      StepStartable(g, s, x);
      StepNegotiates(g, c, s, x);
      StepTraces(g, c, s, n, x);
      if Step(g, s, x).ok {
        ConvergeTraces(g, c, Step(g, s, x).st, n);
      }
    }
  }

  // ----- The state in which the negotiation of a component starts -----

  /** The nodes of `c` are reset, `n` has its required mask and is listed. Nothing is
      known of nodes outside `c`. */
  ghost predicate ComponentStart(g: Graph, c: set<nat>, s: State, n: nat, required: Mask) {
    && Shaped(g, s) && NegBounded(g, s.neg) && n in c && n < |g| && s.list == [n] && s.done == []
    && s.neg[n] == required
    && (forall x :: x in c && x < |g| ==>
      s.prop[x] == EMPTY_MASK && s.deps[x] == 0 && (x != n ==> s.neg[x] == EMPTY_MASK))
  }

  lemma ComponentStartNegotiates(g: Graph, c: set<nat>, s: State, n: nat, required: Mask)
    requires WellFormed(g) && Scope(g, c) && ComponentStart(g, c, s, n, required)
    ensures Negotiating(g, c, s) && Counted(g, c, s) && Traced(g, c, s, n)
  {
    forall x | x in c && x < |g| ensures HonoursAll(g, s.neg, x, s.prop[x]) && Typed(s.prop[x], g[x]) {
      EmptyHonoursAll(g, s.neg, x);
    }
    forall x | x in c && x < |g| && x !in s.list ensures Bracketed(g, s, x) {
      assert Awaited(g, s.neg, x) == {};
      assert SurelyAwaited(g, s.neg, x) == {};
    }
    ReachesSelf(UsedEdges(g, s.neg), n);
  }

  /** am_dfg_schedule_is_root. */
  predicate IsRoot(g: Graph, s: State, n: nat)
    requires RefsExist(g) && Shaped(g, s) && n < |g|
  {
    s.deps[n] == 0 &&
    exists i :: 0 <= i < |g[n]| && i in Pushes(s.neg[n]) && Activated(g, s.neg, s.gen, PortRef(n, i))
  }

  /** After the negotiation: exact counters, the least closed masks, and every root
      of the component within reach of the search for roots. */
  ghost predicate Negotiated(g: Graph, c: set<nat>, s: State, n: nat) {
    && WellFormed(g) && Scope(g, c) && Shaped(g, s) && s.list == [] && s.done == []
    && Closed(g, c, s.neg) && Exact(g, c, s)
    && (forall x :: x in c && x < |g| ==> Awaited(g, s.neg, x) == SurelyAwaited(g, s.neg, x))
    && (forall x :: x in c && x < |g| && s.neg[x] != EMPTY_MASK ==> Reaches(UsedEdges(g, s.neg), n, x))
  }

  lemma ComponentNegotiation(g: Graph, c: set<nat>, s: State, n: nat, required: Mask)
    requires WellFormed(g) && MasksTyped(g) && NewDataIsPulled(g) && Scope(g, c) && NoSelfLoop(g, c)
    requires ComponentStart(g, c, s, n, required) && Typed(required, g[n])
    ensures var r := Converge(g, s);
      r.ok && Negotiated(g, c, r.st, n) && LeastClosed(g, c, s.neg, r.st.neg) && Confined(c, s, r.st)
  {
    ComponentStartNegotiates(g, c, s, n, required);
    forall x | x in c && x < |g| ensures Typed(s.neg[x], g[x]) {
      EmptyHonoursAll(g, s.neg, x);
    }
    TypedMasksConverge(g, c, s);
    ConvergeNegotiates(g, c, s);
    ConvergeReachesLeastClosed(g, c, s);
    CountersExact(g, c, s);
    ConvergeTraces(g, c, s, n);
    var t := Converge(g, s).st;
    forall x | x in c && x < |g| ensures Awaited(g, t.neg, x) == SurelyAwaited(g, t.neg, x) {
      AwaitedIsSure(g, c, t.neg, x);
    }
  }

  /** What a schedulable component needs, at the place where it is needed. */
  lemma SchedulableNegotiation(g: Graph, s: State, n: nat, required: Mask)
    requires WellFormed(g) && Schedulable(g, n, required) && ComponentStart(g, Component(g, n), s, n, required)
    ensures Startable(g, s)
    ensures var r := Converge(g, s);
      && r.ok && Negotiated(g, Component(g, n), r.st, n) && r.st.gen == s.gen
      && LeastClosed(g, Component(g, n), s.neg, r.st.neg)
  {
    ComponentIsScope(g, n);
    ComponentStartNegotiates(g, Component(g, n), s, n, required);
    ComponentNegotiation(g, Component(g, n), s, n, required);
  }

  lemma RootIsReached(g: Graph, c: set<nat>, s: State, n: nat, x: nat)
    requires Negotiated(g, c, s, n) && x in c && x < |g| && IsRoot(g, s, x)
    ensures Reaches(UsedEdges(g, s.neg), n, x)
  {
    var i :| 0 <= i < |g[x]| && i in Pushes(s.neg[x]) && Activated(g, s.neg, s.gen, PortRef(x, i));
    assert i in s.neg[x].pushNew || i in s.neg[x].pushOld;
  }

  // ----- Processing -----

  /** Nodes without awaited inputs that are not roots never run. */
  ghost function IdleNodes(g: Graph, c: set<nat>, s: State): set<nat>
    requires RefsExist(g) && Shaped(g, s)
  {
    set x | x in c && x < |g| && s.deps[x] == 0 && !IsRoot(g, s, x)
  }

  /** `l` lists the roots of the component, in any order. */
  ghost predicate RootList(g: Graph, c: set<nat>, s: State, l: seq<nat>) {
    RefsExist(g) && Shaped(g, s) && Distinct(l) &&
    forall x :: x in l <==> x in c && x < |g| && IsRoot(g, s, x)
  }

  lemma RootsStartRunning(g: Graph, c: set<nat>, s: State, n: nat, l: seq<nat>)
    requires Negotiated(g, c, s, n) && RootList(g, c, s, l)
    ensures Running(g, c, s.(list := l), IdleNodes(g, c, s))
  {
    var t := s.(list := l);
    assert Queued(g, c, t, IdleNodes(g, c, s));
    assert Exact(g, c, t);
    ExactStartsRunning(g, c, t, IdleNodes(g, c, s));
  }

  /** A node of `c` with awaited inputs that has not been processed. */
  ghost predicate Waits(g: Graph, c: set<nat>, neg: seq<Mask>, done: seq<nat>, x: nat) {
    RefsExist(g) && |neg| == |g| && x in c && x < |g| && x !in done && Awaited(g, neg, x) != {}
  }

  /** Node `a` feeds an awaited input of `b`. */
  ghost predicate FeedsAwaited(g: Graph, neg: seq<Mask>, a: nat, b: nat) {
    RefsExist(g) && |neg| == |g| && b < |g| && exists j :: j in Awaited(g, neg, b) && g[b][j].conns[0].node == a
  }

  ghost function AwaitedEdges(g: Graph, neg: seq<Mask>): Edges {
    (a: nat, b: nat) => FeedsAwaited(g, neg, a, b)
  }

  lemma AwaitedIsFlow(g: Graph, neg: seq<Mask>, a: nat, b: nat)
    requires WellFormed(g) && FeedsAwaited(g, neg, a, b)
    ensures Feeds(g, a, b)
  {
    var j :| j in Awaited(g, neg, b) && g[b][j].conns[0].node == a;
    ProducerIsOutput(g, b, j);
  }

  /** The nodes that processing reaches: roots and nodes with awaited inputs, unless they
      are blocked along awaited inputs. */
  ghost predicate Runs(g: Graph, c: set<nat>, s: State, x: nat) {
    && RefsExist(g) && Shaped(g, s) && x in c && x < |g|
    && (IsRoot(g, s, x) || Awaited(g, s.neg, x) != {})
    && !Blocked(g, s.neg, AwaitedEdges(g, s.neg), x)
  }

  ghost predicate FedByWaits(g: Graph, c: set<nat>, neg: seq<Mask>, done: seq<nat>, x: nat) {
    exists m: nat :: Waits(g, c, neg, done, m) && FeedsAwaited(g, neg, m, x)
  }

  lemma WaitingIsFedByWaiting(g: Graph, c: set<nat>, s: State, n: nat, t: State, x: nat)
    requires Negotiated(g, c, s, n) && t.neg == s.neg
    requires Running(g, c, t, IdleNodes(g, c, s)) && t.list == []
    requires Waits(g, c, s.neg, t.done, x) && !Starved(g, s.neg, x)
    ensures FedByWaits(g, c, s.neg, t.done, x)
  {
    assert x !in IdleNodes(g, c, s) by {
      assert s.deps[x] == |Awaited(g, s.neg, x)|;
    }
    LeftOversAwait(g, c, t, IdleNodes(g, c, s), x);
    var j :| j in Awaited(g, s.neg, x) && PortRef(x, j) !in DeliveredBy(g, s.neg, t.done);
    var q := PortRef(x, j);
    assert j in SurelyAwaited(g, s.neg, x);
    var p := Producer(g, q);
    var m := p.node;
    assert Connected(g, q, p);
    assert Connected(g, p, q);
    assert !StarvedAt(g, s.neg, x, j);
    assert PortRef(m, p.idx) == p && p.idx in Pushes(s.neg[m]);
    DeliveredIs(g, s.neg, t.done, q);
    assert m !in t.done;
    if Awaited(g, s.neg, m) == {} {
      assert q in At(g, p).conns && q.idx in s.neg[q.node].pullOld;
      assert Activated(g, s.neg, s.gen, PortRef(m, p.idx));
      RootIsProcessed(g, c, s, t, m);
    }
    assert Waits(g, c, s.neg, t.done, m) && FeedsAwaited(g, s.neg, m, x);
  }

  lemma WaitingInComponentIsBlocked(g: Graph, c: set<nat>, neg: seq<Mask>, done: seq<nat>, x: nat)
    requires forall b: nat {:trigger FedByWaits(g, c, neg, done, b)} ::
      Waits(g, c, neg, done, b) && !Starved(g, neg, b) ==> FedByWaits(g, c, neg, done, b)
    requires Waits(g, c, neg, done, x)
    ensures Blocked(g, neg, AwaitedEdges(g, neg), x)
  {
    var waiting := set y | y in c && Waits(g, c, neg, done, y);
    var e := AwaitedEdges(g, neg);
    forall b | b in waiting && !Starved(g, neg, b) ensures HasPredecessorIn(e, waiting, b) {
      assert FedByWaits(g, c, neg, done, b);
      var m: nat :| Waits(g, c, neg, done, m) && FeedsAwaited(g, neg, m, b);
      assert m in waiting && e(m, b);
    }
    WaitingIsBlocked(g, neg, e, waiting, x);
  }

  /** Nodes are processed after the producers of their awaited inputs. */
  lemma OrderedIsInOrder(g: Graph, c: set<nat>, t: State, idle: set<nat>)
    requires Running(g, c, t, idle)
    ensures InOrder(AwaitedEdges(g, t.neg), t.done)
  {
    forall k: nat, m: nat | k < |t.done| && AwaitedEdges(g, t.neg)(m, t.done[k]) ensures EarlierIn(t.done, m, k) {
      var j :| j in Awaited(g, t.neg, t.done[k]) && g[t.done[k]][j].conns[0].node == m;
      assert ServedBefore(g, t.neg, t.done, k, j);
      var l, i :| 0 <= l < k && i in Pushes(t.neg[t.done[l]]) &&
        Connected(g, PortRef(t.done[l], i), PortRef(t.done[k], j));
      assert t.done[l] in t.done;
      PushesAreOutputs(g, t.done[l], t.neg[t.done[l]], i);
      OnlyProducer(g, PortRef(t.done[l], i), PortRef(t.done[k], j));
    }
  }

  lemma DoneRuns(g: Graph, c: set<nat>, s: State, t: State, x: nat)
    requires RefsExist(g) && Shaped(g, s) && Exact(g, c, s) && t.neg == s.neg
    requires Running(g, c, t, IdleNodes(g, c, s)) && x in t.done
    ensures Runs(g, c, s, x)
  {
    OrderedIsInOrder(g, c, t, IdleNodes(g, c, s));
    forall m | m in t.done ensures !Starved(g, s.neg, m) {
      ProcessedIsFed(g, c, t, IdleNodes(g, c, s), m);
    }
    InOrderIsNotBlocked(g, s.neg, AwaitedEdges(g, t.neg), t.done, x);
    assert x !in IdleNodes(g, c, s);
  }

  /** A root awaits nothing, so that it is not blocked and always runs. */
  lemma RootsRun(g: Graph, c: set<nat>, s: State, x: nat)
    requires RefsExist(g) && Shaped(g, s) && Exact(g, c, s) && x in c && x < |g| && IsRoot(g, s, x)
    ensures Runs(g, c, s, x)
  {
    var e := AwaitedEdges(g, s.neg);
    assert Awaited(g, s.neg, x) == {};
    if Blocked(g, s.neg, e, x) {
      var m: nat :| (OnCycle(e, m) || Starved(g, s.neg, m)) && Reaches(e, m, x);
      if m != x {
        ReachesHasPredecessor(e, m, x);
      } else {
        BelowCycleHasPredecessor(e, x);
      }
    }
  }

  /** A node of `fails` that processing reaches, and whose process function is perhaps needed. */
  ghost predicate FailsAtRun(g: Graph, c: set<nat>, s: State, fails: set<nat>, x: nat) {
    Runs(g, c, s, x) && x in fails && PerhapsNeeded(g, s.neg, x)
  }

  /** Processing a negotiated component, whatever the order of its roots: it fails only if a
      process function fails of a node that is reached and perhaps needed, and succeeds only
      if none fails of a node that is processed and surely needed; no node is processed twice
      or before the producer of one of its activated inputs; and the nodes processed are
      exactly the roots and the nodes with activated inputs that are not blocked. */
  lemma ComponentProcessing(g: Graph, c: set<nat>, s: State, n: nat, l: seq<nat>, fails: set<nat>)
    requires Negotiated(g, c, s, n) && RootList(g, c, s, l)
    ensures Shaped(g, s.(list := l))
    ensures var r := ScheduleNodes(g, s.(list := l), fails);
      (!r.ok ==> exists x :: FailsAtRun(g, c, s, fails, x)) &&
      (r.ok ==>
        && r.st.list == [] && Distinct(r.st.done) && Ordered(g, s.neg, r.st.done)
        && (forall x :: x in r.st.done <==> Runs(g, c, s, x))
        && (forall x :: x in r.st.done && SurelyNeeded(g, s.neg, x) ==> x !in fails))
  {
    RootsStartRunning(g, c, s, n, l);
    ScheduleNodesKeeps(g, c, s.(list := l), IdleNodes(g, c, s), fails);
    var r := ScheduleNodes(g, s.(list := l), fails);
    if !r.ok {
      var x, u := FailureHasCause(g, c, s.(list := l), IdleNodes(g, c, s), fails);
      DoneRuns(g, c, s, u, x);
      assert FailsAtRun(g, c, s, fails, x);
    } else {
      SuccessMeansNoFailure(g, c, s.(list := l), IdleNodes(g, c, s), fails);
      forall x: nat | Waits(g, c, s.neg, r.st.done, x) && !Starved(g, s.neg, x)
        ensures FedByWaits(g, c, s.neg, r.st.done, x)
      {
        WaitingIsFedByWaiting(g, c, s, n, r.st, x);
      }
      forall x: nat ensures x in r.st.done <==> Runs(g, c, s, x) {
        if x in r.st.done {
          DoneRuns(g, c, s, r.st, x);
        } else if Runs(g, c, s, x) {
          if IsRoot(g, s, x) {
            RootIsProcessed(g, c, s, r.st, x);
          } else {
            WaitingInComponentIsBlocked(g, c, s.neg, r.st.done, x);
          }
        }
      }
    }
  }

  lemma RootIsProcessed(g: Graph, c: set<nat>, s: State, t: State, x: nat)
    requires RefsExist(g) && Shaped(g, s) && Exact(g, c, s) && t.neg == s.neg
    requires Running(g, c, t, IdleNodes(g, c, s)) && t.list == []
    requires x in c && x < |g| && IsRoot(g, s, x)
    ensures x in t.done
  {
    var p := Pending(g, s.neg, x, DeliveredBy(g, s.neg, t.done));
    assert |Awaited(g, s.neg, x)| == 0;
    assert p == {};
    assert t.deps[x] == |p|;
  }

  // ----- Resetting a component -----

  /** From `a` to `b` exactly the nodes in `xs` have been reset. */
  ghost predicate ResetExactly(a: State, b: State, xs: set<nat>) {
    && |a.neg| == |b.neg| == |a.prop| == |b.prop| == |a.deps| == |b.deps|
    && b.gen == a.gen && b.list == a.list && b.done == a.done
    && (forall x :: 0 <= x < |a.neg| && x in xs ==> b.neg[x] == EMPTY_MASK && b.prop[x] == EMPTY_MASK && b.deps[x] == 0)
    && (forall x :: 0 <= x < |a.neg| && x !in xs ==>
      b.neg[x] == a.neg[x] && b.prop[x] == a.prop[x] && b.deps[x] == a.deps[x])
  }

  lemma ResetOne(a: State, b: State, n: nat)
    requires |a.neg| == |a.prop| == |a.deps| && n < |a.neg|
    requires b == a.(neg := a.neg[n := EMPTY_MASK], prop := a.prop[n := EMPTY_MASK], deps := a.deps[n := 0])
    ensures ResetExactly(a, b, {n})
  {
  }

  lemma ResetTwice(a: State, b: State, c: State, xs: set<nat>, ys: set<nat>)
    requires ResetExactly(a, b, xs) && ResetExactly(b, c, ys)
    ensures ResetExactly(a, c, xs + ys)
  {
  }

  lemma ResetStarts(g: Graph, a: State, b: State, xs: set<nat>, n: nat, required: Mask)
    requires RefsExist(g) && Shaped(g, a) && NegBounded(g, a.neg) && n < |g| && n in xs
    requires ResetExactly(a, b, xs) && a.done == [] && Bounded(required, |g[n]|)
    ensures Startable(g, b.(neg := b.neg[n := required], list := [n]))
    ensures ComponentBegins(g, a, b.(neg := b.neg[n := required], list := [n]), xs, n, required)
  {
    var s := b.(neg := b.neg[n := required], list := [n]);
    forall x | 0 <= x < |g| ensures Bounded(s.neg[x], |g[x]|) {
      if x != n && x in xs {
        EmptyBounded(|g[x]|);
      }
    }
  }

  lemma EmptyBounded(n: nat)
    ensures Bounded(EMPTY_MASK, n)
  {
    BoundedIsBelowFull(EMPTY_MASK, n);
  }

  // ----- Collecting roots -----

  /** From `a` to `b` the list has gained exactly the roots among `xs`. */
  ghost predicate RootsAdded(g: Graph, s: State, a: seq<nat>, b: seq<nat>, xs: set<nat>) {
    RefsExist(g) && Shaped(g, s) && Distinct(b) &&
    forall x :: x in b <==> x in a || (x in xs && x < |g| && IsRoot(g, s, x))
  }

  lemma RootsAddedTwice(g: Graph, s: State, a: seq<nat>, b: seq<nat>, c: seq<nat>, xs: set<nat>, ys: set<nat>)
    requires RootsAdded(g, s, a, b, xs) && RootsAdded(g, s, b, c, ys)
    ensures RootsAdded(g, s, a, c, xs + ys)
  {
  }

  /** `l` lists the roots that are reached from `n` over ports in use past the nodes in
      `seen`, in any order. */
  ghost predicate RootsFound(g: Graph, s: State, n: nat, seen: set<nat>, l: seq<nat>) {
    RefsExist(g) && Shaped(g, s) && Distinct(l) &&
    forall x: nat :: x in l <==> ReachesAvoiding(UsedEdges(g, s.neg), seen, n, x) && x < |g| && IsRoot(g, s, x)
  }

  lemma FoundRootsAreRoots(g: Graph, s: State, n: nat, seen: set<nat>, l: seq<nat>)
    requires Negotiated(g, Component(g, n), s, n) && n < |g| && RootsFound(g, s, n, seen, l)
    requires seen !! Component(g, n)
    ensures RootList(g, Component(g, n), s, l)
  {
    var c := Component(g, n);
    var e := UsedEdges(g, s.neg);
    forall x: nat | x in seen ensures !Reaches(e, n, x) {
      if Reaches(e, n, x) { UsedReachStaysInComponent(g, s.neg, n, x); }
    }
    forall x ensures x in l <==> x in c && x < |g| && IsRoot(g, s, x) {
      if x in l {
        AvoidingReaches(e, seen, n, x);
        UsedReachStaysInComponent(g, s.neg, n, x);
      }
      if x in c && x < |g| && IsRoot(g, s, x) {
        RootIsReached(g, c, s, n, x);
        AvoidingNothing(e, seen, n, x);
      }
    }
  }

  // ----- Every call, whether or not the results above apply -----

  /** The nodes in `xs` are reset, `n` has its required mask and is listed alone, and
      everything else is as in `a`. */
  ghost predicate ComponentBegins(g: Graph, a: State, s: State, xs: set<nat>, n: nat, required: Mask) {
    && Shaped(g, a) && ComponentStart(g, xs, s, n, required) && s.gen == a.gen
    && (forall x :: 0 <= x < |g| && x !in xs ==>
         s.neg[x] == a.neg[x] && s.prop[x] == a.prop[x] && s.deps[x] == a.deps[x])
  }

  /** Negotiation from `start` to `mid`, the search for the roots `l` past the nodes in
      `seen`, and processing up to `t`; nothing is left open but the order of the roots. */
  ghost predicate ComponentRun(g: Graph, start: State, mid: State, n: nat, seen: set<nat>, l: seq<nat>,
                               fails: set<nat>, failed: bool, t: State) {
    && WellFormed(g) && Startable(g, start) && mid == Converge(g, start).st
    && if !Converge(g, start).ok then failed && t == mid
       else if l == [] then RootsFound(g, mid, n, seen, l) && failed && t == mid
       else RootsFound(g, mid, n, seen, l) && Outcome(!failed, t) == ScheduleNodes(g, mid.(list := l), fails)
  }

  // ----- The outcome of scheduling a component -----

  /** What the results on components rest on; pure-functional nodes meet the conditions on
      port types. */
  ghost predicate Schedulable(g: Graph, n: nat, required: Mask) {
    && MasksTyped(g) && NewDataIsPulled(g)
    && n < |g| && NoSelfLoop(g, Component(g, n)) && Typed(required, g[n])
  }

  /** Processing after the negotiation has ended in `mid`. */
  ghost predicate ComponentOutcome(g: Graph, c: set<nat>, mid: State, fails: set<nat>, failed: bool, t: State) {
    && RefsExist(g) && Shaped(g, mid) && Shaped(g, t) && t.neg == mid.neg
    && (failed ==>
      (forall x :: x in c && x < |g| ==> !IsRoot(g, mid, x)) || exists x :: FailsAtRun(g, c, mid, fails, x))
    && (!failed ==>
      && (exists x :: x in c && x < |g| && IsRoot(g, mid, x))
      && t.list == [] && Distinct(t.done) && Ordered(g, mid.neg, t.done)
      && (forall x :: x in t.done <==> Runs(g, c, mid, x))
      && (forall x :: x in t.done && SurelyNeeded(g, mid.neg, x) ==> x !in fails))
  }

  lemma RootsFoundAndProcessed(g: Graph, n: nat, mid: State, l: seq<nat>, fails: set<nat>)
    requires n < |g| && Negotiated(g, Component(g, n), mid, n)
    requires RootList(g, Component(g, n), mid, l)
    ensures l == [] ==> ComponentOutcome(g, Component(g, n), mid, fails, true, mid)
    ensures Shaped(g, mid.(list := l))
    ensures l != [] ==>
      var r := ScheduleNodes(g, mid.(list := l), fails);
      ComponentOutcome(g, Component(g, n), mid, fails, !r.ok, r.st)
    ensures var r := ScheduleNodes(g, mid.(list := l), fails);
      GenerationsValid(g, mid.gen) ==> GenerationsValid(g, r.st.gen) && (r.ok ==> Synced(g, r.st))
  {
    var c := Component(g, n);
    ComponentProcessing(g, c, mid, n, l, fails);
    if l != [] {
      assert l[0] in l;
    }
    if GenerationsValid(g, mid.gen) {
      RootsStartRunning(g, c, mid, n, l);
      ScheduleNodesSyncs(g, c, mid.(list := l), IdleNodes(g, c, mid), fails);
    }
  }

  /** What a call promises when the component has been reset and is schedulable. */
  lemma ComponentRunKeepsPromises(g: Graph, a: State, start: State, mid: State, n: nat, required: Mask,
                                  seen: set<nat>, l: seq<nat>, fails: set<nat>, failed: bool, t: State)
    requires ComponentBegins(g, a, start, Component(g, n), n, required)
    requires ComponentRun(g, start, mid, n, seen, l, fails, failed, t) && seen !! Component(g, n)
    requires Schedulable(g, n, required)
    ensures Negotiated(g, Component(g, n), mid, n) && LeastClosed(g, Component(g, n), start.neg, mid.neg)
    ensures ComponentOutcome(g, Component(g, n), mid, fails, failed, t)
    ensures GenerationsValid(g, a.gen) ==> GenerationsValid(g, t.gen) && (!failed ==> Synced(g, t))
  {
    hide Negotiated; hide LeastClosed; hide ComponentOutcome; hide Component;
    SchedulableNegotiation(g, start, n, required);
    FoundRootsAreRoots(g, mid, n, seen, l);
    RootsFoundAndProcessed(g, n, mid, l, fails);
  }

  /** If outputs answer pulls for old data, no node of a negotiated component is starved. */
  lemma AnsweringIsFed(g: Graph, c: set<nat>, s: State, n: nat, x: nat)
    requires Negotiated(g, c, s, n) && OldDataIsPushed(g) && x in c
    ensures !Starved(g, s.neg, x)
  {
    forall j | j in Awaited(g, s.neg, x) ensures !StarvedAt(g, s.neg, x, j) {
      assert j in SurelyAwaited(g, s.neg, x);
      assert j in s.neg[x].Bits(In, Old);
      OldPullIsAnswered(g, s.neg, PortRef(x, j));
    }
  }

  /** What leads to a node of `c` along awaited inputs lies in `c`. */
  lemma AwaitedReachStaysInScope(g: Graph, c: set<nat>, neg: seq<Mask>, w: seq<nat>)
    requires WellFormed(g) && Scope(g, c) && Walk(AwaitedEdges(g, neg), w) && w[|w| - 1] in c
    ensures w[0] in c
    decreases |w|
  {
    if |w| > 1 {
      var e := AwaitedEdges(g, neg);
      assert e(w[0], w[1]);
      AwaitedReachStaysInScope(g, c, neg, w[1..]);
      AwaitedIsFlow(g, neg, w[0], w[1]);
      var r, q :| Connected(g, r, q) && At(g, r).ptype.dir == Out && r.node == w[0] && q.node == w[1];
      assert Connected(g, q, r);
    }
  }

  /** On acyclic graphs whose outputs answer pulls for old data no node is blocked. */
  lemma AcyclicAwaits(g: Graph, c: set<nat>, s: State, n: nat, x: nat)
    requires Negotiated(g, c, s, n) && OldDataIsPushed(g) && !Cyclic(FlowEdges(g)) && x in c
    ensures !Blocked(g, s.neg, AwaitedEdges(g, s.neg), x)
  {
    var e := AwaitedEdges(g, s.neg);
    forall m: nat | Reaches(e, m, x) ensures !OnCycle(e, m) && !Starved(g, s.neg, m) {
      var w :| WalkFromTo(e, w, m, x);
      AwaitedReachStaysInScope(g, c, s.neg, w);
      AnsweringIsFed(g, c, s, n, m);
      if OnCycle(e, m) {
        forall a: nat, b: nat | e(a, b) ensures FlowEdges(g)(a, b) {
          AwaitedIsFlow(g, s.neg, a, b);
        }
        ReachesSelf(e, m);
        BelowCycleMonotone(e, FlowEdges(g), m);
      }
    }
  }

  /** Without roots, no node of an acyclic component awaits an input. */
  lemma NoRootsNothingAwaited(g: Graph, c: set<nat>, s: State, n: nat, x: nat)
    requires Negotiated(g, c, s, n) && OldDataIsPushed(g) && !Cyclic(FlowEdges(g))
    requires forall y :: y in c && y < |g| ==> !IsRoot(g, s, y)
    requires x in c && x < |g|
    ensures Awaited(g, s.neg, x) == {}
  {
    ComponentProcessing(g, c, s, n, [], {});
    assert s.(list := []) == s;
    if Awaited(g, s.neg, x) != {} {
      AcyclicAwaits(g, c, s, n, x);
      assert Runs(g, c, s, x);
    }
  }

  /** On acyclic graphs of pure-functional nodes whose process functions succeed, a call
      fails only if no node of the component awaits data or has to provide some. If any
      awaits data, exactly the roots and the nodes with an activated input are processed,
      each once and after the producers of its activated inputs. */
  lemma PureAcyclicComponentIsFullyScheduled(g: Graph, a: State, start: State, mid: State, n: nat, required: Mask,
                                             seen: set<nat>, l: seq<nat>, failed: bool, t: State)
    requires WellFormed(g) && PureGraph(g) && !Cyclic(FlowEdges(g)) && n < |g| && Typed(required, g[n])
    requires ComponentBegins(g, a, start, Component(g, n), n, required)
    requires ComponentRun(g, start, mid, n, seen, l, {}, failed, t) && seen !! Component(g, n)
    ensures Schedulable(g, n, required) && OldDataIsPushed(g) && Shaped(g, mid)
    ensures forall x: nat :: x in Component(g, n) && x < |g| && Awaited(g, mid.neg, x) != {} ==> !failed && x in t.done
    ensures failed ==> forall x: nat :: x in Component(g, n) && x < |g| ==>
      !IsRoot(g, mid, x) && Awaited(g, mid.neg, x) == {}
    ensures !failed ==> Distinct(t.done) && Ordered(g, mid.neg, t.done)
    ensures !failed ==> forall x: nat :: x in t.done <==>
      x in Component(g, n) && x < |g| && (IsRoot(g, mid, x) || Awaited(g, mid.neg, x) != {})
  {
    PureGraphGuarantees(g);
    AcyclicHasNoSelfLoop(g);
    ComponentRunKeepsPromises(g, a, start, mid, n, required, seen, l, {}, failed, t);
    forall x: nat | x in Component(g, n) && x < |g|
      ensures failed ==> !IsRoot(g, mid, x) && Awaited(g, mid.neg, x) == {}
      ensures !failed ==> (x in t.done <==> IsRoot(g, mid, x) || Awaited(g, mid.neg, x) != {})
    {
      if failed {
        NoRootsNothingAwaited(g, Component(g, n), mid, n, x);
      } else {
        AcyclicAwaits(g, Component(g, n), mid, n, x);
      }
    }
  }
}
