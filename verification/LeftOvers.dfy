/** What a call on a component does with nodes that the reset has left out: they keep masks
    and counters of earlier calls, or of no call at all. */
module LeftOvers {
  import opened Digraph
  import opened DataflowGraph
  import opened NodeTypes
  import opened SchedulerState
  import opened MaskNegotiation
  import opened DependencyCounters
  import opened NodeScheduling
  import opened ProcessingOrder
  import opened ProcessingRun
  import opened GraphScheduling
  import opened ComponentScheduling
  import opened NodeMarking

  // ----- Negotiation never returns to a node whose mask is full -----

  /** All masks on `c` lie below masks `top` that satisfy all rules. */
  ghost predicate Bound(g: Graph, c: set<nat>, s: State, top: seq<Mask>) {
    && WellFormed(g) && Scope(g, c) && Startable(g, s) && Closed(g, c, top)
    && Below(c, s.neg, top) && Below(c, s.prop, top) && forall n :: n in s.list ==> n in c
  }

  lemma DiffBelow(a: Mask, b: Mask, top: Mask)
    requires a.SubsetOf(top) && b.SubsetOf(top)
    ensures a.Diff(b).SubsetOf(top)
  {
  }

  lemma PartHonoured(g: Graph, top: seq<Mask>, n: nat, m: Mask)
    requires |top| == |g| && n < |g| && HonoursAll(g, top, n, top[n]) && Typed(top[n], g[n]) && m.SubsetOf(top[n])
    ensures HonoursAll(g, top, n, m) && Typed(m, g[n])
  {
    forall d: Direction, k: Freshness, i: nat | i in m.Bits(d, k)
      ensures Honoured(g, top, n, i, k) && Directed(g[n], i, d)
    {
      assert i in top[n].Bits(d, k);
    }
  }

  lemma StepBound(g: Graph, c: set<nat>, s: State, top: seq<Mask>, n: nat, x: nat)
    requires Bound(g, c, s, top) && n in s.list && x in c && x !in s.list && x < |g| && s.neg[x] == top[x]
    ensures var r := Step(g, s, n);
      && r.ok && Bound(g, c, r.st, top) && x !in r.st.list
      && r.st.neg[x] == top[x] && r.st.deps[x] == s.deps[x]
  {
    var s0 := s.(list := Remove(s.list, n));
    RemoveElems(s.list, n);
    var m := s.neg[n].Diff(s.prop[n]);
    DiffBelow(s.neg[n], s.prop[n], top[n]);
    PartHonoured(g, top, n, m);
    StepStartable(g, s, n);
    PropagateAllShape(g, s0, n, m);
    PropagateAllBelow(g, c, s0, n, m, top);
    PropagateAllSpreads(g, s0, n, m);
    var t := PropagateAll(g, s0, n, m).st;
    assert t.neg[x] == s.neg[x] by {
      assert t.neg[x].SubsetOf(top[x]) && s.neg[x].SubsetOf(t.neg[x]);
      SubsetAntisym(t.neg[x], s.neg[x]);
    }
    forall y | y in t.list ensures y in c {
      if y !in s.list {
        var i, q :| i in AllBits(m) && Connected(g, PortRef(n, i), q) && q.node == y;
      }
    }
  }

  /** A node that is not listed and whose mask is full is not evaluated: its counter stays as
      it was, right or wrong. */
  lemma {:induction false} FullNodesAreLeftAlone(g: Graph, c: set<nat>, s: State, top: seq<Mask>, x: nat)
    requires Bound(g, c, s, top) && x in c && x !in s.list && x < |g| && s.neg[x] == top[x]
    ensures var r := Converge(g, s);
      r.ok && r.st.neg[x] == top[x] && r.st.deps[x] == s.deps[x]
    decreases Missing(g, s.neg), |s.list|
  {
    if s.list != [] {
      var n := s.list[0];
      assert n in s.list;
      StepStartable(g, s, n);
      StepBound(g, c, s, top, n, x);
      FullNodesAreLeftAlone(g, c, Step(g, s, n).st, top, x);
    }
  }

  // ----- Processing never reaches a counter that is zero already -----

  lemma {:induction false} DeliveriesMeetZero(g: Graph, s: State, qs: seq<PortRef>, q: PortRef)
    requires RefsExist(g) && Shaped(g, s) && PortsExist(g, qs) && q.node < |g| && s.deps[q.node] == 0
    ensures DeliverAll(g, s, qs).st.deps[q.node] == 0
    ensures q in qs && HasPort(g, q) && At(g, q).ptype.dir == In && InputActivated(g, s.neg, q) ==>
      !DeliverAll(g, s, qs).ok
    decreases |qs|
  {
    if qs != [] {
      var r := Deliver(g, s, qs[0]);
      if r.ok {
        DeliveriesMeetZero(g, r.st, qs[1..], q);
      }
    }
  }

  lemma {:induction false} PortsMeetZero(g: Graph, s: State, n: nat, bits: set<nat>, i: nat, j: nat, q: PortRef)
    requires RefsExist(g) && Shaped(g, s) && n < |g| && i <= |g[n]| && q.node < |g| && s.deps[q.node] == 0
    ensures DeliverPorts(g, s, n, bits, i).st.deps[q.node] == 0
    ensures
      i <= j && j in bits && Connected(g, PortRef(n, j), q) && At(g, q).ptype.dir == In &&
      InputActivated(g, s.neg, q) ==>
        !DeliverPorts(g, s, n, bits, i).ok
    decreases |g[n]| - i
  {
    if i < |g[n]| {
      if i in bits {
        PortConnsExist(g, n, i);
        DeliveriesMeetZero(g, s, g[n][i].conns, q);
        var r := DeliverAll(g, s, g[n][i].conns);
        if r.ok {
          PortsMeetZero(g, r.st, n, bits, i + 1, j, q);
        }
      } else {
        PortsMeetZero(g, s, n, bits, i + 1, j, q);
      }
    }
  }

  lemma ProcessMeetsZero(g: Graph, s: State, n: nat, fails: set<nat>, p: PortRef, q: PortRef)
    requires RefsExist(g) && Shaped(g, s) && n < |g| && q.node < |g| && s.deps[q.node] == 0
    requires Connected(g, p, q) && At(g, q).ptype.dir == In && InputActivated(g, s.neg, q)
    requires p.idx in Pushes(s.neg[p.node])
    ensures var r := Process(g, s, n, fails);
      r.ok ==> n != p.node && r.st.deps[q.node] == 0 && r.st.done == s.done + [n]
  {
    var s1 := s.(gen := Renew(s.gen, n, s.neg[n].pushNew, 0));
    var s2 := s1.(gen := CatchUp(g, s1.gen, n, Pulls(s.neg[n]), 0));
    PortsMeetZero(g, s2, n, Pushes(s.neg[n]), 0, p.idx, q);
  }

  /** While the counter of an activated input's node is zero, its producer cannot be
      processed: the delivery would be an error. */
  lemma {:induction false} RunMeetsZero(g: Graph, s: State, fails: set<nat>, p: PortRef, q: PortRef)
    requires RefsExist(g) && Shaped(g, s) && q.node < |g| && s.deps[q.node] == 0 && p.node !in s.done
    requires Connected(g, p, q) && At(g, q).ptype.dir == In && InputActivated(g, s.neg, q)
    requires p.idx in Pushes(s.neg[p.node])
    ensures ScheduleNodes(g, s, fails).ok ==> p.node !in ScheduleNodes(g, s, fails).st.done
    decreases Sum(s.deps), |s.list|
  {
    if s.list != [] {
      var n := s.list[0];
      var s0 := s.(list := s.list[1..]);
      assert n in s.list && forall x :: x in s0.list ==> x in s.list;
      ProcessLowers(g, s0, n, fails);
      ProcessMeetsZero(g, s0, n, fails, p, q);
      var r := Process(g, s0, n, fails);
      if r.ok {
        RunMeetsZero(g, r.st, fails, p, q);
      }
    }
  }

  // ----- A call after a successful one -----

  /** Two calls with the same requirement: the first one successful after a proper reset, the
      second one with the markings `marks`, which decide what it resets. */
  ghost predicate TwoCalls(g: Graph, marks: seq<Marking>, n: nat, required: Mask,
                           start0: State, mid0: State, l0: seq<nat>, t0: State,
                           start1: State, mid1: State, l1: seq<nat>, fails: set<nat>, failed: bool, t1: State) {
    && |marks| == |g| && n < |g| && WellFormed(g) && Schedulable(g, n, required)
    && ComponentStart(g, Component(g, n), start0, n, required) && Startable(g, start0)
    && mid0 == Converge(g, start0).st && RootList(g, Component(g, n), mid0, l0) && Shaped(g, mid0.(list := l0))
    && ScheduleNodes(g, mid0.(list := l0), {}) == Outcome(true, t0)
    && ComponentBegins(g, t0, start1, ResetSet(g, marks, n), n, required)
    && ComponentRun(g, start1, mid1, n, SeenBefore(g, AfterReset(g, marks, n), n), l1, fails, failed, t1)
  }

  /** What a successful call leaves: closed masks that count as propagated, and counters that
      have gone down to zero. */
  lemma CallLeaves(g: Graph, n: nat, required: Mask, start: State, mid: State, l: seq<nat>, t: State)
    requires n < |g| && WellFormed(g) && Schedulable(g, n, required)
    requires ComponentStart(g, Component(g, n), start, n, required) && Startable(g, start)
    requires mid == Converge(g, start).st && RootList(g, Component(g, n), mid, l) && Shaped(g, mid.(list := l))
    requires ScheduleNodes(g, mid.(list := l), {}) == Outcome(true, t)
    ensures Negotiated(g, Component(g, n), mid, n) && t.neg == mid.neg && required.SubsetOf(t.neg[n])
    ensures forall x :: x in Component(g, n) ==> x < |g| && t.prop[x] == t.neg[x]
    ensures Ordered(g, t.neg, t.done) && forall x :: x in t.done ==> x in Component(g, n) && x < |g| && t.deps[x] == 0
  {
    var c := Component(g, n);
    ComponentIsScope(g, n);
    SchedulableNegotiation(g, start, n, required);
    ComponentStartNegotiates(g, c, start, n, required);
    ConvergeNegotiates(g, c, start);
    RootsStartRunning(g, c, mid, n, l);
    ScheduleNodesKeeps(g, c, mid.(list := l), IdleNodes(g, c, mid), {});
  }

  lemma SecondStartIsBound(g: Graph, xs: set<nat>, n: nat, required: Mask, t: State, start: State)
    requires n < |g| && WellFormed(g) && ComponentBegins(g, t, start, xs, n, required) && Startable(g, start)
    requires xs <= Component(g, n) && Closed(g, Component(g, n), t.neg) && required.SubsetOf(t.neg[n])
    requires forall x :: x in Component(g, n) ==> x < |g| && t.prop[x] == t.neg[x]
    ensures Bound(g, Component(g, n), start, t.neg)
  {
    ComponentIsScope(g, n);
    assert start.list == [n];
  }

  /** Node `x` was processed by the first call and has an activated input, but the second
      call does not reset it. Then its counter is wrong after the second negotiation, so that
      the second call keeps its promises no more. If the producer of the input still pushes,
      as it does if it is not reset either, the second call fails or does not process it,
      although the first one did. */
  lemma SecondCallBreaks(g: Graph, marks: seq<Marking>, n: nat, required: Mask,
                         start0: State, mid0: State, l0: seq<nat>, t0: State,
                         start1: State, mid1: State, l1: seq<nat>, fails: set<nat>, failed: bool, t1: State,
                         x: nat, j: nat)
    requires TwoCalls(g, marks, n, required, start0, mid0, l0, t0, start1, mid1, l1, fails, failed, t1)
    requires x in t0.done && x < |g| && x !in ResetSet(g, marks, n)
    requires |t0.neg| == |g| && j in Awaited(g, t0.neg, x)
    ensures !Negotiated(g, Component(g, n), mid1, n)
    ensures var p := Producer(g, PortRef(x, j));
      && p.node in t0.done && |mid1.neg| == |g| && p.node < |g|
      && (p.idx in Pushes(mid1.neg[p.node]) ==> failed || p.node !in t1.done)
      && (p.node !in ResetSet(g, marks, n) ==> p.idx in Pushes(mid1.neg[p.node]))
  {
    var c := Component(g, n);
    var q := PortRef(x, j);
    CallLeaves(g, n, required, start0, mid0, l0, t0);
    ResetsComponentIff(g, marks, n);
    SecondStartIsBound(g, ResetSet(g, marks, n), n, required, t0, start1);
    FullNodesAreLeftAlone(g, c, start1, t0.neg, x);
    assert j in SurelyAwaited(g, t0.neg, x);
    assert j in Awaited(g, mid1.neg, x);
    var p := ProcessedProducer(g, t0.neg, t0.done, x, j);
    if p.node !in ResetSet(g, marks, n) {
      FullNodesAreLeftAlone(g, c, start1, t0.neg, p.node);
    }
    if !failed && p.idx in Pushes(mid1.neg[p.node]) {
      ConvergeKeepsDone(g, start1);
      RunMeetsZero(g, mid1.(list := l1), fails, p, q);
    }
  }

  lemma ProcessedProducer(g: Graph, neg: seq<Mask>, done: seq<nat>, x: nat, j: nat) returns (p: PortRef)
    requires WellFormed(g) && Ordered(g, neg, done) && x in done && x < |g| && j in Awaited(g, neg, x)
    requires forall n :: 0 <= n < |g| && n in done ==> Typed(neg[n], g[n])
    ensures HasPort(g, PortRef(x, j)) && At(g, PortRef(x, j)).conns != [] && p == Producer(g, PortRef(x, j))
    ensures Connected(g, p, PortRef(x, j)) && p.node in done && p.idx in Pushes(neg[p.node])
  {
    var k: nat :| k < |done| && done[k] == x;
    assert ServedBefore(g, neg, done, k, j);
    var l, i :| 0 <= l < k && i in Pushes(neg[done[l]]) && Connected(g, PortRef(done[l], i), PortRef(x, j));
    assert done[l] in done;
    PushesAreOutputs(g, done[l], neg[done[l]], i);
    OnlyProducer(g, PortRef(done[l], i), PortRef(x, j));
    p := PortRef(done[l], i);
  }

  lemma {:induction false} ConvergeKeepsDone(g: Graph, s: State)
    requires WellFormed(g) && Startable(g, s)
    ensures Converge(g, s).st.done == s.done
    decreases Missing(g, s.neg), |s.list|
  {
    if s.list != [] {
      var n := s.list[0];
      assert n in s.list;
      StepStartable(g, s, n);
      RemoveElems(s.list, n);
      PropagateAllGrown(g, s.(list := Remove(s.list, n)), n, s.neg[n].Diff(s.prop[n]));
      if Step(g, s, n).ok {
        ConvergeKeepsDone(g, Step(g, s, n).st);
      }
    }
  }

  // ----- Which markings are safe whatever is left over -----

  /** Every call negotiates properly, whatever earlier calls have left. */
  ghost predicate AlwaysNegotiates(g: Graph, marks: seq<Marking>, n: nat)
    requires |marks| == |g|
  {
    forall a, start, required {:trigger ComponentBegins(g, a, start, ResetSet(g, marks, n), n, required)} ::
      WellFormed(g) && Schedulable(g, n, required) && Startable(g, start) &&
      ComponentBegins(g, a, start, ResetSet(g, marks, n), n, required) ==>
        Negotiated(g, Component(g, n), Converge(g, start).st, n)
  }

  /** A left-over counter on one node, with empty masks everywhere. */
  ghost function OneCounter(g: Graph, x: nat): State {
    State(seq(|g|, y => EMPTY_MASK), seq(|g|, y => EMPTY_MASK), seq(|g|, y => if y == x then 1 else 0),
          seq(|g|, y requires 0 <= y < |g| => seq(|g[y]|, i => 0)), [], [])
  }

  lemma LeftOverCounterStays(g: Graph, xs: set<nat>, n: nat, x: nat)
    requires WellFormed(g) && n < |g| && n in xs && x in Component(g, n) && x !in xs
    ensures var a := OneCounter(g, x); var start := a.(list := [n]);
      && ComponentBegins(g, a, start, xs, n, EMPTY_MASK) && Startable(g, start)
      && !Negotiated(g, Component(g, n), Converge(g, start).st, n)
  {
    var c := Component(g, n);
    var a := OneCounter(g, x);
    var start := a.(list := [n]);
    ComponentIsScope(g, n);
    OneCounterBegins(g, c, xs, n, x);
    hide OneCounter; hide Bound; hide Component; hide ComponentBegins; hide Startable;
    FullNodesAreLeftAlone(g, c, start, a.neg, x);
    CounterWithoutInputs(g, c, Converge(g, start).st, n, x);
  }

  lemma OneCounterBegins(g: Graph, c: set<nat>, xs: set<nat>, n: nat, x: nat)
    requires WellFormed(g) && Scope(g, c) && n in c && n in xs && x in c && x !in xs
    ensures n < |g| && x < |g|
    ensures var a := OneCounter(g, x); var start := a.(list := [n]);
      && ComponentBegins(g, a, start, xs, n, EMPTY_MASK) && Startable(g, start) && Bound(g, c, start, a.neg)
      && |a.neg| == |g| == |start.deps| && x !in start.list
      && start.neg[x] == a.neg[x] == EMPTY_MASK && start.deps[x] == 1
  {
    EmptyMasksClose(g, c, OneCounter(g, x).neg);
  }

  lemma CounterWithoutInputs(g: Graph, c: set<nat>, t: State, n: nat, x: nat)
    requires WellFormed(g) && Shaped(g, t) && x in c && x < |g| && t.neg[x] == EMPTY_MASK && t.deps[x] == 1
    ensures !Negotiated(g, c, t, n)
  {
    assert Awaited(g, t.neg, x) == {};
  }

  lemma EmptyMasksClose(g: Graph, c: set<nat>, neg: seq<Mask>)
    requires |neg| == |g| && forall x :: 0 <= x < |g| ==> neg[x] == EMPTY_MASK
    ensures Closed(g, c, neg) && NegBounded(g, neg)
  {
    forall x | 0 <= x < |g| ensures HonoursAll(g, neg, x, neg[x]) && Typed(neg[x], g[x]) && Bounded(neg[x], |g[x]|) {
      EmptyHonoursAll(g, neg, x);
      EmptyBounded(|g[x]|);
    }
  }

  /** On a component with suitable port types, every call negotiates properly whatever is left
      over if and only if no node is stuck. */
  lemma AlwaysNegotiatesIff(g: Graph, marks: seq<Marking>, n: nat)
    requires |marks| == |g| && n < |g| && WellFormed(g) && Schedulable(g, n, EMPTY_MASK)
    ensures AlwaysNegotiates(g, marks, n) <==> Unstuck(g, marks, n)
  {
    ResetsComponentIff(g, marks, n);
    StuckIs(g, marks, n);
    if Unstuck(g, marks, n) {
      forall a, start, required | Schedulable(g, n, required) && Startable(g, start) &&
        ComponentBegins(g, a, start, ResetSet(g, marks, n), n, required)
        ensures Negotiated(g, Component(g, n), Converge(g, start).st, n)
      {
        SchedulableNegotiation(g, start, n, required);
      }
    } else {
      var x :| x in Component(g, n) && x !in ResetSet(g, marks, n);
      LeftOverCounterStays(g, ResetSet(g, marks, n), n, x);
    }
  }
}
