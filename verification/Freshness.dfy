/** Requests for data that is new: a consumer that pulls only new data is served exactly if its
    generation differs from that of its producer. */
module Freshness {
  import opened Digraph
  import opened DataflowGraph
  import opened NodeTypes
  import opened SchedulerState
  import opened MaskNegotiation
  import opened DependencyCounters
  import opened NodeScheduling
  import opened ProcessingOrder
  import opened ProcessingRun
  import opened GraphScheduling
  import opened ComponentScheduling
  import opened Generations
  import GraphEditing

  /** Output `r` feeds input `q`, which pulls new data and has another generation. */
  ghost predicate Stale(g: Graph, neg: seq<Mask>, gen: seq<seq<nat>>, r: PortRef, q: PortRef) {
    && |neg| == |g| && GenShape(g, gen) && Connected(g, r, q) && HasPort(g, q) && At(g, r).ptype.dir == Out
    && q.idx in neg[q.node].pullNew && gen[r.node][r.idx] != gen[q.node][q.idx]
  }

  /** Node `n` feeds a stale input of a node outside `but`. */
  ghost predicate FeedsStale(g: Graph, neg: seq<Mask>, gen: seq<seq<nat>>, n: nat, but: set<nat>) {
    exists i: nat, q :: Stale(g, neg, gen, PortRef(n, i), q) && q.node !in but
  }

  /** A node that waits for nothing and whose only connected output that pushes has old data,
      which no consumer pulls regardless of its age, is listed and processed if and only if a
      consumer of that output is stale. */
  lemma ListedIffStale(g: Graph, c: set<nat>, s: State, n: nat, l: seq<nat>, x: nat, i: nat, fails: set<nat>)
    requires Negotiated(g, c, s, n) && RootList(g, c, s, l) && x in c && x < |g| && s.deps[x] == 0
    requires Directed(g[x], i, Out) && i in s.neg[x].pushOld && i !in s.neg[x].pushNew
    requires forall q :: Connected(g, PortRef(x, i), q) && q.node < |g| ==> q.idx !in s.neg[q.node].pullOld
    requires forall j :: j in Pushes(s.neg[x]) && j < |g[x]| && j != i ==> g[x][j].conns == []
    ensures x in l <==> exists q :: Stale(g, s.neg, s.gen, PortRef(x, i), q)
    ensures Shaped(g, s.(list := l))
    ensures var r := ScheduleNodes(g, s.(list := l), fails);
      r.ok ==> (x in r.st.done <==> exists q :: Stale(g, s.neg, s.gen, PortRef(x, i), q))
  {
    hide ScheduleNodes; hide UsedEdges; hide Closed; hide SurelyNeeded; hide PerhapsNeeded; hide Ordered;
    var r := PortRef(x, i);
    if IsRoot(g, s, x) {
      var j :| 0 <= j < |g[x]| && j in Pushes(s.neg[x]) && Activated(g, s.neg, s.gen, PortRef(x, j));
      assert j == i;
      var q :| q in At(g, r).conns && Connected(g, r, q) && q.idx in s.neg[q.node].pullNew &&
        s.gen[x][i] != s.gen[q.node][q.idx];
      assert Stale(g, s.neg, s.gen, r, q);
    }
    if q :| Stale(g, s.neg, s.gen, r, q) {
      assert Activated(g, s.neg, s.gen, r);
      assert IsRoot(g, s, x);
    }
    ComponentProcessing(g, c, s, n, l, fails);
    if IsRoot(g, s, x) {
      RootsRun(g, c, s, x);
    } else {
      assert |Awaited(g, s.neg, x)| == 0;
    }
  }

  // ----- Requests that nothing but new data can answer -----

  /** Answering a request for new data asks for new data and announces old data, whatever
      the port; so it is for pure functions without explicit dependencies. */
  ghost predicate OnDemandTypes(g: Graph) {
    forall r :: HasPort(g, r) ==>
      var m := At(g, r).ptype.MaskFor(if At(g, r).ptype.dir == In then Old else New);
      m.pullOld == {} && m.pushNew == {}
  }

  ghost predicate PlainPureGraph(g: Graph) {
    forall n :: 0 <= n < |g| ==> PlainPureNode(g[n])
  }

  ghost predicate PlainPureNode(ports: seq<Port>) {
    exists dirs :: Instance(ports, BuildPorts(dirs, [], true))
  }

  lemma PlainPureIsOnDemand(g: Graph)
    requires PlainPureGraph(g)
    ensures OnDemandTypes(g) && PureGraph(g)
  {
    forall n | 0 <= n < |g| ensures PureNode(g[n]) {
      assert PlainPureNode(g[n]);
      var dirs :| Instance(g[n], BuildPorts(dirs, [], true));
      assert DepsTyped(dirs, []);
    }
    forall r | HasPort(g, r)
      ensures var m := At(g, r).ptype.MaskFor(if At(g, r).ptype.dir == In then Old else New);
        m.pullOld == {} && m.pushNew == {}
    {
      assert PlainPureNode(g[r.node]);
      var dirs :| Instance(g[r.node], BuildPorts(dirs, [], true));
    }
  }

  /** No node of `c` pulls old data or pushes new data. */
  ghost predicate OnDemand(g: Graph, c: set<nat>, neg: seq<Mask>) {
    |neg| == |g| && forall x :: x in c && x < |g| ==> neg[x].pullOld == {} && neg[x].pushNew == {}
  }

  ghost function OnDemandTops(g: Graph): (t: seq<Mask>)
    ensures |t| == |g|
  {
    seq(|g|, n requires 0 <= n < |g| => TypedTop(g[n]).(pullOld := {}, pushNew := {}))
  }

  lemma OnDemandTopsClosed(g: Graph, c: set<nat>)
    requires WellFormed(g) && MasksTyped(g) && OnDemandTypes(g)
    ensures Closed(g, c, OnDemandTops(g))
  {
    var top := OnDemandTops(g);
    forall n | n in c && n < |g| ensures HonoursAll(g, top, n, top[n]) && Typed(top[n], g[n]) {
      TypedIsBelowTop(top[n], g[n]);
      forall d: Direction, k: Freshness, i: nat | i in top[n].Bits(d, k) ensures Honoured(g, top, n, i, k) {
        forall q | Connected(g, PortRef(n, i), q) && HasPort(g, q)
          ensures At(g, q).ptype.MaskFor(k).SubsetOf(top[q.node])
        {
          assert Connected(g, q, PortRef(n, i));
          TypedIsBelowTop(At(g, q).ptype.MaskFor(k), g[q.node]);
        }
      }
    }
  }

  /** Negotiation adds neither pulls for old data nor pushes of new data. */
  lemma OnDemandNegotiation(g: Graph, c: set<nat>, start: seq<Mask>, neg: seq<Mask>)
    requires WellFormed(g) && MasksTyped(g) && OnDemandTypes(g) && LeastClosed(g, c, start, neg)
    requires OnDemand(g, c, start) && forall x :: x in c && x < |g| ==> Typed(start[x], g[x])
    ensures OnDemand(g, c, neg)
  {
    OnDemandTopsClosed(g, c);
    forall x | x in c && x < |g| ensures start[x].SubsetOf(OnDemandTops(g)[x]) {
      TypedIsBelowTop(start[x], g[x]);
    }
    assert Below(c, start, OnDemandTops(g));
  }

  // ----- A run in which nothing is awaited -----

  /** The masks of a component in which nothing is awaited. */
  ghost predicate Lazy(g: Graph, c: set<nat>, neg: seq<Mask>) {
    WellFormed(g) && RequestsAreAnswered(g) && Scope(g, c) && Closed(g, c, neg) && OnDemand(g, c, neg)
  }

  lemma LazyAwaitsNothing(g: Graph, c: set<nat>, neg: seq<Mask>, x: nat, i: nat)
    requires Lazy(g, c, neg) && x in c && x < |g| && i < |g[x]| && g[x][i].ptype.dir == In
    ensures !InputActivated(g, neg, PortRef(x, i))
  {
    if g[x][i].conns != [] {
      ProducerIsOutput(g, x, i);
      assert Connected(g, PortRef(x, i), g[x][i].conns[0]);
    }
  }

  /** The producer of a stale input has been told to push. */
  lemma StaleIsPushed(g: Graph, c: set<nat>, neg: seq<Mask>, gen: seq<seq<nat>>, r: PortRef, q: PortRef)
    requires Lazy(g, c, neg) && Stale(g, neg, gen, r, q) && (q.node in c || r.node in c)
    ensures q.node in c && r.node in c && r.idx in neg[r.node].pushOld && Directed(g[q.node], q.idx, In)
  {
    OnlyProducer(g, r, q);
    assert Connected(g, q, r);
    assert q.idx in neg[q.node].Bits(In, New);
    assert Honoured(g, neg, q.node, q.idx, New);
    assert PortRef(q.node, q.idx) == q;
  }

  lemma ActivatedIffStale(g: Graph, c: set<nat>, neg: seq<Mask>, gen: seq<seq<nat>>, n: nat, i: nat)
    requires Lazy(g, c, neg) && GenShape(g, gen) && n in c && n < |g| && i < |g[n]|
    requires g[n][i].ptype.dir == Out ==> i in Pushes(neg[n])
    ensures Activated(g, neg, gen, PortRef(n, i)) <==>
      g[n][i].ptype.dir == Out && exists q :: Stale(g, neg, gen, PortRef(n, i), q)
  {
    var r := PortRef(n, i);
    if g[n][i].ptype.dir == In {
      LazyAwaitsNothing(g, c, neg, n, i);
    } else {
      if Activated(g, neg, gen, r) {
        var q :| q in At(g, r).conns && Connected(g, r, q) &&
          (q.idx in neg[q.node].pullOld || (q.idx in neg[q.node].pullNew && gen[n][i] != gen[q.node][q.idx]));
        assert q.node in c;
        assert Stale(g, neg, gen, r, q);
      }
      if q :| Stale(g, neg, gen, r, q) {
        StaleIsPushed(g, c, neg, gen, r, q);
      }
    }
  }

  /** The process function of `n` is called exactly if `n` feeds a stale input. */
  lemma CalledIffStale(g: Graph, c: set<nat>, neg: seq<Mask>, gen: seq<seq<nat>>, n: nat)
    requires Lazy(g, c, neg) && GenShape(g, gen) && n in c && n < |g|
    ensures !Omittable(g, neg, gen, n) <==> FeedsStale(g, neg, gen, n, {})
  {
    if !Omittable(g, neg, gen, n) {
      var i :| 0 <= i < |g[n]| && i in Pushes(neg[n]) + Pulls(neg[n]) && Activated(g, neg, gen, PortRef(n, i));
      InputsOf(g, n, neg[n]);
      if g[n][i].ptype.dir == In {
        LazyAwaitsNothing(g, c, neg, n, i);
      }
      ActivatedIffStale(g, c, neg, gen, n, i);
      assert FeedsStale(g, neg, gen, n, {});
    }
    if i: nat, q :| Stale(g, neg, gen, PortRef(n, i), q) && q.node !in {} {
      StaleIsPushed(g, c, neg, gen, PortRef(n, i), q);
      ActivatedIffStale(g, c, neg, gen, n, i);
    }
  }

  lemma {:induction false} DeliverNothing(g: Graph, s: State, qs: seq<PortRef>)
    requires RefsExist(g) && Shaped(g, s) && PortsExist(g, qs)
    requires forall q :: q in qs ==> HasPort(g, q) && !Activated(g, s.neg, s.gen, q)
    ensures DeliverAll(g, s, qs) == Outcome(true, s)
    decreases |qs|
  {
    if qs != [] {
      DeliverNothing(g, s, qs[1..]);
    }
  }

  lemma {:induction false} DeliverPortsNothing(g: Graph, c: set<nat>, s: State, n: nat, bits: set<nat>, i: nat)
    requires Lazy(g, c, s.neg) && Shaped(g, s) && n in c && n < |g| && i <= |g[n]| && Outputs(g, n, bits)
    ensures DeliverPorts(g, s, n, bits, i) == Outcome(true, s)
    decreases |g[n]| - i
  {
    if i < |g[n]| {
      if i in bits {
        PortConnsExist(g, n, i);
        forall q | q in g[n][i].conns ensures HasPort(g, q) && !Activated(g, s.neg, s.gen, q) {
          assert Connected(g, PortRef(n, i), q);
          OnlyProducer(g, PortRef(n, i), q);
          LazyAwaitsNothing(g, c, s.neg, q.node, q.idx);
        }
        DeliverNothing(g, s, g[n][i].conns);
      }
      DeliverPortsNothing(g, c, s, n, bits, i + 1);
    }
  }

  /** From `a` to `b` the connected inputs that the nodes in `who` pull have taken over the
      generation of their producer, and all other ports have kept theirs. */
  ghost predicate CaughtUp(g: Graph, neg: seq<Mask>, a: seq<seq<nat>>, b: seq<seq<nat>>, who: set<nat>) {
    && GenShape(g, a) && GenShape(g, b)
    && forall m: nat, j: nat {:trigger b[m][j]} :: m < |g| && j < |g[m]| ==>
         if m in who && Pulled(g, neg, m, j) then Copied(g, a, b, m, j) else b[m][j] == a[m][j]
  }

  lemma NothingCaughtUp(g: Graph, neg: seq<Mask>, a: seq<seq<nat>>)
    requires GenShape(g, a)
    ensures CaughtUp(g, neg, a, a, {})
  {
  }

  lemma CatchUpOnce(g: Graph, neg: seq<Mask>, gen: seq<seq<nat>>, n: nat)
    requires WellFormed(g) && GenShape(g, gen) && |neg| == |g| && n < |g| && Typed(neg[n], g[n])
    ensures CaughtUp(g, neg, gen, CatchUp(g, gen, n, Pulls(neg[n]), 0), {n})
  {
    InputsOf(g, n, neg[n]);
    CatchUpIs(g, gen, n, Pulls(neg[n]), 0);
    var b := CatchUp(g, gen, n, Pulls(neg[n]), 0);
    forall m: nat, j: nat | m < |g| && j < |g[m]|
      ensures if m in {n} && Pulled(g, neg, m, j) then Copied(g, gen, b, m, j) else b[m][j] == gen[m][j]
    {
    }
  }

  lemma CaughtUpTwice(g: Graph, neg: seq<Mask>, a: seq<seq<nat>>, b: seq<seq<nat>>, d: seq<seq<nat>>,
                      xs: set<nat>, ys: set<nat>)
    requires WellFormed(g) && CaughtUp(g, neg, a, b, xs) && CaughtUp(g, neg, b, d, ys)
    ensures CaughtUp(g, neg, a, d, xs + ys)
  {
    forall m: nat, j: nat | m < |g| && j < |g[m]|
      ensures if m in xs + ys && Pulled(g, neg, m, j) then Copied(g, a, d, m, j) else d[m][j] == a[m][j]
    {
      if Pulled(g, neg, m, j) {
        ProducerIsOutput(g, m, j);
        var p := g[m][j].conns[0];
        assert b[p.node][p.idx] == a[p.node][p.idx];
        assert m in ys ==> Copied(g, b, d, m, j);
        assert m in xs ==> Copied(g, a, b, m, j);
      }
    }
  }

  /** Catching up makes exactly the inputs of the nodes in `who` fresh. */
  lemma StaleAfterwards(g: Graph, neg: seq<Mask>, a: seq<seq<nat>>, b: seq<seq<nat>>, who: set<nat>,
                        r: PortRef, q: PortRef)
    requires WellFormed(g) && |neg| == |g| && CaughtUp(g, neg, a, b, who)
    ensures Stale(g, neg, b, r, q) <==> Stale(g, neg, a, r, q) && q.node !in who
  {
    if Connected(g, r, q) && At(g, r).ptype.dir == Out {
      OnlyProducer(g, r, q);
      assert b[r.node][r.idx] == a[r.node][r.idx];
      assert g[q.node][q.idx] == At(g, q);
      if q.node in who && q.idx in neg[q.node].pullNew {
        assert Pulled(g, neg, q.node, q.idx);
        assert b[q.node][q.idx] == a[r.node][r.idx];
      } else if q.idx in neg[q.node].pullNew {
        assert b[q.node][q.idx] == a[q.node][q.idx];
      }
    }
  }

  lemma FeedsStaleAfterwards(g: Graph, neg: seq<Mask>, a: seq<seq<nat>>, b: seq<seq<nat>>, who: set<nat>, n: nat)
    requires WellFormed(g) && |neg| == |g| && CaughtUp(g, neg, a, b, who)
    ensures FeedsStale(g, neg, b, n, {}) <==> FeedsStale(g, neg, a, n, who)
  {
    if i: nat, q :| Stale(g, neg, b, PortRef(n, i), q) && q.node !in {} {
      StaleAfterwards(g, neg, a, b, who, PortRef(n, i), q);
    }
    if i: nat, q :| Stale(g, neg, a, PortRef(n, i), q) && q.node !in who {
      StaleAfterwards(g, neg, a, b, who, PortRef(n, i), q);
      assert q.node !in {};
    }
  }

  /** The listed nodes are ready, and belong to a component in which nothing is awaited. */
  ghost predicate LazyRun(g: Graph, c: set<nat>, s: State) {
    && WellFormed(g) && Lazy(g, c, s.neg) && Shaped(g, s)
    && (forall x :: x in c && x < |g| ==> s.deps[x] == 0)
    && (forall x :: x in s.list ==> x in c)
  }

  lemma LazyProcess(g: Graph, c: set<nat>, s: State, n: nat, fails: set<nat>)
    requires LazyRun(g, c, s) && n in c && n < |g|
    ensures var r := Process(g, s, n, fails);
      && (r.ok <==> !(n in fails && FeedsStale(g, s.neg, s.gen, n, {})))
      && (r.ok ==> r.st == s.(gen := r.st.gen, done := s.done + [n]) && CaughtUp(g, s.neg, s.gen, r.st.gen, {n}))
  {
    RenewIs(s.gen, n, {}, 0);
    assert Renew(s.gen, n, s.neg[n].pushNew, 0) == s.gen;
    CalledIffStale(g, c, s.neg, s.gen, n);
    CatchUpOnce(g, s.neg, s.gen, n);
    var s2 := s.(gen := CatchUp(g, s.gen, n, Pulls(s.neg[n]), 0));
    OutputsOf(g, n, s.neg[n]);
    DeliverPortsNothing(g, c, s2, n, Pushes(s.neg[n]), 0);
  }

  /** Of the nodes `l`, processed in this order, the `k`-th has a process function that fails
      and that is called, as it feeds a stale input of a node that has not been processed
      before. */
  ghost predicate FailsAt(g: Graph, neg: seq<Mask>, gen: seq<seq<nat>>, l: seq<nat>, fails: set<nat>, who: set<nat>,
                          k: nat) {
    k < |l| && l[k] in fails && FeedsStale(g, neg, gen, l[k], who + Elems(l[..k]))
  }

  lemma FailsAtTail(g: Graph, neg: seq<Mask>, gen: seq<seq<nat>>, l: seq<nat>, fails: set<nat>, who: set<nat>)
    requires l != []
    ensures (exists k: nat :: FailsAt(g, neg, gen, l, fails, who, k)) <==>
      (l[0] in fails && FeedsStale(g, neg, gen, l[0], who)) ||
      exists k: nat :: FailsAt(g, neg, gen, l[1..], fails, who + {l[0]}, k)
  {
    var rest := l[1..];
    assert who + Elems(l[..0]) == who;
    forall k: nat | k < |rest| ensures FailsAt(g, neg, gen, rest, fails, who + {l[0]}, k) <==>
      FailsAt(g, neg, gen, l, fails, who, k + 1)
    {
      assert l[..k + 1] == [l[0]] + rest[..k];
      assert who + {l[0]} + Elems(rest[..k]) == who + Elems(l[..k + 1]);
    }
    if k: nat :| FailsAt(g, neg, gen, l, fails, who, k) {
      if k > 0 {
        assert FailsAt(g, neg, gen, rest, fails, who + {l[0]}, k - 1);
      }
    }
    if l[0] in fails && FeedsStale(g, neg, gen, l[0], who) {
      assert FailsAt(g, neg, gen, l, fails, who, 0);
    }
    if k: nat :| FailsAt(g, neg, gen, rest, fails, who + {l[0]}, k) {
      assert FailsAt(g, neg, gen, l, fails, who, k + 1);
    }
  }

  lemma LazyStep(g: Graph, c: set<nat>, s: State, a: seq<seq<nat>>, who: set<nat>, fails: set<nat>)
    requires LazyRun(g, c, s) && CaughtUp(g, s.neg, a, s.gen, who) && s.list != []
    ensures var n := s.list[0]; var s0 := s.(list := s.list[1..]);
      Shaped(g, s0) && n < |g| && WellFormed(g) &&
      var r := Process(g, s0, n, fails);
      && (r.ok <==> !(n in fails && FeedsStale(g, s.neg, a, n, who)))
      && (r.ok ==>
        && LazyRun(g, c, r.st) && CaughtUp(g, s.neg, a, r.st.gen, who + {n})
        && r.st.done == s.done + [n] && r.st.list == s.list[1..])
  {
    var n := s.list[0];
    var s0 := s.(list := s.list[1..]);
    assert s.list == [n] + s.list[1..];
    assert forall x :: x in s0.list ==> x in s.list;
    LazyProcess(g, c, s0, n, fails);
    FeedsStaleAfterwards(g, s.neg, a, s.gen, who, n);
    var r := Process(g, s0, n, fails);
    if r.ok {
      CaughtUpTwice(g, s.neg, a, s.gen, r.st.gen, who, {n});
    }
  }

  /** Such a run processes exactly the listed nodes in their order and brings their inputs up
      to date; it fails if and only if one of them is called and fails. */
  lemma {:induction false} LazyNodes(g: Graph, c: set<nat>, s: State, a: seq<seq<nat>>, who: set<nat>, fails: set<nat>)
    requires LazyRun(g, c, s) && CaughtUp(g, s.neg, a, s.gen, who)
    ensures WellFormed(g) && Shaped(g, s)
    ensures var r := ScheduleNodes(g, s, fails);
      && (!r.ok <==> exists k: nat :: FailsAt(g, s.neg, a, s.list, fails, who, k))
      && (r.ok ==> r.st.done == s.done + s.list && CaughtUp(g, s.neg, a, r.st.gen, who + Elems(s.list)))
    decreases Sum(s.deps), |s.list|
  {
    hide CaughtUp; hide FeedsStale; hide Process; hide Lazy;
    if s.list == [] {
      assert who + Elems(s.list) == who;
    } else {
      var n := s.list[0];
      var s0 := s.(list := s.list[1..]);
      LazyStep(g, c, s, a, who, fails);
      ProcessLowers(g, s0, n, fails);
      FailsAtTail(g, s.neg, a, s.list, fails, who);
      var r := Process(g, s0, n, fails);
      if r.ok {
        LazyNodes(g, c, r.st, a, who + {n}, fails);
        ElemsCons(who, s.list);
        assert s.done + s.list == s.done + [n] + s.list[1..];
      }
    }
  }

  // ----- Calls -----

  /** A request that pulls only new data, and pushes only old data, on such a graph. */
  ghost predicate Request(g: Graph, n: nat, required: Mask) {
    WellFormed(g) && Schedulable(g, n, required) && OnDemandTypes(g) &&
    required.pullOld == {} && required.pushNew == {}
  }

  /** What the masks of the component are after the negotiation. */
  lemma RequestIsLazy(g: Graph, a: State, start: State, n: nat, required: Mask)
    requires Request(g, n, required) && ComponentBegins(g, a, start, Component(g, n), n, required)
    ensures n < |g| && Startable(g, start)
    ensures var mid := Converge(g, start).st;
      && Converge(g, start).ok && Negotiated(g, Component(g, n), mid, n) && mid.gen == a.gen
      && LeastClosed(g, Component(g, n), start.neg, mid.neg)
      && LazyRun(g, Component(g, n), mid)
  {
    var c := Component(g, n);
    ComponentIsScope(g, n);
    SchedulableNegotiation(g, start, n, required);
    var mid := Converge(g, start).st;
    forall x | x in c && x < |g| ensures Typed(start.neg[x], g[x]) {
      EmptyHonoursAll(g, start.neg, x);
    }
    OnDemandNegotiation(g, c, start.neg, mid.neg);
    forall x | x in c && x < |g| ensures mid.deps[x] == 0 {
      assert Awaited(g, mid.neg, x) == {} by {
        forall i | 0 <= i < |g[x]| && g[x][i].ptype.dir == In ensures !InputActivated(g, mid.neg, PortRef(x, i)) {
          LazyAwaitsNothing(g, c, mid.neg, x, i);
        }
      }
    }
  }

  lemma RootIffFeedsStale(g: Graph, c: set<nat>, s: State, x: nat)
    requires LazyRun(g, c, s) && x in c && x < |g|
    ensures IsRoot(g, s, x) <==> FeedsStale(g, s.neg, s.gen, x, {})
  {
    if IsRoot(g, s, x) {
      var i :| 0 <= i < |g[x]| && i in Pushes(s.neg[x]) && Activated(g, s.neg, s.gen, PortRef(x, i));
      ActivatedIffStale(g, c, s.neg, s.gen, x, i);
    }
    if i: nat, q :| Stale(g, s.neg, s.gen, PortRef(x, i), q) && q.node !in {} {
      StaleIsPushed(g, c, s.neg, s.gen, PortRef(x, i), q);
      ActivatedIffStale(g, c, s.neg, s.gen, x, i);
    }
  }

  /** Some input of a node in `c` is stale. */
  ghost predicate SomethingStale(g: Graph, c: set<nat>, neg: seq<Mask>, gen: seq<seq<nat>>) {
    exists r, q :: Stale(g, neg, gen, r, q) && q.node in c
  }

  /** A request is answered by exactly those nodes that feed a stale input of the component,
      each once and in the order in which they have been found. Without stale inputs it
      fails; otherwise only if one of these nodes fails although it feeds a node that
      has not been processed before it. */
  lemma RequestIsAnswered(g: Graph, a: State, start: State, mid: State, n: nat, required: Mask, seen: set<nat>,
                          l: seq<nat>, fails: set<nat>, failed: bool, t: State)
    requires Request(g, n, required) && ComponentBegins(g, a, start, Component(g, n), n, required)
    requires ComponentRun(g, start, mid, n, seen, l, fails, failed, t) && seen !! Component(g, n)
    ensures |mid.neg| == |g| && LeastClosed(g, Component(g, n), start.neg, mid.neg)
    ensures Distinct(l) && forall x: nat :: x in l <==> x in Component(g, n) && FeedsStale(g, mid.neg, a.gen, x, {})
    ensures l == [] <==> !SomethingStale(g, Component(g, n), mid.neg, a.gen)
    ensures failed <==> l == [] || exists k: nat :: FailsAt(g, mid.neg, a.gen, l, fails, {}, k)
    ensures l == [] ==> t == mid && t.gen == a.gen && t.done == []
    ensures !failed ==> t.done == l && CaughtUp(g, mid.neg, a.gen, t.gen, Elems(l))
  {
    hide Schedulable; hide OnDemandTypes; hide Component; hide Lazy; hide FailsAt; hide CaughtUp; hide FeedsStale;
    hide WellFormed; hide LeastClosed; hide SomethingStale; hide Converge; hide ComponentBegins; hide Closed;
    hide ScheduleNodes; hide Exact; hide Scope; hide IsRoot; hide UsedEdges; hide LazyRun; hide RefsExist;
    var c := Component(g, n);
    RequestIsLazy(g, a, start, n, required);
    FoundRootsAreRoots(g, mid, n, seen, l);
    AnsweringNodes(g, c, mid, l);
    if l != [] {
      LazyRoots(g, c, mid, l, fails);
    }
  }

  lemma LazyRoots(g: Graph, c: set<nat>, s: State, l: seq<nat>, fails: set<nat>)
    requires LazyRun(g, c, s) && s.done == [] && RootList(g, c, s, l)
    ensures Shaped(g, s.(list := l))
    ensures var r := ScheduleNodes(g, s.(list := l), fails);
      && (!r.ok <==> exists k: nat :: FailsAt(g, s.neg, s.gen, l, fails, {}, k))
      && (r.ok ==> r.st.done == l && CaughtUp(g, s.neg, s.gen, r.st.gen, Elems(l)))
  {
    hide Lazy; hide FailsAt; hide CaughtUp; hide FeedsStale; hide WellFormed; hide ScheduleNodes;
    NothingCaughtUp(g, s.neg, s.gen);
    var u := s.(list := l);
    assert LazyRun(g, c, u);
    LazyNodes(g, c, u, s.gen, {}, fails);
    assert {} + Elems(l) == Elems(l);
    assert u.done + u.list == l;
  }

  lemma AnsweringNodes(g: Graph, c: set<nat>, s: State, l: seq<nat>)
    requires LazyRun(g, c, s) && RootList(g, c, s, l)
    ensures forall x: nat :: x in l <==> x in c && FeedsStale(g, s.neg, s.gen, x, {})
    ensures l == [] <==> !SomethingStale(g, c, s.neg, s.gen)
  {
    forall x: nat ensures x in l <==> x in c && FeedsStale(g, s.neg, s.gen, x, {}) {
      if x in c && x < |g| {
        RootIffFeedsStale(g, c, s, x);
      }
    }
    if l != [] {
      assert l[0] in l;
      var i: nat, q :| Stale(g, s.neg, s.gen, PortRef(l[0], i), q);
      StaleIsPushed(g, c, s.neg, s.gen, PortRef(l[0], i), q);
    }
    if r, q :| Stale(g, s.neg, s.gen, r, q) && q.node in c {
      StaleIsPushed(g, c, s.neg, s.gen, r, q);
      assert Stale(g, s.neg, s.gen, PortRef(r.node, r.idx), q) && q.node !in {};
      assert r.node in l;
    }
  }

  /** The connected inputs of the nodes in `c` have the generation of their producers. */
  ghost predicate InStep(g: Graph, c: set<nat>, gen: seq<seq<nat>>) {
    forall n, j :: n in c && n < |g| && j in ConnectedInputs(g, n) ==> Copied(g, gen, gen, n, j)
  }

  /** Where everything is up to date a request finds nothing to do. */
  lemma UpToDateRequestFails(g: Graph, a: State, start: State, mid: State, n: nat, required: Mask, seen: set<nat>,
                             l: seq<nat>, fails: set<nat>, failed: bool, t: State)
    requires Request(g, n, required) && ComponentBegins(g, a, start, Component(g, n), n, required)
    requires ComponentRun(g, start, mid, n, seen, l, fails, failed, t) && seen !! Component(g, n)
    requires InStep(g, Component(g, n), a.gen)
    ensures failed && l == [] && t.done == [] && t.gen == a.gen
  {
    RequestIsAnswered(g, a, start, mid, n, required, seen, l, fails, failed, t);
    InStepIsFresh(g, Component(g, n), mid.neg, a.gen);
  }

  lemma InStepIsFresh(g: Graph, c: set<nat>, neg: seq<Mask>, gen: seq<seq<nat>>)
    requires WellFormed(g) && GenShape(g, gen) && InStep(g, c, gen)
    ensures !SomethingStale(g, c, neg, gen)
  {
    forall r, q | Connected(g, r, q) && HasPort(g, q) && At(g, r).ptype.dir == Out && q.node in c
      ensures gen[r.node][r.idx] == gen[q.node][q.idx]
    {
      OnlyProducer(g, r, q);
      assert q.idx in ConnectedInputs(g, q.node);
    }
  }

  /** In particular after a pass over an acyclic graph of pure functions. */
  lemma PassSettlesRequests(g: Graph, gen: seq<seq<nat>>, a: State, start: State, mid: State, n: nat, required: Mask,
                            seen: set<nat>, l: seq<nat>, fails: set<nat>, failed: bool, t: State)
    requires Request(g, n, required) && PureGraph(g) && !Cyclic(FlowEdges(g)) && GenerationsValid(g, gen)
    requires a.gen == ScheduleGraph(g, gen, {}).st.gen
    requires ComponentBegins(g, a, start, Component(g, n), n, required)
    requires ComponentRun(g, start, mid, n, seen, l, fails, failed, t) && seen !! Component(g, n)
    ensures ScheduleGraph(g, gen, {}).ok && failed && l == []
  {
    PureAcyclicGraphIsFullyScheduled(g, gen);
    UpToDateRequestFails(g, a, start, mid, n, required, seen, l, fails, failed, t);
  }

  /** A node that pulls new data from input `i` whose producer has another generation is served
      by that producer. */
  lemma StaleRequestIsServed(g: Graph, a: State, start: State, mid: State, n: nat, required: Mask, seen: set<nat>,
                             l: seq<nat>, fails: set<nat>, failed: bool, t: State, i: nat)
    requires Request(g, n, required) && ComponentBegins(g, a, start, Component(g, n), n, required)
    requires ComponentRun(g, start, mid, n, seen, l, fails, failed, t) && seen !! Component(g, n)
    requires i in required.pullNew && i in ConnectedInputs(g, n)
    requires !Copied(g, a.gen, a.gen, n, i)
    ensures g[n][i].conns[0].node in l
    ensures !failed ==> g[n][i].conns[0].node in t.done
    ensures fails == {} ==> !failed
  {
    hide Converge; hide ScheduleNodes; hide RootsFound; hide OnDemandTypes; hide NewDataIsPulled; hide MasksTyped;
    hide Closed; hide CaughtUp; hide Startable; hide NoSelfLoop;
    RequestIsAnswered(g, a, start, mid, n, required, seen, l, fails, failed, t);
    ComponentIsScope(g, n);
    ProducerIsOutput(g, n, i);
    var p := g[n][i].conns[0];
    assert start.neg[n].SubsetOf(mid.neg[n]);
    assert Stale(g, mid.neg, a.gen, PortRef(p.node, p.idx), PortRef(n, i));
    assert FeedsStale(g, mid.neg, a.gen, p.node, {});
    assert Connected(g, PortRef(n, i), p);
  }

  /** In a graph as it has been instantiated every connected input is stale, so that the first
      request is always served. */
  lemma FirstRequestIsServed(g: Graph, a: State, start: State, mid: State, n: nat, required: Mask, seen: set<nat>,
                             l: seq<nat>, failed: bool, t: State, i: nat)
    requires Request(g, n, required) && ComponentBegins(g, a, start, Component(g, n), n, required)
    requires ComponentRun(g, start, mid, n, seen, l, {}, failed, t) && seen !! Component(g, n)
    requires i in required.pullNew && i in ConnectedInputs(g, n) && a.gen == InitialGenerations(g)
    ensures !failed && g[n][i].conns[0].node in t.done
  {
    ProducerIsOutput(g, n, i);
    StaleRequestIsServed(g, a, start, mid, n, required, seen, l, {}, failed, t, i);
  }

  // ----- Requests again and again -----

  /** Two calls for the same request negotiate the same masks. */
  lemma SameRequestSameMasks(g: Graph, a: State, start: State, x: seq<Mask>, b: State, start': State, y: seq<Mask>,
                             n: nat, required: Mask)
    requires ComponentBegins(g, a, start, Component(g, n), n, required)
    requires ComponentBegins(g, b, start', Component(g, n), n, required)
    requires LeastClosed(g, Component(g, n), start.neg, x) && LeastClosed(g, Component(g, n), start'.neg, y)
    requires |x| == |y| == |g|
    ensures forall m :: m in Component(g, n) && m < |g| ==> x[m] == y[m]
  {
    hide Closed; hide Component;
    var c := Component(g, n);
    assert Below(c, start.neg, y) && Below(c, start'.neg, x);
    forall m | m in c && m < |g| ensures x[m] == y[m] {
      SubsetAntisym(x[m], y[m]);
    }
  }

  lemma SameMasksSameStale(g: Graph, c: set<nat>, x: seq<Mask>, y: seq<Mask>, gen: seq<seq<nat>>, r: PortRef,
                           q: PortRef)
    requires |x| == |y| == |g| && q.node in c && forall m :: m in c && m < |g| ==> x[m] == y[m]
    ensures Stale(g, x, gen, r, q) <==> Stale(g, y, gen, r, q)
  {
  }

  /** A walk along edges that point the other way. */
  lemma ReversedCycle(e: Edges, f: Edges)
    requires Cyclic(f) && forall a: nat, b: nat :: f(a, b) ==> e(b, a)
    ensures Cyclic(e)
  {
    var x :| OnCycle(f, x);
    var p :| WalkFromTo(f, p, x, x) && |p| >= 2;
    var w := seq(|p|, i requires 0 <= i < |p| => p[|p| - 1 - i]);
    forall i | 0 <= i < |w| - 1 ensures e(w[i], w[i + 1]) {
      assert f(p[|p| - 2 - i], p[|p| - 2 - i + 1]);
    }
    CycleWitness(e, x, w);
  }

  ghost function BackEdges(g: Graph): Edges {
    (a: nat, b: nat) => Feeds(g, b, a)
  }

  /** If every stale input belongs to a node that feeds a stale input in turn, there is a
      cycle. */
  lemma StaleChainIsCyclic(g: Graph, c: set<nat>, neg: seq<Mask>, gen: seq<seq<nat>>)
    requires Lazy(g, c, neg) && SomethingStale(g, c, neg, gen)
    requires forall r, q :: Stale(g, neg, gen, r, q) && q.node in c ==> FeedsStale(g, neg, gen, q.node, {})
    ensures Cyclic(FlowEdges(g))
  {
    hide Lazy; hide Cyclic; hide Stale;
    var e := BackEdges(g);
    var feeders := set x | x in c && FeedsStale(g, neg, gen, x, {});
    forall b | b in feeders ensures HasPredecessorIn(e, feeders, b) {
      var i: nat, q :| Stale(g, neg, gen, PortRef(b, i), q);
      StaleIsPushed(g, c, neg, gen, PortRef(b, i), q);
      StaleIsFlow(g, neg, gen, PortRef(b, i), q);
      assert q.node in feeders && e(q.node, b);
    }
    var r, q :| Stale(g, neg, gen, r, q) && q.node in c;
    assert q.node in feeders;
    PredecessorsMeanBelowCycle(e, feeders, q.node);
    CycleIsCyclic(e, q.node);
    ReversedCycle(FlowEdges(g), e);
  }

  lemma StaleIsFlow(g: Graph, neg: seq<Mask>, gen: seq<seq<nat>>, r: PortRef, q: PortRef)
    requires Stale(g, neg, gen, r, q)
    ensures Feeds(g, r.node, q.node)
  {
  }

  lemma CycleIsCyclic(e: Edges, n: nat)
    requires BelowCycle(e, n)
    ensures Cyclic(e)
  {
  }

  /** What is stale after a request has been served. In an acyclic graph something is: the last
      of the nodes with stale inputs feeds none and has not been processed. */
  lemma StaleAgain(g: Graph, c: set<nat>, x: seq<Mask>, y: seq<Mask>, a: seq<seq<nat>>, b: seq<seq<nat>>, l: seq<nat>)
    requires Lazy(g, c, x) && |y| == |g| && forall m :: m in c && m < |g| ==> x[m] == y[m]
    requires CaughtUp(g, x, a, b, Elems(l)) && SomethingStale(g, c, x, a)
    requires forall n: nat :: n in l <==> n in c && FeedsStale(g, x, a, n, {})
    ensures forall n: nat :: n in c ==> (FeedsStale(g, y, b, n, {}) <==> FeedsStale(g, x, a, n, Elems(l)))
    ensures !Cyclic(FlowEdges(g)) ==> SomethingStale(g, c, y, b)
  {
    hide Lazy; hide Cyclic; hide Stale; hide CaughtUp;
    LazyIsWellFormed(g, c, x);
    forall r: PortRef, q: PortRef | q.node in c
      ensures Stale(g, y, b, r, q) <==> Stale(g, x, a, r, q) && q.node !in Elems(l)
    {
      SameMasksSameStale(g, c, x, y, b, r, q);
      StaleAfterwards(g, x, a, b, Elems(l), r, q);
    }
    forall n: nat | n in c ensures FeedsStale(g, y, b, n, {}) <==> FeedsStale(g, x, a, n, Elems(l)) {
      SameMasksSameFeeders(g, c, x, y, b, n);
      FeedsStaleAfterwards(g, x, a, b, Elems(l), n);
    }
    if !Cyclic(FlowEdges(g)) {
      if forall r, q :: Stale(g, x, a, r, q) && q.node in c ==> FeedsStale(g, x, a, q.node, {}) {
        StaleChainIsCyclic(g, c, x, a);
      }
    }
  }

  lemma LazyIsWellFormed(g: Graph, c: set<nat>, neg: seq<Mask>)
    requires Lazy(g, c, neg)
    ensures WellFormed(g) && Scope(g, c) && |neg| == |g|
  {
  }

  lemma SameMasksSameFeeders(g: Graph, c: set<nat>, x: seq<Mask>, y: seq<Mask>, gen: seq<seq<nat>>, n: nat)
    requires WellFormed(g) && Scope(g, c) && n in c
    requires |x| == |y| == |g| && forall m :: m in c && m < |g| ==> x[m] == y[m]
    ensures FeedsStale(g, x, gen, n, {}) <==> FeedsStale(g, y, gen, n, {})
  {
    forall i: nat, q ensures Stale(g, x, gen, PortRef(n, i), q) <==> Stale(g, y, gen, PortRef(n, i), q) {
      if Connected(g, PortRef(n, i), q) {
        SameMasksSameStale(g, c, x, y, gen, PortRef(n, i), q);
      }
    }
  }

  /** The same request again finds exactly those inputs stale whose nodes have not been
      processed. On acyclic graphs there always are some: the last of the nodes with stale inputs
      feeds none and is not processed, so that a request that has been served once is served
      every time, with or without new data. */
  lemma SameRequestAgain(g: Graph, a: State, start: State, mid: State, seen: set<nat>, l: seq<nat>, t: State,
                         b: State, start': State, mid': State, seen': set<nat>, l': seq<nat>, failed: bool, t': State,
                         n: nat, required: Mask)
    requires Request(g, n, required) && ComponentBegins(g, a, start, Component(g, n), n, required)
    requires ComponentRun(g, start, mid, n, seen, l, {}, false, t) && seen !! Component(g, n)
    requires b.gen == t.gen && ComponentBegins(g, b, start', Component(g, n), n, required)
    requires ComponentRun(g, start', mid', n, seen', l', {}, failed, t') && seen' !! Component(g, n)
    ensures |mid.neg| == |g|
    ensures forall x: nat :: x in l' <==> x in Component(g, n) && FeedsStale(g, mid.neg, a.gen, x, Elems(l))
    ensures !Cyclic(FlowEdges(g)) ==> !failed
  {
    hide Component; hide Schedulable; hide OnDemandTypes; hide LeastClosed; hide Closed; hide Scope; hide Startable;
    hide ComponentBegins; hide Lazy; hide CaughtUp; hide Stale; hide Converge; hide FeedsStale; hide SomethingStale;
    hide Cyclic; hide WellFormed; hide ScheduleNodes; hide RootsFound;
    RequestIsAnswered(g, a, start, mid, n, required, seen, l, {}, false, t);
    RequestIsAnswered(g, b, start', mid', n, required, seen', l', {}, failed, t');
    SameRequestSameMasks(g, a, start, mid.neg, b, start', mid'.neg, n, required);
    RequestIsLazy(g, a, start, n, required);
    StaleAgain(g, Component(g, n), mid.neg, mid'.neg, a.gen, t.gen, l);
  }

  // ----- New data is noticed -----

  /** A call that succeeds advances exactly the outputs that push new data of the nodes that it
      processes. */
  lemma CallAdvances(g: Graph, a: State, start: State, mid: State, n: nat, required: Mask, seen: set<nat>, l: seq<nat>,
                     fails: set<nat>, t: State)
    requires WellFormed(g) && Schedulable(g, n, required) && GenerationsValid(g, a.gen)
    requires ComponentBegins(g, a, start, Component(g, n), n, required)
    requires ComponentRun(g, start, mid, n, seen, l, fails, false, t) && seen !! Component(g, n)
    ensures Advanced(g, mid.neg, a.gen, t.gen, Elems(t.done))
  {
    hide Component; hide WellFormed; hide Advanced; hide ScheduleNodes; hide RootsFound; hide GenerationsValid;
    hide IdleNodes; hide IsRoot;
    var c := Component(g, n);
    SchedulableNegotiation(g, start, n, required);
    FoundRootsAreRoots(g, mid, n, seen, l);
    RootsStartRunning(g, c, mid, n, l);
    var s := mid.(list := l);
    var who := RunAdvances(g, c, s, IdleNodes(g, c, mid), fails);
    assert Elems(s.done) == {};
    assert who == Elems(t.done);
  }

  ghost predicate RenewedWith(g: Graph, neg: seq<Mask>, a: seq<seq<nat>>, b: seq<seq<nat>>, who: set<nat>, p: PortRef,
                              q: PortRef) {
    Advanced(g, neg, a, b, who) && HasPort(g, p) && p.node in who && p.idx in neg[p.node].pushNew && q.node !in who
  }

  /** From `a` to `b` output `p` has been renewed, and the node of `q` has not been processed. */
  ghost predicate RenewedOnce(g: Graph, a: seq<seq<nat>>, b: seq<seq<nat>>, p: PortRef, q: PortRef) {
    exists neg, who :: RenewedWith(g, neg, a, b, who, p, q)
  }

  ghost predicate RenewedEachTime(g: Graph, h: seq<seq<seq<nat>>>, p: PortRef, q: PortRef) {
    h != [] && GenerationsValid(g, h[0]) && forall i :: 0 <= i < |h| - 1 ==> RenewedOnce(g, h[i], h[i + 1], p, q)
  }

  lemma {:induction false} HistoryRenews(g: Graph, h: seq<seq<seq<nat>>>, p: PortRef, q: PortRef)
    requires RenewedEachTime(g, h, p, q) && HasPort(g, p) && HasPort(g, q) && At(g, p).ptype.dir == Out
    ensures var b := h[|h| - 1];
      GenShape(g, b) && b[p.node][p.idx] == Renewals(h[0][p.node][p.idx], |h| - 1) && b[q.node] == h[0][q.node]
    decreases |h|
  {
    if |h| > 1 {
      HistoryRenews(g, h[..|h| - 1], p, q);
      var a, b := h[|h| - 2], h[|h| - 1];
      assert RenewedOnce(g, a, b, p, q);
      var neg, who :| RenewedWith(g, neg, a, b, who, p, q);
      var x := h[0][p.node][p.idx];
      RenewalsGoRound(x, |h| - 2);
      StepOfCycle(a[p.node][p.idx]);
    }
  }

  /** Once an input is up to date, calls that renew its producer make it stale, unless the
      generation has gone round completely. */
  lemma NewDataIsNoticed(g: Graph, h: seq<seq<seq<nat>>>, p: PortRef, q: PortRef)
    requires WellFormed(g) && RenewedEachTime(g, h, p, q) && Connected(g, p, q) && At(g, p).ptype.dir == Out
    requires h[0][p.node][p.idx] == h[0][q.node][q.idx]
    ensures var b := h[|h| - 1];
      GenShape(g, b) && (Copied(g, b, b, q.node, q.idx) <==> (|h| - 1) % 0xFFFF_FFFF_FFFF_FFFF == 0)
  {
    OnlyProducer(g, p, q);
    HistoryRenews(g, h, p, q);
    var x := h[0][p.node][p.idx];
    RenewalsGoRound(x, |h| - 1);
    GoesRound(x, |h| - 1);
    assert g[q.node][q.idx] == At(g, q);
  }

  lemma GoesRound(x: nat, k: nat)
    requires 1 <= x <= 0xFFFF_FFFF_FFFF_FFFF
    ensures (x - 1 + k) % 0xFFFF_FFFF_FFFF_FFFF + 1 == x <==> k % 0xFFFF_FFFF_FFFF_FFFF == 0
  {
  }

  /** A connection that has just been made counts as new data. */
  lemma NewConnectionIsStale(g: Graph, neg: seq<Mask>, gen: seq<seq<nat>>, src: PortRef, dst: PortRef)
    requires GenerationsValid(g, gen) && |neg| == |g| && GraphEditing.Connectable(g, src, dst)
    requires dst.idx in neg[dst.node].pullNew
    ensures Stale(GraphEditing.Connect(g, src, dst), neg, GraphEditing.ClearedAt(gen, dst), src, dst)
  {
    GraphEditing.ConnectConnections(g, src, dst);
    GraphEditing.NodesKept(g, GraphEditing.Connect(g, src, dst));
  }
}
