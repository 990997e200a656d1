/** Why the counters of a component depend on how inputs pull: an input that never pulls
    old data can be activated after its node has been evaluated for the last time. */
module StaleCounters {
  import opened Digraph
  import opened DataflowGraph
  import opened NodeTypes
  import opened SchedulerState
  import opened MaskNegotiation
  import opened DependencyCounters
  import opened NodeScheduling
  import opened ComponentScheduling

  function Dirs(types: seq<PortType>): (r: seq<Direction>)
    ensures |r| == |types|
  {
    seq(|types|, j requires 0 <= j < |types| => types[j].dir)
  }

  ghost predicate FitsType(m: Mask, types: seq<PortType>) {
    Fits(m, PortsOf(Dirs(types), In), PortsOf(Dirs(types), Out))
  }

  /** The port types of a node whose masks name ports of the right direction, and whose
      outputs answer requests. */
  ghost predicate NodeType(types: seq<PortType>) {
    && |types| <= 64
    && (forall j: nat :: j < |types| ==> FitsType(types[j].newMask, types) && FitsType(types[j].oldMask, types))
    && (forall j: nat :: j < |types| && types[j].dir == Out ==> j in types[j].newMask.pushOld)
  }

  /** The outputs also push old data when they are asked for data of any age. */
  ghost predicate AnswersOldPulls(types: seq<PortType>) {
    forall j: nat :: j < |types| && types[j].dir == Out ==> j in types[j].oldMask.pushOld
  }

  // ----- The graph: a source feeds a pure function, which feeds the node -----

  function Source(): PortType {
    PortType(Out, Mask({}, {}, {0}, {0}), Mask({}, {}, {}, {0}))
  }

  function FunctionIn(): PortType {
    PortType(In, Mask({}, {0}, {1}, {}), Mask({0}, {}, {}, {1}))
  }

  function FunctionOut(): PortType {
    PortType(Out, Mask({0}, {}, {}, {1}), Mask({}, {0}, {}, {1}))
  }

  function Consumer(types: seq<PortType>, i: nat): seq<Port> {
    seq(|types|, j requires 0 <= j < |types| => Port(types[j], if j == i then [PortRef(1, 1)] else []))
  }

  function Chain(types: seq<PortType>, i: nat): Graph {
    [Consumer(types, i),
     [Port(FunctionIn(), [PortRef(2, 0)]), Port(FunctionOut(), [PortRef(0, i)])],
     [Port(Source(), [PortRef(1, 0)])]]
  }

  /** What the node requires: new data at input `i`, with everything that follows. */
  function Required(types: seq<PortType>, i: nat): Mask
    requires i < |types|
  {
    types[i].newMask.Apply(types[i].oldMask).Apply(Mask({i}, {}, {}, {}))
  }

  /** Input `i` of the node type never pulls old data. */
  ghost predicate NeverPullsOld(types: seq<PortType>, i: nat) {
    NodeType(types) && i < |types| && types[i].dir == In && i !in types[i].newMask.pullOld &&
      i !in types[i].oldMask.pullOld
  }

  /** The pure function and the source are built by the program from definitions. */
  lemma ChainTypesAreBuilt()
    ensures BuildPorts([In, Out], [], true) == [FunctionIn(), FunctionOut()]
    ensures BuildPorts([Out], [PortDep(0, New, Out, New, {0})], true) == [Source()]
  {
    assert PortsOf([In, Out], In) == {0} && PortsOf([In, Out], Out) == {1};
    assert PortsOf([Out], In) == {} && PortsOf([Out], Out) == {0};
    var dep := PortDep(0, New, Out, New, {0});
    assert [dep][1..] == [];
    assert AddDeps(InitialType(Out, 0), 0, [dep]) == AddDep(InitialType(Out, 0), 0, dep);
    var t := InitialType(In, 0);
    assert AddPure(t, {0}, {1}) == FunctionIn();
    assert AddPure(InitialType(Out, 1), {0}, {1}) == FunctionOut();
    assert AddPure(AddDep(InitialType(Out, 0), 0, dep), {}, {0}) == Source();
  }

  /** So is a node type of the kind in question: a single input without dependencies. */
  lemma StaleTypeIsBuilt()
    ensures BuildPorts([In], [], false) == [PortType(In, EMPTY_MASK, EMPTY_MASK)]
    ensures NeverPullsOld(BuildPorts([In], [], false), 0)
  {
    assert AddDeps(InitialType(In, 0), 0, []) == InitialType(In, 0);
  }

  lemma ChainPorts(types: seq<PortType>, i: nat, r: PortRef)
    requires i < |types| && HasPort(Chain(types, i), r)
    ensures var g := Chain(types, i);
      (r.node == 0 ==> At(g, r) == Port(types[r.idx], if r.idx == i then [PortRef(1, 1)] else []))
      && (r.node == 1 && r.idx == 0 ==> At(g, r) == Port(FunctionIn(), [PortRef(2, 0)]))
      && (r.node == 1 && r.idx == 1 ==> At(g, r) == Port(FunctionOut(), [PortRef(0, i)]))
      && (r.node == 2 ==> r.idx == 0 && At(g, r) == Port(Source(), [PortRef(1, 0)]))
      && r.node <= 2 && (r.node == 1 ==> r.idx <= 1)
  {
  }

  lemma ChainWellFormed(types: seq<PortType>, i: nat)
    requires NeverPullsOld(types, i)
    ensures WellFormed(Chain(types, i))
    ensures MasksTyped(Chain(types, i)) && RequestsAreAnswered(Chain(types, i))
    ensures AnswersOldPulls(types) ==> OldDataIsPushed(Chain(types, i))
    ensures !NewDataIsPulled(Chain(types, i))
  {
    var g := Chain(types, i);
    forall r | HasPort(g, r)
      ensures Bounded(At(g, r).ptype.newMask, |g[r.node]|) && Bounded(At(g, r).ptype.oldMask, |g[r.node]|)
      ensures Typed(At(g, r).ptype.newMask, g[r.node]) && Typed(At(g, r).ptype.oldMask, g[r.node])
      ensures At(g, r).ptype.dir == Out ==> r.idx in At(g, r).ptype.newMask.pushOld
      ensures At(g, r).ptype.dir == Out && AnswersOldPulls(types) ==> r.idx in At(g, r).ptype.oldMask.pushOld
      ensures At(g, r).ptype.dir == In ==> |At(g, r).conns| <= 1
      ensures Distinct(At(g, r).conns)
    {
      ChainPorts(types, i, r);
      PortTyped(types, i, r);
    }
    forall r, q | Connected(g, r, q)
      ensures HasPort(g, q) && Connected(g, q, r) && At(g, q).ptype.dir != At(g, r).ptype.dir
    {
      ChainPorts(types, i, r);
      ChainPorts(types, i, q);
    }
    var q := PortRef(0, i);
    assert HasPort(g, q);
  }

  lemma PortTyped(types: seq<PortType>, i: nat, r: PortRef)
    requires NeverPullsOld(types, i) && HasPort(Chain(types, i), r)
    ensures var g := Chain(types, i);
      Typed(At(g, r).ptype.newMask, g[r.node]) && Typed(At(g, r).ptype.oldMask, g[r.node])
  {
    ChainPorts(types, i, r);
    var g := Chain(types, i);
    assert PortsOf([In, Out], In) == {0} && PortsOf([In, Out], Out) == {1};
    assert PortsOf([Out], In) == {} && PortsOf([Out], Out) == {0};
    var dirs := if r.node == 0 then Dirs(types) else if r.node == 1 then [In, Out] else [Out];
    FitsTyped(At(g, r).ptype.newMask, dirs, g[r.node]);
    FitsTyped(At(g, r).ptype.oldMask, dirs, g[r.node]);
  }

  // ----- The negotiation, evaluation by evaluation -----

  /** A propagation in which at most port `x` is connected, and to one port. */
  lemma {:induction false} PropagateOnly(g: Graph, s: State, n: nat, bits: set<nat>, d: Direction, k: Freshness, x: nat,
                                         q: PortRef, i: nat)
    requires RefsExist(g) && n < |g| && i <= |g[n]| && |s.neg| == |g| && HasPort(g, q)
    requires forall j :: j in bits && j < |g[n]| ==>
      g[n][j].ptype.dir == d && g[n][j].conns == if j == x then [q] else []
    ensures Propagate(g, s, n, bits, d, k, i) ==
      Outcome(true, if i <= x < |g[n]| && x in bits then Offer(g, s, q, k) else s)
    decreases |g[n]| - i
  {
    if i < |g[n]| {
      if i in bits {
        PortConnsExist(g, n, i);
        if i == x {
          assert [q][1..] == [];
          assert OfferAll(g, s, [q], k) == Offer(g, s, q, k);
          PropagateOnly(g, Offer(g, s, q, k), n, bits, d, k, x, q, i + 1);
        } else {
          PropagateOnly(g, s, n, bits, d, k, x, q, i + 1);
        }
      } else {
        PropagateOnly(g, s, n, bits, d, k, x, q, i + 1);
      }
    }
  }

  /** A mask whose bits only name ports of the right direction. */
  ghost predicate Aimed(g: Graph, n: nat, m: Mask) {
    n < |g| && Typed(m, g[n])
  }

  /** The effect of one offer if a port is in a set. */
  function OfferIf(g: Graph, s: State, b: bool, q: PortRef, k: Freshness): (r: State)
    requires HasPort(g, q) && |s.neg| == |g|
    ensures |r.neg| == |g|
  {
    if b then Offer(g, s, q, k) else s
  }

  /** The connected ports of a node: input `x` to `q` and output `y` to `r`, at most. */
  ghost predicate Wired(g: Graph, n: nat, d: Direction, x: nat, q: PortRef) {
    n < |g| && HasPort(g, q) && forall j: nat :: Directed(g[n], j, d) ==> g[n][j].conns == if j == x then [q] else []
  }

  lemma PropagateTyped(g: Graph, s: State, n: nat, m: Mask, d: Direction, k: Freshness, x: nat, q: PortRef)
    requires RefsExist(g) && Aimed(g, n, m) && |s.neg| == |g| && Wired(g, n, d, x, q)
    ensures Propagate(g, s, n, m.Bits(d, k), d, k, 0) == Outcome(true, OfferIf(g, s, x in m.Bits(d, k), q, k))
  {
    assert forall j: nat :: j in m.Bits(d, k) ==> Directed(g[n], j, d);
    PropagateOnly(g, s, n, m.Bits(d, k), d, k, x, q, 0);
  }

  /** Evaluating a node with at most one connected input `x` and one connected output `y`. */
  lemma PropagateBoth(g: Graph, s: State, n: nat, m: Mask, x: nat, q: PortRef, y: nat, r: PortRef)
    requires RefsExist(g) && Aimed(g, n, m) && |s.neg| == |g| && HasPort(g, q) && HasPort(g, r)
    requires Wired(g, n, In, x, q) && Wired(g, n, Out, y, r)
    ensures var s1 := OfferIf(g, s, x in m.pullNew, q, New);
      var s2 := OfferIf(g, s1, x in m.pullOld, q, Old);
      var s3 := OfferIf(g, s2, y in m.pushNew, r, New);
      PropagateAll(g, s, n, m) == Outcome(true, OfferIf(g, s3, y in m.pushOld, r, Old))
  {
    hide Aimed; hide Wired; hide OfferIf; hide Propagate;
    var s1 := OfferIf(g, s, x in m.pullNew, q, New);
    var s2 := OfferIf(g, s1, x in m.pullOld, q, Old);
    var s3 := OfferIf(g, s2, y in m.pushNew, r, New);
    PropagateTyped(g, s, n, m, In, New, x, q);
    PropagateTyped(g, s1, n, m, In, Old, x, q);
    PropagateTyped(g, s2, n, m, Out, New, y, r);
    PropagateTyped(g, s3, n, m, Out, Old, y, r);
  }

  function Requested(): Mask {
    FunctionOut().newMask
  }

  function Filled(): Mask {
    Mask({0}, {0}, {1}, {1})
  }

  /** The states before and after the four evaluations. */
  function After(types: seq<PortType>, i: nat, gen: seq<seq<nat>>, k: nat): State
    requires i < |types| && k <= 4
  {
    var m := Required(types, i);
    match k
    case 0 => State([m, EMPTY_MASK, EMPTY_MASK], [EMPTY_MASK, EMPTY_MASK, EMPTY_MASK], [0, 0, 0], gen, [0], [])
    case 1 => State([m, Requested(), EMPTY_MASK], [m, EMPTY_MASK, EMPTY_MASK], [0, 0, 0], gen, [1], [])
    case 2 => State([m, Requested(), Source().newMask], [m, Requested(), EMPTY_MASK], [0, 1, 0], gen, [2], [])
    case 3 => State([m, Filled(), Source().newMask], [m, Requested(), Source().newMask], [0, 1, 0], gen, [1], [])
    case _ => State([m, Filled(), Source().newMask], [m, Filled(), Source().newMask], [0, 1, 0], gen, [], [])
  }

  ghost predicate GenerationsFit(g: Graph, gen: seq<seq<nat>>) {
    |gen| == |g| && forall n: nat :: n < |g| ==> |gen[n]| == |g[n]|
  }

  ghost predicate Setting(types: seq<PortType>, i: nat, gen: seq<seq<nat>>) {
    NeverPullsOld(types, i) && WellFormed(Chain(types, i)) && GenerationsFit(Chain(types, i), gen)
  }

  lemma RequiredTyped(types: seq<PortType>, i: nat)
    requires NeverPullsOld(types, i)
    ensures Typed(Required(types, i), Consumer(types, i)) && i !in Required(types, i).pullOld
    ensures i in Required(types, i).pullNew
    ensures i !in Required(types, i).pushNew + Required(types, i).pushOld
  {
    assert i in PortsOf(Dirs(types), In);
    FitsTyped(Required(types, i), Dirs(types), Consumer(types, i));
    assert i !in PortsOf(Dirs(types), Out);
  }

  lemma MaskFacts()
    ensures Requested().Apply(FunctionIn().newMask) == Filled() && Requested().Apply(Filled()) == Filled()
    ensures Filled().Diff(Requested()) == Mask({}, {0}, {1}, {})
    ensures !FunctionIn().newMask.SubsetOf(Requested()) && FunctionIn().oldMask.SubsetOf(Filled())
    ensures Source().oldMask.SubsetOf(Source().newMask)
  {
  }

  lemma RequiredCovers(types: seq<PortType>, i: nat)
    requires i < |types|
    ensures types[i].newMask.SubsetOf(Required(types, i)) && types[i].oldMask.SubsetOf(Required(types, i))
  {
  }

  /** Nothing has changed since the last evaluation, or everything is new. */
  lemma DiffIs(m: Mask)
    ensures m.Diff(EMPTY_MASK) == m && EMPTY_MASK.Apply(m) == m
  {
  }

  /** What the evaluation of the only listed node propagates, and what it leaves. */
  ghost predicate Evaluates(s: State, n: nat, m: Mask, t: State, active: set<nat>, u: State) {
    && n < |s.neg| && n < |s.prop| && n < |t.neg| && n < |t.prop| && n < |t.deps|
    && s.list == [n] && s.neg[n].Diff(s.prop[n]) == m
    && u == t.(prop := t.prop[n := t.prop[n].Apply(t.neg[n])], deps := t.deps[n := |active|])
  }

  /** One evaluation of the only listed node. */
  lemma StepIs(g: Graph, s: State, n: nat, m: Mask, t: State, active: set<nat>, u: State)
    requires RefsExist(g) && Shaped(g, s) && Shaped(g, t) && n < |g| && Evaluates(s, n, m, t, active, u)
    requires PropagateAll(g, s.(list := []), n, m) == Outcome(true, t) && ActiveInputs(g, t.neg, t.gen, n) == active
    ensures Step(g, s, n) == Outcome(true, u)
  {
    assert Remove([n], n) == [];
  }

  /** The consumer's input is not activated while its producer pushes nothing new. */
  lemma ConsumerInactive(types: seq<PortType>, i: nat, gen: seq<seq<nat>>)
    requires Setting(types, i, gen)
    ensures ActiveInputs(Chain(types, i), [Required(types, i), Requested(), EMPTY_MASK], gen, 0) == {}
  {
    RequiredTyped(types, i);
    var g := Chain(types, i);
    var neg := [Required(types, i), Requested(), EMPTY_MASK];
    forall j: nat | j < |types| && j in neg[0].pullOld + neg[0].pullNew ensures !Activated(g, neg, gen, PortRef(0, j)) {
      ChainPorts(types, i, PortRef(0, j));
      assert j in neg[0].Bits(In, Old) || j in neg[0].Bits(In, New);
      assert Directed(Consumer(types, i), j, In);
    }
  }

  lemma FunctionActive(types: seq<PortType>, i: nat, gen: seq<seq<nat>>, own: Mask)
    requires Setting(types, i, gen) && (own == Requested() || own == Filled())
    ensures ActiveInputs(Chain(types, i), [Required(types, i), own, Source().newMask], gen, 1) == {0}
  {
    var g := Chain(types, i);
    var neg := [Required(types, i), own, Source().newMask];
    ChainPorts(types, i, PortRef(1, 0));
    assert Activated(g, neg, gen, PortRef(1, 0));
  }

  lemma SourceInactive(types: seq<PortType>, i: nat, gen: seq<seq<nat>>)
    requires Setting(types, i, gen)
    ensures ActiveInputs(Chain(types, i), [Required(types, i), Filled(), Source().newMask], gen, 2) == {}
  {
  }

  lemma ThreeShaped(types: seq<PortType>, i: nat, s: State)
    requires NeverPullsOld(types, i) && WellFormed(Chain(types, i)) && GenerationsFit(Chain(types, i), s.gen)
    requires |s.neg| == |s.prop| == |s.deps| == 3 && forall n :: n in s.list ==> n < 3
    ensures RefsExist(Chain(types, i)) && |Chain(types, i)| == 3 && Shaped(Chain(types, i), s)
  {
  }

  lemma ConsumerOffers(types: seq<PortType>, i: nat, gen: seq<seq<nat>>)
    requires Setting(types, i, gen)
    ensures var g := Chain(types, i); var s0 := After(types, i, gen, 0).(list := []);
      PropagateAll(g, s0, 0, Required(types, i)) ==
        Outcome(true, s0.(neg := s0.neg[1 := Requested()], list := [1]))
  {
    var g := Chain(types, i);
    var m := Required(types, i);
    var s0 := After(types, i, gen, 0).(list := []);
    RequiredTyped(types, i);
    DiffIs(Requested());
    var q := PortRef(1, 1);
    PropagateBoth(g, s0, 0, m, i, q, |types|, q);
    assert |types| !in m.pushNew && |types| !in m.pushOld by {
      assert forall x: nat :: x in m.Bits(Out, New) || x in m.Bits(Out, Old) ==> Directed(g[0], x, Out);
    }
    assert Offer(g, s0, q, New) == s0.(neg := s0.neg[1 := Requested()], list := [1]);
  }

  lemma ConsumerEvaluatedTo(types: seq<PortType>, i: nat, gen: seq<seq<nat>>, s: State, t: State)
    requires i < |types| && s == After(types, i, gen, 0) && t == s.(neg := s.neg[1 := Requested()], list := [1])
    ensures Evaluates(s, 0, Required(types, i), t, {}, After(types, i, gen, 1))
  {
    hide Required;
    DiffIs(Required(types, i));
  }

  lemma ConsumerEvaluated(types: seq<PortType>, i: nat, gen: seq<seq<nat>>)
    requires Setting(types, i, gen)
    ensures Shaped(Chain(types, i), After(types, i, gen, 0))
    ensures Step(Chain(types, i), After(types, i, gen, 0), 0) == Outcome(true, After(types, i, gen, 1))
  {
    var s := After(types, i, gen, 0);
    var t := s.(neg := s.neg[1 := Requested()], list := [1]);
    ConsumerOffers(types, i, gen);
    ConsumerInactive(types, i, gen);
    ThreeShaped(types, i, s);
    ThreeShaped(types, i, t);
    ConsumerEvaluatedTo(types, i, gen, s, t);
    hide *;
    StepIs(Chain(types, i), s, 0, Required(types, i), t, {}, After(types, i, gen, 1));
  }

  lemma FunctionAsks(types: seq<PortType>, i: nat, gen: seq<seq<nat>>)
    requires Setting(types, i, gen)
    ensures var g := Chain(types, i); var s0 := After(types, i, gen, 1).(list := []);
      PropagateAll(g, s0, 1, Requested()) == Outcome(true, s0.(neg := s0.neg[2 := Source().newMask], list := [2]))
  {
    var g := Chain(types, i);
    var s0 := After(types, i, gen, 1).(list := []);
    DiffIs(Source().newMask);
    RequiredCovers(types, i);
    PropagateBoth(g, s0, 1, Requested(), 0, PortRef(2, 0), 1, PortRef(0, i));
    hide Chain;
    var t := s0.(neg := s0.neg[2 := Source().newMask], list := [2]);
    ChainPorts(types, i, PortRef(2, 0));
    ChainPorts(types, i, PortRef(0, i));
    assert Offer(g, s0, PortRef(2, 0), New) == t;
    assert Offer(g, t, PortRef(0, i), Old) == t;
  }

  lemma FunctionRequestedTo(types: seq<PortType>, i: nat, gen: seq<seq<nat>>, s: State, t: State)
    requires i < |types| && s == After(types, i, gen, 1) && t == s.(neg := s.neg[2 := Source().newMask], list := [2])
    ensures Evaluates(s, 1, Requested(), t, {0}, After(types, i, gen, 2))
  {
    hide Required;
    DiffIs(Requested());
  }

  lemma FunctionRequested(types: seq<PortType>, i: nat, gen: seq<seq<nat>>)
    requires Setting(types, i, gen)
    ensures Shaped(Chain(types, i), After(types, i, gen, 1))
    ensures Step(Chain(types, i), After(types, i, gen, 1), 1) == Outcome(true, After(types, i, gen, 2))
  {
    var s := After(types, i, gen, 1);
    var t := s.(neg := s.neg[2 := Source().newMask], list := [2]);
    FunctionAsks(types, i, gen);
    FunctionActive(types, i, gen, Requested());
    ThreeShaped(types, i, s);
    ThreeShaped(types, i, t);
    FunctionRequestedTo(types, i, gen, s, t);
    hide *;
    StepIs(Chain(types, i), s, 1, Requested(), t, {0}, After(types, i, gen, 2));
  }

  lemma SourceOffers(types: seq<PortType>, i: nat, gen: seq<seq<nat>>)
    requires Setting(types, i, gen)
    ensures var g := Chain(types, i); var s0 := After(types, i, gen, 2).(list := []);
      PropagateAll(g, s0, 2, Source().newMask) == Outcome(true, s0.(neg := s0.neg[1 := Filled()], list := [1]))
  {
    var g := Chain(types, i);
    var s0 := After(types, i, gen, 2).(list := []);
    MaskFacts();
    PropagateBoth(g, s0, 2, Source().newMask, 1, PortRef(1, 0), 0, PortRef(1, 0));
    hide Chain;
    var t := s0.(neg := s0.neg[1 := Filled()], list := [1]);
    ChainPorts(types, i, PortRef(1, 0));
    assert Offer(g, s0, PortRef(1, 0), New) == t;
    assert Offer(g, t, PortRef(1, 0), Old) == t;
  }

  lemma SourceEvaluatedTo(types: seq<PortType>, i: nat, gen: seq<seq<nat>>, s: State, t: State)
    requires i < |types| && s == After(types, i, gen, 2) && t == s.(neg := s.neg[1 := Filled()], list := [1])
    ensures Evaluates(s, 2, Source().newMask, t, {}, After(types, i, gen, 3))
  {
    hide Required;
    DiffIs(Source().newMask);
  }

  lemma SourceEvaluated(types: seq<PortType>, i: nat, gen: seq<seq<nat>>)
    requires Setting(types, i, gen)
    ensures Shaped(Chain(types, i), After(types, i, gen, 2))
    ensures Step(Chain(types, i), After(types, i, gen, 2), 2) == Outcome(true, After(types, i, gen, 3))
  {
    var s := After(types, i, gen, 2);
    var t := s.(neg := s.neg[1 := Filled()], list := [1]);
    SourceOffers(types, i, gen);
    SourceInactive(types, i, gen);
    ThreeShaped(types, i, s);
    ThreeShaped(types, i, t);
    SourceEvaluatedTo(types, i, gen, s, t);
    hide *;
    StepIs(Chain(types, i), s, 2, Source().newMask, t, {}, After(types, i, gen, 3));
  }

  lemma FunctionOffers(types: seq<PortType>, i: nat, gen: seq<seq<nat>>)
    requires Setting(types, i, gen)
    ensures var g := Chain(types, i); var s0 := After(types, i, gen, 3).(list := []);
      PropagateAll(g, s0, 1, Mask({}, {0}, {1}, {})) == Outcome(true, s0)
  {
    var g := Chain(types, i);
    var s0 := After(types, i, gen, 3).(list := []);
    MaskFacts();
    RequiredCovers(types, i);
    PropagateBoth(g, s0, 1, Mask({}, {0}, {1}, {}), 0, PortRef(2, 0), 1, PortRef(0, i));
    hide Chain;
    ChainPorts(types, i, PortRef(2, 0));
    ChainPorts(types, i, PortRef(0, i));
    assert Offer(g, s0, PortRef(2, 0), Old) == s0;
    assert Offer(g, s0, PortRef(0, i), New) == s0;
  }

  lemma FunctionFilledTo(types: seq<PortType>, i: nat, gen: seq<seq<nat>>, s: State, t: State)
    requires i < |types| && s == After(types, i, gen, 3) && t == s.(list := [])
    ensures Evaluates(s, 1, Mask({}, {0}, {1}, {}), t, {0}, After(types, i, gen, 4))
  {
    hide Required;
    MaskFacts();
  }

  lemma FunctionFilled(types: seq<PortType>, i: nat, gen: seq<seq<nat>>)
    requires Setting(types, i, gen)
    ensures Shaped(Chain(types, i), After(types, i, gen, 3))
    ensures Step(Chain(types, i), After(types, i, gen, 3), 1) == Outcome(true, After(types, i, gen, 4))
  {
    var s := After(types, i, gen, 3);
    var t := s.(list := []);
    FunctionOffers(types, i, gen);
    FunctionActive(types, i, gen, Filled());
    ThreeShaped(types, i, s);
    ThreeShaped(types, i, t);
    FunctionFilledTo(types, i, gen, s, t);
    hide *;
    StepIs(Chain(types, i), s, 1, Mask({}, {0}, {1}, {}), t, {0}, After(types, i, gen, 4));
  }

  // ----- The result -----

  lemma StatesStartable(types: seq<PortType>, i: nat, gen: seq<seq<nat>>, k: nat)
    requires Setting(types, i, gen) && k <= 4
    ensures Startable(Chain(types, i), After(types, i, gen, k))
  {
    RequiredTyped(types, i);
  }

  lemma Lists(types: seq<PortType>, i: nat, gen: seq<seq<nat>>)
    requires i < |types|
    ensures After(types, i, gen, 0).list == [0] && After(types, i, gen, 1).list == [1]
    ensures After(types, i, gen, 2).list == [2]
    ensures After(types, i, gen, 3).list == [1] && After(types, i, gen, 4).list == []
  {
  }

  lemma NegotiationEnds(types: seq<PortType>, i: nat, gen: seq<seq<nat>>)
    requires Setting(types, i, gen)
    ensures Startable(Chain(types, i), After(types, i, gen, 0))
    ensures Converge(Chain(types, i), After(types, i, gen, 0)) == Outcome(true, After(types, i, gen, 4))
  {
    assert i < |types| && WellFormed(Chain(types, i)) && |Chain(types, i)| == 3;
    Lists(types, i, gen);
    hide *;
    StatesStartable(types, i, gen, 0);
    StatesStartable(types, i, gen, 1);
    StatesStartable(types, i, gen, 2);
    StatesStartable(types, i, gen, 3);
    StatesStartable(types, i, gen, 4);
    ConsumerEvaluated(types, i, gen);
    FunctionRequested(types, i, gen);
    SourceEvaluated(types, i, gen);
    FunctionFilled(types, i, gen);
    ConvergeStep(Chain(types, i), After(types, i, gen, 0), After(types, i, gen, 1));
    ConvergeStep(Chain(types, i), After(types, i, gen, 1), After(types, i, gen, 2));
    ConvergeStep(Chain(types, i), After(types, i, gen, 2), After(types, i, gen, 3));
    ConvergeStep(Chain(types, i), After(types, i, gen, 3), After(types, i, gen, 4));
    ConvergeDone(Chain(types, i), After(types, i, gen, 4));
  }

  lemma ConvergeStep(g: Graph, s: State, t: State)
    requires WellFormed(g) && Startable(g, s) && Startable(g, t) && s.list != [] && s.list[0] < |g|
    requires Step(g, s, s.list[0]) == Outcome(true, t)
    ensures Converge(g, s) == Converge(g, t)
  {
  }

  lemma ConvergeDone(g: Graph, s: State)
    requires WellFormed(g) && Startable(g, s) && s.list == []
    ensures Converge(g, s) == Outcome(true, s)
  {
  }

  lemma ChainIsAcyclic(types: seq<PortType>, i: nat)
    requires NeverPullsOld(types, i)
    ensures !Cyclic(FlowEdges(Chain(types, i)))
  {
    var g := Chain(types, i);
    var rank := (n: nat) => n as int;
    forall a: nat, b: nat | FlowEdges(g)(a, b) ensures rank(b) < rank(a) {
      var r, q :| Connected(g, r, q) && At(g, r).ptype.dir == Out && r.node == a && q.node == b;
      ChainPorts(types, i, r);
    }
    RankedIsAcyclic(FlowEdges(g), rank);
  }

  /** The whole graph is one component, and scheduling starts at the consumer. */
  lemma ChainScope(types: seq<PortType>, i: nat)
    requires i < |types|
    ensures Scope(Chain(types, i), AllNodes(Chain(types, i)))
  {
    var g := Chain(types, i);
    assert |g| == 3;
    forall r, q | Connected(g, r, q) && r.node in AllNodes(g) ensures q.node in AllNodes(g) {
      ChainPorts(types, i, r);
    }
  }

  lemma StartIs(g: Graph, c: set<nat>, s: State, m: Mask)
    requires Shaped(g, s) && NegBounded(g, s.neg) && |g| == 3 && 0 in c && s.list == [0] && s.done == []
    requires s.neg == [m, EMPTY_MASK, EMPTY_MASK] && s.prop == [EMPTY_MASK, EMPTY_MASK, EMPTY_MASK]
    requires s.deps == [0, 0, 0]
    ensures ComponentStart(g, c, s, 0, m)
  {
  }

  lemma ChainStarts(types: seq<PortType>, i: nat, gen: seq<seq<nat>>)
    requires Setting(types, i, gen)
    ensures ComponentStart(Chain(types, i), AllNodes(Chain(types, i)), After(types, i, gen, 0), 0, Required(types, i))
    ensures Scope(Chain(types, i), AllNodes(Chain(types, i)))
  {
    StatesStartable(types, i, gen, 0);
    ChainScope(types, i);
    assert |Chain(types, i)| == 3 && 0 in AllNodes(Chain(types, i));
    var s := After(types, i, gen, 0);
    assert s.neg == [Required(types, i), EMPTY_MASK, EMPTY_MASK] && s.prop == [EMPTY_MASK, EMPTY_MASK, EMPTY_MASK];
    assert s.deps == [0, 0, 0] && s.list == [0] && s.done == [];
    assert Shaped(Chain(types, i), s) && NegBounded(Chain(types, i), s.neg);
    hide *;
    StartIs(Chain(types, i), AllNodes(Chain(types, i)), s, Required(types, i));
  }

  lemma InputIsActivated(types: seq<PortType>, i: nat, gen: seq<seq<nat>>)
    requires Setting(types, i, gen)
    ensures var s := After(types, i, gen, 4); Awaited(Chain(types, i), s.neg, 0) == {i} && s.deps[0] == 0
  {
    var g := Chain(types, i);
    var s := After(types, i, gen, 4);
    RequiredTyped(types, i);
    ChainPorts(types, i, PortRef(0, i));
    assert InputActivated(g, s.neg, PortRef(0, i));
  }

  lemma WrongCounter(g: Graph, c: set<nat>, s: State, n: nat)
    requires RefsExist(g) && Shaped(g, s) && n in c && n < |g| && s.deps[n] != |Awaited(g, s.neg, n)|
    ensures !Exact(g, c, s)
  {
  }

  /** A negotiation that succeeds but leaves the counter of an activated input at zero. */
  ghost predicate Stale(g: Graph, s: State, i: nat) {
    && WellFormed(g) && |g| > 0 && Startable(g, s)
    && var r := Converge(g, s);
      r.ok && r.st.deps[0] == 0 && Awaited(g, r.st.neg, 0) == {i} && !Exact(g, AllNodes(g), r.st)
  }

  /** A node type with an input that never pulls old data: in an acyclic graph with a
      source and a pure function, whose outputs all answer requests, the negotiation
      succeeds, input `i` ends up activated, and the counter of its node is zero. */
  lemma CounterIsStale(types: seq<PortType>, i: nat, gen: seq<seq<nat>>)
    requires NeverPullsOld(types, i) && GenerationsFit(Chain(types, i), gen)
    ensures var g := Chain(types, i);
      && WellFormed(g) && MasksTyped(g) && RequestsAreAnswered(g) && !Cyclic(FlowEdges(g))
      && (AnswersOldPulls(types) ==> OldDataIsPushed(g))
      && ComponentStart(g, AllNodes(g), After(types, i, gen, 0), 0, Required(types, i))
      && Stale(g, After(types, i, gen, 0), i)
  {
    ChainWellFormed(types, i);
    ChainIsAcyclic(types, i);
    ChainStarts(types, i, gen);
    NegotiationEnds(types, i, gen);
    InputIsActivated(types, i, gen);
    var g := Chain(types, i);
    var s := After(types, i, gen, 4);
    StatesStartable(types, i, gen, 4);
    assert Shaped(g, s) && RefsExist(g) && 0 in AllNodes(g) && |g| == 3;
    hide *;
    WrongCounter(g, AllNodes(g), s, 0);
    StaleIs(g, After(types, i, gen, 0), s, i);
  }

  lemma StaleIs(g: Graph, s: State, t: State, i: nat)
    requires WellFormed(g) && |g| > 0 && Startable(g, s) && Converge(g, s) == Outcome(true, t) && Shaped(g, t)
    requires t.deps[0] == 0 && Awaited(g, t.neg, 0) == {i} && !Exact(g, AllNodes(g), t)
    ensures Stale(g, s, i)
  {
  }

  // ----- What the stale counter does to processing -----

  lemma SourceDelivers(types: seq<PortType>, i: nat, s: State)
    requires Setting(types, i, s.gen) && Shaped(Chain(types, i), s)
    requires s.neg == [Required(types, i), Filled(), Source().newMask] && s.deps == [0, 1, 0] && s.list == []
    ensures RefsExist(Chain(types, i))
    ensures DeliverPorts(Chain(types, i), s, 2, Pushes(s.neg[2]), 0) ==
      Outcome(true, s.(deps := [0, 0, 0], list := [1]))
  {
    var g := Chain(types, i);
    ChainPorts(types, i, PortRef(1, 0));
    ChainPorts(types, i, PortRef(2, 0));
    PortConnsExist(g, 2, 0);
    assert Activated(g, s.neg, s.gen, PortRef(1, 0));
    var t := s.(deps := [0, 0, 0], list := [1]);
    assert Deliver(g, s, PortRef(1, 0)) == Outcome(true, t);
    assert [PortRef(1, 0)][1..] == [];
    assert DeliverAll(g, s, [PortRef(1, 0)]) == Outcome(true, t);
    assert DeliverPorts(g, t, 2, Pushes(s.neg[2]), 1) == Outcome(true, t);
  }

  lemma FunctionFails(types: seq<PortType>, i: nat, s: State)
    requires Setting(types, i, s.gen) && Shaped(Chain(types, i), s)
    requires s.neg == [Required(types, i), Filled(), Source().newMask] && s.deps[0] == 0
    ensures RefsExist(Chain(types, i))
    ensures !DeliverPorts(Chain(types, i), s, 1, Pushes(s.neg[1]), 0).ok
  {
    var g := Chain(types, i);
    RequiredTyped(types, i);
    ChainPorts(types, i, PortRef(0, i));
    ChainPorts(types, i, PortRef(1, 1));
    PortConnsExist(g, 1, 1);
    assert Activated(g, s.neg, s.gen, PortRef(0, i));
    assert !Deliver(g, s, PortRef(0, i)).ok;
    assert !DeliverAll(g, s, [PortRef(0, i)]).ok;
    assert !DeliverPorts(g, s, 1, Pushes(s.neg[1]), 1).ok;
  }

  lemma SourceIsRoot(types: seq<PortType>, i: nat, gen: seq<seq<nat>>)
    requires Setting(types, i, gen) && Shaped(Chain(types, i), After(types, i, gen, 4))
    ensures IsRoot(Chain(types, i), After(types, i, gen, 4), 2) && !IsRoot(Chain(types, i), After(types, i, gen, 4), 1)
  {
    var g := Chain(types, i);
    var s := After(types, i, gen, 4);
    ChainPorts(types, i, PortRef(2, 0));
    assert Activated(g, s.neg, s.gen, PortRef(2, 0));
  }

  lemma ConsumerIsNoRoot(types: seq<PortType>, i: nat, gen: seq<seq<nat>>)
    requires Setting(types, i, gen) && Shaped(Chain(types, i), After(types, i, gen, 4))
    ensures !IsRoot(Chain(types, i), After(types, i, gen, 4), 0)
  {
    var g := Chain(types, i);
    var s := After(types, i, gen, 4);
    RequiredTyped(types, i);
    hide Required;
    forall j | 0 <= j < |g[0]| && j in Pushes(s.neg[0]) ensures !Activated(g, s.neg, s.gen, PortRef(0, j)) {
      ChainPorts(types, i, PortRef(0, j));
    }
  }

  lemma RootListIs(g: Graph, s: State)
    requires RefsExist(g) && Shaped(g, s) && |g| == 3 && IsRoot(g, s, 2) && !IsRoot(g, s, 0) && !IsRoot(g, s, 1)
    ensures RootList(g, AllNodes(g), s, [2])
  {
    hide IsRoot; hide Shaped; hide RefsExist;
    assert Distinct([2]);
  }

  lemma OnlySourceIsRoot(types: seq<PortType>, i: nat, gen: seq<seq<nat>>)
    requires Setting(types, i, gen)
    ensures Shaped(Chain(types, i), After(types, i, gen, 4))
    ensures RootList(Chain(types, i), AllNodes(Chain(types, i)), After(types, i, gen, 4), [2])
  {
    assert |Chain(types, i)| == 3 && RefsExist(Chain(types, i));
    StatesStartable(types, i, gen, 4);
    assert Shaped(Chain(types, i), After(types, i, gen, 4));
    SourceIsRoot(types, i, gen);
    ConsumerIsNoRoot(types, i, gen);
    hide *;
    RootListIs(Chain(types, i), After(types, i, gen, 4));
  }

  /** Processing a node delivers with some data generations. */
  ghost predicate ProcessesWith(g: Graph, s: State, n: nat, gen: seq<seq<nat>>)
    requires RefsExist(g) && Shaped(g, s) && n < |g|
  {
    GenerationsFit(g, gen) &&
    (var r := DeliverPorts(g, s.(gen := gen), n, Pushes(s.neg[n]), 0);
     Process(g, s, n, {}) == if r.ok then Outcome(true, r.st.(done := r.st.done + [n])) else r)
  }

  lemma ProcessIs(g: Graph, s: State, n: nat) returns (gen: seq<seq<nat>>)
    requires RefsExist(g) && Shaped(g, s) && n < |g| && s.deps[n] == 0
    ensures ProcessesWith(g, s, n, gen)
  {
    gen := CatchUp(g, Renew(s.gen, n, s.neg[n].pushNew, 0), n, Pulls(s.neg[n]), 0);
  }

  /** The source is processed, and then the function. */
  lemma SourceProcessed(types: seq<PortType>, i: nat, s: State) returns (t: State)
    requires Setting(types, i, s.gen) && Shaped(Chain(types, i), s) && RefsExist(Chain(types, i))
    requires |Chain(types, i)| == 3
    requires s.neg == [Required(types, i), Filled(), Source().newMask] && s.deps == [0, 1, 0] && s.list == []
    ensures Process(Chain(types, i), s, 2, {}) == Outcome(true, t) && Shaped(Chain(types, i), t)
    ensures t.neg == s.neg && t.deps == [0, 0, 0] && t.list == [1] && Setting(types, i, t.gen)
    ensures Shaped(Chain(types, i), t.(list := []))
  {
    hide Required; hide DeliverPorts; hide Process;
    var gen := ProcessIs(Chain(types, i), s, 2);
    SourceDelivers(types, i, s.(gen := gen));
    t := s.(gen := gen, deps := [0, 0, 0], list := [1], done := s.done + [2]);
  }

  lemma FunctionProcessed(types: seq<PortType>, i: nat, s: State)
    requires Setting(types, i, s.gen) && Shaped(Chain(types, i), s) && RefsExist(Chain(types, i))
    requires |Chain(types, i)| == 3
    requires s.neg == [Required(types, i), Filled(), Source().newMask] && s.deps == [0, 0, 0]
    ensures !Process(Chain(types, i), s, 1, {}).ok
  {
    hide Required; hide DeliverPorts; hide Process;
    var gen := ProcessIs(Chain(types, i), s, 1);
    FunctionFails(types, i, s.(gen := gen));
  }

  /** Processing that starts at the only root then fails, although no process function
      does: a delivery meets a counter that is zero already. */
  lemma ProcessingFails(types: seq<PortType>, i: nat, gen: seq<seq<nat>>)
    requires NeverPullsOld(types, i) && GenerationsFit(Chain(types, i), gen)
    ensures var g := Chain(types, i); var s := After(types, i, gen, 4);
      && RefsExist(g) && Shaped(g, s) && RootList(g, AllNodes(g), s, [2])
      && Shaped(g, s.(list := [2])) && !ScheduleNodes(g, s.(list := [2]), {}).ok
  {
    NegotiatedState(types, i, gen);
    hide *;
    var t := SourceProcessed(types, i, After(types, i, gen, 4));
    FunctionProcessed(types, i, t.(list := []));
    SecondFails(Chain(types, i), After(types, i, gen, 4), t, 2, 1);
  }

  lemma SecondFails(g: Graph, s: State, t: State, m: nat, n: nat)
    requires RefsExist(g) && m < |g| && n < |g| && Shaped(g, s) && Shaped(g, s.(list := [m])) && Shaped(g, t)
    requires Shaped(g, t.(list := []))
    requires s.list == [] && Process(g, s, m, {}) == Outcome(true, t) && t.list == [n]
    requires !Process(g, t.(list := []), n, {}).ok
    ensures !ScheduleNodes(g, s.(list := [m]), {}).ok
  {
    hide Shaped; hide Process; hide ScheduleNodes; hide RefsExist;
    assert [m][1..] == [] && [n][1..] == [];
    assert s.(list := [m]).(list := []) == s;
    ScheduleStep(g, s.(list := [m]), t);
    ScheduleFails(g, t);
  }

  lemma NegotiatedState(types: seq<PortType>, i: nat, gen: seq<seq<nat>>)
    requires NeverPullsOld(types, i) && GenerationsFit(Chain(types, i), gen)
    ensures var g := Chain(types, i); var s := After(types, i, gen, 4);
      && |g| == 3 && RefsExist(g) && Setting(types, i, s.gen) && Shaped(g, s) && Shaped(g, s.(list := [2]))
      && s.neg == [Required(types, i), Filled(), Source().newMask] && s.deps == [0, 1, 0] && s.list == []
      && RootList(g, AllNodes(g), s, [2])
  {
    ChainWellFormed(types, i);
    OnlySourceIsRoot(types, i, gen);
    ThreeShaped(types, i, After(types, i, gen, 4).(list := [2]));
    hide Required; hide RootList; hide Chain;
  }

  lemma ScheduleStep(g: Graph, s: State, t: State)
    requires RefsExist(g) && Shaped(g, s) && s.list != [] && Shaped(g, s.(list := s.list[1..])) && s.list[0] < |g|
    requires Process(g, s.(list := s.list[1..]), s.list[0], {}) == Outcome(true, t)
    ensures Shaped(g, t) && ScheduleNodes(g, s, {}) == ScheduleNodes(g, t, {})
  {
    hide Process;
  }

  lemma ScheduleFails(g: Graph, s: State)
    requires RefsExist(g) && Shaped(g, s) && s.list != [] && Shaped(g, s.(list := s.list[1..])) && s.list[0] < |g|
    requires !Process(g, s.(list := s.list[1..]), s.list[0], {}).ok
    ensures !ScheduleNodes(g, s, {}).ok
  {
    hide Process;
  }

  // ----- Exactly the node types whose counters are always right -----

  /** All inputs of the type pull old data when told of new or of old data. */
  ghost predicate PullsOld(types: seq<PortType>) {
    forall i: nat :: i < |types| && types[i].dir == In ==>
      i in types[i].newMask.pullOld || i in types[i].oldMask.pullOld
  }

  /** Every node is of the given type, or of a type that pulls old data. */
  ghost predicate MadeOf(g: Graph, types: seq<PortType>) {
    forall n: nat :: n < |g| ==> Instance(g[n], types) || PullsOld(TypesOf(g[n]))
  }

  function TypesOf(ports: seq<Port>): (r: seq<PortType>)
    ensures |r| == |ports|
  {
    seq(|ports|, j requires 0 <= j < |ports| => ports[j].ptype)
  }

  /** A negotiation that succeeds, in a graph made of the type. */
  ghost predicate Successful(g: Graph, c: set<nat>, s: State, types: seq<PortType>) {
    && WellFormed(g) && MasksTyped(g) && RequestsAreAnswered(g) && MadeOf(g, types)
    && Scope(g, c) && NoSelfLoop(g, c) && Negotiating(g, c, s) && Counted(g, c, s)
    && Startable(g, s) && Converge(g, s).ok
  }

  ghost predicate AlwaysExact(types: seq<PortType>) {
    forall g, c, s {:trigger Successful(g, c, s, types)} :: Successful(g, c, s, types) ==>
      Exact(g, c, Converge(g, s).st)
  }

  lemma PullingIsExact(types: seq<PortType>, g: Graph, c: set<nat>, s: State)
    requires PullsOld(types) && Successful(g, c, s, types)
    ensures Exact(g, c, Converge(g, s).st)
  {
    forall q | HasPort(g, q) && At(g, q).ptype.dir == In
      ensures q.idx in At(g, q).ptype.newMask.pullOld || q.idx in At(g, q).ptype.oldMask.pullOld
    {
      assert Instance(g[q.node], types) || PullsOld(TypesOf(g[q.node]));
      assert TypesOf(g[q.node])[q.idx] == At(g, q).ptype;
    }
    CountersExact(g, c, s);
  }

  lemma ChainMadeOf(types: seq<PortType>, i: nat)
    requires i < |types|
    ensures MadeOf(Chain(types, i), types)
  {
    var g := Chain(types, i);
    assert Instance(g[0], types);
    assert PullsOld(TypesOf(g[1])) && PullsOld(TypesOf(g[2]));
  }

  lemma ChainIsSuccessful(types: seq<PortType>, i: nat, gen: seq<seq<nat>>)
    requires NeverPullsOld(types, i) && GenerationsFit(Chain(types, i), gen)
    ensures Successful(Chain(types, i), AllNodes(Chain(types, i)), After(types, i, gen, 0), types)
  {
    var g := Chain(types, i);
    var c := AllNodes(g);
    var s := After(types, i, gen, 0);
    ChainWellFormed(types, i);
    ChainIsAcyclic(types, i);
    ChainStarts(types, i, gen);
    NegotiationEnds(types, i, gen);
    assert Symmetric(g);
    hide Chain; hide After; hide Converge; hide WellFormed; hide ComponentStart; hide Required; hide Negotiating;
    hide Counted; hide AllNodes; hide FlowEdges; hide Startable;
    AcyclicHasNoSelfLoop(g);
    ComponentStartNegotiates(g, c, s, 0, Required(types, i));
    ChainMadeOf(types, i);
  }

  /** The counters that the negotiation leaves are right in every graph made of a node
      type if and only if all inputs of that type pull old data. */
  lemma ExactIffPullsOld(types: seq<PortType>)
    requires NodeType(types)
    ensures AlwaysExact(types) <==> PullsOld(types)
  {
    if PullsOld(types) {
      forall g, c, s | Successful(g, c, s, types) ensures Exact(g, c, Converge(g, s).st) {
        PullingIsExact(types, g, c, s);
      }
    }
    if !PullsOld(types) {
      var i: nat :| i < |types| && types[i].dir == In && i !in types[i].newMask.pullOld &&
        i !in types[i].oldMask.pullOld;
      var g := Chain(types, i);
      var gen := seq(3, n requires 0 <= n < 3 => seq(|g[n]|, _ => 1 as nat));
      CounterIsStale(types, i, gen);
      ChainIsSuccessful(types, i, gen);
      assert Successful(g, AllNodes(g), After(types, i, gen, 0), types);
    }
  }
}
