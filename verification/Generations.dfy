/** What happens to the generations of data: new data always gets a generation that is not
    used again before all others have been, and nothing else changes the generation of an
    output. */
module Generations {
  import opened Digraph
  import opened DataflowGraph
  import opened NodeTypes
  import opened SchedulerState
  import opened MaskNegotiation
  import opened DependencyCounters
  import opened NodeScheduling
  import opened ProcessingOrder
  import opened ProcessingRun
  import opened GraphScheduling

  // ----- The cycle of generations -----

  /** The generation after `k` increments. */
  function Renewals(x: nat, k: nat): nat {
    if k == 0 then x else NextGeneration(Renewals(x, k - 1))
  }

  lemma StepOfCycle(x: nat)
    requires x <= UINT64_MAX
    ensures NextGeneration(x) == x % 0xFFFF_FFFF_FFFF_FFFF + 1
  {
  }

  /** Increments go round the numbers from 1 to the largest 64-bit number. */
  lemma {:induction false} RenewalsGoRound(x: nat, k: nat)
    requires 1 <= x <= 0xFFFF_FFFF_FFFF_FFFF
    ensures Renewals(x, k) == (x - 1 + k) % 0xFFFF_FFFF_FFFF_FFFF + 1
  {
    if k > 0 {
      RenewalsGoRound(x, k - 1);
      StepOfCycle(Renewals(x, k - 1));
    }
  }

  /** No generation comes back before all others have been used. */
  lemma NoGenerationComesBack(x: nat, j: nat, k: nat)
    requires 1 <= x <= 0xFFFF_FFFF_FFFF_FFFF && j < k < j + 0xFFFF_FFFF_FFFF_FFFF
    ensures Renewals(x, j) != Renewals(x, k)
  {
    RenewalsGoRound(x, j);
    RenewalsGoRound(x, k);
  }

  // ----- One run -----

  /** From `a` to `b` the outputs of the nodes in `who` that push new data have advanced by one
      step, and all other outputs and all nodes outside `who` have kept their generations. */
  ghost predicate Advanced(g: Graph, neg: seq<Mask>, a: seq<seq<nat>>, b: seq<seq<nat>>, who: set<nat>) {
    && |neg| == |g| && GenShape(g, a) && GenShape(g, b)
    && (forall n: nat :: n < |g| && n !in who ==> b[n] == a[n])
    && forall n: nat, i: nat {:trigger b[n][i]} :: n < |g| && i < |g[n]| && g[n][i].ptype.dir == Out ==>
         b[n][i] == if n in who && i in neg[n].pushNew then a[n][i] % 0xFFFF_FFFF_FFFF_FFFF + 1 else a[n][i]
  }

  lemma AdvancedTwice(g: Graph, neg: seq<Mask>, a: seq<seq<nat>>, b: seq<seq<nat>>, c: seq<seq<nat>>,
                      xs: set<nat>, ys: set<nat>)
    requires Advanced(g, neg, a, b, xs) && Advanced(g, neg, b, c, ys) && xs !! ys
    ensures Advanced(g, neg, a, c, xs + ys)
  {
  }

  lemma NothingAdvances(g: Graph, neg: seq<Mask>, gen: seq<seq<nat>>)
    requires |neg| == |g| && GenShape(g, gen)
    ensures Advanced(g, neg, gen, gen, {})
  {
  }

  lemma RenewAdvances(g: Graph, s: State, n: nat)
    requires WellFormed(g) && Shaped(g, s) && n < |g| && GenerationsValid(g, s.gen)
    ensures Advanced(g, s.neg, s.gen, Renew(s.gen, n, s.neg[n].pushNew, 0), {n})
  {
    RenewIs(s.gen, n, s.neg[n].pushNew, 0);
    var b := Renew(s.gen, n, s.neg[n].pushNew, 0);
    forall m: nat, i: nat | m < |g| && i < |g[m]| && g[m][i].ptype.dir == Out
      ensures b[m][i] ==
        if m in {n} && i in s.neg[m].pushNew then s.gen[m][i] % 0xFFFF_FFFF_FFFF_FFFF + 1 else s.gen[m][i]
    {
      StepOfCycle(s.gen[m][i]);
    }
  }

  lemma ProcessAdvances(g: Graph, s: State, n: nat)
    requires WellFormed(g) && Shaped(g, s) && n < |g| && GenerationsValid(g, s.gen) && Typed(s.neg[n], g[n])
    ensures Advanced(g, s.neg, s.gen, ProcessedGen(g, s, n), {n})
  {
    var gen1 := Renew(s.gen, n, s.neg[n].pushNew, 0);
    RenewAdvances(g, s, n);
    InputsOf(g, n, s.neg[n]);
    CatchUpIs(g, gen1, n, Pulls(s.neg[n]), 0);
    var gen2 := ProcessedGen(g, s, n);
    forall m: nat, i: nat | m < |g| && i < |g[m]| && g[m][i].ptype.dir == Out ensures gen2[m][i] == gen1[m][i] {
    }
  }

  lemma StepAdvances(g: Graph, c: set<nat>, s: State, idle: set<nat>, fails: set<nat>)
    requires Running(g, c, s, idle) && GenerationsValid(g, s.gen) && s.list != []
    ensures var n := s.list[0]; var s0 := s.(list := s.list[1..]);
      Shaped(g, s0) && n < |g| && n !in s.done && WellFormed(g) && RefsExist(g) && Shaped(g, s) &&
      var r := Process(g, s0, n, fails);
      && Advanced(g, s.neg, s.gen, r.st.gen, {n})
      && (r.ok ==>
        Running(g, c, r.st, idle) && GenerationsValid(g, r.st.gen) && Elems(r.st.done) == Elems(s.done) + {n})
      && (!r.ok ==> n in fails && r.st.done == s.done)
  {
    hide Advanced; hide GenerationsValid; hide Renew; hide CatchUp; hide Balanced; hide Ordered; hide Omittable;
    hide DeliverPorts; hide SingleInput; hide NoDuplicateConns; hide MasksBounded;
    var n := s.list[0];
    var s0 := s.(list := s.list[1..]);
    ProcessKeeps(g, c, s, idle, fails);
    PopQueued(g, c, s, idle);
    if Process(g, s0, n, fails).ok {
      ProcessedGenValid(g, s, n);
      ProcessAdvances(g, s, n);
    } else {
      FailureIsACall(g, c, s, idle, fails);
      RenewAdvances(g, s, n);
    }
  }

  /** Over a run that succeeds, exactly the outputs of processed nodes that push new data
      advance, each by one step of the cycle. A run that fails also has renewed the node whose
      process function fails. */
  lemma {:induction false} RunAdvances(g: Graph, c: set<nat>, s: State, idle: set<nat>, fails: set<nat>)
    returns (who: set<nat>)
    requires Running(g, c, s, idle) && GenerationsValid(g, s.gen)
    ensures var r := ScheduleNodes(g, s, fails);
      && Advanced(g, s.neg, s.gen, r.st.gen, who) && who !! Elems(s.done)
      && Elems(r.st.done) <= Elems(s.done) + who
      && (r.ok ==> Elems(r.st.done) == Elems(s.done) + who)
      && (!r.ok ==> exists n :: n in fails && Elems(s.done) + who == Elems(r.st.done) + {n})
    decreases Sum(s.deps), |s.list|
  {
    hide Advanced; hide GenerationsValid; hide Process; hide Balanced; hide Ordered; hide Queued; hide WellFormed;
    hide RefsExist;
    if s.list == [] {
      NothingAdvances(g, s.neg, s.gen);
      who := {};
    } else {
      var n := s.list[0];
      var s0 := s.(list := s.list[1..]);
      StepAdvances(g, c, s, idle, fails);
      ProcessLowers(g, s0, n, fails);
      var r := Process(g, s0, n, fails);
      if r.ok {
        var rest := RunAdvances(g, c, r.st, idle, fails);
        AdvancedTwice(g, s.neg, s.gen, r.st.gen, ScheduleNodes(g, s, fails).st.gen, {n}, rest);
        who := {n} + rest;
      } else {
        who := {n};
      }
    }
  }

  // ----- Passes over a graph -----

  /** Negotiation does not look at generations, but for counters. */
  ghost predicate SameMasks(s: State, t: State) {
    s.neg == t.neg && s.prop == t.prop && s.list == t.list
  }

  lemma {:induction false} OffersIgnoreGenerations(g: Graph, s: State, t: State, qs: seq<PortRef>, k: Freshness)
    requires PortsExist(g, qs) && |s.neg| == |g| && SameMasks(s, t)
    ensures SameMasks(OfferAll(g, s, qs, k), OfferAll(g, t, qs, k))
    decreases |qs|
  {
    if qs != [] {
      OffersIgnoreGenerations(g, Offer(g, s, qs[0], k), Offer(g, t, qs[0], k), qs[1..], k);
    }
  }

  lemma {:induction false} PropagationIgnoresGenerations(g: Graph, s: State, t: State, n: nat, bits: set<nat>,
                                                         d: Direction, k: Freshness, i: nat)
    requires RefsExist(g) && n < |g| && i <= |g[n]| && |s.neg| == |g| && SameMasks(s, t)
    ensures Propagate(g, s, n, bits, d, k, i).ok == Propagate(g, t, n, bits, d, k, i).ok
    ensures SameMasks(Propagate(g, s, n, bits, d, k, i).st, Propagate(g, t, n, bits, d, k, i).st)
    decreases |g[n]| - i
  {
    if i < |g[n]| {
      if i !in bits {
        PropagationIgnoresGenerations(g, s, t, n, bits, d, k, i + 1);
      } else if g[n][i].ptype.dir == d {
        PortConnsExist(g, n, i);
        var qs := g[n][i].conns;
        OffersIgnoreGenerations(g, s, t, qs, k);
        PropagationIgnoresGenerations(g, OfferAll(g, s, qs, k), OfferAll(g, t, qs, k), n, bits, d, k, i + 1);
      }
    }
  }

  lemma PropagateAllIgnoresGenerations(g: Graph, s: State, t: State, n: nat, m: Mask)
    requires RefsExist(g) && n < |g| && |s.neg| == |g| && SameMasks(s, t)
    ensures PropagateAll(g, s, n, m).ok == PropagateAll(g, t, n, m).ok
    ensures SameMasks(PropagateAll(g, s, n, m).st, PropagateAll(g, t, n, m).st)
  {
    PropagationIgnoresGenerations(g, s, t, n, m.pullNew, In, New, 0);
    var s1, t1 := Propagate(g, s, n, m.pullNew, In, New, 0).st, Propagate(g, t, n, m.pullNew, In, New, 0).st;
    PropagationIgnoresGenerations(g, s1, t1, n, m.pullOld, In, Old, 0);
    var s2, t2 := Propagate(g, s1, n, m.pullOld, In, Old, 0).st, Propagate(g, t1, n, m.pullOld, In, Old, 0).st;
    PropagationIgnoresGenerations(g, s2, t2, n, m.pushNew, Out, New, 0);
    var s3, t3 := Propagate(g, s2, n, m.pushNew, Out, New, 0).st, Propagate(g, t2, n, m.pushNew, Out, New, 0).st;
    PropagationIgnoresGenerations(g, s3, t3, n, m.pushOld, Out, Old, 0);
  }

  lemma {:induction false} NegotiationIgnoresGenerations(g: Graph, s: State, t: State)
    requires WellFormed(g) && Startable(g, s) && Startable(g, t) && SameMasks(s, t)
    ensures Converge(g, s).ok == Converge(g, t).ok && SameMasks(Converge(g, s).st, Converge(g, t).st)
    decreases Missing(g, s.neg), |s.list|
  {
    if s.list != [] {
      var n := s.list[0];
      assert n in s.list;
      StepStartable(g, s, n);
      StepStartable(g, t, n);
      var rest := Remove(s.list, n);
      PropagateAllIgnoresGenerations(g, s.(list := rest), t.(list := rest), n, s.neg[n].Diff(s.prop[n]));
      var r, r' := Step(g, s, n), Step(g, t, n);
      assert r.ok == r'.ok && SameMasks(r.st, r'.st);
      if r.ok {
        NegotiationIgnoresGenerations(g, r.st, r'.st);
      }
    }
  }

  lemma MasksIgnoreGenerations(g: Graph, a: seq<seq<nat>>, b: seq<seq<nat>>)
    requires WellFormed(g) && GenShape(g, a) && GenShape(g, b)
    ensures GraphMasks(g, a) == GraphMasks(g, b)
  {
    GraphStartNegotiates(g, a);
    GraphStartNegotiates(g, b);
    NegotiationIgnoresGenerations(g, GraphStart(g, a), GraphStart(g, b));
  }

  /** The nodes that a pass processes. */
  ghost function Unblocked(g: Graph, gen: seq<seq<nat>>): set<nat>
    requires WellFormed(g) && GenShape(g, gen)
  {
    set n | n in AllNodes(g) && !Blocked(g, GraphMasks(g, gen), FlowEdges(g), n)
  }

  /** A pass that succeeds advances exactly the outputs that push new data of the nodes that
      are not blocked. */
  lemma PassAdvances(g: Graph, gen: seq<seq<nat>>, fails: set<nat>)
    requires WellFormed(g) && MasksTyped(g) && GenerationsValid(g, gen) && ScheduleGraph(g, gen, fails).ok
    ensures Advanced(g, GraphMasks(g, gen), gen, ScheduleGraph(g, gen, fails).st.gen, Unblocked(g, gen))
  {
    GraphCounters(g, gen);
    PreparedRuns(g, gen);
    var s := Prepared(g, gen);
    var r := ScheduleGraph(g, gen, fails);
    assert r == ScheduleNodes(g, s, fails);
    var who := RunAdvances(g, AllNodes(g), s, {}, fails);
    ScheduleGraphProcesses(g, gen, fails);
    ScheduleNodesKeeps(g, AllNodes(g), s, {}, fails);
    assert who == Unblocked(g, gen);
  }

  /** From `a` to `b` the outputs of the nodes in `who` that push new data have advanced by `k`
      steps, and all other outputs have kept their generation. */
  ghost predicate AdvancedBy(g: Graph, neg: seq<Mask>, a: seq<seq<nat>>, b: seq<seq<nat>>, who: set<nat>, k: nat) {
    |neg| == |g| && GenShape(g, a) && GenShape(g, b) &&
    forall n: nat, i: nat {:trigger b[n][i]} :: n < |g| && i < |g[n]| && g[n][i].ptype.dir == Out ==>
      b[n][i] == if n in who && i in neg[n].pushNew then Renewals(a[n][i], k) else a[n][i]
  }

  lemma AdvancedOnceMore(g: Graph, neg: seq<Mask>, a: seq<seq<nat>>, b: seq<seq<nat>>, c: seq<seq<nat>>,
                         who: set<nat>, k: nat)
    requires AdvancedBy(g, neg, a, b, who, k) && Advanced(g, neg, b, c, who) && GenerationsValid(g, b)
    ensures AdvancedBy(g, neg, a, c, who, k + 1)
  {
    forall n: nat, i: nat | n < |g| && i < |g[n]| && g[n][i].ptype.dir == Out
      ensures c[n][i] == if n in who && i in neg[n].pushNew then Renewals(a[n][i], k + 1) else a[n][i]
    {
      StepOfCycle(b[n][i]);
    }
  }

  /** `k` passes in which no process function fails. */
  ghost function QuietPasses(k: nat): seq<set<nat>> {
    seq(k, _ => {})
  }

  /** After `k` passes in which no process function fails, the outputs that push new data of
      the nodes that are not blocked have advanced by `k` steps, and all other outputs have kept
      their generation. */
  lemma {:induction false} PassesAdvance(g: Graph, gen: seq<seq<nat>>, k: nat)
    requires WellFormed(g) && MasksTyped(g) && GenerationsValid(g, gen)
    ensures var b := AfterPasses(g, gen, QuietPasses(k));
      GenerationsValid(g, b) && AdvancedBy(g, GraphMasks(g, gen), gen, b, Unblocked(g, gen), k)
    decreases k
  {
    hide WellFormed; hide MasksTyped; hide AdvancedBy; hide Advanced; hide Unblocked; hide AfterPasses;
    hide ScheduleGraph; hide GraphMasks;
    if k == 0 {
      NoPasses(g, gen, GraphMasks(g, gen), Unblocked(g, gen));
    } else {
      PassesAdvance(g, gen, k - 1);
      LastPass(g, gen, k);
      var a := AfterPasses(g, gen, QuietPasses(k - 1));
      PassWithoutFailure(g, gen, a);
      AdvancedOnceMore(g, GraphMasks(g, gen), gen, a, ScheduleGraph(g, a, {}).st.gen, Unblocked(g, gen), k - 1);
    }
  }

  lemma NoPasses(g: Graph, gen: seq<seq<nat>>, neg: seq<Mask>, who: set<nat>)
    requires WellFormed(g) && GenShape(g, gen) && |neg| == |g|
    ensures AfterPasses(g, gen, QuietPasses(0)) == gen && AdvancedBy(g, neg, gen, gen, who, 0)
  {
  }

  lemma LastPass(g: Graph, gen: seq<seq<nat>>, k: nat)
    requires WellFormed(g) && GenShape(g, gen) && k > 0
    ensures AfterPasses(g, gen, QuietPasses(k)) ==
      ScheduleGraph(g, AfterPasses(g, gen, QuietPasses(k - 1)), {}).st.gen
  {
    hide ScheduleGraph; hide WellFormed;
    var passes := QuietPasses(k);
    assert passes[..k - 1] == QuietPasses(k - 1);
  }

  lemma PassWithoutFailure(g: Graph, gen: seq<seq<nat>>, a: seq<seq<nat>>)
    requires WellFormed(g) && MasksTyped(g) && GenerationsValid(g, gen) && GenerationsValid(g, a)
    ensures var b := ScheduleGraph(g, a, {}).st.gen;
      GenerationsValid(g, b) && Advanced(g, GraphMasks(g, gen), a, b, Unblocked(g, gen))
  {
    hide WellFormed; hide MasksTyped; hide Advanced; hide GraphMasks; hide Blocked; hide ScheduleGraph;
    MasksIgnoreGenerations(g, gen, a);
    ScheduleGraphIsSafe(g, a, {});
    PassAdvances(g, a, {});
    ScheduleGraphGenerations(g, a, {});
  }

  /** So each pass marks new data by a generation that none of the passes before has used,
      as long as there are fewer than there are generations. */
  lemma PassesNeverRepeat(g: Graph, gen: seq<seq<nat>>, j: nat, k: nat, n: nat, i: nat)
    requires WellFormed(g) && MasksTyped(g) && GenerationsValid(g, gen)
    requires n in Unblocked(g, gen) && n < |g| && i < |g[n]| && i in GraphMasks(g, gen)[n].pushNew
    requires g[n][i].ptype.dir == Out && j < k < j + UINT64_MAX
    ensures AfterPasses(g, gen, QuietPasses(j))[n][i] != AfterPasses(g, gen, QuietPasses(k))[n][i]
  {
    PassesAdvance(g, gen, j);
    PassesAdvance(g, gen, k);
    NoGenerationComesBack(gen[n][i], j, k);
  }

  /** From the instantiation of the graph on, these generations count the passes. */
  lemma GenerationsCountPasses(g: Graph, k: nat, n: nat, i: nat)
    requires WellFormed(g) && MasksTyped(g) && GenShape(g, InitialGenerations(g))
    requires n in Unblocked(g, InitialGenerations(g)) && n < |g| && i < |g[n]| && g[n][i].ptype.dir == Out
    requires i in GraphMasks(g, InitialGenerations(g))[n].pushNew
    ensures AfterPasses(g, InitialGenerations(g), QuietPasses(k))[n][i] == k % 0xFFFF_FFFF_FFFF_FFFF + 1
  {
    PassesAdvance(g, InitialGenerations(g), k);
    RenewalsGoRound(1, k);
  }
}
