/** Whole processing runs: the order in which nodes are processed, why no counter
    underflows, and what happens to data generations. */
module ProcessingRun {
  import opened Digraph
  import opened DataflowGraph
  import opened SchedulerState
  import opened MaskNegotiation
  import opened DependencyCounters
  import opened NodeScheduling
  import opened ProcessingOrder

  lemma PopQueued(g: Graph, c: set<nat>, s: State, idle: set<nat>)
    requires Queued(g, c, s, idle) && s.list != []
    ensures var n := s.list[0];
      Queued(g, c, s.(list := s.list[1..]), idle + {n}) && n in c && n < |g| && s.deps[n] == 0 &&
      n !in s.done && n !in idle
  {
    var n := s.list[0];
    assert n in s.list;
    var rest := s.list[1..];
    assert s.list == [n] + rest;
    assert forall x :: x in rest ==> x in s.list && x != n;
  }

  lemma DeliveredAppend(g: Graph, neg: seq<Mask>, done: seq<nat>, n: nat)
    requires |neg| == |g| && History(done, g) && n < |g|
    ensures History(done + [n], g)
    ensures DeliveredBy(g, neg, done + [n]) == DeliveredBy(g, neg, done) + Served(g, n, Pushes(neg[n]), 0)
  {
    assert (done + [n])[..|done|] == done;
  }

  lemma DistinctAppend(l: seq<nat>, n: nat)
    requires Distinct(l) && n !in l
    ensures Distinct(l + [n])
  {
  }

  lemma OutputsOf(g: Graph, n: nat, m: Mask)
    requires n < |g| && Typed(m, g[n])
    ensures Outputs(g, n, Pushes(m))
  {
    forall j | j in Pushes(m) ensures Directed(g[n], j, Out) {
      PushesAreOutputs(g, n, m, j);
    }
  }

  /** A listed node can be processed: its counter is zero, no consumer's counter is
      zero already, and the invariant is kept. Only its own process function can fail. */
  lemma ProcessKeeps(g: Graph, c: set<nat>, s: State, idle: set<nat>, fails: set<nat>)
    requires Running(g, c, s, idle) && s.list != []
    ensures var n := s.list[0]; var s0 := s.(list := s.list[1..]);
      Shaped(g, s0) && n < |g| && n in c &&
      var r := Process(g, s0, n, fails);
      (r.ok ==> Running(g, c, r.st, idle) && r.st.done == s.done + [n]) && (!r.ok ==> n in fails)
  {
    var n := s.list[0];
    var s0 := s.(list := s.list[1..]);
    PopQueued(g, c, s, idle);
    var r := Process(g, s0, n, fails);
    if r.ok || n !in fails {
      var gen1 := Renew(s.gen, n, s.neg[n].pushNew, 0);
      var gen2 := CatchUp(g, gen1, n, Pulls(s.neg[n]), 0);
      var s2 := s0.(gen := gen2);
      var dl := DeliveredBy(g, s.neg, s.done);
      var bits := Pushes(s.neg[n]);
      NothingServedTwice(g, c, s, idle, n);
      OutputsOf(g, n, s.neg[n]);
      assert Delivering(g, c, s2, dl, idle + {n}, n, bits, 0);
      DeliverPortsKeeps(g, c, s2, dl, idle + {n}, n, bits, 0);
      FinishKeeps(g, c, s, idle, n, DeliverPorts(g, s2, n, bits, 0).st);
    }
  }

  lemma FinishKeeps(g: Graph, c: set<nat>, s: State, idle: set<nat>, n: nat, t: State)
    requires Running(g, c, s, idle) && n in c && n < |g| && n !in s.done && n !in idle && s.deps[n] == 0
    requires t.neg == s.neg && t.done == s.done
    requires Delivering(g, c, t, DeliveredBy(g, s.neg, s.done) + Served(g, n, Pushes(s.neg[n]), 0), idle + {n}, n,
      Pushes(s.neg[n]), |g[n]|)
    ensures Running(g, c, t.(done := s.done + [n]), idle)
  {
    var u := t.(done := s.done + [n]);
    DeliveredAppend(g, s.neg, s.done, n);
    DistinctAppend(s.done, n);
    OrderedAppend(g, c, s, idle, n);
    assert n in idle + {n};
    assert Queued(g, c, u, idle) by {
      forall x | x in c && x < |g| && x !in idle && u.deps[x] == 0 ensures x in u.list || x in u.done {
        if x != n {
          assert x !in idle + {n};
        }
      }
    }
  }

  /** am_dfg_schedule_nodes keeps the invariant up to the empty list; it fails only
      if a process function fails. */
  lemma {:induction false} ScheduleNodesKeeps(g: Graph, c: set<nat>, s: State, idle: set<nat>, fails: set<nat>)
    requires Running(g, c, s, idle)
    ensures var r := ScheduleNodes(g, s, fails);
      (r.ok ==> Running(g, c, r.st, idle) && r.st.list == []) && (!r.ok ==> exists n :: n in fails && n in c)
    ensures s.done <= ScheduleNodes(g, s, fails).st.done
    decreases Sum(s.deps), |s.list|
  {
    if s.list != [] {
      var n := s.list[0];
      var s0 := s.(list := s.list[1..]);
      ProcessKeeps(g, c, s, idle, fails);
      ProcessLowers(g, s0, n, fails);
      ProcessHistory(g, s0, n, fails);
      var r := Process(g, s0, n, fails);
      if r.ok {
        ScheduleNodesKeeps(g, c, r.st, idle, fails);
      }
    }
  }

  lemma ProcessHistory(g: Graph, s: State, n: nat, fails: set<nat>)
    requires RefsExist(g) && Shaped(g, s) && n < |g|
    ensures s.done <= Process(g, s, n, fails).st.done
  {
  }

  /** Nothing is left waiting without reason: a node of `c` that was neither
      processed nor idle awaits an input that no processed node serves. */
  lemma LeftOversAwait(g: Graph, c: set<nat>, s: State, idle: set<nat>, n: nat)
    requires Running(g, c, s, idle) && s.list == [] && n in c && n !in s.done && n !in idle
    ensures n < |g| && exists j :: j in Awaited(g, s.neg, n) && PortRef(n, j) !in DeliveredBy(g, s.neg, s.done)
  {
    var p := Pending(g, s.neg, n, DeliveredBy(g, s.neg, s.done));
    assert |p| == s.deps[n];
    assert s.deps[n] != 0;
    var j :| j in p;
  }

  // ----- When a process function makes a run fail -----

  /** Consumer `q` is connected to output `i` of `n`, which pushes. */
  ghost predicate Pushed(g: Graph, neg: seq<Mask>, n: nat, i: nat, q: PortRef)
    requires |neg| == |g|
  {
    n < |g| && i in Pushes(neg[n]) && Connected(g, PortRef(n, i), q) && q.node < |g|
  }

  /** Node `n` has an activated input, or an output that pushes new data, or whose consumer
      pulls data of any age: its process function is called for certain. */
  ghost predicate SurelyNeeded(g: Graph, neg: seq<Mask>, n: nat) {
    RefsExist(g) && |neg| == |g| && n < |g| &&
    (Awaited(g, neg, n) != {} ||
     exists i, q :: Pushed(g, neg, n, i, q) && (i in neg[n].pushNew || q.idx in neg[q.node].pullOld))
  }

  /** The same, or a consumer pulls new data. */
  ghost predicate PerhapsNeeded(g: Graph, neg: seq<Mask>, n: nat) {
    RefsExist(g) && |neg| == |g| && n < |g| &&
    (Awaited(g, neg, n) != {} ||
     exists i, q :: Pushed(g, neg, n, i, q) &&
       (i in neg[n].pushNew || q.idx in neg[q.node].pullOld || q.idx in neg[q.node].pullNew))
  }

  lemma NeededIsCalled(g: Graph, neg: seq<Mask>, gen: seq<seq<nat>>, n: nat)
    requires RefsExist(g) && |neg| == |g| && GenShape(g, gen) && n < |g| && Typed(neg[n], g[n])
    ensures SurelyNeeded(g, neg, n) ==> !Omittable(g, neg, gen, n)
    ensures !Omittable(g, neg, gen, n) ==> PerhapsNeeded(g, neg, n)
  {
    if SurelyNeeded(g, neg, n) {
      if Awaited(g, neg, n) != {} {
        var j :| j in Awaited(g, neg, n);
        assert Activated(g, neg, gen, PortRef(n, j));
      } else {
        var i, q :| Pushed(g, neg, n, i, q) && (i in neg[n].pushNew || q.idx in neg[q.node].pullOld);
        PushesAreOutputs(g, n, neg[n], i);
        assert Activated(g, neg, gen, PortRef(n, i));
      }
    }
    if !Omittable(g, neg, gen, n) {
      var i :| 0 <= i < |g[n]| && i in Pushes(neg[n]) + Pulls(neg[n]) && Activated(g, neg, gen, PortRef(n, i));
      if g[n][i].ptype.dir == In {
        assert i in Awaited(g, neg, n);
      } else {
        if i in Pulls(neg[n]) {
          InputsOf(g, n, neg[n]);
        }
        ActivatedOutput(g, neg, gen, n, i);
      }
    }
  }

  lemma ActivatedOutput(g: Graph, neg: seq<Mask>, gen: seq<seq<nat>>, n: nat, i: nat)
    requires RefsExist(g) && |neg| == |g| && GenShape(g, gen) && n < |g| && i < |g[n]| && g[n][i].ptype.dir == Out
    requires Activated(g, neg, gen, PortRef(n, i)) && i in Pushes(neg[n])
    ensures exists q ::
      Pushed(g, neg, n, i, q) &&
      (i in neg[n].pushNew || q.idx in neg[q.node].pullOld || q.idx in neg[q.node].pullNew)
  {
    if i in neg[n].pushNew {
      assert Connected(g, PortRef(n, i), g[n][i].conns[0]);
      assert Pushed(g, neg, n, i, g[n][i].conns[0]);
    } else {
      var q :| q in g[n][i].conns && Connected(g, PortRef(n, i), q) &&
        (q.idx in neg[q.node].pullOld || q.idx in neg[q.node].pullNew);
      assert Pushed(g, neg, n, i, q);
    }
  }

  /** A run that succeeds has called no process function that fails. */
  lemma {:induction false} SuccessMeansNoFailure(g: Graph, c: set<nat>, s: State, idle: set<nat>, fails: set<nat>)
    requires Running(g, c, s, idle) && ScheduleNodes(g, s, fails).ok
    ensures forall n :: n in ScheduleNodes(g, s, fails).st.done && n !in s.done && SurelyNeeded(g, s.neg, n) ==>
      n !in fails
    decreases Sum(s.deps), |s.list|
  {
    if s.list != [] {
      var n := s.list[0];
      var s0 := s.(list := s.list[1..]);
      ProcessKeeps(g, c, s, idle, fails);
      ProcessLowers(g, s0, n, fails);
      NeededIsCalled(g, s.neg, Renew(s.gen, n, s.neg[n].pushNew, 0), n);
      SuccessMeansNoFailure(g, c, Process(g, s0, n, fails).st, idle, fails);
    }
  }

  /** A run that fails has come to a node that was ready, and whose process function, which
      was perhaps needed, fails. */
  lemma {:induction false} FailureHasCause(g: Graph, c: set<nat>, s: State, idle: set<nat>, fails: set<nat>)
    returns (n: nat, u: State)
    requires Running(g, c, s, idle) && !ScheduleNodes(g, s, fails).ok
    ensures Running(g, c, u, idle) && u.neg == s.neg && n in u.done
    ensures n in fails && n in c && n < |g| && PerhapsNeeded(g, s.neg, n)
    decreases Sum(s.deps), |s.list|
  {
    n := s.list[0];
    var s0 := s.(list := s.list[1..]);
    ProcessKeeps(g, c, s, idle, fails);
    ProcessLowers(g, s0, n, fails);
    if Process(g, s0, n, fails).ok {
      n, u := FailureHasCause(g, c, Process(g, s0, n, fails).st, idle, fails);
    } else {
      ProcessKeeps(g, c, s, idle, {});
      NeededIsCalled(g, s.neg, Renew(s.gen, n, s.neg[n].pushNew, 0), n);
      u := Process(g, s0, n, {}).st;
      FailureIsACall(g, c, s, idle, fails);
    }
  }

  lemma FailureIsACall(g: Graph, c: set<nat>, s: State, idle: set<nat>, fails: set<nat>)
    requires Running(g, c, s, idle) && s.list != []
    ensures var n := s.list[0]; var s0 := s.(list := s.list[1..]);
      Shaped(g, s0) && n < |g| && (Process(g, s0, n, {}).ok) &&
      (!Process(g, s0, n, fails).ok ==>
        n in fails && !Omittable(g, s.neg, Renew(s.gen, n, s.neg[n].pushNew, 0), n))
  {
    ProcessKeeps(g, c, s, idle, {});
    ProcessKeeps(g, c, s, idle, fails);
  }

  // ----- Generations -----

  lemma {:induction false} RenewIs(gen: seq<seq<nat>>, n: nat, bits: set<nat>, i: nat)
    requires n < |gen| && i <= |gen[n]|
    ensures forall m :: 0 <= m < |gen| && m != n ==> Renew(gen, n, bits, i)[m] == gen[m]
    ensures forall j :: 0 <= j < |gen[n]| ==>
      Renew(gen, n, bits, i)[n][j] == if j >= i && j in bits then NextGeneration(gen[n][j]) else gen[n][j]
    decreases |gen[n]| - i
  {
    if i < |gen[n]| {
      if i in bits {
        var row: seq<nat> := gen[n][i := NextGeneration(gen[n][i])];
        RenewIs(gen[n := row], n, bits, i + 1);
      } else {
        RenewIs(gen, n, bits, i + 1);
      }
    }
  }

  ghost predicate Inputs(g: Graph, n: nat, bits: set<nat>) {
    n < |g| && forall j :: j in bits ==> Directed(g[n], j, In)
  }

  ghost predicate GenShape(g: Graph, gen: seq<seq<nat>>) {
    |gen| == |g| && forall m :: 0 <= m < |g| ==> |gen[m]| == |g[m]|
  }

  /** Catching up only writes input ports, so every value it reads is an original one. */
  lemma {:induction false} CatchUpIs(g: Graph, gen: seq<seq<nat>>, n: nat, bits: set<nat>, i: nat)
    requires WellFormed(g) && Inputs(g, n, bits) && GenShape(g, gen) && i <= |g[n]|
    ensures forall m :: 0 <= m < |gen| && m != n ==> CatchUp(g, gen, n, bits, i)[m] == gen[m]
    ensures forall j :: 0 <= j < |g[n]| && !(j >= i && j in bits && g[n][j].conns != []) ==>
      CatchUp(g, gen, n, bits, i)[n][j] == gen[n][j]
    ensures forall j :: i <= j < |g[n]| && j in bits && g[n][j].conns != [] ==>
      Copied(g, gen, CatchUp(g, gen, n, bits, i), n, j)
    decreases |g[n]| - i
  {
    if i < |g[n]| {
      if i in bits && g[n][i].conns != [] {
        assert Connected(g, PortRef(n, i), g[n][i].conns[0]);
        var p := g[n][i].conns[0];
        var row: seq<nat> := gen[n][i := gen[p.node][p.idx]];
        var gen' := gen[n := row];
        CatchUpIs(g, gen', n, bits, i + 1);
        forall j | i <= j < |g[n]| && j in bits && g[n][j].conns != []
          ensures Copied(g, gen, CatchUp(g, gen, n, bits, i), n, j)
        {
          ProducerIsOutput(g, n, j);
          if j > i { assert Copied(g, gen', CatchUp(g, gen', n, bits, i + 1), n, j); }
        }
      } else {
        CatchUpIs(g, gen, n, bits, i + 1);
      }
    }
  }

  /** Port `j` of `n` has, in `after`, the generation its producer has in `before`. */
  ghost predicate Copied(g: Graph, before: seq<seq<nat>>, after: seq<seq<nat>>, n: nat, j: nat)
    requires n < |g| && j < |g[n]| && g[n][j].conns != []
  {
    var p := g[n][j].conns[0];
    GenShape(g, before) && GenShape(g, after) && HasPort(g, p) && after[n][j] == before[p.node][p.idx]
  }

  lemma ProducerIsOutput(g: Graph, n: nat, j: nat)
    requires WellFormed(g) && n < |g| && Directed(g[n], j, In) && g[n][j].conns != []
    ensures HasPort(g, g[n][j].conns[0]) && At(g, g[n][j].conns[0]).ptype.dir == Out
    ensures Connected(g, g[n][j].conns[0], PortRef(n, j))
  {
    assert Connected(g, PortRef(n, j), g[n][j].conns[0]);
  }

  /** Input `j` of node `n` is connected and pulls data, new or old. */
  ghost predicate Pulled(g: Graph, neg: seq<Mask>, n: nat, j: nat) {
    |neg| == |g| && n < |g| && Directed(g[n], j, In) && j in Pulls(neg[n]) && g[n][j].conns != []
  }

  /** Every connected input that a processed node pulls has the generation of its producer. */
  ghost predicate Synced(g: Graph, s: State) {
    RefsExist(g) && Shaped(g, s) && History(s.done, g) &&
    forall n, j: nat :: n in s.done && Pulled(g, s.neg, n, j) ==> Copied(g, s.gen, s.gen, n, j)
  }

  /** Output ports never have generation 0, and generations fit into 64 bits. */
  ghost predicate GenerationsValid(g: Graph, gen: seq<seq<nat>>) {
    GenShape(g, gen) &&
    forall n, i :: 0 <= n < |g| && 0 <= i < |g[n]| ==>
      gen[n][i] <= UINT64_MAX && (g[n][i].ptype.dir == Out ==> gen[n][i] != 0)
  }

  /** The generations after node `n` has been processed. */
  function ProcessedGen(g: Graph, s: State, n: nat): (r: seq<seq<nat>>)
    requires RefsExist(g) && Shaped(g, s) && n < |g|
  {
    CatchUp(g, Renew(s.gen, n, s.neg[n].pushNew, 0), n, Pulls(s.neg[n]), 0)
  }

  lemma InputsOf(g: Graph, n: nat, m: Mask)
    requires n < |g| && Typed(m, g[n])
    ensures Inputs(g, n, Pulls(m))
  {
    forall j | j in Pulls(m) ensures Directed(g[n], j, In) {
      assert j in m.Bits(In, New) || j in m.Bits(In, Old);
    }
  }

  lemma ProcessedGenValid(g: Graph, s: State, n: nat)
    requires WellFormed(g) && Shaped(g, s) && n < |g| && Typed(s.neg[n], g[n]) && GenerationsValid(g, s.gen)
    ensures GenerationsValid(g, ProcessedGen(g, s, n))
  {
    var gen1 := Renew(s.gen, n, s.neg[n].pushNew, 0);
    RenewIs(s.gen, n, s.neg[n].pushNew, 0);
    InputsOf(g, n, s.neg[n]);
    CatchUpIs(g, gen1, n, Pulls(s.neg[n]), 0);
    var gen2 := ProcessedGen(g, s, n);
    forall i | 0 <= i < |g[n]| ensures gen2[n][i] <= UINT64_MAX && (g[n][i].ptype.dir == Out ==> gen2[n][i] != 0) {
      if i in Pulls(s.neg[n]) && g[n][i].conns != [] {
        assert Directed(g[n], i, In);
        assert Copied(g, gen1, gen2, n, i);
      }
    }
  }

  /** Producers of a node's awaited inputs are processed before it. */
  lemma ProducersDone(g: Graph, c: set<nat>, s: State, idle: set<nat>, n: nat, j: nat)
    requires Running(g, c, s, idle) && n < |g| && j in Awaited(g, s.neg, n)
    requires n in s.done || (n in c && s.deps[n] == 0 && n !in s.done)
    ensures g[n][j].conns != [] && g[n][j].conns[0].node in s.done
  {
    var done := if n in s.done then s.done else s.done + [n];
    if n !in s.done { ReadyIsServed(g, c, s, idle, n, j); assert done[|s.done|] == n; }
    var k :| 0 <= k < |done| && done[k] == n && ServedBefore(g, s.neg, done, k, j);
    var m, i :| 0 <= m < k && i in Pushes(s.neg[done[m]]) && Connected(g, PortRef(done[m], i), PortRef(done[k], j));
    assert done[m] in s.done;
    PushesAreOutputs(g, done[m], s.neg[done[m]], i);
    OnlyProducer(g, PortRef(done[m], i), PortRef(n, j));
  }

  lemma ProcessSyncs(g: Graph, c: set<nat>, s: State, idle: set<nat>, n: nat)
    requires Running(g, c, s, idle) && Synced(g, s) && n in c && n < |g| && n !in s.done && s.deps[n] == 0
    ensures forall x, j: nat :: (x in s.done || x == n) && Pulled(g, s.neg, x, j) ==>
      Copied(g, ProcessedGen(g, s, n), ProcessedGen(g, s, n), x, j)
  {
    var gen1 := Renew(s.gen, n, s.neg[n].pushNew, 0);
    var gen2 := ProcessedGen(g, s, n);
    RenewIs(s.gen, n, s.neg[n].pushNew, 0);
    InputsOf(g, n, s.neg[n]);
    CatchUpIs(g, gen1, n, Pulls(s.neg[n]), 0);
    forall x, j: nat | (x in s.done || x == n) && Pulled(g, s.neg, x, j) ensures Copied(g, gen2, gen2, x, j) {
      ProducerIsOutput(g, x, j);
      if x == n {
        assert Copied(g, gen1, gen2, n, j);
      } else {
        assert Copied(g, s.gen, s.gen, x, j);
        var p := g[x][j].conns[0];
        if p.node == n && p.idx in s.neg[n].pushNew {
          assert InputActivated(g, s.neg, PortRef(x, j));
          ProducersDone(g, c, s, idle, x, j);
        }
      }
    }
  }

  lemma StepSyncs(g: Graph, c: set<nat>, s: State, idle: set<nat>, fails: set<nat>)
    requires Running(g, c, s, idle) && Synced(g, s) && GenerationsValid(g, s.gen) && s.list != []
    ensures var n := s.list[0]; var s0 := s.(list := s.list[1..]);
      Shaped(g, s0) && n < |g| &&
      var r := Process(g, s0, n, fails);
      GenerationsValid(g, r.st.gen) && (r.ok ==> Synced(g, r.st))
  {
    var n := s.list[0];
    var s0 := s.(list := s.list[1..]);
    ProcessKeeps(g, c, s, idle, fails);
    PopQueued(g, c, s, idle);
    ProcessSyncs(g, c, s, idle, n);
    ProcessedGenValid(g, s, n);
    RenewValid(g, s, n);
    assert Process(g, s0, n, fails).ok ==> Process(g, s0, n, fails).st.gen == ProcessedGen(g, s, n);
  }

  lemma {:induction false} ScheduleNodesSyncs(g: Graph, c: set<nat>, s: State, idle: set<nat>, fails: set<nat>)
    requires Running(g, c, s, idle) && Synced(g, s) && GenerationsValid(g, s.gen)
    ensures var r := ScheduleNodes(g, s, fails);
      GenerationsValid(g, r.st.gen) && (r.ok ==> Synced(g, r.st))
    decreases Sum(s.deps), |s.list|
  {
    if s.list != [] {
      var n := s.list[0];
      var s0 := s.(list := s.list[1..]);
      ProcessKeeps(g, c, s, idle, fails);
      ProcessLowers(g, s0, n, fails);
      StepSyncs(g, c, s, idle, fails);
      var r := Process(g, s0, n, fails);
      if r.ok {
        ScheduleNodesSyncs(g, c, r.st, idle, fails);
      }
    }
  }

  lemma RenewValid(g: Graph, s: State, n: nat)
    requires Shaped(g, s) && n < |g| && GenerationsValid(g, s.gen)
    ensures GenerationsValid(g, Renew(s.gen, n, s.neg[n].pushNew, 0))
  {
    RenewIs(s.gen, n, s.neg[n].pushNew, 0);
  }
}
