/** The counters of incoming dependencies that the negotiation leaves behind. A
    counter is only computed when its node is evaluated, so whether it is still
    right at the end depends on what can change after the last evaluation. */
module DependencyCounters {
  import opened Digraph
  import opened DataflowGraph
  import opened SchedulerState
  import opened MaskNegotiation
  import opened NodeTypes

  /** The connected inputs of `n` that pull data regardless of its age. */
  function SurelyAwaited(g: Graph, neg: seq<Mask>, n: nat): set<nat>
    requires n < |g| && |neg| == |g|
  {
    set i | 0 <= i < |g[n]| && i in neg[n].pullOld && g[n][i].ptype.dir == In && g[n][i].conns != []
  }

  /** The activated inputs of `n`. */
  function Awaited(g: Graph, neg: seq<Mask>, n: nat): set<nat>
    requires RefsExist(g) && n < |g| && |neg| == |g|
  {
    set i | 0 <= i < |g[n]| && g[n][i].ptype.dir == In && InputActivated(g, neg, PortRef(n, i))
  }

  /** Every counter in `c` equals the number of activated inputs of its node. */
  ghost predicate Exact(g: Graph, c: set<nat>, s: State) {
    RefsExist(g) && Shaped(g, s) && forall n :: n in c && n < |g| ==> s.deps[n] == |Awaited(g, s.neg, n)|
  }

  /** The counter of `n` lies between what certainly is awaited and what is now. */
  ghost predicate Bracketed(g: Graph, s: State, n: nat)
    requires RefsExist(g) && Shaped(g, s) && n < |g|
  {
    |SurelyAwaited(g, s.neg, n)| <= s.deps[n] <= |Awaited(g, s.neg, n)|
  }

  ghost predicate Counted(g: Graph, c: set<nat>, s: State) {
    RefsExist(g) && Shaped(g, s) && forall n :: n in c && n < |g| && n !in s.list ==> Bracketed(g, s, n)
  }

  lemma AwaitedMonotone(g: Graph, a: seq<Mask>, b: seq<Mask>, n: nat)
    requires RefsExist(g) && n < |g| && |a| == |g| == |b|
    requires forall x :: 0 <= x < |g| ==> a[x].SubsetOf(b[x])
    ensures Awaited(g, a, n) <= Awaited(g, b, n)
  {
    forall i | i in Awaited(g, a, n) ensures i in Awaited(g, b, n) {
      var r := PortRef(n, i);
      assert HasPort(g, r) && Connected(g, r, Producer(g, r));
      assert a[n].SubsetOf(b[n]) && a[Producer(g, r).node].SubsetOf(b[Producer(g, r).node]);
    }
  }

  lemma SurelyAwaitedWithin(g: Graph, neg: seq<Mask>, n: nat)
    requires RefsExist(g) && n < |g| && |neg| == |g|
    ensures SurelyAwaited(g, neg, n) <= Awaited(g, neg, n)
  {
  }

  /** What a settled node counts are its activated inputs. */
  lemma ActiveInputsAreAwaited(g: Graph, neg: seq<Mask>, gen: seq<seq<nat>>, n: nat)
    requires RefsExist(g) && n < |g| && |neg| == |g| == |gen| && Typed(neg[n], g[n])
    requires forall m :: 0 <= m < |g| ==> |gen[m]| == |g[m]|
    ensures ActiveInputs(g, neg, gen, n) == Awaited(g, neg, n)
  {
    forall i | i in ActiveInputs(g, neg, gen, n) ensures i in Awaited(g, neg, n) {
      assert i in neg[n].Bits(In, Old) || i in neg[n].Bits(In, New);
      assert Directed(g[n], i, In);
    }
  }

  lemma StepCounts(g: Graph, c: set<nat>, s: State, n: nat)
    requires WellFormed(g) && Scope(g, c) && NoSelfLoop(g, c) && Negotiating(g, c, s) && Counted(g, c, s) && n in s.list
    requires Step(g, s, n).ok
    ensures Counted(g, c, Step(g, s, n).st)
  {
    StepNegotiates(g, c, s, n);
    var s0 := s.(list := Remove(s.list, n));
    RemoveElems(s.list, n);
    var m := s.neg[n].Diff(s.prop[n]);
    PropagateAllGrown(g, s0, n, m);
    PropagateAllShape(g, s0, n, m);
    var t := PropagateAll(g, s0, n, m).st;
    var u := Step(g, s, n).st;
    assert u == Settle(g, t, n);
    forall x | x in c && x < |g| && x !in u.list ensures Bracketed(g, u, x) {
      if x == n {
        assert u.prop[n] == u.neg[n];
        ActiveInputsAreAwaited(g, t.neg, t.gen, n);
        SurelyAwaitedWithin(g, t.neg, n);
        SubsetCardinality(SurelyAwaited(g, t.neg, n), Awaited(g, t.neg, n));
      } else {
        assert Bracketed(g, s, x);
        AwaitedMonotone(g, s.neg, t.neg, x);
        SubsetCardinality(Awaited(g, s.neg, x), Awaited(g, t.neg, x));
        assert SurelyAwaited(g, t.neg, x) == SurelyAwaited(g, s.neg, x);
      }
    }
  }

  lemma {:induction false} ConvergeCounts(g: Graph, c: set<nat>, s: State)
    requires WellFormed(g) && Scope(g, c) && NoSelfLoop(g, c) && Negotiating(g, c, s) && Counted(g, c, s)
    requires Converge(g, s).ok
    ensures Counted(g, c, Converge(g, s).st)
    decreases Missing(g, s.neg), |s.list|
  {
    if s.list != [] {
      var n := s.list[0];
      assert n in s.list;
      StepStartable(g, s, n);
      StepNegotiates(g, c, s, n);
      StepCounts(g, c, s, n);
      ConvergeCounts(g, c, Step(g, s, n).st);
    }
  }

  // ----- When the counters are exact -----

  /** Every input of the nodes in `c` pulls data regardless of its age. */
  ghost predicate AllInputsPull(g: Graph, c: set<nat>, neg: seq<Mask>)
    requires |neg| == |g|
  {
    forall n, i :: n in c && n < |g| && Directed(g[n], i, In) ==> i in neg[n].pullOld
  }

  lemma AwaitedIsSure(g: Graph, c: set<nat>, neg: seq<Mask>, n: nat)
    requires WellFormed(g) && Scope(g, c) && Closed(g, c, neg) && n in c && n < |g|
    requires NewDataIsPulled(g) || AllInputsPull(g, c, neg)
    ensures Awaited(g, neg, n) == SurelyAwaited(g, neg, n)
  {
    forall i | i in Awaited(g, neg, n) ensures i in neg[n].pullOld {
      var q := PortRef(n, i);
      if AllInputsPull(g, c, neg) {
        assert Directed(g[n], i, In);
      } else if i !in neg[n].pullOld {
        PushedNewIsPulled(g, c, neg, q);
      }
    }
  }

  lemma PushedNewIsPulled(g: Graph, c: set<nat>, neg: seq<Mask>, q: PortRef)
    requires WellFormed(g) && Scope(g, c) && Closed(g, c, neg) && q.node in c && NewDataIsPulled(g)
    requires HasPort(g, q) && At(g, q).ptype.dir == In && At(g, q).conns != [] && q.idx in neg[q.node].pullNew
    requires Connected(g, q, Producer(g, q)) ==> Producer(g, q).idx in neg[Producer(g, q).node].pushNew
    ensures q.idx in neg[q.node].pullOld
  {
    var p := Producer(g, q);
    assert Connected(g, q, p);
    assert Connected(g, p, q);
    assert p.idx in neg[p.node].Bits(Out, New);
    assert Honoured(g, neg, p.node, p.idx, New);
    assert PortRef(p.node, p.idx) == p && PortRef(q.node, q.idx) == q;
    assert q.idx in neg[q.node].Bits(In, New);
    assert Honoured(g, neg, q.node, q.idx, New);
    assert p.idx in neg[p.node].Bits(Out, Old);
    assert Honoured(g, neg, p.node, p.idx, Old);
  }

  /** After a successful negotiation the counters are exact if new data is always
      pulled, or if all inputs pull anyway. */
  lemma CountersExact(g: Graph, c: set<nat>, s: State)
    requires WellFormed(g) && Scope(g, c) && NoSelfLoop(g, c) && Negotiating(g, c, s) && Counted(g, c, s)
    requires Converge(g, s).ok
    requires NewDataIsPulled(g) || AllInputsPull(g, c, s.neg)
    ensures Exact(g, c, Converge(g, s).st)
  {
    ConvergeCounts(g, c, s);
    ConvergeNegotiates(g, c, s);
    ConvergeReachesLeastClosed(g, c, s);
    var t := Converge(g, s).st;
    if AllInputsPull(g, c, s.neg) {
      forall n, i | n in c && n < |g| && Directed(g[n], i, In) ensures i in t.neg[n].pullOld {
        assert s.neg[n].SubsetOf(t.neg[n]);
      }
    }
    forall n | n in c && n < |g| ensures t.deps[n] == |Awaited(g, t.neg, n)| {
      assert Bracketed(g, t, n);
      AwaitedIsSure(g, c, t.neg, n);
    }
  }
}
