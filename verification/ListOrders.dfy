/** The order in which nodes are listed: what becomes ready last is processed first. */
module ListOrders {
  import opened Digraph
  import opened DataflowGraph
  import opened SchedulerState
  import opened MaskNegotiation
  import opened DependencyCounters
  import opened NodeScheduling
  import opened ProcessingOrder
  import opened ProcessingRun
  import opened GraphScheduling
  import opened ComponentScheduling

  lemma {:induction false} RemoveFirst(a: seq<nat>, n: nat, b: seq<nat>)
    requires n !in a
    ensures Remove(a + [n] + b, n) == a + b
    decreases |a|
  {
    var l := a + [n] + b;
    if a == [] {
      assert l[0] == n && l[1..] == b && a + b == b;
    } else {
      assert l[0] == a[0] && l[1..] == a[1..] + [n] + b;
      RemoveFirst(a[1..], n, b);
      assert a == [a[0]] + a[1..];
      assert [a[0]] + (a[1..] + b) == a + b;
    }
  }

  lemma {:induction false} RemoveAbsent(l: seq<nat>, n: nat)
    requires n !in l
    ensures Remove(l, n) == l
  {
    if l != [] {
      RemoveAbsent(l[1..], n);
    }
  }

  /** Moving a node to the front leaves the others in their order. */
  lemma PushFrontOrder(a: seq<nat>, n: nat, b: seq<nat>)
    requires n !in a
    ensures PushFront(a + [n] + b, n) == [n] + a + b
    ensures n !in b ==> PushFront(a + b, n) == [n] + a + b
  {
    hide Remove;
    RemoveFirst(a, n, b);
    assert [n] + (a + b) == [n] + a + b;
    if n !in b {
      RemoveAbsent(a + b, n);
    }
  }

  ghost predicate Descending(l: seq<nat>) {
    forall i: nat, j: nat :: i < j < |l| ==> l[i] > l[j]
  }

  lemma DescendingCons(l: seq<nat>, n: nat)
    requires Descending(l) && forall x :: x in l ==> x < n
    ensures Descending([n] + l) && forall x :: x in [n] + l ==> x < n + 1
  {
    assert forall i: nat :: i < |l| ==> l[i] in l;
  }

  /** The nodes that are ready when a pass begins are listed from the last to the first. */
  lemma {:induction false} ReadyNodesDescend(g: Graph, s: State, n: nat)
    requires |s.deps| == |g| && n <= |g| && Descending(s.list) && forall x :: x in s.list ==> x < n
    ensures Descending(AddReady(g, s, n).list)
    decreases |g| - n
  {
    hide Descending; hide Remove;
    if n < |g| {
      if s.deps[n] == 0 {
        RemoveAbsent(s.list, n);
        DescendingCons(s.list, n);
        ReadyNodesDescend(g, s.(list := PushFront(s.list, n)), n + 1);
      } else {
        ReadyNodesDescend(g, s, n + 1);
      }
    }
  }

  /** List `b` is list `a` with some nodes put in front of it. */
  ghost predicate OnTop(a: seq<nat>, b: seq<nat>) {
    |a| <= |b| && b[|b| - |a|..] == a
  }

  lemma OnTopOfItself(a: seq<nat>, n: nat)
    ensures OnTop(a, a) && OnTop(a, [n] + a)
  {
  }

  lemma OnTopTwice(a: seq<nat>, b: seq<nat>, c: seq<nat>)
    requires OnTop(a, b) && OnTop(b, c)
    ensures OnTop(a, c)
  {
    assert c[|c| - |a|..] == c[|c| - |b|..][|b| - |a|..];
  }

  lemma {:induction false} DeliverAllOnTop(g: Graph, s: State, qs: seq<PortRef>)
    requires RefsExist(g) && Shaped(g, s) && PortsExist(g, qs)
    ensures OnTop(s.list, DeliverAll(g, s, qs).st.list)
    decreases |qs|
  {
    if qs != [] {
      var r := Deliver(g, s, qs[0]);
      assert OnTop(s.list, r.st.list);
      if r.ok {
        DeliverAllOnTop(g, r.st, qs[1..]);
        OnTopTwice(s.list, r.st.list, DeliverAll(g, r.st, qs[1..]).st.list);
      }
    }
  }

  lemma {:induction false} DeliverPortsOnTop(g: Graph, s: State, n: nat, bits: set<nat>, i: nat)
    requires RefsExist(g) && Shaped(g, s) && n < |g| && i <= |g[n]|
    ensures OnTop(s.list, DeliverPorts(g, s, n, bits, i).st.list)
    decreases |g[n]| - i
  {
    if i < |g[n]| {
      if i in bits {
        PortConnsExist(g, n, i);
        var r := DeliverAll(g, s, g[n][i].conns);
        DeliverAllOnTop(g, s, g[n][i].conns);
        if r.ok {
          DeliverPortsOnTop(g, r.st, n, bits, i + 1);
          OnTopTwice(s.list, r.st.list, DeliverPorts(g, r.st, n, bits, i + 1).st.list);
        }
      } else {
        DeliverPortsOnTop(g, s, n, bits, i + 1);
      }
    }
  }

  /** What processing a node makes ready comes before everything that has been listed. */
  lemma ProcessOnTop(g: Graph, s: State, n: nat, fails: set<nat>)
    requires RefsExist(g) && Shaped(g, s) && n < |g|
    ensures OnTop(s.list, Process(g, s, n, fails).st.list)
  {
    if s.deps[n] == 0 {
      var s1 := s.(gen := Renew(s.gen, n, s.neg[n].pushNew, 0));
      var s2 := s1.(gen := CatchUp(g, s1.gen, n, Pulls(s.neg[n]), 0));
      DeliverPortsOnTop(g, s2, n, Pushes(s.neg[n]), 0);
    }
  }

  /** A node that still waits for data is not processed, and a process function that fails
      leaves everything as it was but the outputs that had been marked as new before. */
  lemma FailureLeaves(g: Graph, s: State, n: nat, fails: set<nat>)
    requires WellFormed(g) && Shaped(g, s) && n < |g| && Typed(s.neg[n], g[n])
    requires !Process(g, s, n, fails).ok && Process(g, s, n, {}).ok
    ensures s.deps[n] == 0 && n in fails
    ensures var t := Process(g, s, n, fails).st;
      && t == s.(gen := t.gen)
      && forall m: nat, j: nat :: m < |g| && j < |g[m]| && !(m == n && j in s.neg[n].pushNew) ==>
           t.gen[m][j] == s.gen[m][j]
  {
    RenewIs(s.gen, n, s.neg[n].pushNew, 0);
  }
}
