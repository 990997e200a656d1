/** Why counting dependencies yields a correct processing order: each counter
    always equals the number of awaited inputs that have not been delivered yet. */
module ProcessingOrder {
  import opened Digraph
  import opened DataflowGraph
  import opened SchedulerState
  import opened MaskNegotiation
  import opened DependencyCounters
  import opened NodeScheduling

  /** Awaited inputs of `n` whose data has not been delivered. */
  ghost function Pending(g: Graph, neg: seq<Mask>, n: nat, dl: set<PortRef>): set<nat>
    requires RefsExist(g) && n < |g| && |neg| == |g|
  {
    set i | i in Awaited(g, neg, n) && PortRef(n, i) !in dl
  }

  /** The consumer ports that node `n` serves through its ports in `bits`, from
      index `i` on. */
  ghost function Served(g: Graph, n: nat, bits: set<nat>, i: nat): set<PortRef>
    requires n < |g| && i <= |g[n]|
    decreases |g[n]| - i
  {
    if i == |g[n]| then {}
    else if i in bits then Elems(g[n][i].conns) + Served(g, n, bits, i + 1)
    else Served(g, n, bits, i + 1)
  }

  lemma {:induction false} ServedIs(g: Graph, n: nat, bits: set<nat>, i: nat, q: PortRef)
    requires n < |g| && i <= |g[n]|
    ensures q in Served(g, n, bits, i) <==> exists j :: i <= j < |g[n]| && j in bits && Connected(g, PortRef(n, j), q)
    decreases |g[n]| - i
  {
    if i < |g[n]| {
      ServedIs(g, n, bits, i + 1, q);
      if i in bits && q in g[n][i].conns {
        assert Connected(g, PortRef(n, i), q);
      }
      if exists j :: i <= j < |g[n]| && j in bits && Connected(g, PortRef(n, j), q) {
        var j :| i <= j < |g[n]| && j in bits && Connected(g, PortRef(n, j), q);
        if j == i { assert q in g[n][i].conns; }
      }
    }
  }

  /** A record of nodes of the graph. */
  ghost predicate History(done: seq<nat>, g: Graph) {
    forall k :: 0 <= k < |done| ==> done[k] < |g|
  }

  /** The consumer ports served by the nodes processed so far. */
  ghost function DeliveredBy(g: Graph, neg: seq<Mask>, done: seq<nat>): set<PortRef>
    requires |neg| == |g| && History(done, g)
  {
    if done == [] then {} else
    var n := done[|done| - 1];
    assert n in done;
    assert forall x :: x in done[..|done| - 1] ==> x in done;
    DeliveredBy(g, neg, done[..|done| - 1]) + Served(g, n, Pushes(neg[n]), 0)
  }

  lemma {:induction false} DeliveredIs(g: Graph, neg: seq<Mask>, done: seq<nat>, q: PortRef)
    requires |neg| == |g| && History(done, g)
    ensures q in DeliveredBy(g, neg, done) <==>
      exists n, j :: n in done && j in Pushes(neg[n]) && Connected(g, PortRef(n, j), q)
  {
    if done != [] {
      var n := done[|done| - 1];
      var front := done[..|done| - 1];
      assert done == front + [n];
      assert n in done;
      assert forall x :: x in front ==> x in done;
      DeliveredIs(g, neg, front, q);
      ServedIs(g, n, Pushes(neg[n]), 0, q);
      if exists m, j :: m in done && j in Pushes(neg[m]) && Connected(g, PortRef(m, j), q) {
        var m, j :| m in done && j in Pushes(neg[m]) && Connected(g, PortRef(m, j), q);
        if m == n {
          assert 0 <= j < |g[n]|;
        } else {
          assert m in front;
        }
      }
    }
  }

  /** Each counter equals the number of pending inputs. */
  ghost predicate Balanced(g: Graph, c: set<nat>, s: State, dl: set<PortRef>) {
    RefsExist(g) && Shaped(g, s) &&
    forall m :: m in c && m < |g| ==> s.deps[m] == |Pending(g, s.neg, m, dl)|
  }

  /** The list holds ready nodes that are not done, and every ready node is listed,
      done or excused. */
  ghost predicate Queued(g: Graph, c: set<nat>, s: State, excused: set<nat>) {
    && Shaped(g, s) && Distinct(s.list)
    && (forall x :: x in s.list ==> x in c && x < |g| && s.deps[x] == 0 && x !in s.done && x !in excused)
    && (forall x :: x in s.done ==> x < |g| && s.deps[x] == 0)
    && (forall x :: x in excused ==> x < |g| && s.deps[x] == 0)
    && (forall x :: x in c && x < |g| && x !in excused && s.deps[x] == 0 ==> x in s.list || x in s.done)
  }

  lemma PendingDelivered(g: Graph, neg: seq<Mask>, m: nat, dl: set<PortRef>, q: PortRef)
    requires RefsExist(g) && m < |g| && |neg| == |g| && q !in dl
    ensures q.node == m && q.idx in Awaited(g, neg, m) ==>
      |Pending(g, neg, m, dl)| == |Pending(g, neg, m, dl + {q})| + 1
    ensures !(q.node == m && q.idx in Awaited(g, neg, m)) ==> Pending(g, neg, m, dl) == Pending(g, neg, m, dl + {q})
  {
    if q.node == m && q.idx in Awaited(g, neg, m) {
      assert q == PortRef(m, q.idx);
      assert Pending(g, neg, m, dl) == Pending(g, neg, m, dl + {q}) + {q.idx};
      assert q.idx !in Pending(g, neg, m, dl + {q});
    } else {
      forall i | i in Pending(g, neg, m, dl) ensures i in Pending(g, neg, m, dl + {q}) {
      }
    }
  }

  /** A delivery to a port that has not been served before never meets a counter
      that is zero already. */
  lemma DeliverKeeps(g: Graph, c: set<nat>, s: State, dl: set<PortRef>, excused: set<nat>, q: PortRef)
    requires WellFormed(g) && Balanced(g, c, s, dl) && Queued(g, c, s, excused)
    requires HasPort(g, q) && At(g, q).ptype.dir == In && q.node in c && q !in dl
    ensures var r := Deliver(g, s, q);
      r.ok && Balanced(g, c, r.st, dl + {q}) && Queued(g, c, r.st, excused)
  {
    var r := Deliver(g, s, q);
    assert Activated(g, s.neg, s.gen, q) <==> q.idx in Awaited(g, s.neg, q.node) by {
      assert q == PortRef(q.node, q.idx);
    }
    PendingDelivered(g, s.neg, q.node, dl, q);
    forall m | m in c && m < |g| ensures r.st.deps[m] == |Pending(g, s.neg, m, dl + {q})| {
      PendingDelivered(g, s.neg, m, dl, q);
    }
    if Activated(g, s.neg, s.gen, q) && s.deps[q.node] == 1 {
      assert q.node !in s.list;
      assert Distinct(r.st.list) by {
        DistinctCons(q.node, s.list);
      }
    }
  }

  lemma DistinctCons(x: nat, l: seq<nat>)
    requires Distinct(l) && x !in l
    ensures Distinct([x] + l)
  {
    forall i, j | 0 <= i < j < |[x] + l| ensures ([x] + l)[i] != ([x] + l)[j] {
      assert l[j - 1] in l;
    }
  }

  lemma ElemsCons<T>(s: set<T>, l: seq<T>)
    requires l != []
    ensures s + {l[0]} + Elems(l[1..]) == s + Elems(l)
  {
    assert l == [l[0]] + l[1..];
  }

  /** Input ports of `c` that are not yet in `dl`. */
  ghost predicate Deliverable(g: Graph, c: set<nat>, qs: seq<PortRef>, dl: set<PortRef>) {
    Distinct(qs) && forall q :: q in qs ==> HasPort(g, q) && At(g, q).ptype.dir == In && q.node in c && q !in dl
  }

  lemma DeliverableTail(g: Graph, c: set<nat>, qs: seq<PortRef>, dl: set<PortRef>)
    requires qs != [] && Deliverable(g, c, qs, dl)
    ensures Deliverable(g, c, qs[1..], dl + {qs[0]})
  {
    forall q | q in qs[1..] ensures q in qs && q !in dl + {qs[0]} {
    }
  }

  lemma {:induction false} DeliverAllKeeps(g: Graph, c: set<nat>, s: State, dl: set<PortRef>, excused: set<nat>,
                                           qs: seq<PortRef>)
    requires WellFormed(g) && Balanced(g, c, s, dl) && Queued(g, c, s, excused)
    requires Deliverable(g, c, qs, dl)
    ensures var r := DeliverAll(g, s, qs);
      r.ok && Balanced(g, c, r.st, dl + Elems(qs)) && Queued(g, c, r.st, excused)
    decreases |qs|
  {
    if qs == [] {
      assert dl + Elems(qs) == dl;
    } else {
      assert qs[0] in qs;
      DeliverKeeps(g, c, s, dl, excused, qs[0]);
      DeliverableTail(g, c, qs, dl);
      DeliverAllKeeps(g, c, Deliver(g, s, qs[0]).st, dl + {qs[0]}, excused, qs[1..]);
      ElemsCons(dl, qs);
    }
  }

  ghost predicate Outputs(g: Graph, n: nat, bits: set<nat>) {
    n < |g| && forall j :: j in bits ==> Directed(g[n], j, Out)
  }

  /** Nothing that `n` serves through the ports in `bits` from `i` on is in `dl`. */
  ghost predicate Unserved(g: Graph, n: nat, bits: set<nat>, i: nat, dl: set<PortRef>) {
    forall j, q :: j >= i && j in bits && Connected(g, PortRef(n, j), q) ==> q !in dl
  }

  lemma ConsumersOf(g: Graph, c: set<nat>, n: nat, i: nat)
    requires WellFormed(g) && Scope(g, c) && n in c && n < |g| && Directed(g[n], i, Out)
    ensures forall q :: q in g[n][i].conns ==> HasPort(g, q) && At(g, q).ptype.dir == In && q.node in c
    ensures Distinct(g[n][i].conns)
  {
    var r := PortRef(n, i);
    assert HasPort(g, r) && At(g, r) == g[n][i];
    forall q | q in g[n][i].conns ensures HasPort(g, q) && At(g, q).ptype.dir == In && q.node in c {
      assert Connected(g, r, q);
      OnlyProducer(g, r, q);
    }
  }

  lemma UnservedNext(g: Graph, n: nat, bits: set<nat>, i: nat, dl: set<PortRef>)
    requires WellFormed(g) && n < |g| && Unserved(g, n, bits, i, dl) && Outputs(g, n, bits) && i in bits
    ensures Unserved(g, n, bits, i + 1, dl + Elems(g[n][i].conns))
  {
    forall j, q | j >= i + 1 && j in bits && Connected(g, PortRef(n, j), q) ensures q !in dl + Elems(g[n][i].conns) {
      OnlyProducer(g, PortRef(n, j), q);
      if q in g[n][i].conns {
        assert Connected(g, PortRef(n, i), q);
        OnlyProducer(g, PortRef(n, i), q);
      }
    }
  }

  lemma PortDeliverable(g: Graph, c: set<nat>, n: nat, bits: set<nat>, i: nat, dl: set<PortRef>)
    requires WellFormed(g) && Scope(g, c) && n in c && Outputs(g, n, bits)
    requires i in bits && Unserved(g, n, bits, i, dl)
    ensures Deliverable(g, c, g[n][i].conns, dl)
  {
    ConsumersOf(g, c, n, i);
    forall q | q in g[n][i].conns ensures q !in dl {
      assert Connected(g, PortRef(n, i), q);
    }
  }

  /** The state before the ports of `n` from index `i` on deliver. */
  ghost predicate Delivering(g: Graph, c: set<nat>, s: State, dl: set<PortRef>, excused: set<nat>, n: nat,
                             bits: set<nat>, i: nat) {
    && WellFormed(g) && Scope(g, c) && Balanced(g, c, s, dl) && Queued(g, c, s, excused)
    && n in c && n < |g| && i <= |g[n]| && Unserved(g, n, bits, i, dl) && Outputs(g, n, bits)
  }

  lemma DeliverPortStep(g: Graph, c: set<nat>, s: State, dl: set<PortRef>, excused: set<nat>, n: nat, bits: set<nat>,
                        i: nat)
    requires Delivering(g, c, s, dl, excused, n, bits, i) && i < |g[n]| && i in bits
    ensures PortsExist(g, g[n][i].conns)
    ensures DeliverAll(g, s, g[n][i].conns).ok
    ensures Delivering(g, c, DeliverAll(g, s, g[n][i].conns).st, dl + Elems(g[n][i].conns), excused, n, bits, i + 1)
  {
    PortConnsExist(g, n, i);
    PortDeliverable(g, c, n, bits, i, dl);
    DeliverAllKeeps(g, c, s, dl, excused, g[n][i].conns);
    UnservedNext(g, n, bits, i, dl);
  }

  lemma {:induction false} DeliverPortsKeeps(g: Graph, c: set<nat>, s: State, dl: set<PortRef>, excused: set<nat>,
                                             n: nat, bits: set<nat>, i: nat)
    requires Delivering(g, c, s, dl, excused, n, bits, i)
    ensures DeliverPorts(g, s, n, bits, i).ok
    ensures Delivering(g, c, DeliverPorts(g, s, n, bits, i).st, dl + Served(g, n, bits, i), excused, n, bits, |g[n]|)
    decreases |g[n]| - i
  {
    if i == |g[n]| {
      assert dl + Served(g, n, bits, i) == dl;
    } else if i in bits {
      DeliverPortStep(g, c, s, dl, excused, n, bits, i);
      var t := DeliverAll(g, s, g[n][i].conns).st;
      DeliverPortsKeeps(g, c, t, dl + Elems(g[n][i].conns), excused, n, bits, i + 1);
      SetAssoc(dl, Elems(g[n][i].conns), Served(g, n, bits, i + 1));
    } else {
      DeliverPortsKeeps(g, c, s, dl, excused, n, bits, i + 1);
    }
  }

  lemma SetAssoc<T>(x: set<T>, y: set<T>, z: set<T>)
    ensures x + y + z == x + (y + z)
  {
  }

  /** Every awaited input of a processed node was served by nodes processed before it. */
  ghost predicate Ordered(g: Graph, neg: seq<Mask>, done: seq<nat>) {
    RefsExist(g) && |neg| == |g| && History(done, g) &&
    forall k, j :: 0 <= k < |done| && j in Awaited(g, neg, done[k]) ==> ServedBefore(g, neg, done, k, j)
  }

  ghost predicate ServedBefore(g: Graph, neg: seq<Mask>, done: seq<nat>, k: nat, j: nat)
    requires |neg| == |g| && History(done, g) && k < |done|
  {
    exists m, i :: 0 <= m < k && i in Pushes(neg[done[m]]) && Connected(g, PortRef(done[m], i), PortRef(done[k], j))
  }

  /** What processing a node keeps. */
  ghost predicate Running(g: Graph, c: set<nat>, s: State, idle: set<nat>) {
    && WellFormed(g) && Scope(g, c) && Shaped(g, s) && History(s.done, g)
    && (forall n :: n in c && n < |g| ==> Typed(s.neg[n], g[n]))
    && Distinct(s.done) && (forall n :: n in s.done ==> n in c && n !in idle)
    && Queued(g, c, s, idle)
    && Balanced(g, c, s, DeliveredBy(g, s.neg, s.done))
    && Ordered(g, s.neg, s.done)
  }

  lemma NothingServedTwice(g: Graph, c: set<nat>, s: State, idle: set<nat>, n: nat)
    requires Running(g, c, s, idle) && n in c && n < |g| && n !in s.done
    ensures Unserved(g, n, Pushes(s.neg[n]), 0, DeliveredBy(g, s.neg, s.done))
  {
    var dl := DeliveredBy(g, s.neg, s.done);
    forall j, q | j in Pushes(s.neg[n]) && Connected(g, PortRef(n, j), q) ensures q !in dl {
      PushesAreOutputs(g, n, s.neg[n], j);
      OnlyProducer(g, PortRef(n, j), q);
      DeliveredIs(g, s.neg, s.done, q);
      if q in dl {
        var m, i :| m in s.done && i in Pushes(s.neg[m]) && Connected(g, PortRef(m, i), q);
        PushesAreOutputs(g, m, s.neg[m], i);
        OnlyProducer(g, PortRef(m, i), q);
      }
    }
  }

  lemma PushesAreOutputs(g: Graph, n: nat, m: Mask, j: nat)
    requires n < |g| && Typed(m, g[n]) && j in Pushes(m)
    ensures Directed(g[n], j, Out)
  {
    assert j in m.Bits(Out, New) || j in m.Bits(Out, Old);
  }

  lemma ReadyIsServed(g: Graph, c: set<nat>, s: State, idle: set<nat>, n: nat, j: nat)
    requires Running(g, c, s, idle) && n in c && n < |g| && s.deps[n] == 0 && j in Awaited(g, s.neg, n)
    ensures ServedBefore(g, s.neg, s.done + [n], |s.done|, j)
  {
    var q := PortRef(n, j);
    var dl := DeliveredBy(g, s.neg, s.done);
    assert q in dl by {
      assert |Pending(g, s.neg, n, dl)| == 0;
      assert j !in Pending(g, s.neg, n, dl);
    }
    DeliveredIs(g, s.neg, s.done, q);
    var m, i :| m in s.done && i in Pushes(s.neg[m]) && Connected(g, PortRef(m, i), q);
    var k :| 0 <= k < |s.done| && s.done[k] == m;
    assert (s.done + [n])[k] == m;
  }

  lemma OrderedAppend(g: Graph, c: set<nat>, s: State, idle: set<nat>, n: nat)
    requires Running(g, c, s, idle) && n in c && n < |g| && s.deps[n] == 0
    ensures Ordered(g, s.neg, s.done + [n])
  {
    var done := s.done + [n];
    assert forall k :: 0 <= k < |s.done| ==> done[k] == s.done[k];
    forall k | 0 <= k < |done| ensures done[k] < |g| {
      if k < |s.done| { assert s.done[k] in s.done; }
    }
    forall k, j | 0 <= k < |done| && j in Awaited(g, s.neg, done[k]) ensures ServedBefore(g, s.neg, done, k, j) {
      if k == |s.done| {
        ReadyIsServed(g, c, s, idle, n, j);
      } else {
        assert s.done[k] in s.done;
        assert ServedBefore(g, s.neg, s.done, k, j);
        assert forall m :: 0 <= m < k ==> s.done[m] in s.done;
        var m, i :| 0 <= m < k && i in Pushes(s.neg[s.done[m]]) &&
          Connected(g, PortRef(s.done[m], i), PortRef(s.done[k], j));
        assert done[m] == s.done[m];
      }
    }
  }
}
