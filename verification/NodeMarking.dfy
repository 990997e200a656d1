/** Markings of nodes, and what walks over the graph do to them. */
module NodeMarking {
  import opened Digraph
  import opened DataflowGraph
  import opened SchedulerState
  import opened ProcessingOrder
  import opened ComponentScheduling

  /** enum am_dfg_schedule_marking: the meaning that the scheduler gives to markings. */
  const NONE: Marking := 0
  const RESET: Marking := 1
  const MARKING: Marking := 2
  const FIND_ROOTS: Marking := 3
  const PROCESSING: Marking := 6
  const DONE: Marking := 7

  /** No node is in the middle of being marked. */
  ghost predicate Quiet(marks: seq<Marking>) {
    forall x :: 0 <= x < |marks| ==> marks[x] != MARKING
  }

  /** The nodes that carry marking `m`. */
  ghost function Marked(g: Graph, marks: seq<Marking>, m: Marking): set<nat>
    requires |marks| == |g|
  {
    set x | x in AllNodes(g) && marks[x] == m
  }

  lemma MarkedOne(g: Graph, marks: seq<Marking>, n: nat, m: Marking)
    requires |marks| == |g| && n < |g|
    ensures Marked(g, marks[n := m], m) == Marked(g, marks, m) + {n} && (n in Marked(g, marks, m) <==> marks[n] == m)
  {
  }

  /** From `a` to `b` some nodes may have got marking `m`. */
  ghost predicate Touched(a: seq<Marking>, b: seq<Marking>, m: Marking) {
    |a| == |b| && forall x :: 0 <= x < |a| ==> b[x] == a[x] || b[x] == m
  }

  // ----- Painting what is in reach -----

  /** What marking from `n` does, as a function: all nodes that `n` reaches past nodes
      being marked get `m`. */
  ghost function Painting(g: Graph, marks: seq<Marking>, n: nat, m: Marking): (r: seq<Marking>)
    requires |marks| == |g|
    ensures |r| == |g|
  {
    seq(|g|, x requires 0 <= x < |g| =>
      if ReachesAvoiding(ConnectionEdges(g), Marked(g, marks, MARKING), n, x) then m else marks[x])
  }

  /** From `a` to `b` nodes being marked stay as they are, and only nodes that `n` reaches
      past `avoid` have got `m`. */
  ghost predicate Repainted(g: Graph, a: seq<Marking>, b: seq<Marking>, avoid: set<nat>, n: nat, m: Marking) {
    && |a| == |b| == |g|
    && (forall x :: 0 <= x < |g| && a[x] == MARKING ==> b[x] == MARKING)
    && (forall x :: 0 <= x < |g| && b[x] != a[x] ==> b[x] == m && ReachesAvoiding(ConnectionEdges(g), avoid, n, x))
  }

  /** Every node reachable from `n` without touching `avoid` has marking `m`. */
  ghost predicate Painted(g: Graph, marks: seq<Marking>, avoid: set<nat>, n: nat, m: Marking) {
    |marks| == |g| &&
    forall x :: 0 <= x < |g| && ReachesAvoiding(ConnectionEdges(g), avoid, n, x) ==> marks[x] == m
  }

  lemma PaintedIsPainting(g: Graph, a: seq<Marking>, b: seq<Marking>, n: nat, m: Marking)
    requires |a| == |g| && Repainted(g, a, b, Marked(g, a, MARKING), n, m) && Painted(g, b, Marked(g, a, MARKING), n, m)
    ensures b == Painting(g, a, n, m)
  {
  }

  lemma RepaintedTrans(g: Graph, a: seq<Marking>, b: seq<Marking>, c: seq<Marking>, avoid: set<nat>, n: nat, y: nat,
                       m: Marking)
    requires m != MARKING && Repainted(g, a, b, avoid - {n}, n, m) && Repainted(g, b, c, avoid, y, m)
    requires Adjacent(g, n, y)
    ensures Repainted(g, a, c, avoid - {n}, n, m)
  {
    var e := ConnectionEdges(g);
    forall x | 0 <= x < |g| && c[x] != a[x] ensures c[x] == m && ReachesAvoiding(e, avoid - {n}, n, x) {
      if c[x] != b[x] {
        AvoidingLess(e, avoid, avoid - {n}, y, x);
        AvoidingPrepend(e, avoid - {n}, n, y, x);
      }
    }
  }

  lemma PaintedStays(g: Graph, b: seq<Marking>, c: seq<Marking>, avoid: set<nat>, x: nat, around: set<nat>, y: nat,
                     m: Marking)
    requires m != MARKING && Painted(g, b, avoid, x, m) && Repainted(g, b, c, around, y, m)
    ensures Painted(g, c, avoid, x, m)
  {
  }

  lemma RepaintedKeepsMarking(g: Graph, a: seq<Marking>, b: seq<Marking>, avoid: set<nat>, n: nat, m: Marking)
    requires m != MARKING && Repainted(g, a, b, avoid, n, m)
    ensures Marked(g, b, MARKING) == Marked(g, a, MARKING)
  {
  }

  /** A node that must be avoided reaches nothing. */
  lemma AvoidedIsPainted(g: Graph, marks: seq<Marking>, avoid: set<nat>, n: nat, m: Marking)
    requires |marks| == |g| && n in avoid
    ensures Painted(g, marks, avoid, n, m)
  {
  }

  /** When the neighbours of `n` are painted around `n`, so is `n` itself. */
  lemma NeighboursPainted(g: Graph, marks: seq<Marking>, avoid: set<nat>, n: nat, m: Marking)
    requires |marks| == |g| && n < |g| && marks[n] == m
    requires forall y: nat {:trigger Adjacent(g, n, y)} :: Adjacent(g, n, y) ==> Painted(g, marks, avoid + {n}, y, m)
    ensures Painted(g, marks, avoid, n, m)
  {
    var e := ConnectionEdges(g);
    forall x | 0 <= x < |g| && ReachesAvoiding(e, avoid, n, x) ensures marks[x] == m {
      if x != n {
        var y := AvoidingStep(e, avoid, n, x);
        assert Adjacent(g, n, y);
      }
    }
  }

  lemma RepaintingCompletes(g: Graph, a: seq<Marking>, b: seq<Marking>, n: nat, m: Marking)
    requires |a| == |g| == |b| && n < |g| && a[n] != MARKING && m != MARKING
    requires Repainted(g, a[n := MARKING], b, Marked(g, a, MARKING), n, m)
    ensures Repainted(g, a, b[n := m], Marked(g, a, MARKING), n, m)
  {
    AvoidingSelf(ConnectionEdges(g), Marked(g, a, MARKING), n);
  }

  lemma PaintedOne(g: Graph, b: seq<Marking>, avoid: set<nat>, n: nat, y: nat, m: Marking)
    requires n < |g| && Painted(g, b, avoid, y, m)
    ensures Painted(g, b[n := m], avoid, y, m)
  {
  }

  /** Marking `n`, painting its neighbours and painting `n` paints from `n`. */
  lemma PaintingCompletes(g: Graph, a: seq<Marking>, b: seq<Marking>, n: nat, m: Marking)
    requires |a| == |g| == |b| && n < |g| && a[n] != MARKING && m != MARKING
    requires Repainted(g, a[n := MARKING], b, Marked(g, a[n := MARKING], MARKING) - {n}, n, m)
    requires forall y: nat {:trigger Adjacent(g, n, y)} :: Adjacent(g, n, y) ==>
      Painted(g, b, Marked(g, a[n := MARKING], MARKING), y, m)
    ensures Repainted(g, a, b[n := m], Marked(g, a, MARKING), n, m)
    ensures Painted(g, b[n := m], Marked(g, a, MARKING), n, m)
    ensures b[n := m] == Painting(g, a, n, m)
  {
    hide Repainted; hide Adjacent; hide Painted; hide Painting; hide Marked;
    var avoid := Marked(g, a, MARKING);
    MarkedOne(g, a, n, MARKING);
    RepaintingCompletes(g, a, b, n, m);
    forall y: nat | Adjacent(g, n, y) ensures Painted(g, b[n := m], avoid + {n}, y, m) {
      PaintedOne(g, b, avoid + {n}, n, y, m);
    }
    NeighboursPainted(g, b[n := m], avoid, n, m);
    PaintedIsPainting(g, a, b[n := m], n, m);
  }

  /** One more neighbour of `n` has been painted. */
  lemma PaintingAdvances(g: Graph, a: seq<Marking>, b: seq<Marking>, c: seq<Marking>, n: nat, qs: seq<PortRef>, k: nat,
                         m: Marking)
    requires |a| == |g| && m != MARKING && k < |qs| && Adjacent(g, n, qs[k].node)
    requires Repainted(g, a, b, Marked(g, a, MARKING) - {n}, n, m)
    requires Repainted(g, b, c, Marked(g, a, MARKING), qs[k].node, m)
    requires Painted(g, c, Marked(g, a, MARKING), qs[k].node, m)
    requires forall j :: 0 <= j < k ==> Painted(g, b, Marked(g, a, MARKING), qs[j].node, m)
    ensures Repainted(g, a, c, Marked(g, a, MARKING) - {n}, n, m)
    ensures forall j :: 0 <= j < k + 1 ==> Painted(g, c, Marked(g, a, MARKING), qs[j].node, m)
  {
    RepaintedTrans(g, a, b, c, Marked(g, a, MARKING), n, qs[k].node, m);
    forall j | 0 <= j < k ensures Painted(g, c, Marked(g, a, MARKING), qs[j].node, m) {
      PaintedStays(g, b, c, Marked(g, a, MARKING), qs[j].node, Marked(g, a, MARKING), qs[k].node, m);
    }
  }

  /** Marking gives the whole component the mark if and only if none of its nodes is being
      marked already; nodes outside the component keep their marks in any case. */
  lemma MarksComponentIff(g: Graph, marks: seq<Marking>, n: nat, m: Marking)
    requires |marks| == |g| && n < |g| && m != MARKING
    ensures (forall x :: x in Component(g, n) ==> x < |g| && Painting(g, marks, n, m)[x] == m) <==>
      Marked(g, marks, MARKING) !! Component(g, n)
    ensures forall x :: 0 <= x < |g| && x !in Component(g, n) ==> Painting(g, marks, n, m)[x] == marks[x]
    ensures Marked(g, Painting(g, marks, n, m), MARKING) == Marked(g, marks, MARKING)
  {
    var e := ConnectionEdges(g);
    var avoid := Marked(g, marks, MARKING);
    forall x: nat | x < |g| && ReachesAvoiding(e, avoid, n, x) ensures x in Component(g, n) && x !in avoid {
      AvoidingReaches(e, avoid, n, x);
    }
    if avoid !! Component(g, n) {
      forall x | x in Component(g, n) ensures ReachesAvoiding(e, avoid, n, x) {
        ComponentAvoids(g, e, avoid, n, x);
      }
    }
    if forall x :: x in Component(g, n) ==> x < |g| && Painting(g, marks, n, m)[x] == m {
      forall x | x in Component(g, n) ensures x !in avoid {
        assert Painting(g, marks, n, m)[x] == m;
      }
    }
  }

  /** Avoiding nodes outside the component costs nothing. */
  lemma ComponentAvoids(g: Graph, e: Edges, avoid: set<nat>, n: nat, x: nat)
    requires Reaches(e, n, x) && avoid !! Component(g, n)
    requires forall y: nat :: y in avoid && Reaches(e, n, y) ==> y in Component(g, n)
    ensures ReachesAvoiding(e, avoid, n, x)
  {
    forall y: nat | y in avoid ensures !Reaches(e, n, y) {
    }
    AvoidingNothing(e, avoid, n, x);
  }

  // ----- Visiting each node once -----

  /** A walk that stops at nodes in `seen` has gone from `seen` to `now`: every new
      node is reachable from `n`, and all its successors have been seen. */
  ghost predicate Explored(e: Edges, seen: set<nat>, now: set<nat>, n: nat) {
    && seen <= now
    && (forall x :: x in now && x !in seen ==> ReachesAvoiding(e, seen, n, x))
    && (forall x: nat, y: nat :: x in now && x !in seen && e(x, y) ==> y in now)
  }

  /** The same while the successors of `n` itself are still being visited. */
  ghost predicate Exploring(e: Edges, seen: set<nat>, now: set<nat>, n: nat) {
    && seen <= now && n in now && n !in seen
    && (forall x :: x in now && x !in seen ==> ReachesAvoiding(e, seen, n, x))
    && (forall x: nat, y: nat :: x in now && x !in seen && x != n && e(x, y) ==> y in now)
  }

  lemma ExploringStarts(e: Edges, seen: set<nat>, n: nat)
    requires n !in seen
    ensures Exploring(e, seen, seen + {n}, n)
  {
    AvoidingSelf(e, seen, n);
  }

  lemma ExploringStep(e: Edges, seen: set<nat>, mid: set<nat>, now: set<nat>, n: nat, y: nat)
    requires Exploring(e, seen, mid, n) && Explored(e, mid, now, y) && e(n, y)
    ensures Exploring(e, seen, now, n)
  {
    forall x | x in now && x !in seen ensures ReachesAvoiding(e, seen, n, x) {
      if x !in mid {
        AvoidingLess(e, mid, seen, y, x);
        AvoidingPrepend(e, seen, n, y, x);
      }
    }
  }

  lemma ExploringEnds(e: Edges, seen: set<nat>, now: set<nat>, n: nat)
    requires Exploring(e, seen, now, n) && forall y: nat :: e(n, y) ==> y in now
    ensures Explored(e, seen, now, n)
  {
  }

  /** A search that comes to a node seen before changes nothing. */
  lemma SeenAlready(g: Graph, s: State, e: Edges, seen: set<nat>, l: seq<nat>, n: nat)
    requires RefsExist(g) && Shaped(g, s) && Distinct(l) && n in seen
    ensures Explored(e, seen, seen, n) && RootsAdded(g, s, l, l, seen - seen)
  {
  }

  /** A search that has entered a node and then explored all that follows it. */
  lemma SearchedAround(g: Graph, s: State, e: Edges, seen: set<nat>, now: set<nat>, a: seq<nat>, first: seq<nat>,
                       l: seq<nat>, n: nat)
    requires Exploring(e, seen, now, n) && forall y: nat :: e(n, y) ==> y in now
    requires RootsAdded(g, s, a, first, {n}) && RootsAdded(g, s, first, l, now - (seen + {n}))
    ensures Explored(e, seen, now, n) && RootsAdded(g, s, a, l, now - seen)
  {
    ExploringEnds(e, seen, now, n);
    RootsAddedTwice(g, s, a, first, l, {n}, now - (seen + {n}));
    assert now - seen == {n} + (now - (seen + {n}));
  }

  /** Exactly the nodes that are reached without touching nodes seen before are new. */
  lemma ExploredExactly(e: Edges, seen: set<nat>, now: set<nat>, n: nat)
    requires Explored(e, seen, now, n) && n in now
    ensures forall x: nat :: x in now && x !in seen <==> ReachesAvoiding(e, seen, n, x)
  {
    forall x: nat | ReachesAvoiding(e, seen, n, x) ensures x in now && x !in seen {
      var p :| WalkFromTo(e, p, n, x) && forall i :: 0 <= i < |p| ==> p[i] !in seen;
      assert p[0] !in seen && p[|p| - 1] !in seen;
      ClosedContainsAvoiding(e, seen, now - seen, p);
    }
  }

  /** What such a walk does to the markings: all nodes that `n` reaches past nodes with
      `m` get it too. */
  ghost function Visiting(g: Graph, e: Edges, marks: seq<Marking>, n: nat, m: Marking): (r: seq<Marking>)
    requires |marks| == |g|
    ensures |r| == |g|
  {
    seq(|g|, x requires 0 <= x < |g| => if ReachesAvoiding(e, Marked(g, marks, m), n, x) then m else marks[x])
  }

  lemma ExploredIsVisiting(g: Graph, e: Edges, a: seq<Marking>, b: seq<Marking>, n: nat, m: Marking)
    requires |a| == |g| && Touched(a, b, m) && Explored(e, Marked(g, a, m), Marked(g, b, m), n) && n in Marked(g, b, m)
    ensures b == Visiting(g, e, a, n, m)
  {
    ExploredExactly(e, Marked(g, a, m), Marked(g, b, m), n);
    forall x | 0 <= x < |g| ensures b[x] == Visiting(g, e, a, n, m)[x] {
      assert x in Marked(g, b, m) <==> b[x] == m;
      assert x in Marked(g, a, m) <==> a[x] == m;
    }
  }

  // ----- Which nodes a component's reset covers -----

  /** Nodes that look as if they had been reset already, and are not reached by the
      marking that precedes the reset. */
  ghost function Stuck(g: Graph, marks: seq<Marking>, n: nat): set<nat>
    requires |marks| == |g|
  {
    set x | x in AllNodes(g) && marks[x] == RESET &&
      !ReachesAvoiding(ConnectionEdges(g), Marked(g, marks, MARKING), n, x)
  }

  /** The nodes that are reset: all that are reached past stuck nodes. */
  ghost function ResetSet(g: Graph, marks: seq<Marking>, n: nat): set<nat>
    requires |marks| == |g|
  {
    set x | x in AllNodes(g) && ReachesAvoiding(ConnectionEdges(g), Stuck(g, marks, n), n, x)
  }

  /** The markings once the component of `n` has been marked and reset. */
  ghost function AfterReset(g: Graph, marks: seq<Marking>, n: nat): (r: seq<Marking>)
    requires |marks| == |g|
    ensures |r| == |g|
  {
    Visiting(g, ConnectionEdges(g), Painting(g, marks, n, NONE), n, RESET)
  }

  /** Nodes that the search for roots takes for visited before it starts. */
  ghost function SeenBefore(g: Graph, marks: seq<Marking>, n: nat): set<nat>
    requires |marks| == |g|
  {
    Marked(g, Painting(g, marks, n, NONE), FIND_ROOTS)
  }

  lemma StuckIs(g: Graph, marks: seq<Marking>, n: nat)
    requires |marks| == |g| && n < |g|
    ensures Marked(g, Painting(g, marks, n, NONE), RESET) == Stuck(g, marks, n)
    ensures n !in Stuck(g, marks, n) && n in ResetSet(g, marks, n)
  {
    var e := ConnectionEdges(g);
    if marks[n] == RESET {
      AvoidingSelf(e, Marked(g, marks, MARKING), n);
    }
    AvoidingSelf(e, Stuck(g, marks, n), n);
  }

  /** No node of the component is stuck: each that is marked as reset can be reached
      past nodes marked as being marked. */
  ghost predicate Unstuck(g: Graph, marks: seq<Marking>, n: nat)
    requires |marks| == |g|
  {
    Stuck(g, marks, n) !! Component(g, n)
  }

  /** The reset covers the component if and only if none of its nodes is stuck. */
  lemma ResetsComponentIff(g: Graph, marks: seq<Marking>, n: nat)
    requires |marks| == |g| && n < |g|
    ensures ResetSet(g, marks, n) == Component(g, n) <==> Unstuck(g, marks, n)
    ensures ResetSet(g, marks, n) <= Component(g, n)
  {
    var e := ConnectionEdges(g);
    var avoid := Stuck(g, marks, n);
    forall x: nat | x < |g| && ReachesAvoiding(e, avoid, n, x) ensures x in Component(g, n) && x !in avoid {
      AvoidingReaches(e, avoid, n, x);
    }
    if avoid !! Component(g, n) {
      forall x | x in Component(g, n) ensures x in ResetSet(g, marks, n) {
        ComponentAvoids(g, e, avoid, n, x);
      }
    }
  }

  /** What the scheduler itself leaves behind never makes a node stuck. */
  lemma QuietIsUnstuck(g: Graph, marks: seq<Marking>, n: nat)
    requires |marks| == |g| && Quiet(marks) && n < |g|
    ensures Unstuck(g, marks, n)
  {
    var e := ConnectionEdges(g);
    assert Marked(g, marks, MARKING) == {};
    forall x | x in Component(g, n) ensures x !in Stuck(g, marks, n) {
      AvoidingNothing(e, {}, n, x);
    }
  }

  lemma AfterResetQuiet(g: Graph, marks: seq<Marking>, n: nat)
    requires |marks| == |g|
    ensures Quiet(marks) ==> Quiet(AfterReset(g, marks, n))
  {
  }

  /** After the reset of a component without stuck nodes, the search for roots starts
      without any of its nodes visited. */
  lemma ResetIsNotSeen(g: Graph, marks: seq<Marking>, n: nat)
    requires |marks| == |g| && n < |g| && Unstuck(g, marks, n)
    ensures SeenBefore(g, AfterReset(g, marks, n), n) !! Component(g, n)
  {
    ResetsComponentIff(g, marks, n);
    StuckIs(g, marks, n);
    var after := AfterReset(g, marks, n);
    forall x | x in Component(g, n) ensures after[x] == RESET {
      assert x in ResetSet(g, marks, n);
    }
  }

  // ----- Looking for roots -----

  /** The search at node `n` has gone from `first` and `l0` to `now` and `l`. */
  ghost predicate Searching(g: Graph, base: State, e: Edges, seen: set<nat>, first: set<nat>, l0: seq<nat>,
                            now: set<nat>, l: seq<nat>, n: nat) {
    Exploring(e, seen, now, n) && first <= now && Elems(l) <= now && RootsAdded(g, base, l0, l, now - first)
  }

  lemma SearchStarts(g: Graph, base: State, e: Edges, seen: set<nat>, now: set<nat>, l: seq<nat>, n: nat)
    requires RefsExist(g) && Shaped(g, base) && Exploring(e, seen, now, n) && Distinct(l) && Elems(l) <= now
    ensures Searching(g, base, e, seen, now, l, now, l, n)
  {
    hide IsRoot;
    assert now - now == {};
  }

  lemma SearchEnds(g: Graph, base: State, e: Edges, seen: set<nat>, first: set<nat>, l0: seq<nat>, now: set<nat>,
                   l: seq<nat>, n: nat)
    requires Searching(g, base, e, seen, first, l0, now, l, n)
    ensures Distinct(l) && Elems(l) <= now
  {
  }

  lemma SearchStep(g: Graph, base: State, e: Edges, seen: set<nat>, first: set<nat>, l0: seq<nat>,
      mid: set<nat>, midList: seq<nat>, now: set<nat>, l: seq<nat>, n: nat, y: nat)
    requires Searching(g, base, e, seen, first, l0, mid, midList, n) && e(n, y)
    requires Explored(e, mid, now, y) && Elems(l) <= now && RootsAdded(g, base, midList, l, now - mid)
    ensures mid <= now && Searching(g, base, e, seen, first, l0, now, l, n)
  {
    ExploringStep(e, seen, mid, now, n, y);
    RootsAddedTwice(g, base, l0, midList, l, mid - first, now - mid);
    assert now - first == (mid - first) + (now - mid);
  }

  lemma SearchMore(g: Graph, base: State, e: Edges, seen: set<nat>, first: set<nat>, l0: seq<nat>,
      mid: set<nat>, midList: seq<nat>, now: set<nat>, l: seq<nat>, n: nat)
    requires Searching(g, base, e, seen, first, l0, mid, midList, n)
    requires Exploring(e, seen, now, n) && mid <= now && Elems(l) <= now && RootsAdded(g, base, midList, l, now - mid)
    ensures Searching(g, base, e, seen, first, l0, now, l, n)
  {
    RootsAddedTwice(g, base, l0, midList, l, mid - first, now - mid);
    assert now - first == (mid - first) + (now - mid);
  }

  lemma RootsAddedOne(g: Graph, s: State, l: seq<nat>, n: nat, root: bool)
    requires RefsExist(g) && Shaped(g, s) && Distinct(l) && n !in l && n < |g| && root == IsRoot(g, s, n)
    ensures RootsAdded(g, s, l, if root then [n] + l else l, {n})
    ensures Elems(if root then [n] + l else l) <= Elems(l) + {n}
  {
    DistinctCons(n, l);
  }

  // ----- Resetting -----

  /** The reset at node `n` has gone from `first` and `a` to `now` and `b`. */
  ghost predicate Resetting(e: Edges, seen: set<nat>, first: set<nat>, a: State, now: set<nat>, b: State, n: nat) {
    Exploring(e, seen, now, n) && first <= now && ResetExactly(a, b, now - first)
  }

  /** A node has been reset, and then what is reachable from it. */
  lemma ResetDone(e: Edges, seen: set<nat>, now: set<nat>, a: State, b: State, c: State, n: nat)
    requires ResetExactly(a, b, {n}) && ResetExactly(b, c, now - (seen + {n})) && n !in seen && n in now
    requires Exploring(e, seen, now, n) && forall y: nat :: e(n, y) ==> y in now
    ensures Explored(e, seen, now, n) && ResetExactly(a, c, now - seen)
  {
    ExploringEnds(e, seen, now, n);
    ResetTwice(a, b, c, {n}, now - (seen + {n}));
    assert now - seen == {n} + (now - (seen + {n}));
  }

  lemma ResettingStarts(e: Edges, seen: set<nat>, now: set<nat>, a: State, n: nat)
    requires Exploring(e, seen, now, n) && |a.neg| == |a.prop| == |a.deps|
    ensures Resetting(e, seen, now, a, now, a, n)
  {
    assert now - now == {};
  }

  lemma ResettingJoins(e: Edges, seen: set<nat>, first: set<nat>, a: State, mid: set<nat>, b: State, now: set<nat>,
                       c: State, n: nat)
    requires Resetting(e, seen, first, a, mid, b, n)
    requires Exploring(e, seen, now, n) && mid <= now && ResetExactly(b, c, now - mid)
    ensures Resetting(e, seen, first, a, now, c, n)
  {
    ResetTwice(a, b, c, mid - first, now - mid);
    assert now - first == (mid - first) + (now - mid);
  }

  lemma ResettingStep(e: Edges, seen: set<nat>, first: set<nat>, a: State, mid: set<nat>, b: State, now: set<nat>,
                      c: State, n: nat, y: nat)
    requires Resetting(e, seen, first, a, mid, b, n) && e(n, y)
    requires Explored(e, mid, now, y) && ResetExactly(b, c, now - mid)
    ensures mid <= now && Resetting(e, seen, first, a, now, c, n)
  {
    ExploringStep(e, seen, mid, now, n, y);
    ResettingJoins(e, seen, first, a, mid, b, now, c, n);
  }
}
