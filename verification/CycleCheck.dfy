/** Connecting ports, and the search for directed cycles that precedes it: a
    three-colour depth-first search with one hypothetical extra connection and at
    most one connection that is ignored. */
module CycleCheck {
  import opened Wrappers
  import opened Digraph
  import opened DataflowGraph

  /** A directed connection between two ports. */
  datatype Leg = Leg(src: PortRef, dst: PortRef)

  /** The meaning that the search gives to the markings of nodes. */
  const UNMARKED: Marking := 0
  const MARKED: Marking := 1
  const VISITED: Marking := 2

  /** The connections the search takes into account. */
  ghost predicate Considered(g: Graph, extra: Leg, ignore: Option<Leg>, l: Leg) {
    l == extra || (Connected(g, l.src, l.dst) && At(g, l.src).ptype.dir == Out && ignore != Some(l))
  }

  ghost predicate Joins(g: Graph, extra: Leg, ignore: Option<Leg>, a: nat, b: nat) {
    exists l :: Considered(g, extra, ignore, l) && l.src.node == a && l.dst.node == b
  }

  ghost function SearchEdges(g: Graph, extra: Leg, ignore: Option<Leg>): Edges {
    (a: nat, b: nat) => Joins(g, extra, ignore, a, b)
  }

  // ----- Cycles as lists of connections in reverse order -----

  /** Each leg ends where the leg before it in the list starts. */
  ghost predicate ReverseJoined(path: seq<Leg>) {
    forall i, j :: 0 <= i < j == i + 1 < |path| ==> path[j].dst.node == path[i].src.node
  }

  ghost predicate DistinctSources(path: seq<Leg>) {
    forall i, j :: 0 <= i < j < |path| ==> path[i].src.node != path[j].src.node
  }

  /** am_dfg_revpath_ends_closed. */
  predicate EndsClosed(path: seq<Leg>) {
    path != [] && path[0].dst.node == path[|path| - 1].src.node
  }

  /** A cycle that visits no node twice, given in reverse order. */
  ghost predicate SimpleCycle(g: Graph, extra: Leg, ignore: Option<Leg>, path: seq<Leg>) {
    && (forall l :: l in path ==> Considered(g, extra, ignore, l))
    && ReverseJoined(path) && DistinctSources(path) && EndsClosed(path)
  }

  lemma {:induction false} PathReaches(g: Graph, extra: Leg, ignore: Option<Leg>, path: seq<Leg>)
    requires path != [] && ReverseJoined(path)
    requires forall l :: l in path ==> Considered(g, extra, ignore, l)
    ensures var e := SearchEdges(g, extra, ignore);
      exists w :: WalkFromTo(e, w, path[|path| - 1].src.node, path[0].dst.node) && |w| >= 2
  {
    var e := SearchEdges(g, extra, ignore);
    var last := path[|path| - 1];
    assert last in path;
    assert Joins(g, extra, ignore, last.src.node, last.dst.node);
    assert WalkFromTo(e, [last.src.node, last.dst.node], last.src.node, last.dst.node);
    if |path| > 1 {
      var front := path[..|path| - 1];
      assert forall l :: l in front ==> l in path;
      PathReaches(g, extra, ignore, front);
      var w :| WalkFromTo(e, w, front[|front| - 1].src.node, path[0].dst.node) && |w| >= 2;
      assert last.dst.node == path[|path| - 2].src.node;
      WalkConcat(e, [last.src.node, last.dst.node], w);
    }
  }

  lemma SimpleCycleIsCycle(g: Graph, extra: Leg, ignore: Option<Leg>, path: seq<Leg>)
    requires SimpleCycle(g, extra, ignore, path)
    ensures Cyclic(SearchEdges(g, extra, ignore))
  {
    PathReaches(g, extra, ignore, path);
    var w :| WalkFromTo(SearchEdges(g, extra, ignore), w, path[|path| - 1].src.node, path[0].dst.node) && |w| >= 2;
    CycleWitness(SearchEdges(g, extra, ignore), path[0].dst.node, w);
  }

  /** A path that leads from node `n` to a node of `stack` through nodes that are
      not on the stack; the empty path if `n` is on the stack itself. */
  ghost predicate OpenPath(g: Graph, extra: Leg, ignore: Option<Leg>, path: seq<Leg>, n: nat, stack: seq<nat>) {
    && (forall l :: l in path ==> Considered(g, extra, ignore, l))
    && ReverseJoined(path) && DistinctSources(path)
    && (forall l :: l in path ==> l.src.node !in stack)
    && (if path == [] then n in stack else path[0].dst.node in stack && path[|path| - 1].src.node == n)
  }

  /** Prolonging an open path by the leg that led to its first node. */
  lemma OpenPathGrows(g: Graph, extra: Leg, ignore: Option<Leg>, path: seq<Leg>, l: Leg, stack: seq<nat>)
    requires OpenPath(g, extra, ignore, path, l.dst.node, stack + [l.src.node]) && l.src.node !in stack
    requires Considered(g, extra, ignore, l)
    ensures if EndsClosed(path + [l]) then SimpleCycle(g, extra, ignore, path + [l])
      else OpenPath(g, extra, ignore, path + [l], l.src.node, stack)
  {
    var longer := path + [l];
    var m := l.src.node;
    assert m in stack + [m];
    forall i, j | 0 <= i < j == i + 1 < |longer| ensures longer[j].dst.node == longer[i].src.node {
    }
    forall i, j | 0 <= i < j < |longer| ensures longer[i].src.node != longer[j].src.node {
      if j == |path| { assert path[i] in path; }
    }
    forall x | x in longer ensures Considered(g, extra, ignore, x) && x.src.node !in stack {
      if x in path { assert x.src.node !in stack + [m]; }
    }
    assert longer[0].dst.node in stack + [m];
  }

  // ----- Finished nodes -----

  /** `finished` lists nodes so that every edge leads to an earlier one. */
  ghost predicate Settled(e: Edges, finished: seq<nat>) {
    forall k: nat, y: nat :: k < |finished| && e(finished[k], y) ==> y in finished[..k]
  }

  lemma SettledSuccessor(e: Edges, finished: seq<nat>, a: nat, b: nat)
    requires Settled(e, finished) && a in finished && e(a, b)
    ensures b in finished
  {
    var k :| 0 <= k < |finished| && finished[k] == a;
    assert b in finished[..k];
  }

  lemma SettledAppend(e: Edges, finished: seq<nat>, n: nat)
    requires Settled(e, finished) && forall y: nat :: e(n, y) ==> y in finished
    ensures Settled(e, finished + [n])
  {
    var f := finished + [n];
    forall k: nat, y: nat | k < |f| && e(f[k], y) ensures y in f[..k] {
      if k < |finished| {
        assert f[..k] == finished[..k];
      } else {
        assert f[..k] == finished;
      }
    }
  }

  ghost function FirstIndex(s: seq<nat>, x: nat): (k: nat)
    ensures k <= |s| && (k < |s| ==> s[k] == x) && x !in s[..k] && (x in s ==> k < |s|)
  {
    if s == [] then 0 else if s[0] == x then 0 else
    assert s == [s[0]] + s[1..];
    1 + FirstIndex(s[1..], x)
  }

  lemma SettledIsAcyclic(e: Edges, finished: seq<nat>)
    requires Settled(e, finished) && forall a: nat, b: nat :: e(a, b) ==> a in finished
    ensures !Cyclic(e)
  {
    var rank := (x: nat) => FirstIndex(finished, x) as int;
    forall a: nat, b: nat | e(a, b) ensures rank(b) < rank(a) {
      var k := FirstIndex(finished, a);
      assert b in finished[..k];
    }
    RankedIsAcyclic(e, rank);
  }

  /** The colours agree with the recursion stack and the list of finished nodes. */
  ghost predicate Coloured(g: Graph, marking: seq<Marking>, stack: seq<nat>, finished: seq<nat>) {
    && |marking| == |g|
    && Distinct(stack)
    && (forall x :: x in stack ==> x < |g|) && (forall x :: x in finished ==> x < |g|)
    && (forall x :: 0 <= x < |g| ==> (marking[x] == MARKED <==> x in stack))
    && (forall x :: 0 <= x < |g| ==> (marking[x] == VISITED <==> x in finished))
    && (forall x :: 0 <= x < |g| ==> marking[x] == UNMARKED || x in stack || x in finished)
  }

  ghost function Uncoloured(g: Graph, marking: seq<Marking>): set<nat>
    requires |marking| == |g|
  {
    set x | x in AllNodes(g) && marking[x] == UNMARKED
  }

  // ----- Where a search stops -----

  /** A walk that continues to one of its own nodes. */
  ghost predicate LoopsBack(e: Edges, w: seq<nat>) {
    Walk(e, w) && exists y: nat :: y in w && e(w[|w| - 1], y)
  }

  lemma LoopsBackIsCycle(e: Edges, w: seq<nat>)
    requires LoopsBack(e, w)
    ensures exists c: nat :: Reaches(e, w[0], c) && OnCycle(e, c)
  {
    var y: nat :| y in w && e(w[|w| - 1], y);
    var j :| 0 <= j < |w| && w[j] == y;
    WalkSlice(e, w, 0, j + 1);
    WalkSlice(e, w, j, |w|);
    WalkConcat(e, w[j..], [w[|w| - 1], y]);
    CycleWitness(e, y, w[j..] + [w[|w| - 1], y][1..]);
    assert Reaches(e, w[0], y);
  }

  lemma WalkPush(e: Edges, stack: seq<nat>, n: nat)
    requires stack == [] || (Walk(e, stack) && e(stack[|stack| - 1], n))
    ensures Walk(e, stack + [n])
  {
    var w := stack + [n];
    forall i | 0 <= i < |w| - 1 ensures e(w[i], w[i + 1]) {
      if i < |stack| - 1 { assert e(stack[i], stack[i + 1]); }
    }
  }

  /** Some node that is taken for a root leads to a cycle. */
  ghost predicate RootReachesCycle(g: Graph, extra: Leg, ignore: Option<Leg>) {
    exists n: nat, c: nat :: n < |g| && LooseRoot(g, ignore, n) &&
      Reaches(SearchEdges(g, extra, ignore), n, c) && OnCycle(SearchEdges(g, extra, ignore), c)
  }

  /** Nodes that are finished do not lead to cycles. */
  lemma FinishedReachesNoCycle(e: Edges, finished: seq<nat>, n: nat, c: nat)
    requires Settled(e, finished) && n in finished && Reaches(e, n, c)
    ensures !OnCycle(e, c)
  {
    var all := Elems(finished);
    forall x: nat, y: nat | x in all && e(x, y) ensures y in all {
      SettledSuccessor(e, finished, x, y);
    }
    var p :| WalkFromTo(e, p, n, c);
    ClosedContainsReachable(e, all, p);
    forall w | WalkFromTo(e, w, c, c) ensures |w| < 2 {
      if |w| >= 2 {
        var f := (a: nat, b: nat) => e(a, b) && a in all;
        forall i | 0 <= i < |w| - 1 ensures f(w[i], w[i + 1]) {
          WalkSlice(e, w, 0, i + 1);
          ClosedContainsReachable(e, all, w[0..i + 1]);
        }
        CycleWitness(f, c, w);
        assert Settled(f, finished);
        SettledIsAcyclic(f, finished);
      }
    }
  }

  /** What the search leaves in the markings. Nodes with `VISITED` are those in `finished`,
      and lead to no cycle. If the search stopped on a cycle, the nodes on its stack keep
      `MARKED`; they lead from a node taken for a root to one of themselves. Otherwise all
      nodes taken for roots are finished. */
  ghost predicate CheckLeaves(g: Graph, extra: Leg, ignore: Option<Leg>, found: bool,
                              marking: seq<Marking>, stack: seq<nat>, finished: seq<nat>) {
    var e := SearchEdges(g, extra, ignore);
    && Coloured(g, marking, stack, finished) && Settled(e, finished)
    && (!found ==> stack == [] && forall n: nat :: n < |g| ==> n in finished)
    && (stack != [] ==> LoopsBack(e, stack) && LooseRoot(g, ignore, stack[0]))
    && (forall n: nat :: n < (if stack == [] then |g| else stack[0]) && n < |g| && LooseRoot(g, ignore, n) ==>
      n in finished)
  }

  /** All successors of a node are finished once the destinations of its legs are. */
  lemma SuccessorsFinished(g: Graph, extra: Leg, ignore: Option<Leg>, n: nat, finished: seq<nat>)
    requires n == extra.src.node ==> extra.dst.node in finished
    requires forall l :: Considered(g, extra, ignore, l) && l != extra && l.src.node == n ==> l.dst.node in finished
    ensures forall y: nat :: SearchEdges(g, extra, ignore)(n, y) ==> y in finished
  {
  }

  class CycleSearch {
    const g: Graph
    const extra: Leg
    const ignore: Option<Leg>
    /** Whether the caller asked for the connections of the cycle. */
    const wanted: bool
    var marking: seq<Marking>
    var path: seq<Leg>
    var addToCycle: bool
    /** The legs the search appends if it is asked for them, and whether it still
        does; finished nodes in the order in which they were finished. */
    ghost var legs: seq<Leg>
    ghost var open: bool
    ghost var finished: seq<nat>
    /** The recursion stack at the moment at which a cycle is found. */
    ghost var trail: seq<nat>

    ghost predicate Valid(stack: seq<nat>)
      reads this
    {
      && WellFormed(g) && HasPort(g, extra.src) && HasPort(g, extra.dst)
      && Coloured(g, marking, stack, finished)
      && Settled(SearchEdges(g, extra, ignore), finished)
      && (stack == [] || Walk(SearchEdges(g, extra, ignore), stack))
      && legs == [] && open && Recorded()
    }

    /** The search has stopped on a cycle, deeper than or at the top of `stack`. */
    ghost predicate Stopped(stack: seq<nat>)
      reads this
    {
      && stack <= trail && Coloured(g, marking, trail, finished)
      && Settled(SearchEdges(g, extra, ignore), finished) && LoopsBack(SearchEdges(g, extra, ignore), trail)
      && (forall l :: l in legs ==> l.src.node in trail)
    }

    ghost predicate Recorded()
      reads this
    {
      if wanted then path == legs && addToCycle == open else path == []
    }

    /** The outcome of a successful search below node `n`. */
    ghost predicate Found(n: nat, stack: seq<nat>)
      reads this
    {
      && Recorded() && Stopped(stack)
      && (if open then OpenPath(g, extra, ignore, legs, n, stack) else SimpleCycle(g, extra, ignore, legs))
    }

    constructor (g: Graph, extra: Leg, ignore: Option<Leg>, wanted: bool)
      requires WellFormed(g) && HasPort(g, extra.src) && HasPort(g, extra.dst)
      ensures this.g == g && this.extra == extra && this.ignore == ignore && this.wanted == wanted
      ensures Valid([]) && finished == []
    {
      this.g := g;
      this.extra := extra;
      this.ignore := ignore;
      this.wanted := wanted;
      marking := seq(|g|, n => UNMARKED);
      path := [];
      addToCycle := true;
      legs := [];
      open := true;
      finished := [];
      trail := [];
    }

    /** Appends a leg if the cycle is wanted and not closed yet. */
    method AppendLeg(l: Leg, ghost stack: seq<nat>)
      requires Found(l.dst.node, stack + [l.src.node]) && l.src.node !in stack && Considered(g, extra, ignore, l)
      modifies `path, `addToCycle, `legs, `open
      ensures Found(l.src.node, stack) && stack + [l.src.node] <= trail
    {
      hide SimpleCycle; hide Coloured; hide Settled; hide LoopsBack; hide WellFormed; hide Considered;
      hide ReverseJoined; hide DistinctSources;
      assert (stack + [l.src.node])[|stack|] == l.src.node;
      assert l.src.node in trail;
      if open {
        OpenPathGrows(g, extra, ignore, legs, l, stack);
        legs := legs + [l];
        open := !EndsClosed(legs);
      }
      if wanted && addToCycle {
        path := path + [l];
        if EndsClosed(path) {
          addToCycle := false;
        }
      }
    }

    /** The search leaves no other markings than its own. */
    lemma MarkOf(n: nat, stack: seq<nat>)
      requires Valid(stack) && n < |g|
      ensures |marking| == |g| && (marking[n] == UNMARKED || marking[n] == MARKED || marking[n] == VISITED)
      ensures marking[n] == VISITED ==> n in finished
    {
    }

    /** The search has come back to a node on the stack. */
    lemma MetOnStack(n: nat, stack: seq<nat>)
      requires Valid(stack) && n < |g| && marking[n] == MARKED
      requires stack != [] ==> SearchEdges(g, extra, ignore)(stack[|stack| - 1], n)
      ensures n in stack && LoopsBack(SearchEdges(g, extra, ignore), stack)
      ensures OpenPath(g, extra, ignore, legs, n, stack)
    {
      hide WellFormed; hide Settled;
      assert n in stack;
    }

    /** Marks a node as being on the stack. */
    method Enter(n: nat, ghost stack: seq<nat>)
      requires Valid(stack) && n < |g| && marking[n] == UNMARKED
      requires stack != [] ==> SearchEdges(g, extra, ignore)(stack[|stack| - 1], n)
      modifies `marking
      ensures Valid(stack + [n]) && n !in stack && marking == old(marking)[n := MARKED]
      ensures Uncoloured(g, marking) < Uncoloured(g, old(marking))
    {
      WalkPush(SearchEdges(g, extra, ignore), stack, n);
      assert n in Uncoloured(g, marking);
      StackPush(marking, stack, n, finished);
      marking := marking[n := MARKED];
      assert n !in Uncoloured(g, marking) && Uncoloured(g, marking) <= Uncoloured(g, old(marking));
    }

    /** am_dfg_graph_has_cycle_rec. `stack` holds the nodes on the recursion stack. */
    method Search(n: nat, ghost stack: seq<nat>) returns (r: bool)
      requires Valid(stack) && n < |g|
      requires stack != [] ==> SearchEdges(g, extra, ignore)(stack[|stack| - 1], n)
      modifies `marking, `path, `addToCycle, `legs, `open, `finished, `trail
      ensures old(finished) <= finished && (!r ==> Valid(stack) && n in finished)
      ensures !r ==> Uncoloured(g, marking) <= Uncoloured(g, old(marking))
      ensures r ==> Found(n, stack) && (n !in stack ==> stack + [n] <= trail)
      decreases Uncoloured(g, marking), 1
    {
      hide Settled; hide OpenPath; hide SimpleCycle; hide Coloured; hide WellFormed; hide LoopsBack; hide SearchEdges;
      MarkOf(n, stack);
      if marking[n] == VISITED {
        return false;
      }
      if marking[n] == MARKED {
        MetOnStack(n, stack);
        trail := stack;
        return true;
      }
      Enter(n, stack);
      var found := SearchExtra(n, stack);
      if found {
        return true;
      }
      found := SearchOutputs(n, stack);
      if found {
        return true;
      }
      SuccessorsFinished(g, extra, ignore, n, finished);
      Finish(n, stack);
      return false;
    }

    /** The extra connection, if it starts at `n`. */
    method SearchExtra(n: nat, ghost stack: seq<nat>) returns (r: bool)
      requires Valid(stack + [n]) && n < |g| && n !in stack
      modifies `marking, `path, `addToCycle, `legs, `open, `finished, `trail
      ensures old(finished) <= finished && (!r ==> Valid(stack + [n]))
      ensures !r ==> Uncoloured(g, marking) <= Uncoloured(g, old(marking))
      ensures !r ==> n == extra.src.node ==> extra.dst.node in finished
      ensures r ==> Found(n, stack) && stack + [n] <= trail
      decreases Uncoloured(g, marking), 3
    {
      hide Settled; hide OpenPath; hide SimpleCycle; hide Coloured; hide WellFormed; hide LoopsBack;
      if n != extra.src.node {
        return false;
      }
      assert Considered(g, extra, ignore, extra);
      r := Search(extra.dst.node, stack + [n]);
      if r {
        AppendLeg(extra, stack);
      }
    }

    /** Marks a node as visited once all its successors are. */
    method Finish(n: nat, ghost stack: seq<nat>)
      requires Valid(stack + [n]) && n < |g|
      requires forall y: nat :: SearchEdges(g, extra, ignore)(n, y) ==> y in finished
      modifies `marking, `finished
      ensures Valid(stack) && finished == old(finished) + [n] && Uncoloured(g, marking) <= Uncoloured(g, old(marking))
    {
      StackPop(marking, stack, n, finished);
      assert stack != [] ==> (stack + [n])[..|stack|] == stack;
      SettledAppend(SearchEdges(g, extra, ignore), finished, n);
      marking := marking[n := VISITED];
      finished := finished + [n];
    }

    lemma StackPush(m: seq<Marking>, stack: seq<nat>, n: nat, finished: seq<nat>)
      requires Coloured(g, m, stack, finished) && n < |g| && m[n] == UNMARKED
      ensures Coloured(g, m[n := MARKED], stack + [n], finished) && n !in stack
    {
    }

    lemma StackPop(m: seq<Marking>, stack: seq<nat>, n: nat, finished: seq<nat>)
      requires Coloured(g, m, stack + [n], finished) && n < |g|
      ensures Coloured(g, m[n := VISITED], stack, finished + [n])
    {
      var longer := stack + [n];
      assert forall x :: x in longer <==> x in stack || x == n;
      assert forall i :: 0 <= i < |stack| ==> stack[i] == longer[i];
      assert longer[|stack|] == n;
      assert n !in stack;
    }

    /** The loop over the output ports of `n`. */
    method SearchOutputs(n: nat, ghost stack: seq<nat>) returns (r: bool)
      requires Valid(stack + [n]) && n < |g| && n !in stack
      modifies `marking, `path, `addToCycle, `legs, `open, `finished, `trail
      ensures old(finished) <= finished && (!r ==> Valid(stack + [n]))
      ensures !r ==> Uncoloured(g, marking) <= Uncoloured(g, old(marking))
      ensures !r ==> forall l :: Considered(g, extra, ignore, l) && l != extra && l.src.node == n ==>
        l.dst.node in finished
      ensures r ==> Found(n, stack) && stack + [n] <= trail
      decreases Uncoloured(g, marking), 3
    {
      var i := 0;
      while i < |g[n]|
        invariant 0 <= i <= |g[n]| && Valid(stack + [n]) && old(finished) <= finished
        invariant Uncoloured(g, marking) <= Uncoloured(g, old(marking))
        invariant forall l :: Considered(g, extra, ignore, l) && l != extra && l.src.node == n && l.src.idx < i ==>
          l.dst.node in finished
      {
        if g[n][i].ptype.dir == Out {
          var f := SearchPort(n, i, stack);
          if f {
            return true;
          }
        }
        i := i + 1;
      }
      return false;
    }

    /** The loop over the connections of output port `i` of `n`. */
    method SearchPort(n: nat, i: nat, ghost stack: seq<nat>) returns (r: bool)
      requires Valid(stack + [n]) && n < |g| && n !in stack && i < |g[n]| && g[n][i].ptype.dir == Out
      modifies `marking, `path, `addToCycle, `legs, `open, `finished, `trail
      ensures old(finished) <= finished && (!r ==> Valid(stack + [n]))
      ensures !r ==> Uncoloured(g, marking) <= Uncoloured(g, old(marking))
      ensures !r ==> forall q :: q in g[n][i].conns && ignore != Some(Leg(PortRef(n, i), q)) ==> q.node in finished
      ensures r ==> Found(n, stack) && stack + [n] <= trail
      decreases Uncoloured(g, marking), 2
    {
      var qs := g[n][i].conns;
      var j := 0;
      while j < |qs|
        invariant 0 <= j <= |qs| && Valid(stack + [n]) && old(finished) <= finished
        invariant Uncoloured(g, marking) <= Uncoloured(g, old(marking))
        invariant forall k :: 0 <= k < j && ignore != Some(Leg(PortRef(n, i), qs[k])) ==> qs[k].node in finished
      {
        var l := Leg(PortRef(n, i), qs[j]);
        assert Connected(g, l.src, l.dst);
        if ignore != Some(l) {
          var f := Search(qs[j].node, stack + [n]);
          if f {
            AppendLeg(l, stack);
            return true;
          }
        }
        j := j + 1;
      }
      return false;
    }

    /** am_dfg_node_is_root_ign, for ports that have at most one connection if they
        are inputs. */
    method IsRootIgnoring(n: nat) returns (b: bool)
      requires WellFormed(g) && n < |g|
      ensures b <==> LooseRoot(g, ignore, n)
    {
      var i := 0;
      while i < |g[n]|
        invariant 0 <= i <= |g[n]|
        invariant forall k :: 0 <= k < i ==> !BlocksRoot(g, ignore, PortRef(n, k))
      {
        if g[n][i].ptype.dir == In {
          var conns := g[n][i].conns;
          if |conns| > 1 ||
             (|conns| == 1 && ignore.Some? && PortRef(n, i) == ignore.value.dst && conns[0] != ignore.value.src)
          {
            assert BlocksRoot(g, ignore, PortRef(n, i));
            return false;
          }
        }
        assert !BlocksRoot(g, ignore, PortRef(n, i));
        i := i + 1;
      }
      return true;
    }
  }

  /** An input port whose connections keep its node from being taken for a root. */
  ghost predicate BlocksRoot(g: Graph, ignore: Option<Leg>, r: PortRef) {
    HasPort(g, r) && At(g, r).ptype.dir == In &&
    (|At(g, r).conns| > 1 ||
     (|At(g, r).conns| == 1 && ignore.Some? && r == ignore.value.dst && At(g, r).conns[0] != ignore.value.src))
  }

  ghost predicate LooseRoot(g: Graph, ignore: Option<Leg>, n: nat) {
    forall i :: !BlocksRoot(g, ignore, PortRef(n, i))
  }

  /** If all nodes taken for roots are finished, a node that is not is joined to
      itself. */
  lemma UnmarkedHasSelfLoop(g: Graph, extra: Leg, ignore: Option<Leg>, finished: seq<nat>, x: nat)
    requires WellFormed(g) && x < |g| && x !in finished
    requires Settled(SearchEdges(g, extra, ignore), finished)
    requires forall n: nat :: n < |g| && LooseRoot(g, ignore, n) ==> n in finished
    ensures Cyclic(SearchEdges(g, extra, ignore)) && !NoSelfLoop(g, AllNodes(g))
  {
    var e := SearchEdges(g, extra, ignore);
    var i :| BlocksRoot(g, ignore, PortRef(x, i));
    var d := PortRef(x, i);
    var p := At(g, d).conns[0];
    assert Connected(g, d, p);
    assert Connected(g, p, d);
    assert Considered(g, extra, ignore, Leg(p, d));
    assert Joins(g, extra, ignore, p.node, x);
    if p.node in finished {
      SettledSuccessor(e, finished, p.node, x);
    } else {
      assert !LooseRoot(g, ignore, p.node);
      var j :| BlocksRoot(g, ignore, PortRef(p.node, j));
      assert p.node == x;
      assert e(x, x);
      CycleWitness(e, x, [x, x]);
      assert d.node in AllNodes(g);
    }
  }

  /** A search that starts with an empty stack can only end with a closed path. */
  lemma FoundAtRoot(g: Graph, extra: Leg, ignore: Option<Leg>, legs: seq<Leg>, n: nat)
    ensures !OpenPath(g, extra, ignore, legs, n, [])
    ensures SimpleCycle(g, extra, ignore, legs) ==> legs != []
  {
  }

  /** If no connection is ignored, or one that exists, every node is taken for a root. */
  lemma AllAreLooseRoots(g: Graph, ignore: Option<Leg>, n: nat)
    requires WellFormed(g) && (ignore == None || Connected(g, ignore.value.src, ignore.value.dst))
    ensures LooseRoot(g, ignore, n)
  {
    forall i ensures !BlocksRoot(g, ignore, PortRef(n, i)) {
      if ignore.Some? {
        assert Connected(g, ignore.value.dst, ignore.value.src);
      }
    }
  }

  lemma CycleIsReached(g: Graph, extra: Leg, ignore: Option<Leg>)
    requires WellFormed(g) && HasPort(g, extra.src) && Cyclic(SearchEdges(g, extra, ignore))
    requires forall n: nat :: n < |g| ==> LooseRoot(g, ignore, n)
    ensures RootReachesCycle(g, extra, ignore)
  {
    var e := SearchEdges(g, extra, ignore);
    var c :| OnCycle(e, c);
    var p :| WalkFromTo(e, p, c, c) && |p| >= 2;
    assert e(p[0], p[1]);
    assert Joins(g, extra, ignore, c, p[1]);
    ReachesSelf(e, c);
  }

  lemma FinishedRootsReachNoCycle(g: Graph, extra: Leg, ignore: Option<Leg>, finished: seq<nat>)
    requires Settled(SearchEdges(g, extra, ignore), finished)
    requires forall n: nat :: n < |g| && LooseRoot(g, ignore, n) ==> n in finished
    ensures !RootReachesCycle(g, extra, ignore)
  {
    var e := SearchEdges(g, extra, ignore);
    forall n: nat, c: nat | n < |g| && LooseRoot(g, ignore, n) && Reaches(e, n, c) ensures !OnCycle(e, c) {
      FinishedReachesNoCycle(e, finished, n, c);
    }
  }

  /** am_dfg_graph_has_cycle: finds out whether the graph has a directed cycle once
      `extra` is added and `ignore` is left out. A path that is returned is a simple
      cycle in reverse order. One is returned exactly if the caller wants it and a node
      taken for a root leads to a cycle; so it is if there is a cycle and nothing is
      ignored, or a connection that exists, or no node is connected to itself.
      `marking` is what is left in the field of the same name of all nodes. */
  method HasCycle(g: Graph, extra: Leg, ignore: Option<Leg>, wanted: bool)
    returns (found: bool, cycle: seq<Leg>, marking: seq<Marking>, ghost stack: seq<nat>, ghost finished: seq<nat>)
    requires WellFormed(g) && HasPort(g, extra.src) && HasPort(g, extra.dst)
    ensures found <==> Cyclic(SearchEdges(g, extra, ignore))
    ensures cycle != [] ==> found && wanted && SimpleCycle(g, extra, ignore, cycle)
    ensures cycle != [] <==> wanted && RootReachesCycle(g, extra, ignore)
    ensures found && wanted && (ignore == None || Connected(g, ignore.value.src, ignore.value.dst)) ==> cycle != []
    ensures found && wanted && NoSelfLoop(g, AllNodes(g)) ==> cycle != []
    ensures CheckLeaves(g, extra, ignore, found, marking, stack, finished)
    ensures forall l :: l in cycle ==> l.src.node in stack
    ensures stack != [] <==> RootReachesCycle(g, extra, ignore)
  {
    var search := new CycleSearch(g, extra, ignore, wanted);
    found := SearchRoots(search);
    marking := search.marking;
    finished := search.finished;
    if ignore == None || Connected(g, ignore.value.src, ignore.value.dst) {
      forall n: nat ensures LooseRoot(g, ignore, n) {
        AllAreLooseRoots(g, ignore, n);
      }
      if Cyclic(SearchEdges(g, extra, ignore)) {
        CycleIsReached(g, extra, ignore);
      }
    }
    if found {
      stack := search.trail;
      SimpleCycleIsCycle(g, extra, ignore, search.legs);
      LoopsBackIsCycle(SearchEdges(g, extra, ignore), stack);
      return true, search.path, marking, stack, finished;
    }
    stack := [];
    FinishedRootsReachNoCycle(g, extra, ignore, finished);
    var n := 0;
    while n < |g|
      invariant 0 <= n <= |g|
      invariant forall m: nat :: m < n ==> m in search.finished
    {
      hide Settled; hide SimpleCycle; hide Cyclic;
      if search.marking[n] == UNMARKED {
        UnmarkedHasSelfLoop(g, extra, ignore, search.finished, n);
        return true, search.path, marking, stack, finished;
      }
      n := n + 1;
    }
    AllFinishedIsAcyclic(g, extra, ignore, search.finished);
    return false, [], marking, stack, finished;
  }

  // ----- A cycle that is found without a path -----

  function Unconnected(d: Direction): Port {
    Port(PortType(d, EMPTY_MASK, EMPTY_MASK), [])
  }

  /** Node 0 is connected to itself; nodes 1 and 2 are not connected. */
  function LoopBeside(): Graph {
    [[Port(PortType(In, EMPTY_MASK, EMPTY_MASK), [PortRef(0, 1)]),
      Port(PortType(Out, EMPTY_MASK, EMPTY_MASK), [PortRef(0, 0)])],
     [Unconnected(Out)],
     [Unconnected(In)]]
  }

  const BESIDE := Leg(PortRef(1, 0), PortRef(2, 0))
  const ABSENT := Leg(PortRef(1, 0), PortRef(0, 0))

  lemma LoopBesideWellFormed()
    ensures WellFormed(LoopBeside())
  {
  }

  lemma LoopBesideEdges(a: nat, b: nat)
    ensures SearchEdges(LoopBeside(), BESIDE, Some(ABSENT))(a, b) <==> (a == 0 && b == 0) || (a == 1 && b == 2)
  {
    var g := LoopBeside();
    assert Considered(g, BESIDE, Some(ABSENT), Leg(PortRef(0, 1), PortRef(0, 0)));
    assert Considered(g, BESIDE, Some(ABSENT), BESIDE);
  }

  lemma LoopBesideSettled()
    ensures Settled(SearchEdges(LoopBeside(), BESIDE, Some(ABSENT)), [2, 1])
  {
    var f: seq<nat> := [2, 1];
    forall k: nat, y: nat | k < |f| && SearchEdges(LoopBeside(), BESIDE, Some(ABSENT))(f[k], y) ensures y in f[..k] {
      LoopBesideEdges(f[k], y);
      assert f[..1] == [2];
    }
  }

  /** If the connection that is ignored does not exist, but another one to its
      destination, the cycle through that one can be found without a path. */
  lemma PathIsLost()
    ensures var g := LoopBeside();
      WellFormed(g) && HasPort(g, BESIDE.src) && HasPort(g, BESIDE.dst) &&
      HasPort(g, ABSENT.src) && HasPort(g, ABSENT.dst) &&
      Cyclic(SearchEdges(g, BESIDE, Some(ABSENT))) && !RootReachesCycle(g, BESIDE, Some(ABSENT))
  {
    var g := LoopBeside();
    LoopBesideWellFormed();
    LoopBesideEdges(0, 0);
    CycleWitness(SearchEdges(g, BESIDE, Some(ABSENT)), 0, [0, 0]);
    LoopBesideSettled();
    assert BlocksRoot(g, Some(ABSENT), PortRef(0, 0));
    assert !LooseRoot(g, Some(ABSENT), 0);
    hide SearchEdges; hide Settled; hide WellFormed; hide BlocksRoot; hide LooseRoot; hide Cyclic;
    FinishedRootsReachNoCycle(g, BESIDE, Some(ABSENT), [2, 1]);
  }

  lemma AllFinishedIsAcyclic(g: Graph, extra: Leg, ignore: Option<Leg>, finished: seq<nat>)
    requires HasPort(g, extra.src) && Settled(SearchEdges(g, extra, ignore), finished)
    requires forall m: nat :: m < |g| ==> m in finished
    ensures !Cyclic(SearchEdges(g, extra, ignore))
  {
    forall a: nat, b: nat | SearchEdges(g, extra, ignore)(a, b) ensures a in finished {
      assert Joins(g, extra, ignore, a, b);
    }
    SettledIsAcyclic(SearchEdges(g, extra, ignore), finished);
  }

  /** The first loop of am_dfg_graph_has_cycle, over the nodes taken for roots. */
  method SearchRoots(search: CycleSearch) returns (found: bool)
    requires search.Valid([]) && search.finished == []
    modifies search
    ensures !found ==> search.Valid([])
    ensures !found ==>
      forall m: nat :: m < |search.g| && LooseRoot(search.g, search.ignore, m) ==> m in search.finished
    ensures found ==> search.Recorded() && SimpleCycle(search.g, search.extra, search.ignore, search.legs)
    ensures found ==> search.legs != [] && search.Stopped([])
    ensures found ==> forall l :: l in search.legs ==> l.src.node in search.trail
    ensures found ==> search.trail != [] && search.trail[0] < |search.g|
    ensures found ==> LooseRoot(search.g, search.ignore, search.trail[0])
    ensures found ==>
      forall m: nat :: m < search.trail[0] && LooseRoot(search.g, search.ignore, m) ==> m in search.finished
  {
    var n := 0;
    while n < |search.g|
      invariant 0 <= n <= |search.g| && search.Valid([])
      invariant forall m: nat :: m < n && LooseRoot(search.g, search.ignore, m) ==> m in search.finished
    {
      hide LooseRoot; hide Coloured; hide Settled; hide SimpleCycle; hide Uncoloured; hide OpenPath;
      var root := search.IsRootIgnoring(n);
      if root {
        assert LooseRoot(search.g, search.ignore, n);
        ghost var before := search.finished;
        var r := search.Search(n, []);
        if r {
          assert [] + [n] <= search.trail;
          assert search.trail[0] == n;
          FoundAtRoot(search.g, search.extra, search.ignore, search.legs, n);
          return true;
        }
      }
      n := n + 1;
    }
    return false;
  }
}
