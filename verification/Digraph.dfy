/** Paths and cycles in finite directed graphs whose nodes are natural numbers.
    An edge relation is a predicate on pairs of nodes. */
module Digraph {

  type Edges = (nat, nat) -> bool

  /** A walk: consecutive nodes are joined by edges. */
  ghost predicate Walk(e: Edges, p: seq<nat>) {
    |p| > 0 && forall i :: 0 <= i < |p| - 1 ==> e(p[i], p[i + 1])
  }

  ghost predicate WalkFromTo(e: Edges, p: seq<nat>, a: nat, b: nat) {
    Walk(e, p) && p[0] == a && p[|p| - 1] == b
  }

  ghost predicate Reaches(e: Edges, a: nat, b: nat) {
    exists p :: WalkFromTo(e, p, a, b)
  }

  /** A closed walk of at least one edge through `c`. */
  ghost predicate OnCycle(e: Edges, c: nat) {
    exists p :: WalkFromTo(e, p, c, c) && |p| >= 2
  }

  ghost predicate Cyclic(e: Edges) {
    exists c :: OnCycle(e, c)
  }

  lemma CycleWitness(e: Edges, c: nat, p: seq<nat>)
    requires WalkFromTo(e, p, c, c) && |p| >= 2
    ensures OnCycle(e, c) && Cyclic(e)
  {
  }

  /** `n` lies on a cycle or downstream of one. */
  ghost predicate BelowCycle(e: Edges, n: nat) {
    exists c :: OnCycle(e, c) && Reaches(e, c, n)
  }

  ghost predicate Distinct<T>(s: seq<T>) {
    forall i, j :: 0 <= i < j < |s| ==> s[i] != s[j]
  }

  predicate Ascending(s: seq<nat>) {
    forall i: nat, j: nat :: i < j < |s| ==> s[i] < s[j]
  }

  /** The set of elements of a sequence. */
  ghost function Elems<T>(s: seq<T>): set<T> {
    set x | x in s
  }

  /** The numbers below `n`. */
  ghost function Indexes(n: nat): (r: set<nat>)
    ensures forall i: nat :: i in r <==> i < n
    ensures |r| == n
  {
    if n == 0 then {} else Indexes(n - 1) + {n - 1}
  }

  lemma DistinctCardinality<T>(s: seq<T>)
    requires Distinct(s)
    ensures |Elems(s)| == |s|
  {
    if s == [] {
      assert Elems(s) == {};
    } else {
      var last := |s| - 1;
      DistinctCardinality(s[..last]);
      assert s == s[..last] + [s[last]];
      assert Elems(s) == Elems(s[..last]) + {s[last]};
      assert s[last] !in s[..last];
    }
  }

  lemma SubsetCardinality<T>(a: set<T>, b: set<T>)
    requires a <= b
    ensures |a| <= |b|
    ensures |a| == |b| ==> a == b
  {
    if a == b {
    } else {
      var x :| x in b && x !in a;
      assert a <= b - {x};
      if a != {} {
        SubsetCardinality(a, b - {x});
      }
    }
  }

  /** A duplicate-free sequence drawn from a set is no longer than the set. */
  lemma DistinctFits<T>(s: seq<T>, all: set<T>)
    requires Distinct(s) && Elems(s) <= all
    ensures |s| <= |all|
  {
    DistinctCardinality(s);
    SubsetCardinality(Elems(s), all);
  }

  lemma WalkConcat(e: Edges, p: seq<nat>, q: seq<nat>)
    requires Walk(e, p) && Walk(e, q) && p[|p| - 1] == q[0]
    ensures WalkFromTo(e, p + q[1..], p[0], q[|q| - 1])
  {
    var r := p + q[1..];
    forall i | 0 <= i < |r| - 1 ensures e(r[i], r[i + 1]) {
      if i < |p| - 1 {
      } else {
        assert r[i] == q[i - |p| + 1];
        assert r[i + 1] == q[i - |p| + 2];
      }
    }
  }

  lemma ReachesTrans(e: Edges, a: nat, b: nat, c: nat)
    requires Reaches(e, a, b) && Reaches(e, b, c)
    ensures Reaches(e, a, c)
  {
    var p :| WalkFromTo(e, p, a, b);
    var q :| WalkFromTo(e, q, b, c);
    WalkConcat(e, p, q);
  }

  lemma ReachesSelf(e: Edges, a: nat)
    ensures Reaches(e, a, a)
  {
    assert WalkFromTo(e, [a], a, a);
  }

  lemma ReachesEdge(e: Edges, a: nat, b: nat)
    requires e(a, b)
    ensures Reaches(e, a, b)
  {
    assert WalkFromTo(e, [a, b], a, b);
  }

  lemma WalkCons(e: Edges, a: nat, w: seq<nat>)
    requires Walk(e, w) && e(a, w[0])
    ensures Walk(e, [a] + w)
  {
    var p := [a] + w;
    forall i | 0 <= i < |p| - 1 ensures e(p[i], p[i + 1]) {
      if i > 0 { assert e(w[i - 1], w[i]); }
    }
  }

  lemma WalkSlice(e: Edges, w: seq<nat>, i: nat, j: nat)
    requires Walk(e, w) && i < j <= |w|
    ensures WalkFromTo(e, w[i..j], w[i], w[j - 1])
  {
  }

  lemma RepeatGivesCycle(e: Edges, a: nat, w: seq<nat>)
    requires Walk(e, w) && e(a, w[0]) && a in w
    ensures BelowCycle(e, w[|w| - 1])
  {
    var p := [a] + w;
    WalkCons(e, a, w);
    var k :| 0 <= k < |w| && w[k] == a;
    assert p[k + 1] == a;
    WalkSlice(e, p, 0, k + 2);
    assert |p[0..k + 2]| >= 2;
    assert OnCycle(e, a);
    WalkSlice(e, w, k, |w|);
    assert Reaches(e, a, w[|w| - 1]);
  }

  ghost predicate HasPredecessorIn(e: Edges, s: set<nat>, b: nat) {
    exists a :: a in s && e(a, b)
  }

  ghost predicate HasPredecessors(e: Edges, s: set<nat>) {
    forall b {:trigger HasPredecessorIn(e, s, b)} :: b in s ==> HasPredecessorIn(e, s, b)
  }

  /** In a finite set where every member has a predecessor inside the set, a
      backward walk must meet itself: every member lies below a cycle. */
  lemma BackwardWalk(e: Edges, s: set<nat>, w: seq<nat>)
    requires HasPredecessors(e, s)
    requires Walk(e, w) && Distinct(w) && Elems(w) <= s
    ensures BelowCycle(e, w[|w| - 1])
    decreases |s| - |w|
  {
    DistinctFits(w, s);
    assert w[0] in Elems(w);
    assert HasPredecessorIn(e, s, w[0]);
    var a :| a in s && e(a, w[0]);
    if a in w {
      RepeatGivesCycle(e, a, w);
    } else {
      var p := [a] + w;
      WalkCons(e, a, w);
      assert Elems(p) == Elems(w) + {a};
      assert p[|p| - 1] == w[|w| - 1];
      DistinctFits(p, s);
      BackwardWalk(e, s, p);
    }
  }

  lemma PredecessorsMeanBelowCycle(e: Edges, s: set<nat>, n: nat)
    requires HasPredecessors(e, s) && n in s
    ensures BelowCycle(e, n)
  {
    assert Elems([n]) == {n};
    BackwardWalk(e, s, [n]);
  }

  /** A rank that strictly drops along every edge rules out cycles. */
  lemma RankDescends(e: Edges, rank: nat -> int, p: seq<nat>)
    requires forall a, b :: e(a, b) ==> rank(b) < rank(a)
    requires Walk(e, p)
    ensures rank(p[|p| - 1]) <= rank(p[0]) - (|p| - 1)
  {
    if |p| > 1 {
      var q := p[..|p| - 1];
      assert Walk(e, q);
      RankDescends(e, rank, q);
      assert e(p[|p| - 2], p[|p| - 1]);
    }
  }

  lemma RankedIsAcyclic(e: Edges, rank: nat -> int)
    requires forall a, b :: e(a, b) ==> rank(b) < rank(a)
    ensures !Cyclic(e)
  {
    if Cyclic(e) {
      var c :| OnCycle(e, c);
      var p :| WalkFromTo(e, p, c, c) && |p| >= 2;
      RankDescends(e, rank, p);
    }
  }

  // ----- Orders that follow the edges -----

  ghost predicate EarlierIn(done: seq<nat>, m: nat, k: nat) {
    exists l :: 0 <= l < k && l < |done| && done[l] == m
  }

  /** Every predecessor of a listed node is listed before it. */
  ghost predicate InOrder(e: Edges, done: seq<nat>) {
    forall k: nat, m: nat :: k < |done| && e(m, done[k]) ==> EarlierIn(done, m, k)
  }

  lemma {:induction false} WalkIntoOrder(e: Edges, done: seq<nat>, w: seq<nat>, k: nat)
    requires InOrder(e, done) && Walk(e, w) && k < |done| && w[|w| - 1] == done[k]
    ensures exists l :: 0 <= l <= k - (|w| - 1) && l < |done| && done[l] == w[0]
    decreases |w|
  {
    if |w| > 1 {
      var front := w[..|w| - 1];
      var m := w[|w| - 2];
      assert e(m, w[|w| - 1]);
      assert EarlierIn(done, m, k);
      var l :| 0 <= l < k && l < |done| && done[l] == m;
      WalkIntoOrder(e, done, front, l);
    }
  }

  /** Nothing that can be put in order lies below a cycle. */
  lemma InOrderIsNotBelowCycle(e: Edges, done: seq<nat>, n: nat)
    requires InOrder(e, done) && Distinct(done) && n in done
    ensures !BelowCycle(e, n)
  {
    var k :| 0 <= k < |done| && done[k] == n;
    forall c: nat | Reaches(e, c, n) ensures !OnCycle(e, c) {
      var w :| WalkFromTo(e, w, c, n);
      WalkIntoOrder(e, done, w, k);
      var l :| 0 <= l < |done| && done[l] == c;
      forall p | WalkFromTo(e, p, c, c) ensures |p| < 2 {
        WalkIntoOrder(e, done, p, l);
      }
    }
  }

  lemma ReachesHasPredecessor(e: Edges, a: nat, b: nat)
    requires Reaches(e, a, b) && a != b
    ensures exists c: nat :: e(c, b)
  {
    var w :| WalkFromTo(e, w, a, b);
    assert e(w[|w| - 2], w[|w| - 1]);
  }

  lemma BelowCycleHasPredecessor(e: Edges, n: nat)
    requires BelowCycle(e, n)
    ensures exists a: nat :: e(a, n)
  {
    var c: nat :| OnCycle(e, c) && Reaches(e, c, n);
    var p :| WalkFromTo(e, p, c, c) && |p| >= 2;
    if c != n {
      ReachesHasPredecessor(e, c, n);
    } else {
      assert e(p[|p| - 2], p[|p| - 1]);
    }
  }

  /** More edges keep what lies below a cycle there. */
  lemma BelowCycleMonotone(e: Edges, f: Edges, n: nat)
    requires BelowCycle(e, n) && forall a: nat, b: nat :: e(a, b) ==> f(a, b)
    ensures BelowCycle(f, n)
  {
    var c: nat :| OnCycle(e, c) && Reaches(e, c, n);
    var p :| WalkFromTo(e, p, c, c) && |p| >= 2;
    var w :| WalkFromTo(e, w, c, n);
    assert WalkFromTo(f, p, c, c) && WalkFromTo(f, w, c, n);
    assert OnCycle(f, c) && Reaches(f, c, n);
  }

  /** `b` can be reached from `a` without touching a node of `avoid`. */
  ghost predicate ReachesAvoiding(e: Edges, avoid: set<nat>, a: nat, b: nat) {
    exists p :: WalkFromTo(e, p, a, b) && forall i :: 0 <= i < |p| ==> p[i] !in avoid
  }

  /** Where a walk from `a` leaves `a` for the last time. */
  lemma LastDeparture(e: Edges, avoid: set<nat>, p: seq<nat>, a: nat, b: nat) returns (y: nat)
    requires WalkFromTo(e, p, a, b) && a != b && forall i :: 0 <= i < |p| ==> p[i] !in avoid
    ensures e(a, y) && ReachesAvoiding(e, avoid + {a}, y, b)
    decreases |p|
  {
    if a in p[1..] {
      var i :| 1 <= i < |p| && p[i] == a;
      y := LastDeparture(e, avoid, p[i..], a, b);
    } else {
      y := p[1];
      var q := p[1..];
      assert WalkFromTo(e, q, y, b);
      forall i | 0 <= i < |q| ensures q[i] !in avoid + {a} {
        assert q[i] == p[i + 1] && q[i] in p[1..];
      }
    }
  }

  lemma AvoidingStep(e: Edges, avoid: set<nat>, a: nat, b: nat) returns (y: nat)
    requires ReachesAvoiding(e, avoid, a, b) && a != b
    ensures e(a, y) && ReachesAvoiding(e, avoid + {a}, y, b)
  {
    var p :| WalkFromTo(e, p, a, b) && forall i :: 0 <= i < |p| ==> p[i] !in avoid;
    y := LastDeparture(e, avoid, p, a, b);
  }

  /** A set that contains `a` and is closed under edges contains all `a` reaches. */
  lemma {:induction false} ClosedContainsReachable(e: Edges, s: set<nat>, p: seq<nat>)
    requires Walk(e, p) && p[0] in s
    requires forall x: nat, y: nat :: x in s && e(x, y) ==> y in s
    ensures p[|p| - 1] in s
  {
    if |p| > 1 {
      ClosedContainsReachable(e, s, p[..|p| - 1]);
      assert e(p[|p| - 2], p[|p| - 1]);
    }
  }

  lemma AvoidingReaches(e: Edges, avoid: set<nat>, a: nat, b: nat)
    requires ReachesAvoiding(e, avoid, a, b)
    ensures Reaches(e, a, b) && a !in avoid && b !in avoid
  {
    var p :| WalkFromTo(e, p, a, b) && forall i :: 0 <= i < |p| ==> p[i] !in avoid;
    assert p[0] !in avoid && p[|p| - 1] !in avoid;
  }

  lemma AvoidingSelf(e: Edges, avoid: set<nat>, a: nat)
    requires a !in avoid
    ensures ReachesAvoiding(e, avoid, a, a)
  {
    assert WalkFromTo(e, [a], a, a);
  }

  lemma AvoidingLess(e: Edges, avoid: set<nat>, less: set<nat>, a: nat, b: nat)
    requires ReachesAvoiding(e, avoid, a, b) && less <= avoid
    ensures ReachesAvoiding(e, less, a, b)
  {
    var p :| WalkFromTo(e, p, a, b) && forall i :: 0 <= i < |p| ==> p[i] !in avoid;
    assert forall i :: 0 <= i < |p| ==> p[i] !in less;
  }

  lemma AvoidingPrepend(e: Edges, avoid: set<nat>, a: nat, y: nat, b: nat)
    requires e(a, y) && a !in avoid && ReachesAvoiding(e, avoid, y, b)
    ensures ReachesAvoiding(e, avoid, a, b)
  {
    var p :| WalkFromTo(e, p, y, b) && forall i :: 0 <= i < |p| ==> p[i] !in avoid;
    WalkCons(e, a, p);
    var w := [a] + p;
    assert forall i :: 0 < i < |w| ==> w[i] == p[i - 1];
    assert WalkFromTo(e, w, a, b);
  }

  /** If nothing that can be reached has to be avoided, avoiding it costs nothing. */
  lemma AvoidingNothing(e: Edges, avoid: set<nat>, a: nat, b: nat)
    requires Reaches(e, a, b) && forall x: nat :: x in avoid ==> !Reaches(e, a, x)
    ensures ReachesAvoiding(e, avoid, a, b)
  {
    var p :| WalkFromTo(e, p, a, b);
    forall i | 0 <= i < |p| ensures p[i] !in avoid {
      WalkSlice(e, p, 0, i + 1);
      assert Reaches(e, a, p[i]);
    }
  }

  /** A set closed under those edges that do not lead into `avoid` contains all that `a`
      reaches without touching `avoid`. */
  lemma {:induction false} ClosedContainsAvoiding(e: Edges, avoid: set<nat>, s: set<nat>, p: seq<nat>)
    requires Walk(e, p) && p[0] in s && forall i :: 0 <= i < |p| ==> p[i] !in avoid
    requires forall x: nat, y: nat :: x in s && e(x, y) && y !in avoid ==> y in s
    ensures p[|p| - 1] in s
  {
    if |p| > 1 {
      ClosedContainsAvoiding(e, avoid, s, p[..|p| - 1]);
      assert e(p[|p| - 2], p[|p| - 1]);
    }
  }

  // ----- Lists without an element -----

  /** The list without the first occurrence of `x`. */
  function Remove<T(==)>(l: seq<T>, x: T): seq<T> {
    if l == [] then [] else if l[0] == x then l[1..] else [l[0]] + Remove(l[1..], x)
  }

  lemma {:induction false} RemoveElems<T>(l: seq<T>, x: T)
    requires Distinct(l)
    ensures Distinct(Remove(l, x)) && forall y :: y in Remove(l, x) <==> y in l && y != x
    ensures |Remove(l, x)| <= |l|
  {
    if l != [] {
      var t := l[1..];
      assert l == [l[0]] + t;
      assert l[0] !in t;
      RemoveElems(t, x);
      if l[0] != x {
        var r := Remove(t, x);
        forall i, j | 0 <= i < j < |[l[0]] + r| ensures ([l[0]] + r)[i] != ([l[0]] + r)[j] {
          assert r[j - 1] in r;
        }
      }
    }
  }
}
