/** The depth-first traversal without recursion: it follows parent pointers and keeps
    child indexes in a circular buffer that, as it is written, is always empty. */
module TreeWalk {
  import opened Wrappers

  // ----- Trees -----

  /** The parent and the children of every node. */
  datatype Tree = Tree(parent: seq<Option<nat>>, kids: seq<seq<nat>>)

  predicate Within(t: Tree, n: nat) {
    n < |t.parent| == |t.kids|
  }

  /** Parents and children agree, no child is listed twice, and children have a smaller
      height than their parent, so that there is no cycle. */
  ghost predicate WellFormed(t: Tree, height: seq<nat>) {
    && |t.parent| == |t.kids| == |height|
    && (forall p: nat, i: nat :: p < |t.kids| && i < |t.kids[p]| ==> KidOk(t, height, p, t.kids[p][i]))
    && (forall p: nat, i: nat, j: nat :: p < |t.kids| && i < j < |t.kids[p]| ==> t.kids[p][i] != t.kids[p][j])
    && (forall c: nat :: c < |t.parent| && t.parent[c].Some? ==> ParentOk(t, c, t.parent[c].value))
  }

  ghost predicate KidOk(t: Tree, height: seq<nat>, p: nat, c: nat)
    requires p < |t.kids| == |t.parent| == |height|
  {
    c < |t.kids| && t.parent[c] == Some(p) && height[c] < height[p]
  }

  predicate ParentOk(t: Tree, c: nat, p: nat) {
    p < |t.kids| && c in t.kids[p]
  }

  /** The nodes of a subtree with their depths, a node before its children. */
  ghost function Preorder(t: Tree, height: seq<nat>, n: nat, depth: nat): (r: seq<(nat, nat)>)
    requires WellFormed(t, height) && Within(t, n)
    ensures |r| > 0
    decreases height[n], 1, 0
  {
    [(n, depth)] + PreorderKids(t, height, n, 0, depth + 1)
  }

  /** The subtrees of the children of `n` from the `i`-th on. */
  ghost function PreorderKids(t: Tree, height: seq<nat>, n: nat, i: nat, depth: nat): seq<(nat, nat)>
    requires WellFormed(t, height) && Within(t, n) && i <= |t.kids[n]|
    decreases height[n], 0, |t.kids[n]| - i
  {
    if i == |t.kids[n]| then []
    else
      assert KidOk(t, height, n, t.kids[n][i]);
      Preorder(t, height, t.kids[n][i], depth) + PreorderKids(t, height, n, i + 1, depth)
  }

  // ----- The circular buffer -----

  class CircularBuffer {
    const size: nat
    const entries: array<nat>
    var startIdx: nat
    var endIdx: nat

    ghost predicate Valid()
      reads this
    {
      size >= 1 && entries.Length == size && startIdx < size && endIdx < size
    }

    constructor (size: nat)
      requires size >= 1
      ensures Valid() && fresh(entries) && startIdx == endIdx
    {
      this.size := size;
      entries := new nat[size];
      startIdx, endIdx := 0, 0;
    }

    /** The end moves on first; as the start moves whenever it would be crossed, it
        follows at every push to an empty buffer, which stays empty. */
    method Push(idx: nat)
      requires Valid()
      modifies this, entries
      ensures Valid() && endIdx == (old(endIdx) + 1) % size && entries[endIdx] == idx
      ensures old(startIdx == endIdx) ==> startIdx == endIdx
    {
      endIdx := (endIdx + 1) % size;
      if endIdx == (startIdx + 1) % size {
        startIdx := (startIdx + 1) % size;
      }
      entries[endIdx] := idx;
    }

    method Pop() returns (empty: bool, idx: nat)
      requires Valid()
      modifies this
      ensures Valid() && startIdx == old(startIdx)
      ensures empty == (old(startIdx) == old(endIdx))
      ensures empty ==> endIdx == old(endIdx)
      ensures !empty ==> endIdx == (old(endIdx) + size - 1) % size && idx == entries[endIdx]
    {
      idx := 0;
      if endIdx != startIdx {
        endIdx := (endIdx + size - 1) % size;
        idx := entries[endIdx];
        return false, idx;
      }
      return true, idx;
    }
  }

  // ----- The walk -----

  /** The position of a node among the children of its parent. */
  method ChildIndex(t: Tree, p: nat, c: nat) returns (i: nat)
    requires p < |t.kids| && c in t.kids[p]
    ensures i < |t.kids[p]| && t.kids[p][i] == c
  {
    i := 0;
    while t.kids[p][i] != c
      invariant i < |t.kids[p]| && forall k: nat :: k < i ==> t.kids[p][k] != c
      decreases |t.kids[p]| - i
    {
      i := i + 1;
    }
  }

  predicate IsLastChild(t: Tree, p: nat, c: nat)
    requires p < |t.kids| && t.kids[p] != []
  {
    t.kids[p][|t.kids[p]| - 1] == c
  }

  /** `way` leads from the root down to a node by child indexes. */
  ghost predicate Leads(t: Tree, root: nat, way: seq<nat>, n: nat) {
    if way == [] then n == root && Within(t, n)
    else
      Within(t, n) && t.parent[n].Some? &&
      var p := t.parent[n].value; var i := way[|way| - 1];
      p < |t.kids| && i < |t.kids[p]| && t.kids[p][i] == n && Leads(t, root, way[..|way| - 1], p)
  }

  /** What is left to visit once the subtree of the node has been visited. */
  ghost function Rest(t: Tree, height: seq<nat>, root: nat, way: seq<nat>, n: nat): seq<(nat, nat)>
    requires WellFormed(t, height) && Leads(t, root, way, n)
    decreases |way|
  {
    if way == [] then []
    else
      var p := t.parent[n].value;
      PreorderKids(t, height, p, way[|way| - 1] + 1, |way| + 1) + Rest(t, height, root, way[..|way| - 1], p)
  }

  lemma {:induction false} HeightAlong(t: Tree, height: seq<nat>, root: nat, way: seq<nat>, n: nat)
    requires WellFormed(t, height) && Leads(t, root, way, n)
    ensures root < |height| && height[n] + |way| <= height[root]
    decreases |way|
  {
    if way != [] {
      var p := t.parent[n].value;
      assert KidOk(t, height, p, t.kids[p][way[|way| - 1]]);
      HeightAlong(t, height, root, way[..|way| - 1], p);
    }
  }

  // ----- Steps of the walk -----

  lemma AppendAssoc<T>(a: seq<T>, b: seq<T>, c: seq<T>, d: seq<T>)
    ensures (a + (b + c)) + d == a + (b + (c + d))
  {
  }

  lemma LeadsDown(t: Tree, height: seq<nat>, root: nat, way: seq<nat>, n: nat)
    requires WellFormed(t, height) && Leads(t, root, way, n) && t.kids[n] != []
    ensures Within(t, t.kids[n][0]) && Leads(t, root, way + [0], t.kids[n][0])
    ensures Rest(t, height, root, way + [0], t.kids[n][0]) ==
      PreorderKids(t, height, n, 1, |way| + 2) + Rest(t, height, root, way, n)
  {
    var k := t.kids[n][0];
    hide Preorder; hide PreorderKids;
    assert KidOk(t, height, n, k);
    assert (way + [0])[..|way|] == way;
  }

  lemma Descend(t: Tree, height: seq<nat>, root: nat, way: seq<nat>, n: nat)
    requires WellFormed(t, height) && Leads(t, root, way, n) && t.kids[n] != []
    ensures var k := t.kids[n][0];
      && Within(t, k) && Leads(t, root, way + [0], k)
      && Preorder(t, height, n, |way| + 1) + Rest(t, height, root, way, n) ==
        [(n, |way| + 1)] + (Preorder(t, height, k, |way| + 2) + Rest(t, height, root, way + [0], k))
  {
    var k := t.kids[n][0];
    LeadsDown(t, height, root, way, n);
    hide Leads; hide Rest;
    var d := |way| + 2;
    var first, others, rest := Preorder(t, height, k, d), PreorderKids(t, height, n, 1, d),
      Rest(t, height, root, way, n);
    assert Preorder(t, height, n, |way| + 1) == [(n, |way| + 1)] + (first + others);
    AppendAssoc([(n, |way| + 1)], first, others, rest);
  }

  lemma Leaf(t: Tree, height: seq<nat>, n: nat, depth: nat)
    requires WellFormed(t, height) && Within(t, n) && t.kids[n] == []
    ensures Preorder(t, height, n, depth) == [(n, depth)]
  {
  }

  /** The last index of the way is the only index of the node among its siblings. */
  lemma IndexOnWay(t: Tree, height: seq<nat>, root: nat, way: seq<nat>, n: nat, i: nat)
    requires WellFormed(t, height) && Leads(t, root, way, n) && way != []
    requires var p := t.parent[n].value; i < |t.kids[p]| && t.kids[p][i] == n
    ensures way[|way| - 1] == i
  {
  }

  lemma Ascend(t: Tree, height: seq<nat>, root: nat, way: seq<nat>, n: nat)
    requires WellFormed(t, height) && Leads(t, root, way, n) && way != [] && IsLastChild(t, t.parent[n].value, n)
    ensures var p := t.parent[n].value; var up := way[..|way| - 1];
      Leads(t, root, up, p) && Rest(t, height, root, way, n) == Rest(t, height, root, up, p)
  {
    IndexOnWay(t, height, root, way, n, |t.kids[t.parent[n].value]| - 1);
  }

  lemma Sideways(t: Tree, height: seq<nat>, root: nat, way: seq<nat>, n: nat)
    requires WellFormed(t, height) && Leads(t, root, way, n) && way != [] && !IsLastChild(t, t.parent[n].value, n)
    ensures var p := t.parent[n].value; var i := way[|way| - 1]; var way' := way[..|way| - 1] + [i + 1];
      && i + 1 < |t.kids[p]| && Leads(t, root, way', t.kids[p][i + 1])
      && Rest(t, height, root, way, n) ==
        Preorder(t, height, t.kids[p][i + 1], |way'| + 1) + Rest(t, height, root, way', t.kids[p][i + 1])
  {
    var p := t.parent[n].value;
    var i := way[|way| - 1];
    var up := way[..|way| - 1];
    var way' := up + [i + 1];
    var d := |way| + 1;
    assert KidOk(t, height, p, t.kids[p][i + 1]);
    assert way'[..|way'| - 1] == up;
    assert PreorderKids(t, height, p, i + 1, d) ==
      Preorder(t, height, t.kids[p][i + 1], d) + PreorderKids(t, height, p, i + 2, d);
  }

  /** What a way tells about the node it leads to. */
  lemma OnWay(t: Tree, height: seq<nat>, root: nat, way: seq<nat>, n: nat)
    requires WellFormed(t, height) && Leads(t, root, way, n)
    ensures Within(t, n) && (n == root <==> way == [])
    ensures way != [] ==> t.parent[n].Some? && t.parent[n].value < |t.kids| && n in t.kids[t.parent[n].value]
  {
    HeightAlong(t, height, root, way, n);
  }

  lemma WayStarts(t: Tree, height: seq<nat>, root: nat)
    requires WellFormed(t, height) && Within(t, root)
    ensures Leads(t, root, [], root) && Rest(t, height, root, [], root) == []
  {
  }

  /** The traversal: the callbacks are those of a recursive preorder traversal, with
      depths that start at one, whatever the size of the buffer. */
  method Walk(t: Tree, ghost height: seq<nat>, root: nat, cbSize: nat) returns (visited: seq<(nat, nat)>)
    requires WellFormed(t, height) && Within(t, root) && cbSize >= 1
    ensures visited == Preorder(t, height, root, 1)
  {
    hide WellFormed; hide Leads; hide Rest; hide Preorder; hide PreorderKids;
    var cb := new CircularBuffer(cbSize);
    var currDepth := 1;
    var currNode := root;
    ghost var way: seq<nat> := [];
    ghost var whole := Preorder(t, height, root, 1);
    visited := [];
    WayStarts(t, height, root);
    while true
      invariant Within(t, currNode) && Leads(t, root, way, currNode) && currDepth == |way| + 1
      invariant visited + (Preorder(t, height, currNode, currDepth) + Rest(t, height, root, way, currNode)) == whole
      invariant fresh(cb) && fresh(cb.entries) && cb.Valid() && cb.startIdx == cb.endIdx
      decreases |whole| - |visited|
    {
      OnWay(t, height, root, way, currNode);
      ghost var before := visited;
      visited := visited + [(currNode, currDepth)];
      if t.kids[currNode] != [] {
        Descend(t, height, root, way, currNode);
        ghost var kid := t.kids[currNode][0];
        ghost var left := Preorder(t, height, kid, currDepth + 1) + Rest(t, height, root, way + [0], kid);
        assert before + ([(currNode, currDepth)] + left) == visited + left;
        currDepth := currDepth + 1;
        cb.Push(0);
        currNode := t.kids[currNode][0];
        way := way + [0];
        OnWay(t, height, root, way, currNode);
        continue;
      }
      Leaf(t, height, currNode, currDepth);
      while currNode != root && IsLastChild(t, t.parent[currNode].value, currNode)
        invariant Leads(t, root, way, currNode) && currDepth == |way| + 1
        invariant visited + Rest(t, height, root, way, currNode) == whole
        invariant Within(t, currNode) && (currNode == root <==> way == [])
        invariant way != [] ==>
          t.parent[currNode].Some? && t.parent[currNode].value < |t.kids| &&
          currNode in t.kids[t.parent[currNode].value]
        invariant cb.Valid() && cb.startIdx == cb.endIdx
        decreases |way|
      {
        OnWay(t, height, root, way, currNode);
        Ascend(t, height, root, way, currNode);
        currNode := t.parent[currNode].value;
        var empty, restoreIdx := cb.Pop();
        currDepth := currDepth - 1;
        way := way[..|way| - 1];
        OnWay(t, height, root, way, currNode);
      }
      if currNode == root {
        break;
      }
      Sideways(t, height, root, way, currNode);
      var p := t.parent[currNode].value;
      var empty, restoreIdx := cb.Pop();
      if empty {
        restoreIdx := ChildIndex(t, p, currNode);
      }
      IndexOnWay(t, height, root, way, currNode, restoreIdx);
      cb.Push(restoreIdx + 1);
      currNode := t.kids[p][restoreIdx + 1];
      way := way[..|way| - 1] + [restoreIdx + 1];
    }
  }

  // ----- What a preorder traversal visits -----

  lemma {:induction false} FromChild(t: Tree, height: seq<nat>, n: nat, i: nat, way: seq<nat>, c: nat)
    requires WellFormed(t, height) && Within(t, n) && i < |t.kids[n]| && Leads(t, t.kids[n][i], way, c)
    ensures Leads(t, n, [i] + way, c)
    decreases |way|
  {
    assert KidOk(t, height, n, t.kids[n][i]);
    var long := [i] + way;
    if way == [] {
      assert long[..0] == [];
    } else {
      FromChild(t, height, n, i, way[..|way| - 1], t.parent[c].value);
      assert long[..|long| - 1] == [i] + way[..|way| - 1];
    }
  }

  lemma {:induction false} ToChild(t: Tree, height: seq<nat>, n: nat, way: seq<nat>, c: nat)
    requires WellFormed(t, height) && Leads(t, n, way, c) && way != []
    ensures Within(t, n) && way[0] < |t.kids[n]| && Leads(t, t.kids[n][way[0]], way[1..], c)
    decreases |way|
  {
    var short := way[..|way| - 1];
    if short == [] {
      assert way[1..] == [];
    } else {
      ToChild(t, height, n, short, t.parent[c].value);
      assert way[1..][..|way| - 2] == short[1..];
    }
  }

  /** There is only one way to a node. */
  lemma {:induction false} OneWay(t: Tree, height: seq<nat>, n: nat, v: seq<nat>, w: seq<nat>, c: nat)
    requires WellFormed(t, height) && Leads(t, n, v, c) && Leads(t, n, w, c)
    ensures v == w
    decreases |v|
  {
    HeightAlong(t, height, n, v, c);
    HeightAlong(t, height, n, w, c);
    if v != [] && w != [] {
      IndexOnWay(t, height, n, v, c, w[|w| - 1]);
      OneWay(t, height, n, v[..|v| - 1], w[..|w| - 1], t.parent[c].value);
      assert v == v[..|v| - 1] + [v[|v| - 1]] && w == w[..|w| - 1] + [w[|w| - 1]];
    }
  }

  /** The node is reached from `n`, at this depth if `n` is at depth `depth`. */
  ghost predicate Reached(t: Tree, n: nat, depth: nat, x: (nat, nat)) {
    exists way: seq<nat> :: Leads(t, n, way, x.0) && x.1 == depth + |way|
  }

  /** The traversal visits the nodes below a node, with their depths. */
  lemma {:induction false} PreorderReaches(t: Tree, height: seq<nat>, n: nat, depth: nat, x: (nat, nat))
    requires WellFormed(t, height) && Within(t, n)
    ensures x in Preorder(t, height, n, depth) <==> Reached(t, n, depth, x)
    decreases height[n], 1, 0
  {
    KidsReach(t, height, n, 0, depth, x);
    if Reached(t, n, depth, x) {
      var way: seq<nat> :| Leads(t, n, way, x.0) && x.1 == depth + |way|;
      if way != [] {
        ToChild(t, height, n, way, x.0);
        assert ReachedVia(t, n, 0, depth, way[0], x);
      }
    }
    if x == (n, depth) {
      assert Leads(t, n, [], n);
    } else if x in Preorder(t, height, n, depth) {
      var i: nat :| ReachedVia(t, n, 0, depth, i, x);
      var way: seq<nat> :| Leads(t, t.kids[n][i], way, x.0) && x.1 == depth + 1 + |way|;
      FromChild(t, height, n, i, way, x.0);
    }
  }

  /** The node is reached over the `i`-th child, which is not before the `from`-th. */
  ghost predicate ReachedVia(t: Tree, n: nat, from: nat, depth: nat, i: nat, x: (nat, nat))
    requires Within(t, n)
  {
    from <= i < |t.kids[n]| && Reached(t, t.kids[n][i], depth + 1, x)
  }

  ghost predicate ReachedOver(t: Tree, n: nat, from: nat, depth: nat, x: (nat, nat))
    requires Within(t, n)
  {
    exists i: nat :: ReachedVia(t, n, from, depth, i, x)
  }

  lemma {:induction false} KidsReach(t: Tree, height: seq<nat>, n: nat, from: nat, depth: nat, x: (nat, nat))
    requires WellFormed(t, height) && Within(t, n) && from <= |t.kids[n]|
    ensures x in PreorderKids(t, height, n, from, depth + 1) <==> ReachedOver(t, n, from, depth, x)
    decreases height[n], 0, |t.kids[n]| - from
  {
    if from < |t.kids[n]| {
      assert KidOk(t, height, n, t.kids[n][from]);
      PreorderReaches(t, height, t.kids[n][from], depth + 1, x);
      KidsReach(t, height, n, from + 1, depth, x);
      if Reached(t, t.kids[n][from], depth + 1, x) {
        assert ReachedVia(t, n, from, depth, from, x);
      }
      if ReachedOver(t, n, from, depth, x) {
        var i: nat :| ReachedVia(t, n, from, depth, i, x);
        assert i == from || ReachedVia(t, n, from + 1, depth, i, x);
      }
      if ReachedOver(t, n, from + 1, depth, x) {
        var i: nat :| ReachedVia(t, n, from + 1, depth, i, x);
        assert ReachedVia(t, n, from, depth, i, x);
      }
    }
  }

  ghost predicate Once(s: seq<(nat, nat)>) {
    forall i: nat, j: nat :: i < j < |s| ==> s[i].0 != s[j].0
  }

  ghost predicate Apart(s: seq<(nat, nat)>, r: seq<(nat, nat)>) {
    forall x, y :: x in s && y in r ==> x.0 != y.0
  }

  lemma OnceConcat(s: seq<(nat, nat)>, r: seq<(nat, nat)>)
    requires Once(s) && Once(r) && Apart(s, r)
    ensures Once(s + r)
  {
    forall i: nat, j: nat | i < j < |s + r| ensures (s + r)[i].0 != (s + r)[j].0 {
      if i < |s| <= j {
        assert s[i] in s && r[j - |s|] in r;
      }
    }
  }

  /** No node is visited twice. */
  lemma {:induction false} PreorderOnce(t: Tree, height: seq<nat>, n: nat, depth: nat)
    requires WellFormed(t, height) && Within(t, n)
    ensures Once(Preorder(t, height, n, depth))
    decreases height[n], 1, 0
  {
    KidsOnce(t, height, n, 0, depth);
    var below := PreorderKids(t, height, n, 0, depth + 1);
    forall y | y in below ensures y.0 != n {
      KidsReach(t, height, n, 0, depth, y);
      var i: nat :| ReachedVia(t, n, 0, depth, i, y);
      var way: seq<nat> :| Leads(t, t.kids[n][i], way, y.0) && y.1 == depth + 1 + |way|;
      HeightAlong(t, height, t.kids[n][i], way, y.0);
      assert KidOk(t, height, n, t.kids[n][i]);
    }
    OnceConcat([(n, depth)], below);
  }

  lemma {:induction false} KidsOnce(t: Tree, height: seq<nat>, n: nat, from: nat, depth: nat)
    requires WellFormed(t, height) && Within(t, n) && from <= |t.kids[n]|
    ensures Once(PreorderKids(t, height, n, from, depth + 1))
    decreases height[n], 0, |t.kids[n]| - from
  {
    if from < |t.kids[n]| {
      var k := t.kids[n][from];
      assert KidOk(t, height, n, k);
      PreorderOnce(t, height, k, depth + 1);
      KidsOnce(t, height, n, from + 1, depth);
      var s, r := Preorder(t, height, k, depth + 1), PreorderKids(t, height, n, from + 1, depth + 1);
      forall x, y | x in s && y in r ensures x.0 != y.0 {
        PreorderReaches(t, height, k, depth + 1, x);
        KidsReach(t, height, n, from + 1, depth, y);
        SubtreesApart(t, height, n, from, depth, x, y);
      }
      OnceConcat(s, r);
    }
  }

  /** Different children have no descendant in common. */
  lemma SubtreesApart(t: Tree, height: seq<nat>, n: nat, from: nat, depth: nat, x: (nat, nat), y: (nat, nat))
    requires WellFormed(t, height) && Within(t, n) && from < |t.kids[n]| && Reached(t, t.kids[n][from], depth + 1, x)
    requires ReachedOver(t, n, from + 1, depth, y)
    ensures x.0 != y.0
  {
    var i: nat :| ReachedVia(t, n, from + 1, depth, i, y);
    var v: seq<nat> :| Leads(t, t.kids[n][from], v, x.0) && x.1 == depth + 1 + |v|;
    var w: seq<nat> :| Leads(t, t.kids[n][i], w, y.0) && y.1 == depth + 1 + |w|;
    FromChild(t, height, n, from, v, x.0);
    FromChild(t, height, n, i, w, y.0);
    assert ([from] + v)[0] != ([i] + w)[0];
    if x.0 == y.0 {
      OneWay(t, height, n, [from] + v, [i] + w, x.0);
    }
  }

  // ----- In which order it visits them -----

  /** Way `v` comes before way `w`: it ends on it, or turns off it to an earlier child. */
  predicate Earlier(v: seq<nat>, w: seq<nat>) {
    w != [] && (v == [] || v[0] < w[0] || (v[0] == w[0] && Earlier(v[1..], w[1..])))
  }

  /** The nodes are listed in the order of the ways that lead to them. */
  ghost predicate InOrder(t: Tree, n: nat, s: seq<(nat, nat)>) {
    forall i: nat, j: nat, v: seq<nat>, w: seq<nat> ::
      i < j < |s| && Leads(t, n, v, s[i].0) && Leads(t, n, w, s[j].0) ==> Earlier(v, w)
  }

  /** The ways to the nodes below the `i`-th child begin with `i`. */
  lemma WayOverChild(t: Tree, height: seq<nat>, n: nat, i: nat, depth: nat, x: (nat, nat), v: seq<nat>)
    requires WellFormed(t, height) && Within(t, n) && i < |t.kids[n]| && Leads(t, n, v, x.0)
    requires Reached(t, t.kids[n][i], depth, x)
    ensures v != [] && v[0] == i && Leads(t, t.kids[n][i], v[1..], x.0)
  {
    var way: seq<nat> :| Leads(t, t.kids[n][i], way, x.0) && x.1 == depth + |way|;
    FromChild(t, height, n, i, way, x.0);
    OneWay(t, height, n, v, [i] + way, x.0);
    assert v[1..] == way;
  }

  lemma WayOverLaterChild(t: Tree, height: seq<nat>, n: nat, from: nat, depth: nat, x: (nat, nat), v: seq<nat>)
    requires WellFormed(t, height) && Within(t, n) && from <= |t.kids[n]| && Leads(t, n, v, x.0)
    requires x in PreorderKids(t, height, n, from, depth + 1)
    ensures v != [] && v[0] >= from
  {
    KidsReach(t, height, n, from, depth, x);
    var i: nat :| ReachedVia(t, n, from, depth, i, x);
    WayOverChild(t, height, n, i, depth + 1, x, v);
  }

  lemma {:induction false} KidsInOrder(t: Tree, height: seq<nat>, n: nat, from: nat, depth: nat)
    requires WellFormed(t, height) && Within(t, n) && from <= |t.kids[n]|
    ensures InOrder(t, n, PreorderKids(t, height, n, from, depth + 1))
    decreases height[n], 0, |t.kids[n]| - from
  {
    if from < |t.kids[n]| {
      var k := t.kids[n][from];
      assert KidOk(t, height, n, k);
      PreorderInOrder(t, height, k, depth + 1);
      KidsInOrder(t, height, n, from + 1, depth);
      var s := PreorderKids(t, height, n, from, depth + 1);
      assert s == Preorder(t, height, k, depth + 1) + PreorderKids(t, height, n, from + 1, depth + 1);
      hide Preorder; hide PreorderKids; hide WellFormed; hide Leads;
      forall i: nat, j: nat, v: seq<nat>, w: seq<nat> |
        i < j < |s| && Leads(t, n, v, s[i].0) && Leads(t, n, w, s[j].0)
        ensures Earlier(v, w)
      {
        TwoInOrder(t, height, n, from, depth, i, j, v, w);
      }
    }
  }

  lemma TwoInOrder(t: Tree, height: seq<nat>, n: nat, from: nat, depth: nat, i: nat, j: nat, v: seq<nat>, w: seq<nat>)
    requires WellFormed(t, height) && Within(t, n) && from < |t.kids[n]| && Within(t, t.kids[n][from])
    requires InOrder(t, t.kids[n][from], Preorder(t, height, t.kids[n][from], depth + 1))
    requires InOrder(t, n, PreorderKids(t, height, n, from + 1, depth + 1))
    requires var s :=
      Preorder(t, height, t.kids[n][from], depth + 1) + PreorderKids(t, height, n, from + 1, depth + 1);
      i < j < |s| && Leads(t, n, v, s[i].0) && Leads(t, n, w, s[j].0)
    ensures Earlier(v, w)
  {
    hide Preorder; hide PreorderKids; hide WellFormed; hide Leads;
    var k := t.kids[n][from];
    var first, later := Preorder(t, height, k, depth + 1), PreorderKids(t, height, n, from + 1, depth + 1);
    if i < |first| {
      assert first[i] in first;
      PreorderReaches(t, height, k, depth + 1, first[i]);
      WayOverChild(t, height, n, from, depth + 1, first[i], v);
      if j < |first| {
        assert first[j] in first;
        PreorderReaches(t, height, k, depth + 1, first[j]);
        WayOverChild(t, height, n, from, depth + 1, first[j], w);
      } else {
        assert later[j - |first|] in later;
        WayOverLaterChild(t, height, n, from + 1, depth, later[j - |first|], w);
      }
    } else {
      assert later[i - |first|] == (first + later)[i] && later[j - |first|] == (first + later)[j];
    }
  }

  /** The traversal visits a node before its children, and the subtrees of the children in
      their order. */
  lemma {:induction false} PreorderInOrder(t: Tree, height: seq<nat>, n: nat, depth: nat)
    requires WellFormed(t, height) && Within(t, n)
    ensures InOrder(t, n, Preorder(t, height, n, depth))
    decreases height[n], 1, 0
  {
    KidsInOrder(t, height, n, 0, depth);
    var s, below := Preorder(t, height, n, depth), PreorderKids(t, height, n, 0, depth + 1);
    assert s == [(n, depth)] + below;
    hide Preorder; hide PreorderKids; hide WellFormed;
    forall i: nat, j: nat, v: seq<nat>, w: seq<nat> |
      i < j < |s| && Leads(t, n, v, s[i].0) && Leads(t, n, w, s[j].0)
      ensures Earlier(v, w)
    {
      assert below[j - 1] in below;
      WayOverLaterChild(t, height, n, 0, depth, below[j - 1], w);
      if i == 0 {
        assert Leads(t, n, [], n);
        OneWay(t, height, n, v, [], n);
      } else {
        assert below[i - 1] == s[i];
      }
    }
  }
}
