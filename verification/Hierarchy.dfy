/** Hierarchies: trees whose nodes count their descendants, kept up to date by adding and
    removing subtrees. */
module Hierarchy {
  import opened Wrappers
  import opened Digraph
  import opened TreeWalk

  // ----- Ancestors and descendants -----

  /** Every node has a higher level than its parent, so that there is no cycle. */
  ghost predicate Leveled(parent: seq<Option<nat>>, level: seq<nat>) {
    && |parent| == |level|
    && forall c: nat :: c < |parent| && parent[c].Some? ==>
      parent[c].value < |parent| && level[parent[c].value] < level[c]
  }

  ghost function Ancestors(parent: seq<Option<nat>>, level: seq<nat>, c: nat): set<nat>
    requires Leveled(parent, level) && c < |parent|
    decreases level[c]
  {
    if parent[c] == None then {} else {parent[c].value} + Ancestors(parent, level, parent[c].value)
  }

  ghost function Descendants(parent: seq<Option<nat>>, level: seq<nat>, a: nat): set<nat>
    requires Leveled(parent, level)
  {
    set c: nat | c < |parent| && a in Ancestors(parent, level, c)
  }

  /** Ancestors have lower levels, and their ancestors are ancestors. */
  lemma {:induction false} AncestorsAbove(parent: seq<Option<nat>>, level: seq<nat>, c: nat, a: nat)
    requires Leveled(parent, level) && c < |parent| && a in Ancestors(parent, level, c)
    ensures a < |parent| && level[a] < level[c] && Ancestors(parent, level, a) <= Ancestors(parent, level, c)
    decreases level[c]
  {
    var p := parent[c].value;
    if a != p {
      AncestorsAbove(parent, level, p, a);
    }
  }

  /** Of two ancestors of a node one is an ancestor of the other. */
  lemma {:induction false} AncestorsCompare(parent: seq<Option<nat>>, level: seq<nat>, x: nat, a: nat, b: nat)
    requires Leveled(parent, level) && x < |parent|
    requires a in Ancestors(parent, level, x) && b in Ancestors(parent, level, x) && a != b
    ensures a < |parent| && b < |parent|
    ensures a in Ancestors(parent, level, b) || b in Ancestors(parent, level, a)
    decreases level[x]
  {
    AncestorsAbove(parent, level, x, a);
    AncestorsAbove(parent, level, x, b);
    var p := parent[x].value;
    if a != p && b != p {
      AncestorsCompare(parent, level, p, a, b);
    }
  }

  // ----- Linking a tree below a node -----

  /** A detached tree with root `c` is put below node `p` outside of it; `level'` fits the
      result. */
  ghost predicate Links(parent: seq<Option<nat>>, level: seq<nat>, level': seq<nat>, p: nat, c: nat) {
    && Leveled(parent, level) && p < |parent| && c < |parent| && parent[c] == None
    && p != c && c !in Ancestors(parent, level, p)
    && Leveled(parent[c := Some(p)], level')
  }

  lemma {:induction false} LinkedAncestors(parent: seq<Option<nat>>, level: seq<nat>, level': seq<nat>, p: nat, c: nat,
                                           x: nat)
    requires Links(parent, level, level', p, c) && x < |parent|
    ensures Ancestors(parent[c := Some(p)], level', x) ==
      if x == c || c in Ancestors(parent, level, x) then Ancestors(parent, level, x) + {p} + Ancestors(parent, level, p)
      else Ancestors(parent, level, x)
    decreases level'[x]
  {
    var linked := parent[c := Some(p)];
    if linked[x].Some? {
      LinkedAncestors(parent, level, level', p, c, linked[x].value);
    }
  }

  /** The nodes whose number of descendants changes: `p` and its ancestors. */
  ghost function Affected(parent: seq<Option<nat>>, level: seq<nat>, p: nat): set<nat>
    requires Leveled(parent, level) && p < |parent|
  {
    {p} + Ancestors(parent, level, p)
  }

  lemma LinkedDescendants(parent: seq<Option<nat>>, level: seq<nat>, level': seq<nat>, p: nat, c: nat, a: nat)
    requires Links(parent, level, level', p, c)
    ensures Descendants(parent[c := Some(p)], level', a) ==
      if a in Affected(parent, level, p) then Descendants(parent, level, a) + ({c} + Descendants(parent, level, c))
      else Descendants(parent, level, a)
  {
    forall x: nat | x < |parent|
      ensures x in Descendants(parent[c := Some(p)], level', a) <==>
        x in Descendants(parent, level, a) ||
          (a in Affected(parent, level, p) && (x == c || x in Descendants(parent, level, c)))
    {
      LinkedAncestors(parent, level, level', p, c, x);
    }
  }

  lemma SubtreeIsNew(parent: seq<Option<nat>>, level: seq<nat>, level': seq<nat>, p: nat, c: nat, a: nat)
    requires Links(parent, level, level', p, c) && a in Affected(parent, level, p)
    ensures Descendants(parent, level, a) !! {c} + Descendants(parent, level, c)
    ensures c !in Descendants(parent, level, c)
  {
    forall x | x in Descendants(parent, level, a) ensures x !in Descendants(parent, level, c) {
      if x in Descendants(parent, level, c) {
        if a != p {
          AncestorsAbove(parent, level, p, a);
        }
        AncestorsCompare(parent, level, x, a, c);
      }
    }
  }

  ghost predicate Counted(parent: seq<Option<nat>>, level: seq<nat>, num: seq<nat>) {
    && Leveled(parent, level) && |num| == |parent|
    && forall a: nat :: a < |num| ==> num[a] == |Descendants(parent, level, a)|
  }

  /** The numbers after linking: those of affected nodes grow by the size of the tree. */
  ghost predicate Raised(num: seq<nat>, num': seq<nat>, affected: set<nat>, delta: nat) {
    |num'| == |num| && forall a: nat :: a < |num| ==> num'[a] == if a in affected then num[a] + delta else num[a]
  }

  lemma LinkingCounts(parent: seq<Option<nat>>, level: seq<nat>, level': seq<nat>, p: nat, c: nat, num: seq<nat>,
                      num': seq<nat>)
    requires Links(parent, level, level', p, c) && Counted(parent, level, num)
    requires Raised(num, num', Affected(parent, level, p), num[c] + 1)
    ensures Counted(parent[c := Some(p)], level', num')
  {
    forall a: nat | a < |num| ensures num'[a] == |Descendants(parent[c := Some(p)], level', a)| {
      LinkedDescendants(parent, level, level', p, c, a);
      if a in Affected(parent, level, p) {
        SubtreeIsNew(parent, level, level', p, c, a);
        Grows(Descendants(parent, level, a), Descendants(parent, level, c), c);
      }
    }
  }

  lemma Grows(s: set<nat>, t: set<nat>, c: nat)
    requires s !! {c} + t && c !in t
    ensures |s + ({c} + t)| == |s| + |t| + 1
  {
    assert |{c} + t| == |t| + 1;
  }

  /** Linking read backwards: after unlinking the numbers have shrunk again. */
  lemma UnlinkingCounts(parent: seq<Option<nat>>, level: seq<nat>, p: nat, c: nat, num: seq<nat>, num': seq<nat>)
    requires Links(parent, level, level, p, c) && Counted(parent[c := Some(p)], level, num)
    requires |num'| == |num| && Raised(num', num, Affected(parent, level, p), num[c] + 1)
    ensures Counted(parent, level, num')
  {
    SelfUnchanged(parent, level, p, c);
    forall a: nat | a < |num| ensures num'[a] == |Descendants(parent, level, a)| {
      LinkedDescendants(parent, level, level, p, c, a);
      if a in Affected(parent, level, p) {
        SubtreeIsNew(parent, level, level, p, c, a);
        Grows(Descendants(parent, level, a), Descendants(parent, level, c), c);
      }
    }
  }

  lemma SelfUnchanged(parent: seq<Option<nat>>, level: seq<nat>, p: nat, c: nat)
    requires Links(parent, level, level, p, c)
    ensures Descendants(parent[c := Some(p)], level, c) == Descendants(parent, level, c)
  {
    LinkedDescendants(parent, level, level, p, c, c);
  }

  /** All affected nodes have more descendants than the subtree has nodes. */
  lemma NoUnderflow(parent: seq<Option<nat>>, level: seq<nat>, p: nat, c: nat, num: seq<nat>, a: nat)
    requires Links(parent, level, level, p, c) && Counted(parent[c := Some(p)], level, num)
    requires a < |num| && a in Affected(parent, level, p)
    ensures num[a] >= num[c] + 1
  {
    SelfUnchanged(parent, level, p, c);
    LinkedDescendants(parent, level, level, p, c, a);
    SubtreeIsNew(parent, level, level, p, c, a);
    Grows(Descendants(parent, level, a), Descendants(parent, level, c), c);
  }

  /** New levels after linking: those of the subtree are raised above the parent's. */
  ghost function Relevel(parent: seq<Option<nat>>, level: seq<nat>, p: nat, c: nat): (r: seq<nat>)
    requires Leveled(parent, level) && p < |parent| && c < |parent|
    ensures |r| == |level|
  {
    seq(|level|, x requires 0 <= x < |level| =>
      if x == c || c in Ancestors(parent, level, x) then level[x] + level[p] + 1 else level[x])
  }

  lemma RelevelFits(parent: seq<Option<nat>>, level: seq<nat>, p: nat, c: nat)
    requires Leveled(parent, level) && p < |parent| && c < |parent| && parent[c] == None
    requires p != c && c !in Ancestors(parent, level, p)
    ensures Links(parent, level, Relevel(parent, level, p, c), p, c)
  {
    var linked := parent[c := Some(p)];
    var level' := Relevel(parent, level, p, c);
    forall x: nat | x < |linked| && linked[x].Some?
      ensures linked[x].value < |linked| && level'[linked[x].value] < level'[x]
    {
    }
  }

  lemma UnlinkFits(parent: seq<Option<nat>>, level: seq<nat>, c: nat)
    requires Leveled(parent, level) && c < |parent| && parent[c].Some?
    ensures Links(parent[c := None], level, level, parent[c].value, c) && parent[c := None][c := parent[c]] == parent
  {
    var unlinked := parent[c := None];
    var p := parent[c].value;
    assert unlinked[c := parent[c]] == parent;
    if c in Ancestors(unlinked, level, p) {
      AncestorsAbove(unlinked, level, p, c);
    }
  }

  // ----- Children -----

  /** Exactly the nodes with that parent are listed as children, each once. */
  ghost predicate ChildrenListed(parent: seq<Option<nat>>, children: seq<seq<nat>>) {
    && |children| == |parent|
    && (forall p: nat, c: nat {:trigger c in children[p]} :: p < |children| ==>
      (c in children[p] <==> c < |parent| && parent[c] == Some(p)))
    && (forall p: nat :: p < |children| ==> Distinct(children[p]))
  }

  class HierarchyNodes {
    var parent: seq<Option<nat>>
    var children: seq<seq<nat>>
    var numDescendants: seq<nat>
    ghost var level: seq<nat>

    ghost predicate Valid()
      reads this
    {
      Counted(parent, level, numDescendants) && ChildrenListed(parent, children)
    }

    /** `n` nodes without parents. */
    constructor (n: nat)
      ensures Valid() && |parent| == n && forall c: nat :: c < n ==> parent[c] == None
    {
      parent := seq(n, _ => None);
      children := seq(n, _ => []);
      numDescendants := seq(n, _ => 0);
      level := seq(n, _ => 0);
      new;
      forall a: nat | a < n ensures |Descendants(parent, level, a)| == 0 {
        assert Descendants(parent, level, a) == {};
      }
    }

    /** The loop over ancestors, which adds the size of a subtree to their numbers. */
    method RaiseAncestors(start: nat, delta: nat)
      requires Leveled(parent, level) && |numDescendants| == |parent| && start < |parent|
      modifies `numDescendants
      ensures Raised(old(numDescendants), numDescendants, Affected(parent, level, start), delta)
    {
      var ancestor: Option<nat> := Some(start);
      ghost var left := Affected(parent, level, start);
      while ancestor.Some?
        invariant |numDescendants| == |parent| && (ancestor.Some? ==> ancestor.value < |parent|)
        invariant left == if ancestor.Some? then Affected(parent, level, ancestor.value) else {}
        invariant left <= Affected(parent, level, start)
        invariant Raised(old(numDescendants), numDescendants, Affected(parent, level, start) - left, delta)
        decreases if ancestor.Some? then level[ancestor.value] + 1 else 0
      {
        var a := ancestor.value;
        if a in Ancestors(parent, level, a) {
          AncestorsAbove(parent, level, a, a);
        }
        numDescendants := numDescendants[a := numDescendants[a] + delta];
        ancestor := parent[a];
        left := left - {a};
      }
    }

    /** The same loop with subtraction. */
    method LowerAncestors(start: nat, delta: nat)
      requires Leveled(parent, level) && |numDescendants| == |parent| && start < |parent|
      requires forall a: nat :: a < |numDescendants| && a in Affected(parent, level, start) ==>
        numDescendants[a] >= delta
      modifies `numDescendants
      ensures |numDescendants| == |parent|
      ensures Raised(numDescendants, old(numDescendants), Affected(parent, level, start), delta)
    {
      var ancestor: Option<nat> := Some(start);
      ghost var left := Affected(parent, level, start);
      while ancestor.Some?
        invariant |numDescendants| == |parent| && (ancestor.Some? ==> ancestor.value < |parent|)
        invariant left == if ancestor.Some? then Affected(parent, level, ancestor.value) else {}
        invariant left <= Affected(parent, level, start)
        invariant Raised(numDescendants, old(numDescendants), Affected(parent, level, start) - left, delta)
        decreases if ancestor.Some? then level[ancestor.value] + 1 else 0
      {
        var a := ancestor.value;
        if a in Ancestors(parent, level, a) {
          AncestorsAbove(parent, level, a, a);
        }
        assert numDescendants[a] == old(numDescendants)[a];
        numDescendants := numDescendants[a := numDescendants[a] - delta];
        ancestor := parent[a];
        left := left - {a};
      }
    }

    /** am_hierarchy_node_add_child for a node without a parent. */
    method AddChild(p: nat, c: nat)
      requires Valid() && p < |parent| && c < |parent| && parent[c] == None
      requires p != c && c !in Ancestors(parent, level, p)
      modifies this
      ensures Valid() && parent == old(parent)[c := Some(p)]
      ensures children == old(children)[p := old(children)[p] + [c]]
    {
      RelevelFits(parent, level, p, c);
      ghost var before, oldLevel, num := parent, level, numDescendants;
      ghost var newLevel := Relevel(parent, level, p, c);
      LinkedAncestors(parent, level, newLevel, p, c, p);
      LinkedDescendants(parent, level, newLevel, p, c, c);
      AddToList(parent, children, p, c);
      children := children[p := children[p] + [c]];
      parent := parent[c := Some(p)];
      level := newLevel;
      RaiseAncestors(p, numDescendants[c] + 1);
      LinkingCounts(before, oldLevel, newLevel, p, c, num, numDescendants);
    }

    /** am_hierarchy_node_unparent. */
    method Unparent(c: nat)
      requires Valid() && c < |parent|
      modifies this
      ensures Valid() && parent == old(parent)[c := None]
      ensures forall q: nat :: q < |parent| ==> multiset(children[q]) == multiset(old(children)[q]) - multiset{c}
    {
      if parent[c].Some? {
        var p := parent[c].value;
        UnlinkFits(parent, level, c);
        ghost var unlinked, num := parent[c := None], numDescendants;
        LinkedAncestors(unlinked, level, level, p, c, p);
        forall a: nat | a < |numDescendants| && a in Affected(parent, level, p)
          ensures numDescendants[a] >= numDescendants[c] + 1
        {
          NoUnderflow(unlinked, level, p, c, numDescendants, a);
        }
        LowerAncestors(p, numDescendants[c] + 1);
        UnlinkingCounts(unlinked, level, p, c, num, numDescendants);
        DeleteFromList(parent, children, p, c);
        RemoveOne(children[p], c);
        children := children[p := Remove(children[p], c)];
        parent := parent[c := None];
      } else {
        ListedNowhere(parent, children, c);
        assert parent[c := None] == parent;
      }
    }
  }

  lemma {:induction false} RemoveOne(s: seq<nat>, c: nat)
    ensures multiset(Remove(s, c)) == multiset(s) - multiset{c}
  {
    if s != [] {
      assert s == [s[0]] + s[1..];
      RemoveOne(s[1..], c);
    }
  }

  lemma AddToList(parent: seq<Option<nat>>, children: seq<seq<nat>>, p: nat, c: nat)
    requires ChildrenListed(parent, children) && p < |parent| && c < |parent| && parent[c] == None
    ensures ChildrenListed(parent[c := Some(p)], children[p := children[p] + [c]])
  {
    var after := children[p := children[p] + [c]];
    forall q: nat, x: nat | q < |after| ensures x in after[q] <==> x < |parent| && parent[c := Some(p)][x] == Some(q) {
      assert x in children[q] <==> x < |parent| && parent[x] == Some(q);
    }
    assert c !in children[p];
  }

  lemma DeleteFromList(parent: seq<Option<nat>>, children: seq<seq<nat>>, p: nat, c: nat)
    requires ChildrenListed(parent, children) && p < |parent| && c < |parent| && parent[c] == Some(p)
    ensures ChildrenListed(parent[c := None], children[p := Remove(children[p], c)])
    ensures forall q: nat :: q < |parent| && q != p ==> multiset(children[q]) - multiset{c} == multiset(children[q])
  {
    var after := children[p := Remove(children[p], c)];
    RemoveElems(children[p], c);
    forall q: nat, x: nat | q < |after| ensures x in after[q] <==> x < |parent| && parent[c := None][x] == Some(q) {
      assert x in children[q] <==> x < |parent| && parent[x] == Some(q);
    }
    forall q: nat | q < |parent| && q != p ensures multiset(children[q]) - multiset{c} == multiset(children[q]) {
      assert c !in children[q];
    }
  }

  lemma ListedNowhere(parent: seq<Option<nat>>, children: seq<seq<nat>>, c: nat)
    requires ChildrenListed(parent, children) && c < |parent| && parent[c] == None
    ensures forall q: nat :: q < |parent| ==> multiset(children[q]) - multiset{c} == multiset(children[q])
  {
    forall q: nat | q < |parent| ensures multiset(children[q]) - multiset{c} == multiset(children[q]) {
      assert c !in children[q];
    }
  }

  // ----- The traversal and the numbers -----

  function Highest(level: seq<nat>): (m: nat)
    ensures forall i: nat :: i < |level| ==> level[i] <= m
  {
    if level == [] then 0
    else
      var m := Highest(level[..|level| - 1]);
      assert forall i: nat :: i < |level| - 1 ==> level[i] == level[..|level| - 1][i];
      if m < level[|level| - 1] then level[|level| - 1] else m
  }

  function HeightOf(level: seq<nat>, i: nat): nat
    requires i < |level|
  {
    Highest(level) - level[i]
  }

  ghost function Heights(level: seq<nat>): (h: seq<nat>)
    ensures |h| == |level|
  {
    seq(|level|, i requires 0 <= i < |level| => HeightOf(level, i))
  }

  lemma IsTree(parent: seq<Option<nat>>, children: seq<seq<nat>>, level: seq<nat>)
    requires Leveled(parent, level) && ChildrenListed(parent, children)
    ensures WellFormed(Tree(parent, children), Heights(level))
  {
    var t := Tree(parent, children);
    var h := Heights(level);
    forall p: nat, i: nat | p < |t.kids| && i < |t.kids[p]| ensures KidOk(t, h, p, t.kids[p][i]) {
      var c: nat := children[p][i];
      assert c in children[p];
      assert h[t.kids[p][i]] == HeightOf(level, t.kids[p][i]) && h[p] == HeightOf(level, p);
    }
    forall p: nat, i: nat, j: nat | p < |t.kids| && i < j < |t.kids[p]| ensures t.kids[p][i] != t.kids[p][j] {
      assert Distinct(children[p]);
    }
    forall c: nat | c < |t.parent| && t.parent[c].Some? ensures ParentOk(t, c, t.parent[c].value) {
    }
  }

  /** Ways lead exactly to a node itself and to its descendants. */
  lemma {:induction false} WayMeansAncestor(t: Tree, level: seq<nat>, root: nat, way: seq<nat>, c: nat)
    requires Leveled(t.parent, level) && WellFormed(t, Heights(level)) && Leads(t, root, way, c)
    ensures Within(t, c) && (if way == [] then c == root else root in Ancestors(t.parent, level, c))
    decreases |way|
  {
    if way != [] {
      WayMeansAncestor(t, level, root, way[..|way| - 1], t.parent[c].value);
    }
  }

  lemma {:induction false} AncestorHasWay(t: Tree, level: seq<nat>, root: nat, c: nat)
    requires Leveled(t.parent, level) && WellFormed(t, Heights(level)) && Within(t, c)
    requires root in Ancestors(t.parent, level, c)
    ensures exists way: seq<nat> :: Leads(t, root, way, c)
    decreases level[c]
  {
    var p := t.parent[c].value;
    assert ParentOk(t, c, p);
    var i: nat :| i < |t.kids[p]| && t.kids[p][i] == c;
    if p == root {
      assert Leads(t, root, [], root);
      assert Leads(t, root, [i], c) by { assert [i][..0] == []; }
    } else {
      AncestorHasWay(t, level, root, p);
      var way: seq<nat> :| Leads(t, root, way, p);
      assert (way + [i])[..|way|] == way;
      assert Leads(t, root, way + [i], c);
    }
  }

  lemma VisitedNodes(t: Tree, level: seq<nat>, root: nat, depth: nat, c: nat)
    requires Leveled(t.parent, level) && WellFormed(t, Heights(level)) && Within(t, root)
    ensures (exists d: nat :: (c, d) in Preorder(t, Heights(level), root, depth)) <==>
      c == root || c in Descendants(t.parent, level, root)
  {
    var h := Heights(level);
    if d: nat :| (c, d) in Preorder(t, h, root, depth) {
      PreorderReaches(t, h, root, depth, (c, d));
      var way: seq<nat> :| Leads(t, root, way, c);
      WayMeansAncestor(t, level, root, way, c);
    }
    if c == root || c in Descendants(t.parent, level, root) {
      if c == root {
        assert Leads(t, root, [], root);
      } else {
        AncestorHasWay(t, level, root, c);
      }
      var way: seq<nat> :| Leads(t, root, way, c);
      PreorderReaches(t, h, root, depth, (c, depth + |way|));
    }
  }

  ghost function Nodes(s: seq<(nat, nat)>): (r: seq<nat>)
    ensures |r| == |s|
  {
    seq(|s|, i requires 0 <= i < |s| => s[i].0)
  }

  /** A traversal from a node makes as many callbacks as the number says, and one more. */
  lemma VisitsMatchNumbers(parent: seq<Option<nat>>, children: seq<seq<nat>>, level: seq<nat>, num: seq<nat>, root: nat)
    requires Counted(parent, level, num) && ChildrenListed(parent, children) && root < |parent|
    ensures WellFormed(Tree(parent, children), Heights(level))
    ensures |Preorder(Tree(parent, children), Heights(level), root, 1)| == num[root] + 1
  {
    IsTree(parent, children, level);
    hide Preorder; hide WellFormed; hide ChildrenListed; hide Descendants;
    var t := Tree(parent, children);
    var visited := Preorder(t, Heights(level), root, 1);
    PreorderOnce(t, Heights(level), root, 1);
    NodesDistinct(visited);
    var below := Descendants(parent, level, root);
    forall c: nat ensures c in Elems(Nodes(visited)) <==> c in {root} + below {
      VisitedNodes(t, level, root, 1, c);
      InNodes(visited, c);
    }
    assert Elems(Nodes(visited)) == {root} + below;
    NotItsDescendant(parent, level, root);
  }

  lemma NotItsDescendant(parent: seq<Option<nat>>, level: seq<nat>, root: nat)
    requires Leveled(parent, level)
    ensures root !in Descendants(parent, level, root)
  {
    if root in Descendants(parent, level, root) {
      AncestorsAbove(parent, level, root, root);
    }
  }

  lemma NodesDistinct(s: seq<(nat, nat)>)
    requires Once(s)
    ensures |Elems(Nodes(s))| == |s|
  {
    DistinctCardinality(Nodes(s));
  }

  lemma InNodes(s: seq<(nat, nat)>, c: nat)
    ensures c in Nodes(s) <==> exists d: nat :: (c, d) in s
  {
    if c in Nodes(s) {
      var i: nat :| i < |s| && Nodes(s)[i] == c;
      assert s[i] == (c, s[i].1);
      assert (c, s[i].1) in s;
    }
    if d: nat :| (c, d) in s {
      var i: nat :| i < |s| && s[i] == (c, d);
      assert Nodes(s)[i] == c;
    }
  }
}
